/** The interrupt controller as an object (inc/PLIC.h): registers updated in place, scan loops. */
module Plics {
  import opened PlicModel

  class PlicDevice {
    var priorities: array<nat>
    var pending: set<nat>
    var level: set<nat>
    var enabled: set<nat>
    var threshold: nat
    var claimComplete: nat
    var irqState: bool

    function View(): Plic
      reads this, priorities
    {
      Plic(priorities[..], pending, level, enabled, threshold, irqState)
    }

    ghost predicate Ready()
      reads this, priorities
    {
      Valid(View())
    }

    constructor ()
      ensures Ready() && fresh(priorities)
      ensures pending == {} && level == {} && enabled == {} && threshold == 0 && !irqState
      ensures LineAgrees(View())
    {
      priorities := new nat[SOURCES](_ => 0);
      pending, level, enabled, threshold, claimComplete, irqState := {}, {}, {}, 0, 0, false;
      new;
      BestLeads(View(), SOURCES);
    }

    /** Drive the line from the registers. */
    method UpdateIrqOut()
      requires Ready()
      modifies this`irqState
      ensures Ready() && View() == Update(old(View()))
    {
      var target := false;
      ghost var p := View();
      for i := 1 to SOURCES
        invariant View() == p
        invariant !target && forall j: nat :: 1 <= j < i ==> !Claimable(p, j)
      {
        if i in pending && i in enabled && priorities[i] > threshold {
          target := true;
          assert i in ClaimableSet(p);
          break;
        }
      }
      assert target <==> ClaimableSet(p) != {} by {
        if !target { assert forall i :: i in ClaimableSet(p) ==> Claimable(p, i); }
      }
      if target != irqState { irqState := target; }
    }

    method Raise(id: nat)
      requires Ready()
      modifies this`pending, this`irqState
      ensures Ready() && View() == PlicModel.Raise(old(View()), id)
    {
      if id > 0 && id < SOURCES {
        pending := pending + {id};
        UpdateIrqOut();
      }
    }

    method SetIrqLevel(id: nat, active: bool)
      requires Ready()
      modifies this`pending, this`level, this`irqState
      ensures Ready() && View() == SetLevel(old(View()), id, active)
    {
      if id == 0 || id >= SOURCES { return; }
      if active {
        level := level + {id};
        pending := pending + {id};
      } else {
        level := level - {id};
        pending := pending - {id};
      }
      UpdateIrqOut();
    }

    method ReadClaim() returns (data: nat)
      requires Ready()
      modifies this`pending, this`claimComplete, this`irqState
      ensures Ready() && View() == Claim(old(View()))
      ensures data == Best(old(View())) && claimComplete == data
      ensures Leads(old(View()), data, SOURCES)
    {
      var best: nat, bestPriority: nat := 0, 0;
      ghost var p := View();
      for i := 1 to SOURCES
        invariant View() == p && best == BestBelow(p, i) && best < i
        invariant bestPriority == if best > 0 then priorities[best] else 0
      {
        if i in pending && i in enabled {
          var priority := priorities[i];
          if priority > bestPriority && priority > threshold { bestPriority, best := priority, i; }
        }
      }
      BestLeads(p, SOURCES);
      data := best;
      claimComplete := best;
      if best != 0 { pending := pending - {best}; }
      UpdateIrqOut();
    }

    /** stray is the mask an undefined shift by 32 or more produces. */
    method WriteComplete(data: nat, stray: set<nat>)
      requires Ready()
      modifies this`pending, this`claimComplete, this`irqState
      ensures Ready() && View() == Complete(old(View()), data, stray) && claimComplete == 0
    {
      pending := pending - (if data < SOURCES then {data} else stray);
      claimComplete := 0;
      if data > 0 && data < SOURCES && data in level { pending := pending + {data}; }
      assert 0 < data < SOURCES && data in level ==> pending == old(pending) + {data};
      UpdateIrqOut();
    }

    method WriteEnable(bits: set<nat>)
      requires Ready()
      modifies this`enabled
      ensures Ready() && View() == PlicModel.WriteEnable(old(View()), bits)
    {
      enabled := bits;
    }

    method WriteThreshold(data: nat)
      requires Ready()
      modifies this`threshold
      ensures Ready() && View() == PlicModel.WriteThreshold(old(View()), data)
    {
      threshold := data % 8;
    }

    method WritePriority(i: nat, data: nat)
      requires Ready()
      modifies priorities
      ensures Ready() && View() == PlicModel.WritePriority(old(View()), i, data)
    {
      if i < SOURCES { priorities[i] := data % 8; }
    }
  }
}
