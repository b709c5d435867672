/**
 What the refinement driver needs to know about a refinement step.

 The per-triangle step (refine_if_required) lives in a part of the program
 that is not modelled here; it is represented by a function that looks at the
 whole store and one slot and either keeps the mesh or rewrites it. A rewrite
 may replace the contents of existing slots and append new slots; it never
 removes a slot.
 */
module Refinement {
  import opened Triangles

  /** The decision of one refinement step for one slot. */
  datatype Decision = Keep | Rewrite(next: seq<Triangle>)

  /** The refinement step, with the tolerance and the height sampler it uses
      already bound in. */
  type Refiner = (seq<Triangle>, nat) -> Decision

  /** The store after a rewrite: the first |next| slots hold next, each stamped
      with its own position; slots beyond next keep their old contents. The
      store never shrinks. */
  function Overlay(triangles: seq<Triangle>, next: seq<Triangle>): (r: seq<Triangle>)
    ensures |r| == if |next| > |triangles| then |next| else |triangles|
    ensures forall k :: 0 <= k < |next| ==> r[k].index == k && r[k].vertices == next[k].vertices
                                            && r[k].neighbours == next[k].neighbours
    ensures forall k :: |next| <= k < |triangles| ==> r[k] == triangles[k]
  {
    var len := if |next| > |triangles| then |next| else |triangles|;
    seq(len, k requires 0 <= k < len => if k < |next| then next[k].(index := k) else triangles[k])
  }

  /** The store after the refinement step's decision for one slot. */
  function Apply(triangles: seq<Triangle>, d: Decision): seq<Triangle>
  {
    match d
    case Keep => triangles
    case Rewrite(next) => Overlay(triangles, next)
  }

  /** How a refinement run ends: whether it reached a fixed point, and the store. */
  datatype Outcome = Outcome(finished: bool, triangles: seq<Triangle>)

  /** refine_new_mesh on values, from slot i of the current sweep on, with
      `fuel` refinement steps left; `modified` records whether the sweep has
      rewritten anything so far. Every step looks at the store as it is after
      the previous steps, and the sweep ends at the store's current length, so
      slots appended during a sweep are visited in that sweep. A sweep that
      modified something is followed by a fresh one; one that did not ends the
      run. The run gives up, unfinished, when a step is due and no fuel is left. */
  function Drive(refine: Refiner, triangles: seq<Triangle>, i: nat, fuel: nat, modified: bool): Outcome
    decreases fuel, if modified then 1 else 0
  {
    if i < |triangles| then
      if fuel == 0 then Outcome(false, triangles)
      else
        var d := refine(triangles, i);
        Drive(refine, Apply(triangles, d), i + 1, fuel - 1, modified || d.Rewrite?)
    else if modified then Drive(refine, triangles, 0, fuel, false)
    else Outcome(true, triangles)
  }

  /** A sweep over the whole store in which no slot asks for refinement. */
  predicate FixedPoint(refine: Refiner, triangles: seq<Triangle>)
  {
    forall k :: 0 <= k < |triangles| ==> refine(triangles, k).Keep?
  }

  /** The refinement step leaves a consistent store consistent. */
  ghost predicate PreservesConsistency(refine: Refiner)
  {
    forall triangles: seq<Triangle>, k: nat ::
      MeshConsistent(triangles) && k < |triangles| && refine(triangles, k).Rewrite?
      ==> MeshConsistent(Overlay(triangles, refine(triangles, k).next))
  }

  /** A run that finishes ends in a fixed point: its last sweep visited every
      slot of the final store and the refinement step kept each one. */
  lemma {:induction false} DriveFixedPoint(refine: Refiner, triangles: seq<Triangle>, i: nat, fuel: nat, modified: bool)
    requires !modified ==> forall k :: 0 <= k < i && k < |triangles| ==> refine(triangles, k).Keep?
    ensures Drive(refine, triangles, i, fuel, modified).finished ==>
              FixedPoint(refine, Drive(refine, triangles, i, fuel, modified).triangles)
    decreases fuel, if modified then 1 else 0
  {
    if i < |triangles| {
      if fuel != 0 {
        var d := refine(triangles, i);
        DriveFixedPoint(refine, Apply(triangles, d), i + 1, fuel - 1, modified || d.Rewrite?);
      }
    } else if modified {
      DriveFixedPoint(refine, triangles, 0, fuel, false);
    }
  }

  /** A run never removes a slot. */
  lemma {:induction false} DriveGrows(refine: Refiner, triangles: seq<Triangle>, i: nat, fuel: nat, modified: bool)
    ensures |triangles| <= |Drive(refine, triangles, i, fuel, modified).triangles|
    decreases fuel, if modified then 1 else 0
  {
    if i < |triangles| {
      if fuel != 0 {
        var d := refine(triangles, i);
        DriveGrows(refine, Apply(triangles, d), i + 1, fuel - 1, modified || d.Rewrite?);
      }
    } else if modified {
      DriveGrows(refine, triangles, 0, fuel, false);
    }
  }

  /** A run whose every step keeps a consistent store consistent ends consistent. */
  lemma {:induction false} DriveConsistent(refine: Refiner, triangles: seq<Triangle>, i: nat, fuel: nat, modified: bool)
    requires PreservesConsistency(refine) && MeshConsistent(triangles)
    ensures MeshConsistent(Drive(refine, triangles, i, fuel, modified).triangles)
    decreases fuel, if modified then 1 else 0
  {
    if i < |triangles| {
      if fuel != 0 {
        var d := refine(triangles, i);
        DriveConsistent(refine, Apply(triangles, d), i + 1, fuel - 1, modified || d.Rewrite?);
      }
    } else if modified {
      DriveConsistent(refine, triangles, 0, fuel, false);
    }
  }

  /** A store that is already a fixed point comes back unchanged after one
      sweep, given one step of fuel per slot. */
  lemma {:induction false} DriveStable(refine: Refiner, triangles: seq<Triangle>, i: nat, fuel: nat)
    requires FixedPoint(refine, triangles) && i <= |triangles| && |triangles| - i <= fuel
    ensures Drive(refine, triangles, i, fuel, false) == Outcome(true, triangles)
    decreases |triangles| - i
  {
    if i < |triangles| {
      DriveStable(refine, triangles, i + 1, fuel - 1);
    }
  }

  /** What a whole run from slot 0 promises: a finished run ends in a fixed
      point, no slot is removed, consistency is kept when every step keeps it,
      and a store that is already a fixed point comes back unchanged when the
      fuel covers one sweep. */
  lemma RunFacts(refine: Refiner, triangles: seq<Triangle>, fuel: nat)
    ensures var run := Drive(refine, triangles, 0, fuel, false);
      && (run.finished ==> FixedPoint(refine, run.triangles))
      && |triangles| <= |run.triangles|
      && (PreservesConsistency(refine) && MeshConsistent(triangles) ==> MeshConsistent(run.triangles))
      && (FixedPoint(refine, triangles) && |triangles| <= fuel ==> run == Outcome(true, triangles))
  {
    DriveFixedPoint(refine, triangles, 0, fuel, false);
    DriveGrows(refine, triangles, 0, fuel, false);
    if PreservesConsistency(refine) && MeshConsistent(triangles) {
      DriveConsistent(refine, triangles, 0, fuel, false);
    }
    if FixedPoint(refine, triangles) && |triangles| <= fuel {
      DriveStable(refine, triangles, 0, fuel);
    }
  }
}
