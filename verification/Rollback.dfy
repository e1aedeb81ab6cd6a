/** The anti-rollback floor: a monotonic device counter and a staged image counter
    (core/rollback.c, lines 175-236). */
module Rollback {
  import opened Types
  import opened Flash
  import opened Wrappers

  const MAX_STEP := 16

  /** The fuse counter behind the HAL. It only ever rises, by at most one a step; a step may
      fail, or be lost without an error. */
  class MonotonicCounter {
    const present: bool
    var value: u32
    /** How many reads and steps have failed or been lost so far. */
    ghost var faults: nat

    constructor (present: bool, value: u32)
      ensures this.present == present && this.value == value && faults == 0
    {
      this.present, this.value, faults := present, value, 0;
    }

    method Read() returns (rc: int, v: u32)
      modifies this`faults
      ensures rc == OK ==> present && v == value && faults == old(faults)
      ensures rc == ERR_NOT_SUPPORTED <==> !present
      ensures rc != OK && present ==> faults > old(faults)
      ensures faults >= old(faults)
    {
      var fault: bool := *;
      if !present { return ERR_NOT_SUPPORTED, 0; }
      if fault {
        faults := faults + 1;
        return ERR_FLASH, 0;
      }
      return OK, value;
    }

    method Increment() returns (rc: int)
      modifies this`value, this`faults
      ensures old(value) <= value <= old(value) + 1
      ensures faults == old(faults) ==> rc == OK && value == old(value) + 1
      ensures faults >= old(faults)
    {
      var reported: bool, stepped: bool := *, *;
      if value == 0xFFFF_FFFF || reported || !stepped {
        faults := faults + 1;
        if stepped && value < 0xFFFF_FFFF { value := value + 1; }
        return if reported then ERR_FLASH else OK;
      }
      value := value + 1;
      rc := OK;
    }
  }

  // ---- runs ----

  /** What outlives a call: the floor, and the counter staged in RAM. */
  datatype State = State(floor: u32, staged: Option<u32>)

  datatype Event = Stage(counter: u32) | Clear | Reset | Commit(rc: int) | Jump(counter: u32)

  function Max(a: int, b: int): int { if a < b then b else a }

  /** What a commit may do, whatever its counter steps do. */
  ghost predicate CommitStep(x: State, rc: int, y: State) {
    && x.floor <= y.floor <= x.floor + MAX_STEP
    && (y.floor == x.floor || (x.staged.Some? && y.floor <= x.staged.value))
    && (rc == OK ==> y.staged == None && (x.staged.Some? ==> x.staged.value <= y.floor))
    && (rc != OK ==> y.staged == x.staged && x.staged.Some?)
  }

  /** One step of a board with a counter. */
  ghost predicate Next(x: State, e: Event, y: State) {
    match e
    case Stage(s) => y == x.(staged := Some(s))
    case Clear => y == x.(staged := None)
    case Reset => y == x.(staged := None)
    case Commit(rc) => CommitStep(x, rc, y)
    case Jump(s) => x.floor <= s && y == x.(staged := Some(s))
  }

  ghost predicate Trace(xs: seq<State>, es: seq<Event>) {
    |xs| == |es| + 1 && forall i :: 0 <= i < |es| ==> Next(xs[i], es[i], xs[i + 1])
  }

  /** The floor never falls. */
  lemma {:induction false} FloorNeverFalls(xs: seq<State>, es: seq<Event>, i: nat, j: nat)
    requires Trace(xs, es) && i <= j < |xs|
    ensures xs[i].floor <= xs[j].floor
    decreases j
  {
    if i < j {
      FloorNeverFalls(xs, es, i, j - 1);
      assert Next(xs[j - 1], es[j - 1], xs[j]);
    }
  }

  /** The highest counter staged by a run, from one already staged. */
  function Highest(staged: Option<u32>, es: seq<Event>): nat {
    if es == [] then if staged.Some? then staged.value else 0
    else
      var e := es[|es| - 1];
      Max(Highest(staged, es[..|es| - 1]), if e.Stage? || e.Jump? then e.counter else 0)
  }

  /** The floor never passes the larger of its start and the highest counter staged. */
  lemma {:induction false} FloorIsBounded(xs: seq<State>, es: seq<Event>)
    requires Trace(xs, es)
    ensures var x, high := xs[|es|], Highest(xs[0].staged, es);
            x.floor <= Max(xs[0].floor, high) && (x.staged.Some? ==> x.staged.value <= high)
    decreases |es|
  {
    var n := |es|;
    if n != 0 {
      assert Trace(xs[..n], es[..n - 1]) by {
        forall i | 0 <= i < n - 1 ensures Next(xs[..n][i], es[..n - 1][i], xs[..n][i + 1]) {
          assert Next(xs[i], es[i], xs[i + 1]);
        }
      }
      FloorIsBounded(xs[..n], es[..n - 1]);
      assert Next(xs[n - 1], es[n - 1], xs[n]);
    }
  }

  /** Once a commit of s has returned OK, every later jump carries a counter of at least s. */
  lemma CommittedFloorHolds(xs: seq<State>, es: seq<Event>, i: nat, j: nat, s: u32)
    requires Trace(xs, es) && i < j < |es|
    requires es[i] == Commit(OK) && xs[i].staged == Some(s) && es[j].Jump?
    ensures s <= es[j].counter
  {
    assert Next(xs[i], es[i], xs[i + 1]);
    FloorNeverFalls(xs, es, i + 1, j);
    assert Next(xs[j], es[j], xs[j + 1]);
  }

  class Staging {
    const counter: MonotonicCounter
    var stagedCounter: u32
    var stagedValid: bool

    constructor (counter: MonotonicCounter)
      ensures this.counter == counter && !stagedValid
    {
      this.counter, stagedCounter, stagedValid := counter, 0, false;
    }

    ghost function St(): State
      reads this, counter
    {
      State(counter.value, if stagedValid then Some(stagedCounter) else None)
    }

    /** eos_rollback_verify: exactly the images at or above the floor pass, unless the
        counter cannot be read. */
    method Verify(imageCounter: u32) returns (rc: int)
      modifies counter`faults
      ensures counter.present && rc == OK ==> counter.value <= imageCounter
      ensures counter.faults == old(counter.faults) && counter.present ==>
                rc == if imageCounter < counter.value then ERR_ANTI_ROLLBACK else OK
      ensures !counter.present ==> rc == OK
      ensures counter.faults >= old(counter.faults)
    {
      var floor;
      rc, floor := counter.Read();
      if rc == ERR_NOT_SUPPORTED { return OK; }
      if rc != OK { return; }
      if imageCounter < floor { return ERR_ANTI_ROLLBACK; }
    }

    method Stage(imageCounter: u32)
      modifies this
      ensures Next(old(St()), Event.Stage(imageCounter), St())
    {
      stagedCounter, stagedValid := imageCounter, true;
    }

    method ClearStaged()
      modifies this
      ensures Next(old(St()), Clear, St())
    {
      stagedCounter, stagedValid := 0, false;
    }

    /** The sequence of stage1/jump_app.c (lines 71-78): an image passes the floor and is then staged. */
    method Admit(imageCounter: u32) returns (rc: int)
      modifies this, counter`faults
      ensures rc == OK && counter.present ==> Next(old(St()), Jump(imageCounter), St())
      ensures rc != OK ==> St() == old(St())
      ensures counter.faults == old(counter.faults) && rc != OK ==>
                rc == ERR_ANTI_ROLLBACK && counter.present && imageCounter < counter.value
      ensures counter.faults >= old(counter.faults)
    {
      rc := Verify(imageCounter);
      if rc == OK { Stage(imageCounter); }
    }

    /** The floor that a commit without a failing counter operation leaves. */
    ghost function Raised(): int
      reads this, counter
    {
      if stagedValid && stagedCounter <= counter.value + MAX_STEP then Max(counter.value, stagedCounter)
      else counter.value
    }

    /** eos_rollback_commit. When no counter operation fails, it raises the floor to the
        staged counter, or refuses to because that is more than 16 steps away. */
    method Commit() returns (rc: int)
      modifies this, counter
      ensures counter.present ==> Next(old(St()), Event.Commit(rc), St())
      ensures !counter.present && rc != OK ==> rc == ERR_NOT_SUPPORTED && !stagedValid
      ensures !old(stagedValid) ==> rc == OK && counter.value == old(counter.value)
      ensures counter.faults >= old(counter.faults)
      ensures old(stagedValid) && counter.present && counter.faults == old(counter.faults) ==>
                (rc == OK <==> old(stagedCounter) <= old(counter.value) + MAX_STEP)
      ensures counter.present && counter.faults == old(counter.faults) ==> counter.value == old(Raised())
    {
      if !stagedValid { return OK; }
      var current;
      rc, current := counter.Read();
      if rc == ERR_NOT_SUPPORTED {
        ClearStaged();
        return ERR_NOT_SUPPORTED;
      }
      if rc != OK { return; }
      if stagedCounter <= current {
        ClearStaged();
        return OK;
      }
      var steps := stagedCounter - current;
      if steps > MAX_STEP { return ERR_INVALID; }
      for i := 0 to steps
        invariant stagedValid && stagedCounter == old(stagedCounter)
        invariant current <= counter.value <= current + i
        invariant counter.faults >= old(counter.faults)
        invariant counter.faults == old(counter.faults) ==> counter.value == current + i
      {
        rc := counter.Increment();
        if rc != OK { return; }
      }
      var after;
      rc, after := counter.Read();
      if rc != OK { return; }
      if after < stagedCounter { return ERR_GENERIC; }
      ClearStaged();
      return OK;
    }
  }

  // ---- over resets ----

  /** A reset loses what was staged; a boot asks to jump to an image with this counter; the
      application confirms the image it runs. */
  datatype Act = PowerCycle | Boot(counter: u32) | ConfirmRunning

  /** An image was jumped to and then confirmed, with success: its counter is committed. */
  predicate Committed(plan: seq<Act>, codes: seq<int>, i: nat)
    requires |plan| == |codes|
  {
    i + 1 < |plan| && plan[i].Boot? && codes[i] == OK && plan[i + 1] == ConfirmRunning && codes[i + 1] == OK
  }

  method Perform(staging: Staging, act: Act) returns (rc: int, next: Staging)
    requires staging.counter.present
    modifies staging, staging.counter
    ensures (next == staging || fresh(next)) && next.counter == staging.counter
    ensures old(staging.counter.value) <= next.counter.value
    ensures act.Boot? && rc == OK ==>
              old(staging.counter.value) <= act.counter && next.stagedValid && next.stagedCounter == act.counter
    ensures act.ConfirmRunning? && rc == OK && old(staging.stagedValid) ==>
              old(staging.stagedCounter) <= next.counter.value
  {
    rc, next := OK, staging;
    match act {
      case PowerCycle => next := new Staging(staging.counter);
      case Boot(c) => rc := staging.Admit(c);
      case ConfirmRunning => rc := staging.Commit();
    }
  }

  /** The floor holds every committed counter, and so did every boot since. */
  ghost predicate Committing(plan: seq<Act>, codes: seq<int>, floor: u32) {
    && |plan| == |codes|
    && (forall i :: 0 <= i < |plan| - 1 && Committed(plan, codes, i) ==> plan[i].counter <= floor)
    && forall i, j ::
         0 <= i && i + 1 < j < |plan| && Committed(plan, codes, i) && plan[j].Boot? && codes[j] == OK ==>
           plan[i].counter <= plan[j].counter
  }

  lemma OneMoreAct(plan: seq<Act>, codes: seq<int>, floor: u32, a: Act, rc: int, next: u32)
    requires Committing(plan, codes, floor) && floor <= next && (a.Boot? && rc == OK ==> floor <= a.counter)
    requires var n := |plan|;
             n > 0 && a.ConfirmRunning? && rc == OK && plan[n - 1].Boot? && codes[n - 1] == OK ==>
               plan[n - 1].counter <= next
    ensures Committing(plan + [a], codes + [rc], next)
  {
    assert forall i :: 0 <= i && i + 1 < |plan| ==>
             (Committed(plan + [a], codes + [rc], i) <==> Committed(plan, codes, i));
  }

  /** On a board with a counter, over any resets, boots and confirmations, finished or failing:
      the floor never falls, no boot is let through below it, and once an image was confirmed,
      none with a smaller counter is ever let through again. */
  method Downgrades(counter: MonotonicCounter, plan: seq<Act>) returns (codes: seq<int>, ghost floors: seq<u32>)
    requires counter.present
    modifies counter
    ensures |codes| == |floors| == |plan| && old(counter.value) <= counter.value
    ensures forall i, j :: 0 <= i <= j < |plan| ==> old(counter.value) <= floors[i] <= floors[j] <= counter.value
    ensures forall i :: 0 <= i < |plan| && plan[i].Boot? && codes[i] == OK ==> floors[i] <= plan[i].counter
    ensures forall i, j ::
              0 <= i && i + 1 < j < |plan| && Committed(plan, codes, i) && plan[j].Boot? && codes[j] == OK ==>
                plan[i].counter <= plan[j].counter
  {
    codes, floors := [], [];
    var staging := new Staging(counter);
    for k := 0 to |plan|
      invariant |codes| == |floors| == k && fresh(staging) && staging.counter == counter
      invariant old(counter.value) <= counter.value
      invariant forall i, j :: 0 <= i <= j < k ==> old(counter.value) <= floors[i] <= floors[j] <= counter.value
      invariant forall i :: 0 <= i < k && plan[i].Boot? && codes[i] == OK ==> floors[i] <= plan[i].counter
      invariant k > 0 && plan[k - 1].Boot? && codes[k - 1] == OK ==>
                  staging.stagedValid && staging.stagedCounter == plan[k - 1].counter
      invariant Committing(plan[..k], codes, counter.value)
    {
      ghost var before, floor := codes, counter.value;
      floors := floors + [floor];
      var rc;
      rc, staging := Perform(staging, plan[k]);
      codes := codes + [rc];
      assert plan[..k + 1] == plan[..k] + [plan[k]];
      OneMoreAct(plan[..k], before, floor, plan[k], rc, counter.value);
    }
    assert plan[..|plan|] == plan;
  }
}
