/** The life of a board: boots, requests of the running application and recovery commands, one
    after the other over the same flash. Without failing flash operations it is exactly a run
    of the boot policy, and its jumps are those of the run. */
module BoardLife {
  import opened Types
  import opened Flash
  import opened BootCtl
  import opened BootPolicy
  import opened BootFlow
  import opened ImageCheck
  import opened PointDecoding
  import opened Wrappers
  import DualCopy
  import Keystore
  import Crc32
  import Ed25519
  import Recovery
  import Rollback
  import Sha2

  /** What happens next: a reset, a call of core/fw_services.c or core/bootctl.c by the
      application, or a recovery command. */
  datatype Act =
    | Power(logHead: u32, resetReason: u32)
    | ConfirmImage
    | AttemptReset
    | Upgrade(slot: u32, mode: Mode)
    | Pend(slot: u32)
    | WantRecovery
    | WantFactory
    | BootSlot(id: byte)
    | FactoryCommand

  /** What an observer sees of it. */
  datatype Report = Cycled(outcome: Outcome) | Called

  /** One act in the history of a board: the event it is, the flash and the floor it began
      with, and the cycle if it is a reset. */
  datatype Entry = Entry(event: Event, cells: seq<byte>, floor: u32, cycle: Cycle)

  /** The policy event a call or a command is. */
  predicate Is(a: Act, e: Event) {
    match a
    case Power(_, _) => false
    case ConfirmImage => e == Event.Confirm
    case AttemptReset => e == Event.ResetAttempts
    case Upgrade(slot, mode) => e == Request(slot, mode)
    case Pend(slot) => e == Event.SetPending(slot)
    case WantRecovery => e == AskRecovery
    case WantFactory => e == AskFactory
    case BootSlot(id) => e == RecoveryBoot(id)
    case FactoryCommand => e == RecoveryFactory
  }

  /** The entry is that of the act: for a reset, the event is the cycle that was seen. */
  predicate Tells(a: Act, r: Report, e: Entry) {
    if a.Power?
    then r == Cycled(e.cycle.outcome) && e.event == Boot(e.cycle.v, e.cycle.outcome.Jumped?, e.cycle.erased)
    else r == Called && Is(a, e.event)
  }

  /** A reset found valid only what passes the checks, and jumped only to what is runnable and
      at or above the floor. */
  ghost predicate Safe<S, T(!new), G(!new)>(bc: BootControl, chk: Checker<S, T, G>, a: Act, e: Entry, honest: bool)
    reads chk.otp`revoked
  {
    a.Power? ==>
      && Checked(bc, chk, e.cycle, e.cells, honest)
      && (e.cycle.outcome.Jumped? && chk.counter.present ==> e.floor <= e.cycle.outcome.counter)
  }

  /** A reset found exactly what passes, and jumped if it should. */
  ghost predicate Live<S, T(!new), G(!new)>(chk: Checker<S, T, G>, a: Act, e: Entry, key: Option<Keystore.Key>)
    requires |chk.slots| == 3
  {
    a.Power? ==> Exact(chk, e.cycle, e.cells, key, if chk.counter.present then Some(e.floor) else None)
  }

  /** What an event does to the block does not depend on the history. */
  lemma HistoryFree(r: BootPolicy.Run, e: Event)
    ensures Step(r, e).ctl == Step(Bare(r.ctl), e).ctl
  {
    hide Has, With, Without, Select, RecoveryEntered;
  }

  /** One act, as one event of the policy runs. */
  method Perform<S, T(!new), G(!new), R>(bc: BootControl, staging: Rollback.Staging, chk: Checker<S, T, G>,
                                         session: Recovery.RecoverySession<R>, act: Act)
      returns (report: Report, ghost e: Entry)
    requires Wired(bc, staging, chk) && Attached(bc, session) && bc.block.magic == MAGIC
    modifies bc`block, bc.flash, staging, staging.counter, chk.otp`codes, session.uart`sent
    modifies session`authState, session`authFailCount, session`states, session`events, session`running
    ensures Wired(bc, staging, chk) && Attached(bc, session) && bc.block.magic == MAGIC
    ensures (old(chk.otp.Honest()) ==> chk.otp.Honest()) && (old(chk.otp.codes) == [] ==> chk.otp.codes == [])
    ensures bc.flash.faults >= old(bc.flash.faults) && bc.flash.readFaults >= old(bc.flash.readFaults)
    ensures chk.counter.faults >= old(chk.counter.faults)
    ensures Tells(act, report, e) && e.cells == old(bc.flash.cells) && e.floor == old(chk.counter.value)
    ensures Safe(bc, chk, act, e, old(chk.otp.Honest()))
    ensures chk.counter.present ==> chk.counter.value >= e.floor
    ensures NothingFailed(chk) && PrimeField() ==> Live(chk, act, e, old(KeyNow(chk)))
    ensures bc.flash.faults == old(bc.flash.faults) && bc.flash.readFaults == old(bc.flash.readFaults) ==>
              old(bc.Stored()) ==>
              && bc.Stored() && Ctl(bc.block) == Step(Bare(old(Ctl(bc.block))), e.event).ctl
              && (act.Power? ==> e.cycle.loaded == old(Ctl(bc.block)))
  {
    hide BootControl.Stored, Ed25519.CurveGroup, BootPolicy.Step, Checked, Exact, PrimeField, KeyNow;
    ghost var cells, floor := bc.flash.cells, chk.counter.value;
    if act.Power? {
      var outcome;
      ghost var c;
      outcome, c := PowerOn(bc, staging, chk, session, act.logHead, act.resetReason);
      report, e := Cycled(outcome), Entry(Boot(c.v, outcome.Jumped?, c.erased), cells, floor, c);
    } else {
      ghost var event, none := Event.Confirm, Cycle(Factory(), Slots(false, false), InRecovery, false, []);
      if act.BootSlot? || act.FactoryCommand? {
        event := PerformCommand(bc, session, act);
      } else {
        event := PerformRequest(bc, staging, act);
      }
      report, e := Called, Entry(event, cells, floor, none);
    }
  }

  /** A reset: what was staged in RAM is gone, and the board boots. */
  method PowerOn<S, T(!new), G(!new), R>(bc: BootControl, staging: Rollback.Staging, chk: Checker<S, T, G>,
                                         session: Recovery.RecoverySession<R>, logHead: u32, resetReason: u32)
      returns (outcome: Outcome, ghost c: Cycle)
    requires Wired(bc, staging, chk) && Attached(bc, session)
    modifies bc`block, bc.flash, staging, staging.counter`faults, chk.otp`codes
    modifies session`authState, session`authFailCount, session`states, session`events
    ensures Wired(bc, staging, chk) && Attached(bc, session) && bc.block.magic == MAGIC
    ensures (old(chk.otp.Honest()) ==> chk.otp.Honest()) && (old(chk.otp.codes) == [] ==> chk.otp.codes == [])
    ensures bc.flash.faults >= old(bc.flash.faults) && bc.flash.readFaults >= old(bc.flash.readFaults)
    ensures chk.counter.faults >= old(chk.counter.faults) && c.outcome == outcome
    ensures Checked(bc, chk, c, old(bc.flash.cells), old(chk.otp.Honest()))
    ensures outcome.Jumped? && chk.counter.present ==> chk.counter.value <= outcome.counter
    ensures NothingFailed(chk) && PrimeField() ==>
              Exact(chk, c, old(bc.flash.cells), old(KeyNow(chk)), old(FloorNow(chk)))
    ensures bc.flash.faults == old(bc.flash.faults) && bc.flash.readFaults == old(bc.flash.readFaults) ==>
              old(bc.Stored()) ==>
              && bc.Stored() && c.loaded == old(Ctl(bc.block))
              && Ctl(bc.block) == Step(Bare(c.loaded), Boot(c.v, outcome.Jumped?, c.erased)).ctl
  {
    hide BootControl.Stored, BootControl.OnFlash, Encode, DecodeAny, CopyValid, Defaults, Ed25519.CurveGroup,
         DualCopy.LoadOf, BootCycle, Checked, Exact, PrimeField, KeyNow, FromCopies;
    if bc.Stored() { bc.StoredLoads(); }
    staging.ClearStaged();
    ghost var p, b;
    outcome, c, p, b := BootOnce(bc, staging, chk, session, logHead, resetReason);
  }

  /** A call of the running application. */
  method PerformRequest(bc: BootControl, staging: Rollback.Staging, act: Act) returns (ghost e: Event)
    requires bc.Geometry() && bc.block.magic == MAGIC && !act.Power? && !act.BootSlot? && !act.FactoryCommand?
    modifies bc`block, bc.flash, staging, staging.counter
    ensures bc.Geometry() && bc.block.magic == MAGIC && Is(act, e)
    ensures |bc.flash.cells| == old(|bc.flash.cells|)
    ensures bc.flash.faults >= old(bc.flash.faults) && bc.flash.readFaults >= old(bc.flash.readFaults)
    ensures staging.counter.faults >= old(staging.counter.faults)
    ensures staging.counter.present ==> staging.counter.value >= old(staging.counter.value)
    ensures old(bc.Stored()) && bc.flash.faults == old(bc.flash.faults) ==>
              bc.Stored() && Ctl(bc.block) == Step(Bare(old(Ctl(bc.block))), e).ctl
  {
    hide BootControl.Stored, Encode, Validate, Sealed, Has, With, Without, Rollback.Staging.Raised, BootPolicy.Step;
    if act.Upgrade? {
      e := Request(act.slot, act.mode);
      CallSteps(bc.block, e);
      var _ := RequestUpgrade(bc, act.slot, act.mode);
    } else {
      e := PerformCall(bc, staging, act);
    }
  }

  /** What the calls make of a block is what their events make of its control part. */
  lemma CallSteps(b: Block, e: Event)
    ensures e.Request? ==> BootPolicy.Step(Bare(Ctl(b)), e).ctl == UpgradeRequested(Ctl(b), e.slot, e.mode).ctl
    ensures e == Event.Confirm ==> BootPolicy.Step(Bare(Ctl(b)), e).ctl == Ctl(Sealed(ConfirmedActive(b)))
    ensures e == Event.ResetAttempts ==> BootPolicy.Step(Bare(Ctl(b)), e).ctl == Ctl(Sealed(AttemptsReset(b)))
    ensures e.SetPending? ==> BootPolicy.Step(Bare(Ctl(b)), e).ctl == Ctl(Sealed(PendingSet(b, e.slot)))
    ensures e == AskRecovery ==> BootPolicy.Step(Bare(Ctl(b)), e).ctl == Ctl(Sealed(RecoveryRequested(b)))
    ensures e == AskFactory ==> BootPolicy.Step(Bare(Ctl(b)), e).ctl == Ctl(Sealed(FactoryRequested(b)))
  {
    hide Sealed, Has, With, Without;
    SealedCtl(ConfirmedActive(b));
    SealedCtl(AttemptsReset(b));
    SealedCtl(RecoveryRequested(b));
    SealedCtl(FactoryRequested(b));
    if e.SetPending? { SealedCtl(PendingSet(b, e.slot)); }
  }

  method PerformCall(bc: BootControl, staging: Rollback.Staging, act: Act) returns (ghost e: Event)
    requires bc.Geometry() && bc.block.magic == MAGIC
    requires !act.Power? && !act.Upgrade? && !act.BootSlot? && !act.FactoryCommand?
    modifies bc`block, bc.flash, staging, staging.counter
    ensures bc.Geometry() && bc.block.magic == MAGIC && Is(act, e)
    ensures |bc.flash.cells| == old(|bc.flash.cells|)
    ensures bc.flash.faults >= old(bc.flash.faults) && bc.flash.readFaults >= old(bc.flash.readFaults)
    ensures staging.counter.faults >= old(staging.counter.faults)
    ensures staging.counter.present ==> staging.counter.value >= old(staging.counter.value)
    ensures old(bc.Stored()) && bc.flash.faults == old(bc.flash.faults) ==>
              bc.Stored() && Ctl(bc.block) == Step(Bare(old(Ctl(bc.block))), e).ctl
  {
    hide BootControl.Stored, Encode, Validate, Sealed, Ctl, Rollback.Staging.Raised, BootPolicy.Step, ConfirmedActive,
         AttemptsReset, PendingSet, RecoveryRequested, FactoryRequested;
    ghost var was := bc.block;
    SealedMagic(was);
    match act {
      case ConfirmImage =>
        var _ := bc.Confirm(staging);
        e := Event.Confirm;
      case AttemptReset =>
        var _ := bc.ResetAttempts();
        e := Event.ResetAttempts;
      case Pend(slot) =>
        var _ := bc.SetPending(slot);
        e := Event.SetPending(slot);
      case WantRecovery =>
        var _ := bc.RequestRecovery();
        e := AskRecovery;
      case WantFactory =>
        var _ := bc.RequestFactoryReset();
        e := AskFactory;
    }
    CallSteps(was, e);
  }

  lemma SealedMagic(b: Block)
    ensures Sealed(ConfirmedActive(b)).magic == Sealed(AttemptsReset(b)).magic == b.magic
    ensures Sealed(RecoveryRequested(b)).magic == Sealed(FactoryRequested(b)).magic == b.magic
    ensures forall slot: u32 :: Sealed(PendingSet(b, slot)).magic == b.magic
  {
    hide Crc32.Crc, Covered, With, Without;
  }

  /** A command of an authenticated recovery session. */
  method PerformCommand<R>(bc: BootControl, session: Recovery.RecoverySession<R>, act: Act) returns (ghost e: Event)
    requires bc.Geometry() && Attached(bc, session) && bc.block.magic == MAGIC && (act.BootSlot? || act.FactoryCommand?)
    modifies bc`block, bc.flash, session.uart`sent, session`running
    ensures bc.Geometry() && Attached(bc, session) && bc.block.magic == MAGIC && Is(act, e)
    ensures |bc.flash.cells| == old(|bc.flash.cells|)
    ensures bc.flash.faults >= old(bc.flash.faults) && bc.flash.readFaults >= old(bc.flash.readFaults)
    ensures old(bc.Stored()) && bc.flash.faults == old(bc.flash.faults) ==>
              bc.Stored() && Ctl(bc.block) == Step(Bare(old(Ctl(bc.block))), e).ctl
  {
    hide BootControl.Stored, Has, With, Without, Recovery.RecoverySession.Blank, Recovery.RecoverySession.Erasable,
        Factory;
    if act.BootSlot? {
      session.HandleBoot(act.id);
      e := RecoveryBoot(act.id);
    } else {
      session.HandleFactory();
      e := RecoveryFactory;
    }
  }

  // ---- histories ----

  function EventsOf(life: seq<Entry>): (es: seq<Event>)
    ensures |es| == |life|
  {
    if life == [] then [] else EventsOf(life[..|life| - 1]) + [life[|life| - 1].event]
  }

  lemma {:induction false} EventsPrefix(life: seq<Entry>, i: nat)
    requires i <= |life|
    ensures EventsOf(life)[..i] == EventsOf(life[..i]) && (i < |life| ==> EventsOf(life)[i] == life[i].event)
    decreases |life|
  {
    if i == |life| {
      assert life[..i] == life;
    } else {
      EventsPrefix(life[..|life| - 1], i);
      assert life[..|life| - 1][..i] == life[..i];
    }
  }

  predicate Told(acts: seq<Act>, reports: seq<Report>, life: seq<Entry>) {
    |acts| == |reports| == |life| && forall i :: 0 <= i < |acts| ==> Tells(acts[i], reports[i], life[i])
  }

  ghost predicate AllSafe<S, T(!new), G(!new)>(bc: BootControl, chk: Checker<S, T, G>, acts: seq<Act>, life: seq<Entry>,
                                               honest: bool)
    reads chk.otp`revoked
  {
    |acts| == |life| && forall i :: 0 <= i < |acts| ==> Safe(bc, chk, acts[i], life[i], honest)
  }

  ghost predicate AllLive<S, T(!new), G(!new)>(chk: Checker<S, T, G>, acts: seq<Act>, life: seq<Entry>,
                                               key: Option<Keystore.Key>)
    requires |chk.slots| == 3
  {
    |acts| == |life| && forall i :: 0 <= i < |acts| ==> Live(chk, acts[i], life[i], key)
  }

  /** Every reset loads the block that the run of the events before it ends in. */
  ghost predicate Follows(start: BootPolicy.Run, acts: seq<Act>, life: seq<Entry>) {
    && |acts| == |life|
    && forall i :: 0 <= i < |acts| && acts[i].Power? ==> life[i].cycle.loaded == After(start, EventsOf(life[..i])).ctl
  }

  /** No act began with a floor below an earlier one, and none is above this one. */
  predicate FloorsRise(life: seq<Entry>, floor: u32) {
    && (forall i, j :: 0 <= i < j < |life| ==> life[i].floor <= life[j].floor)
    && forall i :: 0 <= i < |life| ==> life[i].floor <= floor
  }

  lemma OneMoreFollows(start: BootPolicy.Run, acts: seq<Act>, life: seq<Entry>, a: Act, e: Entry)
    requires Follows(start, acts, life) && (a.Power? ==> e.cycle.loaded == After(start, EventsOf(life)).ctl)
    ensures Follows(start, acts + [a], life + [e])
    ensures After(start, EventsOf(life + [e])) == BootPolicy.Step(After(start, EventsOf(life)), e.event)
  {
    hide BootPolicy.Step;
    assert (life + [e])[..|life|] == life;
    forall i | 0 <= i < |acts + [a]| && (acts + [a])[i].Power?
      ensures (life + [e])[i].cycle.loaded == After(start, EventsOf((life + [e])[..i])).ctl
    {
      if i < |life| { assert (life + [e])[..i] == life[..i]; }
    }
    assert (EventsOf(life) + [e.event])[..|life|] == EventsOf(life);
  }

  /** What is safe for an honest board is safe. */
  lemma SafeGrows<S, T(!new), G(!new)>(bc: BootControl, chk: Checker<S, T, G>, a: Act, e: Entry)
    requires Safe(bc, chk, a, e, true)
    ensures Safe(bc, chk, a, e, false)
  {
    hide Checker.Genuine, Runnable, Stores, Chosen, BootControl.SameButCopies;
    if a.Power? {
      var c := e.cycle;
      if c.v.a { HonestyGrows(chk, e.cells, chk.SlotAt(SLOT_A)); }
      if c.v.b { HonestyGrows(chk, e.cells, chk.SlotAt(SLOT_B)); }
      if c.outcome.Jumped? { RunnableGrows(chk, c.cells, c.outcome.slot, c.outcome.counter, c.outcome.target); }
    }
  }

  /** While every OTP read succeeds, the key in use stays. */
  twostate lemma KeyStays<S, T(!new), G(!new)>(chk: Checker<S, T, G>)
    requires |chk.otp.keys| == Keystore.KEY_SLOTS
    requires old(chk.otp.codes) == [] && chk.otp.codes == [] && chk.otp.revoked == old(chk.otp.revoked)
    ensures KeyNow(chk) == old(KeyNow(chk))
  {
  }

  // ---- how often a board jumps ----

  /** An act by which nobody vouches for a slot, other than a reset. */
  predicate QuietAct(a: Act) { a.WantRecovery? || a.WantFactory? || a.Pend? || (a.Upgrade? && a.mode == Test) }

  /** Every reset jumped to the slot, and nobody vouched for it. */
  predicate JumpsOnlyTo(acts: seq<Act>, reports: seq<Report>, slot: u32)
    requires |acts| == |reports|
  {
    forall k :: 0 <= k < |acts| ==>
      if acts[k].Power? then reports[k].Cycled? && reports[k].outcome.Jumped? && reports[k].outcome.slot == slot
      else QuietAct(acts[k])
  }

  function Powers(acts: seq<Act>): nat {
    if acts == [] then 0 else Powers(acts[..|acts| - 1]) + if acts[|acts| - 1].Power? then 1 else 0
  }

  lemma OneMoreJump(r: BootPolicy.Run, es: seq<Event>, e: Event, acts: seq<Act>, a: Act, slot: u32)
    requires OnlyJumpsTo(r, es, slot) && (Quiet(e) || JumpsTo(After(r, es), e, slot))
    requires Boots(es) == Powers(acts) && e.Boot? == a.Power?
    ensures OnlyJumpsTo(r, es + [e], slot) && Boots(es + [e]) == Powers(acts + [a])
    ensures After(r, es + [e]) == BootPolicy.Step(After(r, es), e)
  {
    hide BootPolicy.Step, Quiet, JumpsTo;
    assert (es + [e])[..|es|] == es && (acts + [a])[..|acts|] == acts;
  }

  /** Nowhere in the history is a slot that nobody vouches for jumped to more often than it has
      attempts. */
  ghost predicate JumpsBounded(acts: seq<Act>, reports: seq<Report>) {
    && |acts| == |reports|
    && forall i, j, slot :: 0 <= i <= j <= |acts| && JumpsOnlyTo(acts[i..j], reports[i..j], slot) ==>
         Powers(acts[i..j]) <= MAX_BOOT_ATTEMPTS
  }

  /** Such acts are such events. */
  lemma {:induction false} JumpsAreEvents<S, T(!new), G(!new)>(bc: BootControl, chk: Checker<S, T, G>,
                                                               start: BootPolicy.Run, acts: seq<Act>,
                                                               reports: seq<Report>, life: seq<Entry>, honest: bool,
                                                               i: nat, j: nat, slot: u32)
    requires Told(acts, reports, life) && AllSafe(bc, chk, acts, life, honest) && Follows(start, acts, life)
    requires i <= j <= |acts| && JumpsOnlyTo(acts[i..j], reports[i..j], slot)
    ensures OnlyJumpsTo(After(start, EventsOf(life[..i])), EventsOf(life)[i..j], slot)
    ensures After(After(start, EventsOf(life[..i])), EventsOf(life)[i..j]) == After(start, EventsOf(life[..j]))
    ensures Boots(EventsOf(life)[i..j]) == Powers(acts[i..j])
    decreases j
  {
    hide BootPolicy.Step, OnlyJumpsTo, Boots, Powers, QuietAct, Quiet, JumpsTo, JumpsOnlyTo, Tells, Safe, After,
         EventsOf, AllSafe, Follows;
    var es, r := EventsOf(life), After(start, EventsOf(life[..i]));
    if i == j {
      assert es[i..j] == [] && acts[i..j] == [];
      NoJumps(r, slot);
    } else {
      var k := j - 1;
      JumpsOnlyBefore(acts, reports, i, k, slot);
      JumpsAreEvents(bc, chk, start, acts, reports, life, honest, i, k, slot);
      EventsPrefix(life, k);
      assert acts[i..j] == acts[i..k] + [acts[k]] && es[i..j] == es[i..k] + [life[k].event];
      EntryAt(bc, chk, start, acts, reports, life, honest, k);
      JumpIsEvent(bc, chk, After(start, EventsOf(life[..k])), acts[k], reports[k], life[k], honest, slot);
      OneMoreJump(r, es[i..k], life[k].event, acts[i..k], acts[k], slot);
      LastEvent(start, life[..j]);
      assert life[..j][..k] == life[..k];
    }
  }

  lemma NoJumps(r: BootPolicy.Run, slot: u32)
    ensures OnlyJumpsTo(r, [], slot) && After(r, []) == r && Boots([]) == Powers([]) == 0
  {
  }

  lemma EntryAt<S, T(!new), G(!new)>(bc: BootControl, chk: Checker<S, T, G>, start: BootPolicy.Run, acts: seq<Act>,
                                     reports: seq<Report>, life: seq<Entry>, honest: bool, k: nat)
    requires Told(acts, reports, life) && AllSafe(bc, chk, acts, life, honest) && Follows(start, acts, life)
    requires k < |acts|
    ensures Tells(acts[k], reports[k], life[k]) && Safe(bc, chk, acts[k], life[k], honest)
    ensures acts[k].Power? ==> life[k].cycle.loaded == After(start, EventsOf(life[..k])).ctl
  {
    hide Tells, Safe, After, EventsOf;
  }

  lemma JumpsOnlyBefore(acts: seq<Act>, reports: seq<Report>, i: nat, k: nat, slot: u32)
    requires |acts| == |reports| && i <= k < |acts| && JumpsOnlyTo(acts[i..k + 1], reports[i..k + 1], slot)
    ensures JumpsOnlyTo(acts[i..k], reports[i..k], slot)
    ensures if acts[k].Power?
            then reports[k].Cycled? && reports[k].outcome.Jumped? && reports[k].outcome.slot == slot
            else QuietAct(acts[k])
  {
    hide QuietAct;
    assert acts[i..k + 1][k - i] == acts[k] && reports[i..k + 1][k - i] == reports[k];
    assert forall m :: 0 <= m < k - i ==>
             acts[i..k][m] == acts[i..k + 1][m] && reports[i..k][m] == reports[i..k + 1][m];
  }

  lemma LastEvent(start: BootPolicy.Run, life: seq<Entry>)
    requires life != []
    ensures var before := life[..|life| - 1];
            After(start, EventsOf(life)) == BootPolicy.Step(After(start, EventsOf(before)), life[|life| - 1].event)
  {
    hide BootPolicy.Step;
    var before := life[..|life| - 1];
    assert (EventsOf(before) + [life[|life| - 1].event])[..|before|] == EventsOf(before);
  }

  lemma JumpIsEvent<S, T(!new), G(!new)>(bc: BootControl, chk: Checker<S, T, G>, r: BootPolicy.Run, a: Act,
                                         report: Report, e: Entry, honest: bool, slot: u32)
    requires Tells(a, report, e) && Safe(bc, chk, a, e, honest) && (a.Power? ==> e.cycle.loaded == r.ctl)
    requires if a.Power? then report.Cycled? && report.outcome.Jumped? && report.outcome.slot == slot else QuietAct(a)
    ensures Quiet(e.event) || JumpsTo(r, e.event, slot)
    ensures e.event.Boot? == a.Power?
  {
    hide Checker.Genuine, Runnable, Stores, BootControl.SameButCopies, Select, ShouldRecover;
  }

  /** Every jump is the one the run makes. */
  ghost predicate JumpsSeen(start: BootPolicy.Run, reports: seq<Report>, life: seq<Entry>) {
    && |reports| == |life|
    && forall i :: 0 <= i < |reports| && reports[i].Cycled? && reports[i].outcome.Jumped? ==>
         After(start, EventsOf(life[..i + 1])).jumped == reports[i].outcome.slot
  }

  lemma JumpsAreSeen<S, T(!new), G(!new)>(bc: BootControl, chk: Checker<S, T, G>, start: BootPolicy.Run,
                                         acts: seq<Act>, reports: seq<Report>, life: seq<Entry>, honest: bool)
    requires |acts| == |reports| == |life| && Told(acts, reports, life) && AllSafe(bc, chk, acts, life, honest)
    requires Follows(start, acts, life)
    ensures JumpsSeen(start, reports, life)
  {
    hide After, Told, AllSafe, Follows, EventsOf, BootPolicy.Step, Safe, JumpsTo;
    forall i | 0 <= i < |reports| && reports[i].Cycled? && reports[i].outcome.Jumped?
      ensures After(start, EventsOf(life[..i + 1])).jumped == reports[i].outcome.slot
    {
      EntryAt(bc, chk, start, acts, reports, life, honest, i);
      LastEvent(start, life[..i + 1]);
      assert life[..i + 1][..i] == life[..i];
      var r := After(start, EventsOf(life[..i]));
      JumpIsEvent(bc, chk, r, acts[i], reports[i], life[i], honest, reports[i].outcome.slot);
      StepJumps(r, life[i].event, reports[i].outcome.slot);
    }
  }

  lemma StepJumps(r: BootPolicy.Run, e: Event, slot: u32)
    requires JumpsTo(r, e, slot)
    ensures BootPolicy.Step(r, e).jumped == slot
  {
    hide Select, ShouldRecover, Has, With, Without;
  }

  lemma FactoryIsSound()
    ensures Inv(Bare(Factory())) && Bare(Factory()).ctl.maxAttempts == MAX_BOOT_ATTEMPTS
  {
    hide Has;
  }

  /** The bound of the policy runs, on the jumps a board makes. */
  lemma JumpsOfALife<S, T(!new), G(!new)>(bc: BootControl, chk: Checker<S, T, G>, acts: seq<Act>, reports: seq<Report>,
                                          life: seq<Entry>, honest: bool)
    requires |acts| == |reports| == |life| && Told(acts, reports, life) && AllSafe(bc, chk, acts, life, honest)
    requires Follows(Bare(Factory()), acts, life)
    ensures JumpsBounded(acts, reports)
  {
    hide Has, After, Told, AllSafe, Follows, JumpsOnlyTo, Powers, EventsOf, Boots, OnlyJumpsTo;
    var start := Bare(Factory());
    FactoryIsSound();
    forall i, j, slot | 0 <= i <= j <= |acts| && JumpsOnlyTo(acts[i..j], reports[i..j], slot)
      ensures Powers(acts[i..j]) <= MAX_BOOT_ATTEMPTS
    {
      JumpsAreEvents(bc, chk, start, acts, reports, life, honest, i, j, slot);
      EveryRunKeepsInv(start, EventsOf(life[..i]));
      JumpsAreBounded(After(start, EventsOf(life[..i])), EventsOf(life)[i..j], slot);
      MaximumStays(start, EventsOf(life[..j]));
    }
  }

  /** The life of a board. If no flash operation ever fails, the stored block is where the
      policy run of these events ends, every reset starts from it, and a slot that nobody
      vouches for is jumped to three times at most, however often the board is reset. No reset
      ever jumps below a floor the board has had. */
  method Lifetime<S, T(!new), G(!new), R>(bc: BootControl, staging: Rollback.Staging, chk: Checker<S, T, G>,
                                          session: Recovery.RecoverySession<R>, acts: seq<Act>)
      returns (reports: seq<Report>, ghost life: seq<Entry>)
    requires Wired(bc, staging, chk) && Attached(bc, session) && bc.block.magic == MAGIC && bc.Stored()
    modifies bc`block, bc.flash, staging, staging.counter, chk.otp`codes, session.uart`sent
    modifies session`authState, session`authFailCount, session`states, session`events, session`running
    ensures Told(acts, reports, life) && AllSafe(bc, chk, acts, life, old(chk.otp.Honest()))
    ensures chk.counter.present ==> FloorsRise(life, chk.counter.value)
    ensures NothingFailed(chk) && PrimeField() ==> AllLive(chk, acts, life, old(KeyNow(chk)))
    ensures bc.flash.faults == old(bc.flash.faults) && bc.flash.readFaults == old(bc.flash.readFaults) ==>
              var start := Bare(old(Ctl(bc.block)));
              bc.Stored() && Ctl(bc.block) == After(start, EventsOf(life)).ctl && Follows(start, acts, life)
              && JumpsSeen(start, reports, life)
    ensures bc.flash.faults == old(bc.flash.faults) && bc.flash.readFaults == old(bc.flash.readFaults)
            && old(Ctl(bc.block)) == Factory() ==>
              Sound(Ctl(bc.block)) && JumpsBounded(acts, reports)
  {
    hide BootControl.Stored, Ed25519.CurveGroup, BootPolicy.After, Factory, Sound, Told, AllSafe, AllLive, FloorsRise,
         PrimeField, KeyNow, Follows, EventsOf, JumpsBounded, JumpsSeen, SoFar;
    ghost var start, honest, key := Bare(Ctl(bc.block)), chk.otp.Honest(), KeyNow(chk);
    reports, life := [], [];
    assert acts[..0] == [];
    NothingYet(bc, chk, start, honest, key, NothingFailed(chk) && PrimeField());
    for i := 0 to |acts|
      invariant Wired(bc, staging, chk) && Attached(bc, session) && bc.block.magic == MAGIC
      invariant honest ==> chk.otp.Honest()
      invariant old(chk.otp.codes) == [] ==> chk.otp.codes == [] && key == KeyNow(chk)
      invariant bc.flash.faults >= old(bc.flash.faults) && bc.flash.readFaults >= old(bc.flash.readFaults)
      invariant chk.counter.faults >= old(chk.counter.faults)
      invariant SoFar(bc, chk, start, acts[..i], reports, life, honest, key,
                      bc.flash.faults == old(bc.flash.faults) && bc.flash.readFaults == old(bc.flash.readFaults),
                      NothingFailed(chk) && PrimeField())
    {
      ghost var quiet := bc.flash.faults == old(bc.flash.faults) && bc.flash.readFaults == old(bc.flash.readFaults);
      ghost var lively := NothingFailed(chk) && PrimeField();
      var report;
      ghost var e;
      report, e := Proceed(bc, staging, chk, session, acts[i], start, acts[..i], reports, life, honest, key, quiet,
                           lively);
      assert acts[..i + 1] == acts[..i] + [acts[i]];
      reports, life := reports + [report], life + [e];
    }
    assert acts[..|acts|] == acts;
    Conclude(bc, chk, start, acts, reports, life, honest, key,
             bc.flash.faults == old(bc.flash.faults) && bc.flash.readFaults == old(bc.flash.readFaults),
             NothingFailed(chk) && PrimeField());
  }

  /** A history up to now, for a board that began so; quiet says whether no flash operation has
      failed, lively whether nothing has. */
  ghost predicate SoFar<S, T(!new), G(!new)>(bc: BootControl, chk: Checker<S, T, G>, start: BootPolicy.Run,
                                             acts: seq<Act>, reports: seq<Report>, life: seq<Entry>, honest: bool,
                                             key: Option<Keystore.Key>, quiet: bool, lively: bool)
    requires |chk.slots| == 3
    reads bc, bc.flash, chk.otp, chk.counter
  {
    && Told(acts, reports, life) && AllSafe(bc, chk, acts, life, honest)
    && (chk.counter.present ==> FloorsRise(life, chk.counter.value))
    && (lively ==> AllLive(chk, acts, life, key))
    && (quiet ==> bc.Stored() && Ctl(bc.block) == After(start, EventsOf(life)).ctl && Follows(start, acts, life))
  }

  lemma NothingYet<S, T(!new), G(!new)>(bc: BootControl, chk: Checker<S, T, G>, start: BootPolicy.Run, honest: bool,
                                       key: Option<Keystore.Key>, lively: bool)
    requires |chk.slots| == 3 && bc.Stored() && start.ctl == Ctl(bc.block)
    ensures SoFar(bc, chk, start, [], [], [], honest, key, true, lively)
  {
    hide BootControl.Stored;
  }

  /** One act more. */
  method Proceed<S, T(!new), G(!new), R>(bc: BootControl, staging: Rollback.Staging, chk: Checker<S, T, G>,
                                         session: Recovery.RecoverySession<R>, act: Act, ghost start: BootPolicy.Run,
                                         ghost acts: seq<Act>, ghost reports: seq<Report>, ghost life: seq<Entry>,
                                         ghost honest: bool, ghost key: Option<Keystore.Key>, ghost quiet: bool,
                                         ghost lively: bool)
      returns (report: Report, ghost e: Entry)
    requires Wired(bc, staging, chk) && Attached(bc, session) && bc.block.magic == MAGIC
    requires SoFar(bc, chk, start, acts, reports, life, honest, key, quiet, lively)
    requires (honest ==> chk.otp.Honest()) && (lively ==> chk.otp.codes == [] && key == KeyNow(chk) && PrimeField())
    modifies bc`block, bc.flash, staging, staging.counter, chk.otp`codes, session.uart`sent
    modifies session`authState, session`authFailCount, session`states, session`events, session`running
    ensures Wired(bc, staging, chk) && Attached(bc, session) && bc.block.magic == MAGIC
    ensures (honest ==> chk.otp.Honest())
    ensures old(chk.otp.codes) == [] ==> chk.otp.codes == [] && KeyNow(chk) == old(KeyNow(chk))
    ensures bc.flash.faults >= old(bc.flash.faults) && bc.flash.readFaults >= old(bc.flash.readFaults)
    ensures chk.counter.faults >= old(chk.counter.faults)
    ensures SoFar(bc, chk, start, acts + [act], reports + [report], life + [e], honest, key,
                  quiet && bc.flash.faults == old(bc.flash.faults) && bc.flash.readFaults == old(bc.flash.readFaults),
                  lively && NothingFailed(chk))
  {
    hide BootControl.Stored, Ed25519.CurveGroup, BootPolicy.Step, BootPolicy.After, Tells, Safe, Live, PrimeField,
         KeyNow, Follows, EventsOf;
    report, e := Perform(bc, staging, chk, session, act);
    if !honest && old(chk.otp.Honest()) { SafeGrows(bc, chk, act, e); }
    if old(chk.otp.codes) == [] { KeyStays(chk); }
    HistoryFree(After(start, EventsOf(life)), e.event);
    if quiet && bc.flash.faults == old(bc.flash.faults) && bc.flash.readFaults == old(bc.flash.readFaults) {
      OneMoreFollows(start, acts, life, act, e);
    }
  }

  lemma Conclude<S, T(!new), G(!new)>(bc: BootControl, chk: Checker<S, T, G>, start: BootPolicy.Run, acts: seq<Act>,
                                     reports: seq<Report>, life: seq<Entry>, honest: bool, key: Option<Keystore.Key>,
                                     quiet: bool, lively: bool)
    requires |chk.slots| == 3 && SoFar(bc, chk, start, acts, reports, life, honest, key, quiet, lively)
    ensures Told(acts, reports, life) && AllSafe(bc, chk, acts, life, honest)
    ensures chk.counter.present ==> FloorsRise(life, chk.counter.value)
    ensures lively ==> AllLive(chk, acts, life, key)
    ensures quiet ==>
              && bc.Stored() && Ctl(bc.block) == After(start, EventsOf(life)).ctl
              && Follows(start, acts, life) && JumpsSeen(start, reports, life)
    ensures quiet && start == Bare(Factory()) ==>
              Sound(Ctl(bc.block)) && JumpsBounded(acts, reports)
  {
    assert Told(acts, reports, life);
    hide BootControl.Stored, BootPolicy.Step, BootPolicy.After, Factory, Sound, AllSafe, AllLive, Follows, EventsOf,
         JumpsBounded, JumpsSeen, FloorsRise;
    if quiet { JumpsAreSeen(bc, chk, start, acts, reports, life, honest); }
    if quiet && start == Bare(Factory()) {
      JumpsOfALife(bc, chk, acts, reports, life, honest);
      FactoryIsSound();
      EveryRunKeepsInv(start, EventsOf(life));
    }
  }
}
