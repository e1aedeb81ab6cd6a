/** Slot selection over resets (core/boot_policy.c), and what the application's requests
    (core/fw_services.c), the jump (stage1/jump_app.c) and recovery do to the control block. */
module BootPolicy {
  import opened Types
  import opened Flash
  import opened BootCtl
  import Crc32

  /** The part of the control block that boot decisions depend on. */
  datatype Control = Control(active: u32, pending: u32, confirmed: u32, attempts: u32, maxAttempts: u32, flags: bv32)

  function Ctl(b: Block): Control {
    Control(b.active, b.pending, b.confirmed, b.attempts, b.maxAttempts, b.flags)
  }

  lemma SealedCtl(b: Block)
    ensures Ctl(Sealed(b)) == Ctl(b) && Sealed(b).magic == b.magic
  {
    hide Crc32.Crc, Covered;
  }

  /** Which slots the scan found valid. */
  datatype Slots = Slots(a: bool, b: bool)

  predicate IsValid(v: Slots, slot: u32) { (slot == SLOT_A && v.a) || (slot == SLOT_B && v.b) }

  predicate IsSlot(slot: u32) { slot == SLOT_A || slot == SLOT_B }

  datatype Selection = Selection(rc: int, slot: u32, ctl: Control)

  function Cleared(c: Control): Control { c.(pending := SLOT_NONE, flags := Without(c.flags, UPGRADE_PENDING)) }

  predicate Exhausted(c: Control) { c.attempts >= c.maxAttempts }

  predicate Requested(c: Control) { c.pending != SLOT_NONE && Has(c.flags, UPGRADE_PENDING) }

  function RolledBack(c: Control): Control {
    Cleared(c.(active := OtherSlot(c.active), attempts := 0, flags := Without(With(c.flags, ROLLBACK), TEST_BOOT)))
  }

  function TestBooted(c: Control): Control {
    c.(active := c.pending, pending := SLOT_NONE, flags := Without(With(c.flags, TEST_BOOT), UPGRADE_PENDING))
  }

  /** The choice among the active slot and its alternate. */
  function SelectActive(c: Control, v: Slots): Selection {
    if IsValid(v, c.active) then Selection(OK, c.active, c)
    else if IsValid(v, OtherSlot(c.active)) then
      Selection(OK, OtherSlot(c.active), c.(active := OtherSlot(c.active), flags := With(c.flags, ROLLBACK)))
    else Selection(ERR_NO_IMAGE, SLOT_NONE, c)
  }

  function Select(c: Control, v: Slots): Selection {
    if Exhausted(c) then
      if IsValid(v, OtherSlot(c.active)) then Selection(OK, OtherSlot(c.active), RolledBack(c))
      else Selection(ERR_NO_IMAGE, SLOT_NONE, c)
    else if Requested(c) then
      if IsValid(v, c.pending) then Selection(OK, c.pending, TestBooted(c)) else SelectActive(Cleared(c), v)
    else SelectActive(c, v)
  }

  /** Selection succeeds with a valid slot that is then the active one; it fails exactly when
      the attempts are used up and the alternate is invalid, or no slot is valid. */
  lemma SelectionIsSound(c: Control, v: Slots)
    ensures var s := Select(c, v);
            && (s.rc == OK ==> IsValid(v, s.slot) && s.slot == s.ctl.active)
            && (s.rc != OK ==> s.rc == ERR_NO_IMAGE && s.slot == SLOT_NONE)
    ensures IsSlot(c.active) ==>
              (Select(c, v).rc == OK <==>
                 if Exhausted(c) then IsValid(v, OtherSlot(c.active)) else v.a || v.b)
  {
  }

  /** Selection stores the block when it rolls back or refuses a request. */
  predicate Stores(c: Control, v: Slots) {
    if Exhausted(c) then IsValid(v, OtherSlot(c.active)) else Requested(c) && !IsValid(v, c.pending)
  }

  function StoredBySelect(c: Control): Control { if Exhausted(c) then RolledBack(c) else Cleared(c) }

  /** eos_boot_policy_select on the block in RAM: flash is written only for a rollback or a
      refused request, and then both copies hold that step. */
  method PolicySelect(bc: BootControl, v: Slots) returns (rc: int, selected: u32)
    requires bc.Geometry()
    modifies bc`block, bc.flash
    ensures bc.Geometry() && bc.OnlyCopies() && bc.block.magic == old(bc.block.magic)
    ensures Selection(rc, selected, Ctl(bc.block)) == Select(old(Ctl(bc.block)), v)
    ensures bc.flash.faults >= old(bc.flash.faults) && bc.flash.readFaults == old(bc.flash.readFaults)
    ensures !Stores(old(Ctl(bc.block)), v) ==> bc.flash.cells == old(bc.flash.cells)
    ensures Stores(old(Ctl(bc.block)), v) && bc.flash.faults == old(bc.flash.faults) ==>
              && bc.Copy(bc.primary) == bc.Copy(bc.backup)
              && Ctl(Decode(bc.Copy(bc.primary))) == StoredBySelect(old(Ctl(bc.block)))
  {
    hide Encode, Decode, Crc32.Crc, Covered, Has, With, Without;
    if bc.block.attempts >= bc.block.maxAttempts {
      var alt := OtherSlot(bc.block.active);
      if IsValid(v, alt) {
        bc.block := bc.block.(active := alt);
        bc.block := bc.block.(attempts := 0);
        bc.block := bc.block.(flags := With(bc.block.flags, ROLLBACK));
        bc.block := bc.block.(flags := Without(bc.block.flags, TEST_BOOT));
        var _ := bc.ClearPending();
        DecodeEncode(bc.block);
        return OK, alt;
      }
      return ERR_NO_IMAGE, SLOT_NONE;
    }
    if bc.block.pending != SLOT_NONE && Has(bc.block.flags, UPGRADE_PENDING) {
      var pending := bc.block.pending;
      if IsValid(v, pending) {
        bc.block := bc.block.(active := pending);
        bc.block := bc.block.(flags := With(bc.block.flags, TEST_BOOT));
        bc.block := bc.block.(flags := Without(bc.block.flags, UPGRADE_PENDING));
        bc.block := bc.block.(pending := SLOT_NONE);
        return OK, pending;
      }
      var _ := bc.ClearPending();
      DecodeEncode(bc.block);
    }
    var active := bc.block.active;
    if IsValid(v, active) { return OK, active; }
    var alt := OtherSlot(active);
    if IsValid(v, alt) {
      bc.block := bc.block.(active := alt);
      bc.block := bc.block.(flags := With(bc.block.flags, ROLLBACK));
      return OK, alt;
    }
    return ERR_NO_IMAGE, SLOT_NONE;
  }

  predicate ShouldRecover(c: Control) { Has(c.flags, FORCE_RECOVERY) || Has(c.flags, FACTORY_RESET) }

  // ---- the application ----

  datatype Mode = Test | Permanent

  datatype Services = Services(ctl: Control, rc: int)

  /** eos_fw_request_upgrade. */
  function UpgradeRequested(c: Control, slot: u32, mode: Mode): Services {
    if !IsSlot(slot) || c.active == slot then Services(c, ERR_INVALID)
    else if mode == Test then
      Services(c.(pending := slot, flags := With(With(c.flags, UPGRADE_PENDING), TEST_BOOT)), OK)
    else
      Services(c.(active := slot, confirmed := slot, pending := SLOT_NONE, attempts := 0,
                  flags := Without(Without(With(c.flags, CONFIRMED), TEST_BOOT), UPGRADE_PENDING)), OK)
  }

  function Confirmed(c: Control): Control {
    c.(confirmed := c.active, flags := Without(With(c.flags, CONFIRMED), TEST_BOOT), attempts := 0)
  }

  method RequestUpgrade(bc: BootControl, slot: u32, mode: Mode) returns (rc: int)
    requires bc.Geometry()
    modifies bc`block, bc.flash
    ensures bc.Geometry() && bc.OnlyCopies() && bc.block.magic == old(bc.block.magic)
    ensures var r := UpgradeRequested(old(Ctl(bc.block)), slot, mode);
            Ctl(bc.block) == r.ctl && (r.rc != OK ==> rc == r.rc) && (r.rc == OK ==> rc == OK || rc == ERR_FLASH)
    ensures bc.flash.faults >= old(bc.flash.faults) && bc.flash.readFaults == old(bc.flash.readFaults)
    ensures UpgradeRequested(old(Ctl(bc.block)), slot, mode).rc == OK && bc.flash.faults == old(bc.flash.faults) ==>
              rc == OK
    ensures UpgradeRequested(old(Ctl(bc.block)), slot, mode).rc != OK ==>
              bc.flash.cells == old(bc.flash.cells) && bc.block == old(bc.block)
    ensures rc == OK && old(bc.block.magic) == MAGIC ==> bc.Stored()
  {
    hide Encode, Crc32.Crc, Covered, Has, With, Without;
    if slot != SLOT_A && slot != SLOT_B { return ERR_INVALID; }
    if bc.block.active == slot { return ERR_INVALID; }
    if mode == Test {
      bc.block := bc.block.(pending := slot);
      bc.block := bc.block.(flags := With(bc.block.flags, UPGRADE_PENDING));
      bc.block := bc.block.(flags := With(bc.block.flags, TEST_BOOT));
    } else {
      bc.block := bc.block.(active := slot);
      bc.block := bc.block.(confirmed := slot);
      bc.block := bc.block.(pending := SLOT_NONE);
      bc.block := bc.block.(flags := With(bc.block.flags, CONFIRMED));
      bc.block := bc.block.(flags := Without(bc.block.flags, TEST_BOOT));
      bc.block := bc.block.(flags := Without(bc.block.flags, UPGRADE_PENDING));
      bc.block := bc.block.(attempts := 0);
    }
    rc := bc.Save();
  }

  // ---- recovery ----

  /** What entering recovery stores: the force flag is gone; a requested factory reset whose
      erases succeed leaves the defaults. */
  function RecoveryEntered(c: Control, erased: bool): Control {
    var d := c.(flags := Without(c.flags, FORCE_RECOVERY));
    if Has(d.flags, FACTORY_RESET) && erased then Factory() else d
  }

  function Factory(): Control { Control(SLOT_A, SLOT_NONE, SLOT_NONE, 0, MAX_BOOT_ATTEMPTS, 0) }

  lemma DefaultsAreFactory()
    ensures Ctl(Defaults()) == Factory()
  {
    hide Crc32.Crc, Covered;
  }

  /** The recovery command that boots a slot. */
  function RecoveryBooted(c: Control, slot: u32): Control {
    if !IsSlot(slot) then c
    else c.(active := slot, pending := SLOT_NONE, attempts := 0,
            flags := Without(Without(c.flags, FORCE_RECOVERY), FACTORY_RESET))
  }

  // ---- runs over resets ----

  /** Boot: a whole cycle, whose jump may fail its own checks. Cut: power lost after
      selection stored its block and before the jump stored it. */
  datatype Event =
    | Boot(v: Slots, jumps: bool, erased: bool)
    | Cut(v: Slots)
    | Confirm
    | ResetAttempts
    | Request(slot: u32, mode: Mode)
    | SetPending(slot: u32)
    | AskRecovery
    | AskFactory
    | RecoveryBoot(slot: u32)
    | RecoveryFactory

  /** The stored control block, and how often slots were jumped to. streak counts the jumps
      to the last selected slot since the other was selected; row counts jumps in a row to
      one slot. Both start over when somebody vouches for the slot: a confirmation, an
      attempt reset, a permanent upgrade or a recovery command. */
  datatype Run = Run(ctl: Control, selected: u32, streak: nat, jumped: u32, row: nat)

  /** A run without a past: the history plays no part in what a boot does to the block. */
  function Bare(c: Control): Run { Run(c, SLOT_NONE, 0, SLOT_NONE, 0) }

  function JumpStored(c: Control): Control { c.(attempts := (c.attempts + 1) % 0x1_0000_0000) }

  function Picked(r: Run, slot: u32): Run { r.(selected := slot, streak := if slot == r.selected then r.streak else 0) }

  function Vouched(r: Run, c: Control): Run { r.(ctl := c, streak := 0, row := 0) }

  function BootCycle(r: Run, v: Slots, jumps: bool, erased: bool): Run {
    if ShouldRecover(r.ctl) then
      var c := RecoveryEntered(r.ctl, erased);
      if Has(Without(r.ctl.flags, FORCE_RECOVERY), FACTORY_RESET) && erased then Vouched(r, c) else r.(ctl := c)
    else
      var s := Select(r.ctl, v);
      if s.rc != OK then r.(ctl := RecoveryEntered(s.ctl, erased))
      else if !jumps then Picked(r, s.slot).(ctl := RecoveryEntered(s.ctl, erased))
      else
        var p := Picked(r, s.slot);
        p.(ctl := JumpStored(s.ctl), streak := p.streak + 1,
           jumped := s.slot, row := if s.slot == r.jumped then r.row + 1 else 1)
  }

  function CutShort(r: Run, v: Slots): Run {
    if ShouldRecover(r.ctl) then r
    else if Exhausted(r.ctl) then
      if IsValid(v, OtherSlot(r.ctl.active)) then
        Picked(r, OtherSlot(r.ctl.active)).(ctl := RolledBack(r.ctl))
      else r
    else if Requested(r.ctl) && !IsValid(v, r.ctl.pending) then r.(ctl := Cleared(r.ctl))
    else r
  }

  function Step(r: Run, e: Event): Run {
    match e
    case Boot(v, jumps, erased) => BootCycle(r, v, jumps, erased)
    case Cut(v) => CutShort(r, v)
    case Confirm => Vouched(r, Confirmed(r.ctl))
    case ResetAttempts => Vouched(r, r.ctl.(attempts := 0))
    case Request(slot, mode) =>
      var u := UpgradeRequested(r.ctl, slot, mode);
      if u.rc == OK && mode == Permanent then Vouched(r, u.ctl) else r.(ctl := u.ctl)
    case SetPending(slot) => r.(ctl := r.ctl.(pending := slot, flags := With(r.ctl.flags, UPGRADE_PENDING)))
    case AskRecovery => r.(ctl := r.ctl.(flags := With(r.ctl.flags, FORCE_RECOVERY)))
    case AskFactory => r.(ctl := r.ctl.(flags := With(r.ctl.flags, FACTORY_RESET)))
    case RecoveryBoot(slot) => if IsSlot(slot) then Vouched(r, RecoveryBooted(r.ctl, slot)) else r
    case RecoveryFactory => Vouched(r, Factory())
  }

  function After(r: Run, es: seq<Event>): Run
    decreases |es|
  {
    if es == [] then r else Step(After(r, es[..|es| - 1]), es[|es| - 1])
  }

  /** The part of the invariant that selection and entering recovery keep by themselves. */
  predicate Sound(c: Control) {
    && IsSlot(c.active) && (c.pending != SLOT_NONE ==> Has(c.flags, UPGRADE_PENDING))
    && c.attempts <= c.maxAttempts && 1 <= c.maxAttempts
  }

  /** What every run keeps. */
  predicate Inv(r: Run) {
    Sound(r.ctl) && r.streak <= r.ctl.attempts && (r.streak > 0 ==> r.selected == r.ctl.active)
  }

  predicate IsFlag(x: bv32) {
    x == FORCE_RECOVERY || x == TEST_BOOT || x == CONFIRMED || x == ROLLBACK || x == FACTORY_RESET
        || x == UPGRADE_PENDING
  }

  /** Setting or clearing a flag changes that flag and no other. */
  lemma Flags()
    ensures forall f, x, b {:trigger Has(With(f, x), b)} ::
              IsFlag(x) && IsFlag(b) ==> Has(With(f, x), b) == (x == b || Has(f, b))
    ensures forall f, x, b {:trigger Has(Without(f, x), b)} ::
              IsFlag(x) && IsFlag(b) ==> Has(Without(f, x), b) == (x != b && Has(f, b))
  {
    forall f, x, b | IsFlag(x) && IsFlag(b)
      ensures Has(With(f, x), b) == (x == b || Has(f, b)) && Has(Without(f, x), b) == (x != b && Has(f, b))
    {
      Flag(f, x, b);
    }
  }

  lemma Flag(f: bv32, x: bv32, b: bv32)
    requires IsFlag(x) && IsFlag(b)
    ensures Has(With(f, x), b) == (x == b || Has(f, b)) && Has(Without(f, x), b) == (x != b && Has(f, b))
  {
    if x == FORCE_RECOVERY {} else if x == TEST_BOOT {} else if x == CONFIRMED {} else if x == ROLLBACK {}
    else if x == FACTORY_RESET {} else {}
  }

  /** Selection moves to the other slot, forgets the attempts only when it rolls back, and
      picks a slot only while attempts are left. */
  lemma SelectKeeps(c: Control, v: Slots)
    requires Sound(c)
    ensures var s := Select(c, v);
            && Sound(s.ctl) && s.ctl.maxAttempts == c.maxAttempts
            && (s.rc != OK ==> s.ctl.active == c.active && s.ctl.attempts == c.attempts)
            && (s.rc == OK ==> s.slot == s.ctl.active && s.ctl.attempts < s.ctl.maxAttempts)
            && (s.rc == OK && !Exhausted(c) ==> s.ctl.attempts == c.attempts)
            && (s.rc == OK && Exhausted(c) ==> s.slot == OtherSlot(c.active) && s.ctl.attempts == 0)
  {
    hide With, Without, Has;
    Flags();
  }

  lemma EnteringKeeps(c: Control, erased: bool)
    requires Sound(c)
    ensures var d := RecoveryEntered(c, erased);
            Sound(d) && (d == Factory()
                || (d.active == c.active && d.attempts == c.attempts && d.maxAttempts == c.maxAttempts))
  {
    hide With, Without, Has;
    Flags();
  }

  /** A jump is made only when no factory reset is due, so recovery after it resets nothing. */
  lemma NotFactory(c: Control, v: Slots, erased: bool)
    requires !ShouldRecover(c)
    ensures var d := Select(c, v).ctl; RecoveryEntered(d, erased) == d.(flags := Without(d.flags, FORCE_RECOVERY))
  {
    hide With, Without, Has;
    Flags();
  }

  lemma BootKeepsInv(r: Run, v: Slots, jumps: bool, erased: bool)
    requires Inv(r)
    ensures Inv(BootCycle(r, v, jumps, erased))
  {
    hide With, Without, Has, Select, RecoveryEntered;
    var c := r.ctl;
    EnteringKeeps(c, erased);
    if ShouldRecover(c) {
      RecoveryOutcome(c, erased);
    } else {
      SelectKeeps(c, v);
      NotFactory(c, v, erased);
      EnteringKeeps(Select(c, v).ctl, erased);
    }
  }

  lemma RecoveryOutcome(c: Control, erased: bool)
    ensures RecoveryEntered(c, erased) ==
              if Has(Without(c.flags, FORCE_RECOVERY), FACTORY_RESET) && erased then Factory()
              else c.(flags := Without(c.flags, FORCE_RECOVERY))
  {
  }

  lemma StepKeepsInv(r: Run, e: Event)
    requires Inv(r)
    ensures Inv(Step(r, e))
  {
    hide With, Without, Has, BootCycle, CutShort;
    var f := r.ctl.flags;
    Flags();
    match e
    case Boot(v, jumps, erased) => BootKeepsInv(r, v, jumps, erased);
    case Cut(v) => CutKeepsInv(r, v);
    case _ =>
  }

  lemma CutKeepsInv(r: Run, v: Slots)
    requires Inv(r)
    ensures Inv(CutShort(r, v))
  {
    hide With, Without, Has;
  }

  /** Over every run from a state that satisfies it, the invariant holds. */
  lemma {:induction false} EveryRunKeepsInv(r: Run, es: seq<Event>)
    requires Inv(r)
    ensures Inv(After(r, es))
    decreases |es|
  {
    if es != [] {
      EveryRunKeepsInv(r, es[..|es| - 1]);
      StepKeepsInv(After(r, es[..|es| - 1]), es[|es| - 1]);
    }
  }

  /** The board as it leaves the factory. */
  function Start(): Run { Run(Factory(), SLOT_NONE, 0, SLOT_NONE, 0) }

  /** Whatever happens over any number of resets: a pending slot is a requested one, the
      attempts never pass their maximum, and a slot nobody vouches for is not jumped to more
      often than that while the other is never selected. */
  lemma AttemptsAreBounded(es: seq<Event>)
    ensures var r := After(Start(), es);
            && IsSlot(r.ctl.active)
            && (r.ctl.pending != SLOT_NONE ==> Has(r.ctl.flags, UPGRADE_PENDING))
            && r.streak <= r.ctl.attempts <= r.ctl.maxAttempts
  {
    hide Has, After;
    EveryRunKeepsInv(Start(), es);
  }

  // ---- how often a slot is jumped to ----

  /** The boot reaches the jump, to this slot. */
  predicate JumpsTo(r: Run, e: Event, slot: u32) {
    e.Boot? && e.jumps && !ShouldRecover(r.ctl) && Select(r.ctl, e.v).rc == OK && Select(r.ctl, e.v).slot == slot
  }

  /** Neither a boot nor somebody vouching for a slot. */
  predicate Quiet(e: Event) { e.AskRecovery? || e.AskFactory? || e.SetPending? || (e.Request? && e.mode == Test) }

  /** Every boot of the window jumps to the slot, and nobody vouches for it meanwhile. */
  predicate OnlyJumpsTo(r: Run, es: seq<Event>, slot: u32)
    decreases |es|
  {
    es == [] || (var before, e := es[..|es| - 1], es[|es| - 1];
      OnlyJumpsTo(r, before, slot) && (Quiet(e) || JumpsTo(After(r, before), e, slot)))
  }

  function Boots(es: seq<Event>): nat {
    if es == [] then 0 else Boots(es[..|es| - 1]) + if es[|es| - 1].Boot? then 1 else 0
  }

  lemma {:induction false} StreakCounts(r: Run, es: seq<Event>, slot: u32)
    requires OnlyJumpsTo(r, es, slot) && Boots(es) > 0
    ensures After(r, es).streak >= Boots(es) && After(r, es).selected == slot
    decreases |es|
  {
    hide With, Without, Has, Select, RecoveryEntered, ShouldRecover;
    var before := es[..|es| - 1];
    if Boots(before) > 0 { StreakCounts(r, before, slot); }
  }

  /** However a run began: boots that all jump to one slot, while nobody vouches for it, are
      at most max_attempts. */
  lemma JumpsAreBounded(r: Run, es: seq<Event>, slot: u32)
    requires Inv(r) && OnlyJumpsTo(r, es, slot)
    ensures Boots(es) <= After(r, es).ctl.maxAttempts
  {
    hide After, Boots, OnlyJumpsTo, Has;
    EveryRunKeepsInv(r, es);
    if Boots(es) > 0 { StreakCounts(r, es, slot); }
  }

  /** A board that starts with the factory's maximum keeps it. */
  lemma {:induction false} MaximumStays(r: Run, es: seq<Event>)
    requires Inv(r) && r.ctl.maxAttempts == MAX_BOOT_ATTEMPTS
    ensures After(r, es).ctl.maxAttempts == MAX_BOOT_ATTEMPTS
    decreases |es|
  {
    hide Inv, Step;
    if es != [] {
      var before, e := After(r, es[..|es| - 1]), es[|es| - 1];
      MaximumStays(r, es[..|es| - 1]);
      EveryRunKeepsInv(r, es[..|es| - 1]);
      StepKeepsMaximum(before, e);
    }
  }

  lemma StepKeepsMaximum(r: Run, e: Event)
    requires Inv(r) && r.ctl.maxAttempts == MAX_BOOT_ATTEMPTS
    ensures Step(r, e).ctl.maxAttempts == MAX_BOOT_ATTEMPTS
  {
    hide With, Without, Has, Select, RecoveryEntered;
    if e.Boot? {
      SelectKeeps(r.ctl, e.v);
      EnteringKeeps(r.ctl, e.erased);
      EnteringKeeps(Select(r.ctl, e.v).ctl, e.erased);
    }
  }

  // ---- jumps in a row ----

  /** A rollback whose jump then fails, or is cut off, does not happen in this step. */
  predicate RollbackJumps(r: Run, e: Event) {
    Exhausted(r.ctl) && !ShouldRecover(r.ctl) ==>
      match e
      case Boot(v, jumps, _) => IsValid(v, OtherSlot(r.ctl.active)) ==> jumps
      case Cut(v) => !IsValid(v, OtherSlot(r.ctl.active))
      case _ => true
  }

  predicate RollbacksJump(r: Run, es: seq<Event>)
    decreases |es|
  {
    es == [] || (var before := es[..|es| - 1];
      RollbacksJump(r, before) && RollbackJumps(After(r, before), es[|es| - 1]))
  }

  predicate RowInv(r: Run) {
    Inv(r) && r.row <= r.ctl.attempts && (Exhausted(r.ctl) && r.row > 0 ==> r.jumped == r.ctl.active)
  }

  lemma StepKeepsRowInv(r: Run, e: Event)
    requires RowInv(r) && RollbackJumps(r, e)
    ensures RowInv(Step(r, e))
  {
    hide With, Without, Has, Select, RecoveryEntered;
    StepKeepsInv(r, e);
    var c := r.ctl;
    match e
    case Boot(v, jumps, erased) =>
      EnteringKeeps(c, erased);
      RecoveryOutcome(c, erased);
      SelectKeeps(c, v);
      SelectionIsSound(c, v);
      if !ShouldRecover(c) {
        NotFactory(c, v, erased);
        if Exhausted(c) { RollbackNeedsAlternate(c, v); }
      }
    case _ =>
  }

  lemma RollbackNeedsAlternate(c: Control, v: Slots)
    requires Exhausted(c)
    ensures Select(c, v).rc == OK <==> IsValid(v, OtherSlot(c.active))
  {
    hide With, Without, Has;
  }

  lemma {:induction false} RowsFrom(r: Run, es: seq<Event>)
    requires RowInv(r) && RollbacksJump(r, es)
    ensures RowInv(After(r, es)) && After(r, es).row <= After(r, es).ctl.maxAttempts
    decreases |es|
  {
    hide Has;
    if es != [] {
      var before := es[..|es| - 1];
      RowsFrom(r, before);
      hide Step, RowInv, RollbackJumps;
      StepKeepsRowInv(After(r, before), es[|es| - 1]);
    }
    RowInvBounds(After(r, es));
  }

  lemma RowInvBounds(r: Run)
    requires RowInv(r)
    ensures r.row <= r.ctl.maxAttempts
  {
  }

  /** If every rollback ends in its jump, no slot is jumped to more than max_attempts times
      in a row. */
  lemma RowsAreBounded(es: seq<Event>)
    requires RollbacksJump(Start(), es)
    ensures var r := After(Start(), es);
            RowInv(r) && r.row <= r.ctl.maxAttempts
  {
    hide After, RollbacksJump, Has;
    RowsFrom(Start(), es);
  }

  function Only(slot: u32): Slots { Slots(slot == SLOT_A, slot == SLOT_B) }

  function Repeat(e: Event, n: nat): (es: seq<Event>)
    ensures |es| == n
  {
    if n == 0 then [] else Repeat(e, n - 1) + [e]
  }

  /** And the condition is needed. From any exhausted slot with jumps behind it, the bound
      survives all runs in which later rollbacks jump exactly when this rollback jumps: one
      that does not has spent the attempts of the slot it came from, which may then be booted
      max_attempts times afresh. */
  lemma RowBoundExactly(r: Run, v: Slots, jumps: bool, erased: bool)
    requires RowInv(r) && Exhausted(r.ctl) && r.row > 0 && !ShouldRecover(r.ctl)
    requires IsValid(v, OtherSlot(r.ctl.active))
    ensures var next := Step(r, Boot(v, jumps, erased));
            jumps <==> forall es :: RollbacksJump(next, es) ==> After(next, es).row <= After(next, es).ctl.maxAttempts
  {
    hide With, Without, Has, Select, RecoveryEntered, BootCycle, After, RollbacksJump;
    var next := Step(r, Boot(v, jumps, erased));
    if jumps {
      StepKeepsRowInv(r, Boot(v, jumps, erased));
      forall es | RollbacksJump(next, es) ensures After(next, es).row <= After(next, es).ctl.maxAttempts {
        RowsFrom(next, es);
      }
    } else {
      UnjumpedRollback(r, v, erased);
      var e := Boot(Only(r.ctl.active), true, erased);
      FreshAttempts(next, r.ctl.active, erased, r.ctl.maxAttempts);
      assert RollbacksJump(next, Repeat(e, r.ctl.maxAttempts));
    }
  }

  /** What an unjumped rollback leaves: the other slot active, no attempts used, the row kept. */
  lemma UnjumpedRollback(r: Run, v: Slots, erased: bool)
    requires RowInv(r) && Exhausted(r.ctl) && r.row > 0 && !ShouldRecover(r.ctl)
    requires IsValid(v, OtherSlot(r.ctl.active))
    ensures var next := BootCycle(r, v, false, erased);
            && next.ctl.active == OtherSlot(r.ctl.active) && next.ctl.attempts == 0
            && next.ctl.maxAttempts == r.ctl.maxAttempts && !Requested(next.ctl) && !ShouldRecover(next.ctl)
            && next.row == r.row && next.jumped == r.ctl.active
  {
    hide With, Without, Has, RecoveryEntered;
    NotFactory(r.ctl, v, erased);
    Flags();
  }

  /** With only slot valid, n more boots jump to it n more times in a row. */
  lemma {:induction false} FreshAttempts(r: Run, slot: u32, erased: bool, n: nat)
    requires IsSlot(slot) && r.ctl.active == OtherSlot(slot) && r.ctl.attempts == 0 && n <= r.ctl.maxAttempts
    requires !Requested(r.ctl) && !ShouldRecover(r.ctl) && r.jumped == slot
    ensures var es := Repeat(Boot(Only(slot), true, erased), n);
            var s := After(r, es);
            && RollbacksJump(r, es) && s.row == r.row + n && s.jumped == slot && s.ctl.attempts == n
            && s.ctl.maxAttempts == r.ctl.maxAttempts && IsSlot(s.ctl.active) && (n > 0 ==> s.ctl.active == slot)
            && (n == 0 ==> s == r) && !Requested(s.ctl) && !ShouldRecover(s.ctl)
    decreases n
  {
    hide With, Without, Has, RecoveryEntered, BootCycle, After, RollbacksJump, Repeat;
    var e := Boot(Only(slot), true, erased);
    OneMore(r, e, n);
    if n > 0 {
      FreshAttempts(r, slot, erased, n - 1);
      FreshAttempt(After(r, Repeat(e, n - 1)), slot, erased);
    }
  }

  lemma OneMore(r: Run, e: Event, n: nat)
    ensures n == 0 ==> After(r, Repeat(e, n)) == r && RollbacksJump(r, Repeat(e, n))
    ensures n > 0 ==>
              var es, s := Repeat(e, n - 1), After(r, Repeat(e, n - 1));
              && After(r, Repeat(e, n)) == Step(s, e)
              && (RollbacksJump(r, Repeat(e, n)) <==> RollbacksJump(r, es) && RollbackJumps(s, e))
  {
    hide Step, RollbackJumps;
    if n > 0 { assert Repeat(e, n)[..n - 1] == Repeat(e, n - 1); }
  }

  lemma FreshAttempt(r: Run, slot: u32, erased: bool)
    requires IsSlot(slot) && IsSlot(r.ctl.active) && r.ctl.attempts < r.ctl.maxAttempts && r.jumped == slot
    requires !Requested(r.ctl) && !ShouldRecover(r.ctl)
    ensures var s := BootCycle(r, Only(slot), true, erased);
            && s.row == r.row + 1 && s.jumped == slot && s.ctl.attempts == r.ctl.attempts + 1
            && s.ctl.maxAttempts == r.ctl.maxAttempts && s.ctl.active == slot
            && !Requested(s.ctl) && !ShouldRecover(s.ctl)
  {
    hide With, Without, Has, RecoveryEntered;
    Flags();
  }

  // ---- stuck in recovery ----

  /** The selected slot also passes the checks of the jump, which look at the floor as the
      scan does not. */
  predicate Jumps(c: Control, v: Slots, jumpable: Slots) {
    Select(c, v).rc == OK && IsValid(jumpable, Select(c, v).slot)
  }

  /** n resets with nobody at the recovery line. */
  function Resets(r: Run, v: Slots, jumpable: Slots, n: nat): Run {
    if n == 0 then r
    else var before := Resets(r, v, jumpable, n - 1); Step(before, Boot(v, Jumps(before.ctl, v, jumpable), false))
  }

  /** The reset behind k others jumps. */
  predicate JumpsAt(r: Run, v: Slots, jumpable: Slots, k: nat) { Jumps(Resets(r, v, jumpable, k).ctl, v, jumpable) }

  /** A board jumps at the first of its resets or at none: it is stuck in recovery, whatever
      its other slot holds, exactly when the slot selected now does not jump. */
  lemma {:induction false} JumpsNowOrNever(r: Run, v: Slots, jumpable: Slots, n: nat)
    requires Sound(r.ctl) && !ShouldRecover(r.ctl)
    ensures Jumps(r.ctl, v, jumpable) <==> exists k: nat :: k <= n && JumpsAt(r, v, jumpable, k)
  {
    hide Jumps, Sound, ShouldRecover, Step;
    if Jumps(r.ctl, v, jumpable) { assert JumpsAt(r, v, jumpable, 0); }
    if k: nat :| k <= n && JumpsAt(r, v, jumpable, k) {
      if !Jumps(r.ctl, v, jumpable) { StaysStuck(r, v, jumpable, k); }
    }
  }

  lemma {:induction false} StaysStuck(r: Run, v: Slots, jumpable: Slots, n: nat)
    requires Sound(r.ctl) && !ShouldRecover(r.ctl) && !Jumps(r.ctl, v, jumpable)
    ensures var s := Resets(r, v, jumpable, n).ctl; Sound(s) && !ShouldRecover(s) && !Jumps(s, v, jumpable)
  {
    hide Jumps, Sound, ShouldRecover, Step;
    if n > 0 {
      StaysStuck(r, v, jumpable, n - 1);
      StuckAgain(Resets(r, v, jumpable, n - 1), v, jumpable);
    }
  }

  lemma StuckAgain(r: Run, v: Slots, jumpable: Slots)
    requires Sound(r.ctl) && !ShouldRecover(r.ctl) && !Jumps(r.ctl, v, jumpable)
    ensures var s := Step(r, Boot(v, false, false)).ctl; Sound(s) && !ShouldRecover(s) && !Jumps(s, v, jumpable)
  {
    hide With, Without, Has, RecoveryEntered;
    Flags();
    SelectKeeps(r.ctl, v);
    NotFactory(r.ctl, v, false);
  }

  /** The floor can do it: a slot used up, its alternate below the floor. */
  lemma OldAlternateIsStuck(c: Control, n: nat)
    requires Sound(c) && !ShouldRecover(c) && Exhausted(c)
    ensures !Jumps(Resets(Bare(c), Slots(true, true), Only(c.active), n).ctl, Slots(true, true), Only(c.active))
  {
    hide With, Without, Has, Resets, RecoveryEntered;
    StaysStuck(Bare(c), Slots(true, true), Only(c.active), n);
  }

  // ---- a slot that proves itself, and one that does not ----

  /** One reset of a slot that confirms whenever it runs: the scan, and whether the jump's
      own checks passed. */
  datatype Reset = Reset(v: Slots, jumps: bool, erased: bool)

  function Confirming(r: Run, cycles: seq<Reset>): Run
    decreases |cycles|
  {
    if cycles == [] then r
    else
      var before, c := Confirming(r, cycles[..|cycles| - 1]), cycles[|cycles| - 1];
      var booted := Step(before, Boot(c.v, c.jumps, c.erased));
      if c.jumps then Step(booted, Confirm) else booted
  }

  /** A valid slot that confirms every boot is never left without an upgrade request. */
  lemma {:induction false} ConfirmedSlotStays(r: Run, cycles: seq<Reset>)
    requires Sound(r.ctl) && r.ctl.attempts == 0 && !Requested(r.ctl) && !ShouldRecover(r.ctl)
    requires forall i :: 0 <= i < |cycles| ==> IsValid(cycles[i].v, r.ctl.active)
    ensures var s := Confirming(r, cycles).ctl;
            Sound(s) && s.attempts == 0 && !Requested(s) && !ShouldRecover(s) && s.active == r.ctl.active
    decreases |cycles|
  {
    if cycles != [] {
      ConfirmedSlotStays(r, cycles[..|cycles| - 1]);
      var before := Confirming(r, cycles[..|cycles| - 1]);
      var c := cycles[|cycles| - 1];
      CycleStays(before, c);
    }
  }

  lemma CycleStays(r: Run, c: Reset)
    requires Sound(r.ctl) && r.ctl.attempts == 0 && !Requested(r.ctl) && !ShouldRecover(r.ctl)
              && IsValid(c.v, r.ctl.active)
    ensures var s := Confirming(r, [c]).ctl;
            Sound(s) && s.attempts == 0 && !Requested(s) && !ShouldRecover(s) && s.active == r.ctl.active
  {
    hide With, Without, Has, RecoveryEntered;
    Flags();
    assert [c][..0] == [];
    assert Confirming(r, []) == r;
    NotFactory(r.ctl, c.v, c.erased);
    Flags();
  }

  /** n boots with both slots valid, every one of them reaching the jump. */
  function FullBoots(r: Run, n: nat): Run {
    if n == 0 then r else Step(FullBoots(r, n - 1), Boot(Slots(true, true), true, false))
  }

  /** An image on test that never confirms is booted for the attempts still left, and then
      the slot it replaced is back. */
  lemma {:induction false} TestImageIsAbandoned(r: Run, n: nat)
    requires Sound(r.ctl) && !Exhausted(r.ctl) && !ShouldRecover(r.ctl)
    requires 1 <= n <= r.ctl.maxAttempts - r.ctl.attempts + 1
    ensures var other := OtherSlot(r.ctl.active);
            var s := FullBoots(Step(r, Request(other, Test)), n);
            && Sound(s.ctl) && !Requested(s.ctl) && !ShouldRecover(s.ctl) && s.jumped == s.ctl.active
            && s.ctl.maxAttempts == r.ctl.maxAttempts
            && if n <= r.ctl.maxAttempts - r.ctl.attempts
               then s.jumped == other && s.ctl.attempts == r.ctl.attempts + n
               else s.jumped == r.ctl.active && s.ctl.attempts == 1
    decreases n
  {
    hide With, Without, Has, RecoveryEntered, Select;
    var other := OtherSlot(r.ctl.active);
    var asked := Step(r, Request(other, Test));
    Flags();
    if n == 1 {
      assert FullBoots(asked, 0) == asked;
      Flags();
      BothValid(asked);
    } else {
      TestImageIsAbandoned(r, n - 1);
      BothValid(FullBoots(asked, n - 1));
    }
  }

  /** A boot with both slots valid. */
  lemma BothValid(r: Run)
    requires Sound(r.ctl) && !ShouldRecover(r.ctl) && (Requested(r.ctl) ==> IsSlot(r.ctl.pending))
    ensures var s, c := Step(r, Boot(Slots(true, true), true, false)), r.ctl;
            && Sound(s.ctl) && !Requested(s.ctl) && !ShouldRecover(s.ctl) && s.jumped == s.ctl.active
            && s.ctl.maxAttempts == c.maxAttempts
            && s.ctl.active == (if Exhausted(c) then OtherSlot(c.active) else if Requested(c) then c.pending
                else c.active)
            && s.ctl.attempts == (if Exhausted(c) then 1 else c.attempts + 1)
  {
    hide With, Without, Has, RecoveryEntered;
    var f := r.ctl.flags;
    SelectKeeps(r.ctl, Slots(true, true));
    Flags();
  }
}
