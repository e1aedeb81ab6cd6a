/** One boot cycle of stage 1 - load, scan, select, jump, or enter recovery - and the life of a
    board from one such cycle to the next (stage1/main.c, stage1/jump_app.c, stage1/boot_scan.c,
    core/fw_services.c). */
module BootFlow {
  import opened Types
  import opened Flash
  import opened BootCtl
  import opened BootPolicy
  import opened DualCopy
  import opened ImageCheck
  import opened ImageHeader
  import Crc32
  import Ed25519
  import opened Keystore
  import opened Wrappers
  import ImageCounter
  import ImageTlv
  import opened PointDecoding
  import Recovery
  import Rollback
  import Sha2

  type RawHeader = h: seq<byte> | |h| == HDR witness Sha2.Zeros(HDR)

  /** The authenticated entry point, then the load address, then the payload in flash. */
  function EntryPoint(h: RawHeader, addr: u32): u32 {
    if EntryAddr(h) != 0 then EntryAddr(h)
    else if LoadAddr(h) != 0 then LoadAddr(h)
    else (addr + HdrSize(h)) % 0x1_0000_0000
  }

  /** The parts of one board, over one flash and one counter. */
  ghost predicate Wired<S, T(!new), G(!new)>(bc: BootControl, staging: Rollback.Staging, chk: Checker<S, T, G>)
    reads bc, bc.flash
  {
    && bc.Geometry() && bc.flash == chk.flash && staging.counter == chk.counter && |bc.flash.cells| < 0x1_0000_0000
    && chk.Ready()
  }

  /** A slot whose image may run: every check passed, the counter it declares, and where it
      is entered. */
  ghost predicate Runnable<S, T(!new), G(!new)>(chk: Checker<S, T, G>, cells: seq<byte>, id: u32, honest: bool,
                                                counter: u32, target: u32)
    requires |chk.slots| == 3
    reads chk.otp`revoked
  {
    var slot := chk.SlotAt(id);
    && chk.Genuine(cells, slot, honest) && ImageCounter.Declared(cells, chk.slots, chk.Sha(), slot.addr, counter)
    && target == EntryPoint(cells[slot.addr..slot.addr + HDR], slot.addr)
  }

  // ---- what a board must accept ----

  /** A slot that the jump must accept while nothing fails: its image is signed under the key
      in use, and declares a counter at or above the floor. */
  ghost predicate Bootable<S, T(!new), G(!new)>(chk: Checker<S, T, G>, cells: seq<byte>, id: u32, key: Option<Key>,
                                                floor: Option<u32>)
    requires |chk.slots| == 3
  {
    chk.Accepts(cells, chk.SlotAt(id), key) && AboveFloor(chk, cells, chk.SlotAt(id).addr, floor)
  }

  /** The image declares a counter at or above the floor. The TLV area is read in pieces of up
      to 512 bytes, so that much flash has to follow it. */
  ghost predicate AboveFloor<S, T(!new), G(!new)>(chk: Checker<S, T, G>, cells: seq<byte>, addr: u32,
                                                  floor: Option<u32>)
  {
    && addr + HDR <= |cells| && ImageCounter.AreaStart(cells, addr) + ImageTlv.MAX_SIZE <= |cells|
    && exists c :: ImageCounter.Declared(cells, chk.slots, chk.Sha(), addr, c) && (floor.Some? ==> floor.value <= c)
  }

  /** The slots that pass the checks of the scan. */
  ghost function Scanned<S, T(!new), G(!new)>(chk: Checker<S, T, G>, cells: seq<byte>, key: Option<Key>): Slots
    requires |chk.slots| == 3
  {
    Slots(chk.Accepts(cells, chk.SlotAt(SLOT_A), key), chk.Accepts(cells, chk.SlotAt(SLOT_B), key))
  }

  /** The key in use, and the floor, if the board has a counter. */
  ghost function KeyNow<S, T(!new), G(!new)>(chk: Checker<S, T, G>): Option<Key>
    requires |chk.otp.keys| == KEY_SLOTS
    reads chk.otp
  {
    chk.otp.KeyInUse(chk.compiledKey)
  }

  ghost function FloorNow<S, T(!new), G(!new)>(chk: Checker<S, T, G>): Option<u32>
    reads chk.counter`value
  {
    if chk.counter.present then Some(chk.counter.value) else None
  }

  /** No read of flash or counter has failed, and every OTP read succeeds. */
  twostate predicate NothingFailed<S, T(!new), G(!new)>(chk: Checker<S, T, G>)
    reads chk.flash`readFaults, chk.otp`codes, chk.counter`faults
  {
    && chk.flash.readFaults == old(chk.flash.readFaults) && chk.counter.faults == old(chk.counter.faults)
    && old(chk.otp.codes) == []
  }

  /** What a bootable slot is does not depend on the boot control copies, if they lie apart
      from the slot and from the 512 bytes that are read of its TLV area. */
  lemma BootableStays<S, T(!new), G(!new)>(bc: BootControl, chk: Checker<S, T, G>, s: seq<byte>, t: seq<byte>, id: u32,
                                           key: Option<Key>, floor: Option<u32>)
    requires |chk.slots| == 3 && bc.SameButCopies(s, t) && Bootable(chk, s, id, key, floor)
    requires var slot := chk.SlotAt(id); ClearOf(bc, slot.addr, slot.size)
    requires ClearOf(bc, ImageCounter.AreaStart(s, chk.SlotAt(id).addr), ImageTlv.MAX_SIZE)
    ensures Bootable(chk, t, id, key, floor)
  {
    hide Checker.Accepts, AboveFloor;
    var slot := chk.SlotAt(id);
    AcceptsStays(bc, chk, s, t, slot, key);
    AboveFloorStays(bc, chk, s, t, slot, key, floor);
  }

  lemma AcceptsStays<S, T(!new), G(!new)>(bc: BootControl, chk: Checker<S, T, G>, s: seq<byte>, t: seq<byte>,
                                          slot: Slot, key: Option<Key>)
    requires bc.SameButCopies(s, t) && chk.Accepts(s, slot, key) && ClearOf(bc, slot.addr, slot.size)
    ensures chk.Accepts(t, slot, key) && HDR <= slot.size
  {
    hide Checker.Signed, Checker.Sha, Ed25519.CurveGroup;
    var h := s[slot.addr..slot.addr + HDR];
    SliceStays(bc, s, t, slot.addr, slot.size, slot.addr, HDR);
    SliceStays(bc, s, t, slot.addr, slot.size, slot.addr + HdrSize(h), ImageSize(h));
  }

  lemma AboveFloorStays<S, T(!new), G(!new)>(bc: BootControl, chk: Checker<S, T, G>, s: seq<byte>, t: seq<byte>,
                                             slot: Slot, key: Option<Key>, floor: Option<u32>)
    requires bc.SameButCopies(s, t) && chk.Accepts(s, slot, key) && AboveFloor(chk, s, slot.addr, floor)
    requires ClearOf(bc, slot.addr, slot.size) && ClearOf(bc, ImageCounter.AreaStart(s, slot.addr), ImageTlv.MAX_SIZE)
    ensures AboveFloor(chk, t, slot.addr, floor)
  {
    hide ImageCounter.Declared, Checker.Accepts, Ed25519.CurveGroup;
    AcceptsStays(bc, chk, s, t, slot, key);
    var a := ImageCounter.AreaStart(s, slot.addr);
    SliceStays(bc, s, t, slot.addr, slot.size, slot.addr, HDR);
    SliceStays(bc, s, t, a, ImageTlv.MAX_SIZE, a, ImageTlv.MAX_SIZE);
    var c :| ImageCounter.Declared(s, chk.slots, chk.Sha(), slot.addr, c) && (floor.Some? ==> floor.value <= c);
    ImageCounter.DeclaredStays(s, t, chk.slots, chk.Sha(), slot.addr, c);
  }

  /** The bytes overlap neither copy. */
  predicate ClearOf(bc: BootControl, addr: int, n: nat) {
    && (addr + n <= bc.primary || bc.primary + SIZE <= addr)
    && (addr + n <= bc.backup || bc.backup + SIZE <= addr)
  }

  lemma SliceStays(bc: BootControl, s: seq<byte>, t: seq<byte>, addr: int, n: nat, from: int, len: nat)
    requires bc.SameButCopies(s, t) && ClearOf(bc, addr, n)
    requires 0 <= addr <= from && from + len <= addr + n && from + len <= |s|
    ensures s[from..from + len] == t[from..from + len]
  {
  }

  // ---- the jump ----

  /** eboot_jump_to_app. The jump is reached only by a slot that holds a well-formed header
      within its bounds, the payload and the signature the header stands for, under a key that
      is not revoked, and a counter it declares at or above the floor; the counter is then
      staged and the attempt stored. Otherwise nothing has changed. A bootable slot is jumped to
      if nothing fails. */
  method JumpToApp<S, T(!new), G(!new)>(bc: BootControl, staging: Rollback.Staging, chk: Checker<S, T, G>, id: u32,
                                        logHead: u32)
      returns (rc: int, reached: bool, target: u32, counter: u32)
    requires Wired(bc, staging, chk)
    modifies bc`block, bc.flash, staging, staging.counter`faults, chk.otp`codes
    ensures Wired(bc, staging, chk) && bc.OnlyCopies()
    ensures old(chk.otp.Honest()) ==> chk.otp.Honest()
    ensures bc.flash.faults >= old(bc.flash.faults) && bc.flash.readFaults >= old(bc.flash.readFaults)
    ensures bc.block.magic == old(bc.block.magic)
    ensures reached ==> Runnable(chk, old(bc.flash.cells), id, old(chk.otp.Honest()), counter, target)
    ensures reached && staging.counter.present ==>
              Rollback.Next(old(staging.St()), Rollback.Event.Jump(counter), staging.St())
    ensures reached ==> Ctl(bc.block) == JumpStored(old(Ctl(bc.block))) && bc.block.logHead == logHead
                        && bc.block.bootCount == (old(bc.block.bootCount) + 1) % 0x1_0000_0000
    ensures reached && bc.flash.faults == old(bc.flash.faults) && old(bc.block.magic) == MAGIC ==> bc.Stored()
    ensures NothingFailed(chk) && PrimeField() ==>
              old(Bootable(chk, bc.flash.cells, id, KeyNow(chk), FloorNow(chk))) ==> reached
    ensures chk.counter.faults >= old(chk.counter.faults) && (old(chk.otp.codes) == [] ==> chk.otp.codes == [])
    ensures !reached ==> rc != OK && bc.block == old(bc.block) && bc.flash.cells == old(bc.flash.cells)
                         && bc.flash.faults == old(bc.flash.faults) && staging.St() == old(staging.St())
  {
    hide Encode, Covered, Crc32.Crc, Ed25519.CurveGroup, Runnable, BootControl.Stored, Sha2.Hash, Bootable,
         PrimeField, KeyNow;
    reached, target := false, 0;
    rc, target, counter := Admit(staging, chk, id);
    if rc != OK { return; }
    StoreAttempt(bc, logHead);
    rc, reached := ERR_GENERIC, true;
  }

  /** The checks before the jump, in their order, and the entry point they yield. */
  method Admit<S, T(!new), G(!new)>(staging: Rollback.Staging, chk: Checker<S, T, G>, id: u32)
      returns (rc: int, target: u32, counter: u32)
    requires chk.Ready() && staging.counter == chk.counter
    modifies chk.flash`readFaults, staging, staging.counter`faults, chk.otp`codes
    ensures old(chk.otp.Honest()) ==> chk.otp.Honest()
    ensures chk.flash.readFaults >= old(chk.flash.readFaults)
    ensures rc == OK ==> Runnable(chk, chk.flash.cells, id, old(chk.otp.Honest()), counter, target)
    ensures rc == OK && staging.counter.present ==>
              Rollback.Next(old(staging.St()), Rollback.Event.Jump(counter), staging.St())
    ensures rc != OK ==> staging.St() == old(staging.St())
    ensures chk.counter.faults >= old(chk.counter.faults) && (old(chk.otp.codes) == [] ==> chk.otp.codes == [])
    ensures NothingFailed(chk) && PrimeField() ==>
              old(Bootable(chk, chk.flash.cells, id, KeyNow(chk), FloorNow(chk))) ==> rc == OK
  {
    hide Ed25519.CurveGroup, ImageCounter.Declared, Checker.Sized, Checker.Authentic, Checker.Signed, Sha2.Hash,
         Rollback.Next, PrimeField, Otp.KeyInUse;
    target, counter := 0, 0;
    var slot := chk.SlotAt(id);
    var h;
    rc, h := chk.CheckImage(slot);
    if rc != OK { return; }
    rc, counter := ImageCounter.ReadImageCounter(chk.flash, chk.slots, chk.f, chk.init, chk.render, slot.addr);
    if rc != OK { return; }
    target := EntryPoint(h, slot.addr);
    rc := staging.Admit(counter);
  }

  /** The attempt and the log head, stored before the jump. */
  method StoreAttempt(bc: BootControl, logHead: u32)
    requires bc.Geometry()
    modifies bc`block, bc.flash
    ensures bc.Geometry() && bc.OnlyCopies() && bc.block.magic == old(bc.block.magic)
    ensures bc.flash.faults >= old(bc.flash.faults) && bc.flash.readFaults == old(bc.flash.readFaults)
    ensures Ctl(bc.block) == JumpStored(old(Ctl(bc.block))) && bc.block.logHead == logHead
    ensures bc.block.bootCount == (old(bc.block.bootCount) + 1) % 0x1_0000_0000
    ensures bc.flash.faults == old(bc.flash.faults) && old(bc.block.magic) == MAGIC ==> bc.Stored()
  {
    hide Encode, Covered, Crc32.Crc, BootControl.Stored;
    var _ := bc.IncrementAttempts();
    bc.block := bc.block.(logHead := logHead);
    var _ := bc.Save();
  }

  /** eos_slot_scan_all: a slot is valid only if it passes every check, and exactly then if
      nothing fails. */
  method Scan<S, T(!new), G(!new)>(chk: Checker<S, T, G>) returns (v: Slots, hA: RawHeader, hB: RawHeader)
    requires chk.Ready()
    modifies chk.flash`readFaults, chk.otp`codes, chk.counter`faults
    ensures v.a ==> chk.Genuine(chk.flash.cells, chk.SlotAt(SLOT_A), old(chk.otp.Honest()))
    ensures v.b ==> chk.Genuine(chk.flash.cells, chk.SlotAt(SLOT_B), old(chk.otp.Honest()))
    ensures NothingFailed(chk) && PrimeField() ==> v == old(Scanned(chk, chk.flash.cells, KeyNow(chk)))
    ensures old(chk.otp.Honest()) ==> chk.otp.Honest()
    ensures chk.flash.readFaults >= old(chk.flash.readFaults)
    ensures chk.counter.faults >= old(chk.counter.faults) && (old(chk.otp.codes) == [] ==> chk.otp.codes == [])
  {
    hide Ed25519.CurveGroup, Checker.Sized, Checker.Authentic, Checker.Signed, PrimeField, Otp.KeyInUse;
    var rcA, rcB;
    rcA, hA := chk.CheckImage(chk.SlotAt(SLOT_A));
    rcB, hB := chk.CheckImage(chk.SlotAt(SLOT_B));
    v := Slots(rcA == OK, rcB == OK);
    if rcB == OK && !chk.Genuine(chk.flash.cells, chk.SlotAt(SLOT_B), old(chk.otp.Honest())) {
      HonestyGrows(chk, chk.flash.cells, chk.SlotAt(SLOT_B));
    }
  }

  /** What an honest board accepts, any board accepts. */
  lemma HonestyGrows<S, T(!new), G(!new)>(chk: Checker<S, T, G>, cells: seq<byte>, slot: Slot)
    requires chk.Genuine(cells, slot, true)
    ensures chk.Genuine(cells, slot, false)
  {
    hide Checker.Sized, Checker.Verifies;
    var h := cells[slot.addr..slot.addr + HDR];
    var key, d :| chk.SignedBy(key, d, h, true);
    assert chk.SignedBy(key, d, h, false);
  }

  /** eboot_scan_images on the control block. */
  method RecordImages(bc: BootControl, v: Slots, hA: RawHeader, hB: RawHeader)
    modifies bc`block
    ensures Ctl(bc.block) == old(Ctl(bc.block)) && bc.block.magic == old(bc.block.magic)
    ensures bc.block.imgAVersion == (if v.a then ImageVersion(hA) else 0)
    ensures bc.block.imgBVersion == (if v.b then ImageVersion(hB) else 0)
    ensures bc.block.imgACrc == (if v.a then Le32(hA, 28) else 0)
    ensures bc.block.imgBCrc == (if v.b then Le32(hB, 28) else 0)
  {
    bc.block := if v.a then bc.block.(imgAVersion := ImageVersion(hA), imgACrc := Le32(hA, 28))
                else bc.block.(imgAVersion := 0, imgACrc := 0);
    bc.block := if v.b then bc.block.(imgBVersion := ImageVersion(hB), imgBCrc := Le32(hB, 28))
                else bc.block.(imgBVersion := 0, imgBCrc := 0);
  }

  // ---- the boot cycle ----

  datatype Outcome = Jumped(slot: u32, target: u32, counter: u32) | InRecovery

  /** A boot cycle: the block that was loaded, the slots found valid, how it ended, whether a
      factory reset was carried out, and the flash that the jump looked at. */
  datatype Cycle = Cycle(loaded: Control, v: Slots, outcome: Outcome, erased: bool, cells: seq<byte>)

  /** The recovery session works on the same block and flash. */
  ghost predicate Attached<R>(bc: BootControl, session: Recovery.RecoverySession<R>)
    reads bc, bc.flash, session
  {
    session.bc == bc && session.Geometry()
  }

  /** The block comes from the copies as they were read, and what could not be read was absent. */
  ghost predicate FromCopies(bc: BootControl, loaded: Control, p: seq<byte>, b: seq<byte>)
    requires bc.Geometry()
    reads bc.flash`cells
  {
    && loaded == Ctl(LoadOf(FORMAT, p, b).block)
    && (p == [] || p == bc.Copy(bc.primary)) && (FORMAT.valid(p) || b == [] || b == bc.Copy(bc.backup))
  }

  ghost function StoredControl(bc: BootControl): Control
    requires bc.Geometry()
    reads bc.flash`cells
  {
    Ctl(bc.OnFlash().block)
  }

  /** What a cycle that began with these flash contents may do. Valid slots passed every check;
      a jump is made only without a recovery request, to the selected slot, and only if the
      image in it is runnable at that moment; until then only the copies may have changed. */
  ghost predicate Checked<S, T(!new), G(!new)>(bc: BootControl, chk: Checker<S, T, G>, c: Cycle, cells: seq<byte>,
                                               honest: bool)
    reads chk.otp`revoked
  {
    && |chk.slots| == 3
    && (c.v.a ==> chk.Genuine(cells, chk.SlotAt(SLOT_A), honest))
    && (c.v.b ==> chk.Genuine(cells, chk.SlotAt(SLOT_B), honest))
    && bc.SameButCopies(cells, c.cells) && (!Stores(c.loaded, c.v) ==> c.cells == cells)
    && (c.outcome.Jumped? ==>
          && Chosen(c.loaded, c.v, c.outcome.slot)
          && Runnable(chk, c.cells, c.outcome.slot, honest, c.outcome.counter, c.outcome.target))
  }

  predicate Chosen(c: Control, v: Slots, slot: u32) {
    !ShouldRecover(c) && Select(c, v).rc == OK && Select(c, v).slot == slot && IsValid(v, slot)
  }

  /** What it must do if nothing fails: find exactly the slots that pass, and jump to the
      selected one if that is bootable. */
  ghost predicate Exact<S, T(!new), G(!new)>(chk: Checker<S, T, G>, c: Cycle, cells: seq<byte>, key: Option<Key>,
                                             floor: Option<u32>)
    requires |chk.slots| == 3
  {
    !ShouldRecover(c.loaded) ==>
      && c.v == Scanned(chk, cells, key)
      && (Select(c.loaded, c.v).rc == OK && Bootable(chk, c.cells, Select(c.loaded, c.v).slot, key, floor) ==>
            c.outcome.Jumped?)
  }

  /** The staged counter is that of the image jumped to, and its counter is at or above the
      floor; without a jump nothing is staged. */
  twostate predicate Admitted(staging: Rollback.Staging, outcome: Outcome)
    reads staging, staging.counter
  {
    if outcome.Jumped?
    then staging.counter.present ==>
           Rollback.Next(old(staging.St()), Rollback.Event.Jump(outcome.counter), staging.St())
    else staging.St() == old(staging.St())
  }

  /** eboot_main up to the jump or the recovery loop. The block that load returns from the
      copies in flash goes exactly through the boot step of the policy runs, and unless a flash
      operation fails, both copies then hold the resulting block. */
  method BootOnce<S, T(!new), G(!new), R>(bc: BootControl, staging: Rollback.Staging, chk: Checker<S, T, G>,
                                          session: Recovery.RecoverySession<R>, logHead: u32, resetReason: u32)
      returns (outcome: Outcome, ghost c: Cycle, ghost p: seq<byte>, ghost b: seq<byte>)
    requires Wired(bc, staging, chk) && Attached(bc, session)
    modifies bc`block, bc.flash, staging, staging.counter`faults, chk.otp`codes
    modifies session`authState, session`authFailCount, session`states, session`events
    ensures Wired(bc, staging, chk) && Attached(bc, session) && bc.block.magic == MAGIC
    ensures bc.flash.faults >= old(bc.flash.faults) && bc.flash.readFaults >= old(bc.flash.readFaults)
    ensures chk.counter.faults >= old(chk.counter.faults)
    ensures (old(chk.otp.Honest()) ==> chk.otp.Honest()) && (old(chk.otp.codes) == [] ==> chk.otp.codes == [])
    ensures c.outcome == outcome && old(FromCopies(bc, c.loaded, p, b))
    ensures bc.flash.readFaults == old(bc.flash.readFaults) ==> c.loaded == old(StoredControl(bc))
    ensures Checked(bc, chk, c, old(bc.flash.cells), old(chk.otp.Honest())) && Admitted(staging, outcome)
    ensures NothingFailed(chk) && PrimeField() ==>
              Exact(chk, c, old(bc.flash.cells), old(KeyNow(chk)), old(FloorNow(chk)))
    ensures Ctl(bc.block) == BootCycle(Bare(c.loaded), c.v, outcome.Jumped?, c.erased).ctl
    ensures outcome.Jumped? ==> outcome.slot == bc.block.active
    ensures bc.flash.faults == old(bc.flash.faults) ==> bc.Stored()
    ensures outcome.InRecovery? ==> session.authState == Recovery.Anonymous && session.authFailCount == 0
  {
    hide Encode, LoadOf, BootPolicy.Select, RecoveryEntered, Sha2.Hash, Has, With, Without, Recovery.Trace,
         Checker.Genuine, BootControl.Stored, BootControl.OnFlash, Ed25519.CurveGroup, ShouldRecover, JumpStored,
         DecodeAny, CopyValid, Defaults, Decode, Validate, Crc32.Crc, Covered, Sealed, BootCycle, FromCopies,
         StoredControl,
         Bootable, Scanned, PrimeField, Stores, Runnable, Rollback.Next, KeyNow, Recovery.RecoverySession.Blank,
         Recovery.RecoverySession.Erasable;
    ghost var loaded, v, erased, cells;
    loaded, p, b := LoadBlock(bc, resetReason);
    if ShouldRecover(Ctl(bc.block)) {
      v, cells := Slots(false, false), bc.flash.cells;
      erased := session.Enter(logHead);
      outcome := InRecovery;
    } else {
      outcome, v, erased, cells := SelectAndJump(bc, staging, chk, session, logHead);
    }
    c := Cycle(loaded, v, outcome, erased, cells);
    CycleOf(loaded, v, outcome.Jumped?, erased);
  }

  lemma CycleOf(c: Control, v: Slots, jumps: bool, erased: bool)
    ensures ShouldRecover(c) ==> BootCycle(Bare(c), v, jumps, erased).ctl == RecoveryEntered(c, erased)
    ensures !ShouldRecover(c) && (jumps ==> Select(c, v).rc == OK) ==>
              BootCycle(Bare(c), v, jumps, erased).ctl
              == if jumps then JumpStored(Select(c, v).ctl) else RecoveryEntered(Select(c, v).ctl, erased)
  {
    hide Select, RecoveryEntered, Has, With, Without;
  }

  /** The part of a boot that has no recovery request: scan, selection and jump. */
  method SelectAndJump<S, T(!new), G(!new), R>(bc: BootControl, staging: Rollback.Staging, chk: Checker<S, T, G>,
                                               session: Recovery.RecoverySession<R>, logHead: u32)
      returns (outcome: Outcome, ghost v: Slots, ghost erased: bool, ghost cells: seq<byte>)
    requires Wired(bc, staging, chk) && Attached(bc, session) && bc.block.magic == MAGIC
    requires !ShouldRecover(Ctl(bc.block))
    modifies bc`block, bc.flash, staging, staging.counter`faults, chk.otp`codes
    modifies session`authState, session`authFailCount, session`states, session`events
    ensures Wired(bc, staging, chk) && Attached(bc, session) && bc.block.magic == MAGIC
    ensures bc.flash.faults >= old(bc.flash.faults) && bc.flash.readFaults >= old(bc.flash.readFaults)
    ensures chk.counter.faults >= old(chk.counter.faults)
    ensures (old(chk.otp.Honest()) ==> chk.otp.Honest()) && (old(chk.otp.codes) == [] ==> chk.otp.codes == [])
    ensures var c := Cycle(old(Ctl(bc.block)), v, outcome, erased, cells);
            && Checked(bc, chk, c, old(bc.flash.cells), old(chk.otp.Honest())) && Admitted(staging, outcome)
            && (NothingFailed(chk) && PrimeField() ==>
                  Exact(chk, c, old(bc.flash.cells), old(KeyNow(chk)), old(FloorNow(chk))))
    ensures var sel := Select(old(Ctl(bc.block)), v);
            && Ctl(bc.block) == (if outcome.Jumped? then JumpStored(sel.ctl) else RecoveryEntered(sel.ctl, erased))
            && (outcome.Jumped? ==> outcome.slot == bc.block.active)
    ensures bc.flash.faults == old(bc.flash.faults) ==> bc.Stored()
    ensures outcome.InRecovery? ==> session.authState == Recovery.Anonymous && session.authFailCount == 0
  {
    hide BootPolicy.Select, RecoveryEntered, Checker.Genuine, BootControl.Stored, Runnable,
         Ed25519.CurveGroup, Stores, Bootable, Scanned, PrimeField, KeyNow, Rollback.Next, ShouldRecover;
    var found, selected, target := ScanAndSelect(bc, chk);
    v, cells := found, bc.flash.cells;
    ghost var honest := chk.otp.Honest();
    outcome, erased := JumpOrRecover(bc, staging, chk, session, selected, target, logHead);
    if outcome.Jumped? && honest && !old(chk.otp.Honest()) {
      RunnableGrows(chk, cells, target, outcome.counter, outcome.target);
    }
  }

  /** eboot_scan_images and eboot_select_slot. */
  method ScanAndSelect<S, T(!new), G(!new)>(bc: BootControl, chk: Checker<S, T, G>)
      returns (v: Slots, selected: bool, target: u32)
    requires bc.Geometry() && bc.flash == chk.flash && chk.Ready()
    modifies bc`block, bc.flash, chk.otp`codes, chk.counter`faults
    ensures bc.Geometry() && bc.OnlyCopies() && bc.block.magic == old(bc.block.magic)
    ensures bc.flash.faults >= old(bc.flash.faults) && bc.flash.readFaults >= old(bc.flash.readFaults)
    ensures chk.counter.faults >= old(chk.counter.faults)
    ensures (old(chk.otp.Honest()) ==> chk.otp.Honest()) && (old(chk.otp.codes) == [] ==> chk.otp.codes == [])
    ensures v.a ==> chk.Genuine(old(bc.flash.cells), chk.SlotAt(SLOT_A), old(chk.otp.Honest()))
    ensures v.b ==> chk.Genuine(old(bc.flash.cells), chk.SlotAt(SLOT_B), old(chk.otp.Honest()))
    ensures NothingFailed(chk) && PrimeField() ==> v == old(Scanned(chk, bc.flash.cells, KeyNow(chk)))
    ensures !Stores(old(Ctl(bc.block)), v) ==> bc.flash.cells == old(bc.flash.cells)
    ensures var s := Select(old(Ctl(bc.block)), v);
            && Ctl(bc.block) == s.ctl && (selected <==> s.rc == OK)
            && (selected ==> target == s.slot == bc.block.active && IsValid(v, target))
  {
    hide Encode, Decode, BootPolicy.Select, Sha2.Hash, Checker.Genuine, Ed25519.CurveGroup, StoredBySelect, Stores,
         Scanned, PrimeField, KeyNow;
    var hA, hB;
    v, hA, hB := Scan(chk);
    RecordImages(bc, v, hA, hB);
    SelectionIsSound(Ctl(bc.block), v);
    var rc;
    rc, target := PolicySelect(bc, v);
    assert rc == OK ==> IsValid(v, target);
    selected := rc == OK && target != SLOT_NONE;
  }

  lemma RunnableGrows<S, T(!new), G(!new)>(chk: Checker<S, T, G>, cells: seq<byte>, id: u32, counter: u32, target: u32)
    requires |chk.slots| == 3 && Runnable(chk, cells, id, true, counter, target)
    ensures Runnable(chk, cells, id, false, counter, target)
  {
    hide Checker.Genuine, ImageCounter.Declared;
    HonestyGrows(chk, cells, chk.SlotAt(id));
  }

  /** The jump to what was selected, and recovery if there is none or it fails. */
  method JumpOrRecover<S, T(!new), G(!new), R>(bc: BootControl, staging: Rollback.Staging, chk: Checker<S, T, G>,
                                               session: Recovery.RecoverySession<R>, selected: bool, target: u32,
                                               logHead: u32)
      returns (outcome: Outcome, ghost erased: bool)
    requires Wired(bc, staging, chk) && Attached(bc, session) && bc.block.magic == MAGIC
    modifies bc`block, bc.flash, staging, staging.counter`faults, chk.otp`codes
    modifies session`authState, session`authFailCount, session`states, session`events
    ensures Wired(bc, staging, chk) && Attached(bc, session) && bc.block.magic == MAGIC
    ensures bc.flash.faults >= old(bc.flash.faults) && bc.flash.readFaults >= old(bc.flash.readFaults)
    ensures chk.counter.faults >= old(chk.counter.faults)
    ensures (old(chk.otp.Honest()) ==> chk.otp.Honest()) && (old(chk.otp.codes) == [] ==> chk.otp.codes == [])
    ensures outcome.Jumped? ==>
              && selected && outcome.slot == target
              && Runnable(chk, old(bc.flash.cells), target, old(chk.otp.Honest()), outcome.counter, outcome.target)
    ensures Admitted(staging, outcome)
    ensures Ctl(bc.block) == if outcome.Jumped? then JumpStored(old(Ctl(bc.block)))
                             else RecoveryEntered(old(Ctl(bc.block)), erased)
    ensures bc.flash.faults == old(bc.flash.faults) ==> bc.Stored()
    ensures NothingFailed(chk) && PrimeField() && selected ==>
              old(Bootable(chk, bc.flash.cells, target, KeyNow(chk), FloorNow(chk))) ==> outcome.Jumped?
    ensures outcome.InRecovery? ==> session.authState == Recovery.Anonymous && session.authFailCount == 0
  {
    hide Encode, RecoveryEntered, JumpStored, Sha2.Hash, Has, Without, Recovery.Trace, BootControl.Stored,
         Ed25519.CurveGroup, Runnable, Bootable, PrimeField, KeyNow, Rollback.Next;
    erased := false;
    if selected {
      var rc, reached, entry, counter := JumpToApp(bc, staging, chk, target, logHead);
      if reached { return Jumped(target, entry, counter), false; }
    }
    erased := session.Enter(logHead);
    outcome := InRecovery;
  }

  /** Load, and the reset reason in RAM. */
  method LoadBlock(bc: BootControl, resetReason: u32)
      returns (ghost loaded: Control, ghost p: seq<byte>, ghost b: seq<byte>)
    requires bc.Geometry()
    modifies bc`block, bc.flash`readFaults
    ensures bc.Geometry() && loaded == Ctl(bc.block) && bc.block.magic == MAGIC
    ensures bc.flash.readFaults >= old(bc.flash.readFaults)
    ensures old(FromCopies(bc, loaded, p, b))
    ensures bc.flash.readFaults == old(bc.flash.readFaults) ==> loaded == old(StoredControl(bc))
  {
    hide Encode, Decode, DecodeAny, CopyValid, Validate, LoadOf, Defaults;
    var rc;
    rc, p, b := bc.Load();
    loaded := Ctl(bc.block);
    if bc.flash.readFaults == old(bc.flash.readFaults) { bc.LoadedIsOnFlash(p, b); }
    bc.block := bc.block.(resetReason := resetReason);
  }
}
