/** An update from its first call to its last: begin, write, finalize (core/fw_update.c, lines
    18-58 and 218-306). */
module FwInstall {
  import opened Types
  import opened Flash
  import opened BootCtl
  import opened BootFlow
  import opened BootPolicy
  import opened DualCopy
  import opened FwUpdate
  import opened ImageCheck
  import opened ImageHeader
  import opened Keystore
  import opened PointDecoding
  import opened Wrappers
  import Crc32
  import Ed25519
  import ImageCounter
  import ImageTlv
  import ImageVerify
  import Rollback
  import Sha2

  /** The slots lie in the device, apart from each other and from the boot control copies. */
  ghost predicate Laid<S, T(!new), G(!new)>(bc: BootControl, chk: Checker<S, T, G>)
    reads bc.flash`cells
  {
    bc.Geometry() && bc.flash == chk.flash && |bc.flash.cells| < 0x1_0000_0000 && LaidIn(bc, chk, |bc.flash.cells|)
  }

  ghost predicate LaidIn<S, T(!new), G(!new)>(bc: BootControl, chk: Checker<S, T, G>, n: nat) {
    && |chk.slots| == 3 && Apart(chk.slots[0], chk.slots[1])
    && (forall i :: 0 <= i < 2 ==> chk.slots[i].addr + chk.slots[i].size <= n
                                   && Apart(chk.slots[i], Slot(bc.primary, SIZE))
                                   && Apart(chk.slots[i], Slot(bc.backup, SIZE)))
  }

  predicate Apart(x: Slot, y: Slot) { x.addr + x.size <= y.addr || y.addr + y.size <= x.addr }

  /** eos_fw_update_begin: the slot that load says will be booted is refused; otherwise the
      target slot is erased and the context waits for a header. */
  method Begin<S, T(!new), G(!new)>(bc: BootControl, chk: Checker<S, T, G>, id: u32)
      returns (rc: int, ctx: UpdateCtx?, ghost booted: u32, ghost p: seq<byte>, ghost b: seq<byte>)
    requires Laid(bc, chk)
    modifies bc.flash
    ensures Laid(bc, chk) && (rc == OK <==> ctx != null)
    ensures rc == OK ==> IsSlot(id) && booted != id && fresh(ctx) && fresh(ctx.hdrBuf) && ctx.flash == bc.flash
                         && ctx.targetAddr == chk.SlotAt(id).addr && ctx.slotSize == chk.SlotAt(id).size
                         && ctx.After([]) && ctx.Counted([]) && ctx.state == Header
    ensures old(FromCopies(bc, Ctl(LoadOf(FORMAT, p, b).block), p, b)) && booted == LoadOf(FORMAT, p, b).block.active
    ensures bc.flash.readFaults == old(bc.flash.readFaults) ==> booted == old(StoredControl(bc)).active
    ensures bc.flash.readFaults >= old(bc.flash.readFaults) && bc.flash.faults >= old(bc.flash.faults)
    ensures OnlyIn(chk.SlotAt(id), bc, old(bc.flash.cells), bc.flash.cells)
    ensures !IsSlot(id) || booted == id ==> rc == ERR_INVALID && bc.flash.cells == old(bc.flash.cells)
    ensures bc.flash.faults == old(bc.flash.faults) ==>
              (rc == OK <==> IsSlot(id) && booted != id && chk.SlotAt(id).addr != 0 && chk.SlotAt(id).size != 0)
  {
    hide Encode, Decode, DecodeAny, CopyValid, Validate, Defaults, Sealed, Covered, Crc32.Crc, Crc32.Fold, LoadOf,
         OnlyIn, SameOutside, UpdateCtx.After, UpdateCtx.Counted, Meaning;
    ctx := null;
    ghost var before := bc.flash.cells;
    Unchanged(bc, chk.SlotAt(id), before);
    var control := new BootControl(bc.flash, bc.primary, bc.backup);
    rc, p, b := control.Load();
    booted := control.block.active;
    if bc.flash.readFaults == old(bc.flash.readFaults) { bc.LoadedIsOnFlash(p, b); }
    if id != SLOT_A && id != SLOT_B { return ERR_INVALID, null, booted, p, b; }
    if control.block.active == id { return ERR_INVALID, null, booted, p, b; }
    var slot := chk.SlotAt(id);
    if slot.addr == 0 || slot.size == 0 { return ERR_INVALID, null, booted, p, b; }
    rc := bc.flash.Erase(slot.addr, slot.size);
    ErasedOnly(bc, slot, before, bc.flash.cells);
    if rc != OK { return; }
    ctx := new UpdateCtx(bc.flash, slot.addr, slot.size);
  }

  /** When the slot that is refused is the one that is stored as active, whatever reads fail:
      exactly when that is slot A, which load falls back to, and a backup that validates says
      so too. */
  lemma ActiveIsKnownExactly(p: seq<byte>, b: seq<byte>)
    requires LoadOf(FORMAT, p, b).rc == OK
    ensures var active := LoadOf(FORMAT, p, b).block.active;
            (forall p', b' :: (p' == [] || p' == p) && (b' == [] || b' == b) ==>
               LoadOf(FORMAT, p', b').block.active == active)
            <==> active == SLOT_A && (FORMAT.valid(b) ==> FORMAT.decode(b).active == SLOT_A)
  {
    hide CopyValid, DecodeAny, Sealed, Validate;
    NoCopy();
    assert LoadOf(FORMAT, [], []).block == Defaults() && Defaults().active == SLOT_A by { UnsealedActive(); }
    assert FORMAT.valid(b) ==> LoadOf(FORMAT, [], b).block == FORMAT.decode(b);
  }

  lemma UnsealedActive()
    ensures Defaults().active == SLOT_A
  {
    hide Covered, Crc32.Crc;
  }

  /** A board stored as running from slot B loads as running from slot A if neither copy can be
      read: begin then erases slot B. */
  lemma UnreadableCopiesHideSlotB(block: Block)
    requires block.magic == MAGIC && block.active == SLOT_B
    ensures var n := Encode(Sealed(block));
            LoadOf(FORMAT, n, n).block.active == SLOT_B && LoadOf(FORMAT, [], []).block.active == SLOT_A
  {
    hide Encode, CopyValid, DecodeAny, Validate, Defaults;
    FinishedSaveRoundTrips(block);
    SealedKeeps(block);
    NoCopy();
    UnsealedActive();
  }

  lemma SealedKeeps(block: Block)
    ensures Sealed(block).active == block.active
  {
    hide Covered, Crc32.Crc;
  }

  /** What a finalized slot holds: the header of the stream, the payload behind it as the
      header stands for, a signature by a trusted key, and a declared counter. */
  ghost predicate Installed<S, T(!new), G(!new)>(chk: Checker<S, T, G>, cells: seq<byte>, addr: u32, h: seq<byte>,
                                                 honest: bool, counter: u32)
    requires |h| == HDR
    reads chk.otp`revoked
  {
    && addr + HDR + ImageSize(h) <= |cells| && cells[addr..addr + HDR] == h
    && Intact(chk.Sha(), h, cells[addr + HDR..addr + HDR + ImageSize(h)])
    && chk.Authentic(h, honest) && ImageCounter.Declared(cells, chk.slots, chk.Sha(), addr, counter)
  }

  /** The first half of finalize: payload and signature. */
  method CheckContents<S, T(!new), G(!new)>(ctx: UpdateCtx, chk: Checker<S, T, G>, ghost s: seq<byte>) returns (rc: int)
    requires chk.Ready() && ctx.flash == chk.flash && ctx.Shape() && (ctx.Streaming() ==> ctx.After(s))
    modifies ctx`state, ctx`lastError, chk.otp`codes, chk.counter`faults
    ensures old(chk.otp.Honest()) ==> chk.otp.Honest()
    ensures old(ctx.state) != Verify ==> rc == ERR_INVALID && ctx.state == old(ctx.state)
    ensures old(ctx.state) == Verify ==>
              if rc == OK then ctx.state == Verify else ctx.state == Error && ctx.lastError == rc
    ensures rc == OK ==>
              && old(ctx.state) == Verify && Accepted(s, ctx.slotSize)
              && Contents(chk, ctx.flash.cells, ctx.targetAddr, s, old(chk.otp.Honest()))
    ensures old(ctx.state) == Verify && NothingFailed(chk) && PrimeField() ==>
              (rc == OK <==> Delivered(chk, chk.flash.cells, ctx.targetAddr, s, old(KeyNow(chk))))
    ensures chk.counter.faults >= old(chk.counter.faults) && (old(chk.otp.codes) == [] ==> chk.otp.codes == [])
  {
    hide Ed25519.CurveGroup, Checker.Authentic, Checker.Signed, Otp.KeyInUse, PrimeField, Sha2.Hash, UpdateCtx.After,
         Meaning, Crc32.Fold, Crc32.Crc, Taken;
    if ctx.state != Verify { return ERR_INVALID; }
    var shaOf: seq<byte> -> seq<byte> := m => chk.render(Sha2.Hash(chk.f, chk.init, m, 64, 8));
    rc := ctx.CheckIntegrity(shaOf, s);
    if rc != OK { return; }
    ghost var n := ContainerLen(s[..HDR]);
    assert ctx.flash.cells[ctx.targetAddr..ctx.targetAddr + HDR] ==
        ctx.flash.cells[ctx.targetAddr..ctx.targetAddr + n][..HDR];
    assert s[..n][..HDR] == s[..HDR];
    rc := chk.VerifySignature(ctx.hdrBuf[..]);
    if rc != OK { ctx.Fail(rc); }
  }

  /** What that half establishes. */
  ghost predicate Contents<S, T(!new), G(!new)>(chk: Checker<S, T, G>, cells: seq<byte>, addr: u32,
                                                s: seq<byte>, honest: bool)
    reads chk.otp`revoked
  {
    && |s| >= HDR && addr + HDR + ImageSize(s[..HDR]) <= |cells| && cells[addr..addr + HDR] == s[..HDR]
    && Intact(chk.Sha(), s[..HDR], cells[addr + HDR..addr + HDR + ImageSize(s[..HDR])])
    && chk.Authentic(s[..HDR], honest)
  }

  /** The payload in the slot is the one the stream's header stands for, and that header is
      signed under the key in use. */
  ghost predicate Delivered<S, T(!new), G(!new)>(chk: Checker<S, T, G>, cells: seq<byte>, addr: u32, s: seq<byte>,
                                                 key: Option<Key>)
  {
    && |s| >= HDR && addr + HDR + ImageSize(s[..HDR]) <= |cells|
    && Intact(chk.Sha(), s[..HDR], cells[addr + HDR..addr + HDR + ImageSize(s[..HDR])])
    && chk.Signed(s[..HDR], key)
  }

  /** The second half: the declared counter against the floor. */
  method CheckFloor<S, T(!new), G(!new)>(ctx: UpdateCtx, staging: Rollback.Staging, chk: Checker<S, T, G>)
      returns (rc: int, counter: u32)
    requires chk.Ready() && ctx.flash == chk.flash && staging.counter == chk.counter && ctx.state == Verify
    modifies ctx`state, ctx`lastError, chk.flash`readFaults, staging.counter`faults
    ensures chk.flash.readFaults >= old(chk.flash.readFaults)
    ensures if rc == OK then ctx.state == Verify else ctx.state == Error && ctx.lastError == rc
    ensures rc == OK ==> ImageCounter.Declared(chk.flash.cells, chk.slots, chk.Sha(), ctx.targetAddr, counter)
    ensures rc == OK && staging.counter.present ==> staging.counter.value <= counter
    ensures NothingFailed(chk) && AboveFloor(chk, chk.flash.cells, ctx.targetAddr, FloorNow(chk)) ==> rc == OK
    ensures chk.counter.faults >= old(chk.counter.faults)
  {
    hide Ed25519.CurveGroup, ImageCounter.Declared, Sha2.Hash, PrimeField;
    rc, counter := ImageCounter.ReadImageCounter(chk.flash, chk.slots, chk.f, chk.init, chk.render, ctx.targetAddr);
    if rc != OK {
      ctx.Fail(rc);
      return;
    }
    rc := staging.Verify(counter);
    if rc != OK { ctx.Fail(rc); }
  }

  /** Both halves. */
  method CheckAll<S, T(!new), G(!new)>(ctx: UpdateCtx, staging: Rollback.Staging, chk: Checker<S, T, G>,
                                       ghost s: seq<byte>) returns (rc: int, counter: u32)
    requires chk.Ready() && ctx.flash == chk.flash && staging.counter == chk.counter
    requires ctx.Shape() && (ctx.Streaming() ==> ctx.After(s))
    modifies ctx`state, ctx`lastError, chk.flash`readFaults, staging.counter`faults, chk.otp`codes
    ensures chk.flash.readFaults >= old(chk.flash.readFaults) && chk.counter.faults >= old(chk.counter.faults)
    ensures old(ctx.state) != Verify ==> rc == ERR_INVALID && ctx.state == old(ctx.state)
    ensures old(ctx.state) == Verify ==>
              if rc == OK then ctx.state == Verify else ctx.state == Error && ctx.lastError == rc
    ensures rc == OK ==> Accepted(s, ctx.slotSize) && Installed(chk, chk.flash.cells, ctx.targetAddr, s[..HDR],
                                                                old(chk.otp.Honest()), counter)
    ensures rc == OK && staging.counter.present ==> staging.counter.value <= counter
    ensures NothingFailed(chk) && PrimeField() && old(ctx.state) == Verify ==>
              Delivered(chk, chk.flash.cells, ctx.targetAddr, s, old(KeyNow(chk))) ==>
                AboveFloor(chk, chk.flash.cells, ctx.targetAddr, FloorNow(chk)) ==> rc == OK
  {
    hide Ed25519.CurveGroup, ImageCounter.Declared, Checker.Authentic, Sha2.Hash, UpdateCtx.After, Meaning, Crc32.Fold,
         Crc32.Crc, Delivered, AboveFloor, PrimeField, KeyNow, Intact, HeaderVerdict;
    counter := 0;
    rc := CheckContents(ctx, chk, s);
    if rc != OK { return; }
    rc, counter := CheckFloor(ctx, staging, chk);
  }

  /** eos_fw_update_finalize: every check on what is now in the slot, and then the upgrade
      request. The floor is compared, not raised. What passes them all is accepted if nothing
      fails. */
  method Finalize<S, T(!new), G(!new)>(ctx: UpdateCtx, bc: BootControl, staging: Rollback.Staging,
                                       chk: Checker<S, T, G>, id: u32, mode: Mode, ghost s: seq<byte>)
      returns (rc: int, counter: u32)
    requires Wired(bc, staging, chk) && ctx.flash == bc.flash && ctx.Shape() && (ctx.Streaming() ==> ctx.After(s))
    modifies ctx`state, ctx`lastError, bc`block, bc.flash, staging.counter`faults, chk.otp`codes
    ensures bc.Geometry() && bc.OnlyCopies() && staging.St() == old(staging.St())
    ensures bc.flash.readFaults >= old(bc.flash.readFaults) && bc.flash.faults >= old(bc.flash.faults)
    ensures chk.counter.faults >= old(chk.counter.faults)
    ensures old(ctx.state) != Verify ==> rc == ERR_INVALID && ctx.state == old(ctx.state)
    ensures old(ctx.state) == Verify ==>
              if rc == OK then ctx.state == Complete else ctx.state == Error && ctx.lastError == rc
    ensures rc == OK ==> Accepted(s, ctx.slotSize) && Installed(chk, old(bc.flash.cells), ctx.targetAddr, s[..HDR],
                                                                old(chk.otp.Honest()), counter)
    ensures rc == OK && staging.counter.present ==> staging.counter.value <= counter
    ensures rc == OK ==> var u := UpgradeRequested(old(Ctl(bc.block)), id, mode); u.rc == OK && Ctl(bc.block) == u.ctl
    ensures bc.block.magic == old(bc.block.magic) && (rc == OK && bc.block.magic == MAGIC ==> bc.Stored())
    ensures NothingFailed(chk) && PrimeField() && bc.flash.faults == old(bc.flash.faults)
            && old(ctx.state) == Verify ==>
              Delivered(chk, old(bc.flash.cells), ctx.targetAddr, s, old(KeyNow(chk))) ==>
                AboveFloor(chk, old(bc.flash.cells), ctx.targetAddr, old(FloorNow(chk))) ==>
                  UpgradeRequested(old(Ctl(bc.block)), id, mode).rc == OK ==> rc == OK
    ensures ctx.state != Complete && rc != ERR_FLASH ==> bc.flash.cells == old(bc.flash.cells)
  {
    hide Ed25519.CurveGroup, Installed, Accepted, BootControl.Stored, UpdateCtx.After, Meaning, UpgradeRequested,
         Delivered, AboveFloor, PrimeField, KeyNow;
    rc, counter := CheckAll(ctx, staging, chk, s);
    if rc != OK { return; }
    rc := RequestUpgrade(bc, id, mode);
    if rc != OK {
      ctx.Fail(rc);
      return;
    }
    ctx.state := Complete;
  }

  // ---- a whole update ----

  /** What an update leaves behind when it succeeds: the slot holds what passed the checks, at or
      above the floor, and the upgrade to it is requested and stored. */
  ghost predicate Completed<S, T(!new), G(!new)>(bc: BootControl, chk: Checker<S, T, G>, id: u32, stream: seq<byte>,
                                                 mode: Mode, was: Control, honest: bool, counter: u32)
    requires |chk.slots| == 3
    reads bc, bc.flash, chk.otp`revoked, chk.counter
  {
    && InstalledFrom(bc, chk, chk.SlotAt(id), stream, honest, counter)
    && (chk.counter.present ==> chk.counter.value <= counter)
    && UpgradeRequested(was, id, mode).rc == OK && Ctl(bc.block) == UpgradeRequested(was, id, mode).ctl
    && (bc.block.magic == MAGIC ==> bc.Stored())
  }

  /** Begin, any chunks, finalize: no byte changes outside the target slot and the boot
      control copies, and the target is not the slot that load said would be booted. An
      installable stream is installed if nothing fails. */
  method Update<S, T(!new), G(!new)>(bc: BootControl, staging: Rollback.Staging, chk: Checker<S, T, G>, id: u32,
                                     chunks: seq<seq<byte>>, mode: Mode)
      returns (rc: int, counter: u32, ghost booted: u32)
    requires Wired(bc, staging, chk) && Laid(bc, chk)
    modifies bc`block, bc.flash, staging.counter`faults, chk.otp`codes
    ensures Laid(bc, chk)
    ensures bc.flash.readFaults == old(bc.flash.readFaults) ==> booted == old(StoredControl(bc)).active
    ensures IsSlot(booted) ==> Untouched(chk.SlotAt(booted), old(bc.flash.cells), bc.flash.cells)
    ensures OnlyIn(chk.SlotAt(id), bc, old(bc.flash.cells), bc.flash.cells)
    ensures rc == OK ==>
              && IsSlot(id) && id != booted
              && Completed(bc, chk, id, Flat(chunks), mode, old(Ctl(bc.block)), old(chk.otp.Honest()), counter)
    ensures NothingFailed(chk) && PrimeField() && bc.flash.faults == old(bc.flash.faults) && Free(chk, id, booted)
            && Wanted(chk, Flat(chunks), id, mode, old(Ctl(bc.block)), |bc.flash.cells|, old(KeyNow(chk)),
                      old(FloorNow(chk))) ==>
              rc == OK
  {
    hide Ed25519.CurveGroup, StoredControl, Untouched, Wanted, PrimeField, KeyNow, FloorNow, Completed, OnlyIn, Ctl;
    ghost var before, slot := bc.flash.cells, chk.SlotAt(id);
    rc, counter, booted := Session(bc, staging, chk, id, chunks, mode);
    if IsSlot(booted) { Spared(slot, chk.SlotAt(booted), bc, before, bc.flash.cells); }
  }

  /** The slot is mapped and is not the one to be booted. */
  ghost predicate Free<S, T(!new), G(!new)>(chk: Checker<S, T, G>, id: u32, booted: u32)
    requires |chk.slots| == 3
  {
    IsSlot(id) && booted != id && chk.SlotAt(id).addr != 0 && chk.SlotAt(id).size != 0
  }

  /** A stream to be installed, for which an upgrade may be requested. */
  ghost predicate Wanted<S, T(!new), G(!new)>(chk: Checker<S, T, G>, s: seq<byte>, id: u32, mode: Mode, was: Control,
                                              device: nat, key: Option<Key>, floor: Option<u32>)
    requires |chk.slots| == 3
  {
    Installable(chk, s, id, device, key, floor) && UpgradeRequested(was, id, mode).rc == OK
  }

  /** The calls in their order. */
  method Session<S, T(!new), G(!new)>(bc: BootControl, staging: Rollback.Staging, chk: Checker<S, T, G>, id: u32,
                                      chunks: seq<seq<byte>>, mode: Mode)
      returns (rc: int, counter: u32, ghost booted: u32)
    requires Wired(bc, staging, chk) && Laid(bc, chk)
    modifies bc`block, bc.flash, staging.counter`faults, chk.otp`codes
    ensures Laid(bc, chk)
    ensures bc.flash.readFaults == old(bc.flash.readFaults) ==> booted == old(StoredControl(bc)).active
    ensures OnlyIn(chk.SlotAt(id), bc, old(bc.flash.cells), bc.flash.cells)
    ensures !IsSlot(id) || booted == id ==> bc.flash.cells == old(bc.flash.cells)
    ensures rc == OK ==>
              && IsSlot(id) && id != booted
              && Completed(bc, chk, id, Flat(chunks), mode, old(Ctl(bc.block)), old(chk.otp.Honest()), counter)
    ensures NothingFailed(chk) && PrimeField() && bc.flash.faults == old(bc.flash.faults) && Free(chk, id, booted)
            && Wanted(chk, Flat(chunks), id, mode, old(Ctl(bc.block)), |bc.flash.cells|, old(KeyNow(chk)),
                      old(FloorNow(chk))) ==>
              rc == OK
  {
    hide Ed25519.CurveGroup, UpdateCtx.After, UpdateCtx.Counted, StoredControl, Wanted, PrimeField, KeyNow, Ctl,
         FromCopies, LoadOf, FloorNow, OnlyIn, SameOutside, Completed, LaidIn, Defaults, Crc32.Crc, Sealed, CopyValid,
         DecodeAny;
    counter := 0;
    var ctx;
    ghost var p, b;
    ghost var before := bc.flash.cells;
    rc, ctx, booted, p, b := Begin(bc, chk, id);
    if rc != OK { return; }
    ghost var erased := bc.flash.cells;
    rc, counter := Transfer(ctx, bc, staging, chk, id, chunks, mode);
    OnlyInTwice(bc, chk.SlotAt(id), before, erased, bc.flash.cells);
  }

  lemma ErasedOnly(bc: BootControl, slot: Slot, s: seq<byte>, t: seq<byte>)
    requires SameOutside(t, s, slot.addr, slot.size)
    ensures OnlyIn(slot, bc, s, t) && |s| == |t|
  {
  }

  lemma Unchanged(bc: BootControl, slot: Slot, s: seq<byte>)
    ensures OnlyIn(slot, bc, s, s)
  {
  }

  lemma OnlyInTwice(bc: BootControl, slot: Slot, s: seq<byte>, u: seq<byte>, t: seq<byte>)
    requires OnlyIn(slot, bc, s, u) && OnlyIn(slot, bc, u, t)
    ensures OnlyIn(slot, bc, s, t) && |s| == |t|
  {
  }

  /** What follows begin: the chunks and finalize. */
  method Transfer<S, T(!new), G(!new)>(ctx: UpdateCtx, bc: BootControl, staging: Rollback.Staging,
                                       chk: Checker<S, T, G>, id: u32, chunks: seq<seq<byte>>, mode: Mode)
      returns (rc: int, counter: u32)
    requires Wired(bc, staging, chk) && Laid(bc, chk) && ctx.flash == bc.flash && IsSlot(id)
    requires ctx.After([]) && ctx.Counted([])
    requires ctx.targetAddr == chk.SlotAt(id).addr && ctx.slotSize == chk.SlotAt(id).size
    modifies ctx, ctx.hdrBuf, bc`block, bc.flash, staging.counter`faults, chk.otp`codes
    ensures bc.Geometry() && bc.flash.readFaults >= old(bc.flash.readFaults) && bc.flash.faults >= old(bc.flash.faults)
    ensures chk.counter.faults >= old(chk.counter.faults)
    ensures OnlyIn(chk.SlotAt(id), bc, old(bc.flash.cells), bc.flash.cells)
    ensures rc == OK ==> Completed(bc, chk, id, Flat(chunks), mode, old(Ctl(bc.block)), old(chk.otp.Honest()), counter)
    ensures NothingFailed(chk) && PrimeField() && bc.flash.faults == old(bc.flash.faults)
            && Wanted(chk, Flat(chunks), id, mode, old(Ctl(bc.block)), |bc.flash.cells|, old(KeyNow(chk)),
                      old(FloorNow(chk))) ==>
              rc == OK
  {
    hide Ed25519.CurveGroup, UpdateCtx.After, Meaning, Installed, UpgradeRequested, BootControl.Stored, Delivered,
         AboveFloor, Ctl, Installable, PrimeField, KeyNow, Defaults, Crc32.Crc, Sealed, CopyValid, DecodeAny, OnlyIn,
         Untouched, SameOutside, BootControl.SameButCopies, InstalledFrom, FloorNow, Accepted;
    ghost var s, slot, before := Flat(chunks), chk.SlotAt(id), bc.flash.cells;
    FeedAll(ctx, chunks, []);
    assert [] + s == s;
    ghost var cells := bc.flash.cells;
    ErasedOnly(bc, slot, before, cells);
    if ctx.flash.faults == old(ctx.flash.faults) && Installable(chk, s, id, |cells|, KeyNow(chk), FloorNow(chk)) {
      InstallableArrives(ctx, chk, s, id, KeyNow(chk), FloorNow(chk));
    }
    rc, counter := Finalize(ctx, bc, staging, chk, id, mode, s);
    CopiesOnly(bc, slot, before, cells, bc.flash.cells);
    if rc == OK { InstalledNow(bc, chk, slot, s, cells, old(chk.otp.Honest()), counter); }
  }

  lemma CopiesOnly(bc: BootControl, slot: Slot, s: seq<byte>, u: seq<byte>, t: seq<byte>)
    requires OnlyIn(slot, bc, s, u) && bc.SameButCopies(u, t)
    requires Apart(slot, Slot(bc.primary, SIZE)) && Apart(slot, Slot(bc.backup, SIZE))
    ensures OnlyIn(slot, bc, s, t) && Untouched(slot, u, t) && |s| == |t|
  {
  }

  /** A stream that must be installed: an acceptable header whose own size is 156, a payload
      that it stands for, a signature under the key in use, and a TLV tail that carries a
      counter at or above the floor, with room behind the slot for the reads of the tail. */
  ghost predicate Installable<S, T(!new), G(!new)>(chk: Checker<S, T, G>, s: seq<byte>, id: u32, device: nat,
                                                   key: Option<Key>, floor: Option<u32>)
    requires |chk.slots| == 3
  {
    && Accepted(s, chk.SlotAt(id).size) && ContainerLen(s[..HDR]) <= |s|
    && WellFormed(s[..HDR]) && HdrSize(s[..HDR]) == HDR
    && Intact(chk.Sha(), s[..HDR], s[HDR..HDR + ImageSize(s[..HDR])]) && chk.Signed(s[..HDR], key)
    && chk.SlotAt(id).addr + chk.SlotAt(id).size + ImageTlv.MAX_SIZE <= device
    && exists c :: Carries(chk.Sha(), s[..HDR], Tail(s), c) && (floor.Some? ==> floor.value <= c)
  }

  /** The TLV tail of a container. */
  function Tail(s: seq<byte>): seq<byte>
    requires |s| >= HDR && ContainerLen(s[..HDR]) <= |s|
  {
    s[HDR + ImageSize(s[..HDR])..ContainerLen(s[..HDR])]
  }

  /** The tail is an area that the header vouches for, all of it, and declares the counter. */
  ghost predicate Carries(sha: seq<byte> -> seq<byte>, h: seq<byte>, tail: seq<byte>, counter: u32)
    requires |h| == HDR && |tail| == TlvLen(h)
  {
    if |tail| == 0 then counter == 0
    else && 4 <= |tail| && ImageCounter.Vouched(sha, h, tail)
         && Le16(tail, 0) == ImageTlv.INFO_MAGIC && 4 <= Le16(tail, 2) <= |tail|
         && ImageCounter.CounterOf(tail) == ImageCounter.Declares(counter)
  }

  /** Once it has been fed, finalize finds it in order. */
  lemma InstallableArrives<S, T(!new), G(!new)>(ctx: UpdateCtx, chk: Checker<S, T, G>, s: seq<byte>, id: u32,
                                                key: Option<Key>, floor: Option<u32>)
    requires |chk.slots| == 3 && ctx.flash == chk.flash && ctx.After(s) && IsSlot(id)
    requires Apart(chk.slots[0], chk.slots[1])
    requires ctx.targetAddr == chk.SlotAt(id).addr && ctx.slotSize == chk.SlotAt(id).size
    requires Installable(chk, s, id, |chk.flash.cells|, key, floor)
    ensures ctx.state == Verify && Delivered(chk, chk.flash.cells, ctx.targetAddr, s, key)
    ensures AboveFloor(chk, chk.flash.cells, ctx.targetAddr, floor)
  {
    hide Intact, WellFormed, Checker.Signed, Checker.Sha, Carries, HeaderVerdict, Meaning, Taken;
    var h := s[..HDR];
    AcceptedSize(h, ctx.slotSize);
    Arrived(ctx, s);
    var c :| Carries(chk.Sha(), h, Tail(s), c) && (floor.Some? ==> floor.value <= c);
    TailDeclares(chk, chk.flash.cells, id, h, Tail(s), c);
  }

  /** The parts of a container that has been fed, in the slot. */
  lemma Arrived(ctx: UpdateCtx, s: seq<byte>)
    requires ctx.After(s) && Accepted(s, ctx.slotSize) && ContainerLen(s[..HDR]) <= |s|
    ensures var cells, addr, h := ctx.flash.cells, ctx.targetAddr, s[..HDR];
            var t := addr + HDR + ImageSize(h);
            && ctx.state == Verify && t + TlvLen(h) <= |cells|
            && cells[addr..addr + HDR] == h && cells[addr + HDR..t] == s[HDR..HDR + ImageSize(h)]
            && cells[t..t + TlvLen(h)] == Tail(s)
  {
    hide Crc32.Fold, HeaderVerdict, ImageSize, TlvLen;
    var h, cells, addr := s[..HDR], ctx.flash.cells, ctx.targetAddr;
    var m, n := HDR + ImageSize(h), ContainerLen(h);
    assert cells[addr..addr + n] == s[..n];
    SubSlice(cells, addr, n, 0, HDR);
    SubSlice(cells, addr, n, HDR, m);
    SubSlice(cells, addr, n, m, n);
    SubSlice(s, 0, n, 0, HDR);
    SubSlice(s, 0, n, HDR, m);
    SubSlice(s, 0, n, m, n);
  }

  lemma SubSlice(s: seq<byte>, a: nat, n: nat, i: nat, j: nat)
    requires i <= j <= n && a + n <= |s|
    ensures s[a..a + n][i..j] == s[a + i..a + j]
  {
    var t, u := s[a..a + n][i..j], s[a + i..a + j];
    assert |t| == |u| && forall k :: 0 <= k < |t| ==> t[k] == s[a + i + k] == u[k];
  }

  lemma AcceptedSize(h: seq<byte>, slotSize: u32)
    requires |h| == HDR && HeaderVerdict(h, slotSize) == OK
    ensures ContainerLen(h) <= slotSize && TlvLen(h) <= ImageTlv.MAX_SIZE && 0 < ImageSize(h)
  {
  }

  /** A tail that carries a counter declares it from the slot, whatever follows it there. */
  lemma TailDeclares<S, T(!new), G(!new)>(chk: Checker<S, T, G>, cells: seq<byte>, id: u32, h: seq<byte>,
                                         tail: seq<byte>, c: u32)
    requires |chk.slots| == 3 && IsSlot(id) && Apart(chk.slots[0], chk.slots[1]) && chk.SlotAt(id).addr != 0
    requires |h| == HDR && WellFormed(h) && HdrSize(h) == HDR && |tail| == TlvLen(h) <= ImageTlv.MAX_SIZE
    requires var slot, t := chk.SlotAt(id), chk.SlotAt(id).addr + HDR + ImageSize(h);
             && ContainerLen(h) <= slot.size && slot.addr + slot.size + ImageTlv.MAX_SIZE <= |cells| < 0x1_0000_0000
             && cells[slot.addr..slot.addr + HDR] == h && cells[t..t + |tail|] == tail
    requires Carries(chk.Sha(), h, tail, c)
    ensures ImageCounter.Declared(cells, chk.slots, chk.Sha(), chk.SlotAt(id).addr, c)
  {
    hide WellFormed, ImageCounter.CounterOf, Checker.Sha;
    var slot := chk.SlotAt(id);
    var t := slot.addr + HDR + ImageSize(h);
    assert ImageCounter.FirstContaining(chk.slots, slot.addr, id);
    assert cells[t..][..|tail|] == tail;
    if |tail| != 0 {
      assert tail[..|tail|] == tail;
      SameTail(cells[t..], tail);
    }
  }

  lemma SameTail(area: seq<byte>, tail: seq<byte>)
    requires 4 <= |tail| <= |area| && area[..|tail|] == tail && |tail| <= ImageTlv.MAX_SIZE
    requires Le16(tail, 0) == ImageTlv.INFO_MAGIC && 4 <= Le16(tail, 2) <= |tail|
    ensures ImageCounter.CounterOf(area) == ImageCounter.CounterOf(tail)
  {
    hide ImageCounter.CounterFrom, ImageCounter.CounterOf, Le16;
    assert tail[..|tail|] == tail;
    ImageCounter.SameWord(area, tail, 0, |tail|);
    ImageCounter.AlikeSameCounter(area, tail, |tail|, Le16(tail, 2));
  }

  /** The slot has not changed since its contents passed every check of finalize, under the
      header at the head of the stream; with a header size of 156 the boot scan accepts it. */
  ghost predicate InstalledFrom<S, T(!new), G(!new)>(bc: BootControl, chk: Checker<S, T, G>, slot: Slot,
                                                     stream: seq<byte>, honest: bool, counter: u32)
    reads bc, bc.flash`cells, chk.otp`revoked
  {
    && Accepted(stream, slot.size)
    && (exists cells :: Installed(chk, cells, slot.addr, stream[..HDR], honest, counter)
                        && Untouched(slot, cells, bc.flash.cells))
    && (HdrSize(stream[..HDR]) == HDR ==> chk.Genuine(bc.flash.cells, slot, honest))
  }

  lemma InstalledNow<S, T(!new), G(!new)>(bc: BootControl, chk: Checker<S, T, G>, slot: Slot, stream: seq<byte>,
                                         cells: seq<byte>, honest: bool, counter: u32)
    requires Accepted(stream, slot.size) && Installed(chk, cells, slot.addr, stream[..HDR], honest, counter)
    requires slot.addr != 0 && Untouched(slot, cells, bc.flash.cells)
    ensures InstalledFrom(bc, chk, slot, stream, honest, counter)
  {
    hide Installed, HeaderVerdict, Checker.Genuine, Untouched;
    var h := stream[..HDR];
    AcceptedSize(h, slot.size);
    if HdrSize(h) == HDR {
      InstalledBoots(chk, cells, slot, h, honest, counter);
      GenuineStays(chk, cells, bc.flash.cells, slot, honest);
    }
  }

  lemma GenuineStays<S, T(!new), G(!new)>(chk: Checker<S, T, G>, s: seq<byte>, t: seq<byte>, slot: Slot, honest: bool)
    requires chk.Genuine(s, slot, honest) && Untouched(slot, s, t)
    ensures chk.Genuine(t, slot, honest)
  {
    hide Checker.Authentic, Intact;
    var h := s[slot.addr..slot.addr + HDR];
    assert t[slot.addr..slot.addr + HDR] == h;
    var p := slot.addr + HdrSize(h);
    assert s[p..p + ImageSize(h)] == t[p..p + ImageSize(h)];
  }

  ghost predicate Untouched(slot: Slot, s: seq<byte>, t: seq<byte>) {
    |s| == |t| && forall a :: slot.addr <= a < slot.addr + slot.size && a < |s| ==> s[a] == t[a]
  }

  /** Only the slot and the boot control copies differ. */
  ghost predicate OnlyIn(slot: Slot, bc: BootControl, s: seq<byte>, t: seq<byte>) {
    && |s| == |t|
    && (forall a ::
          (0 <= a < |s| && !(slot.addr <= a < slot.addr + slot.size) && !(bc.primary <= a < bc.primary + SIZE)
           && !(bc.backup <= a < bc.backup + SIZE)) ==> s[a] == t[a])
  }

  /** The other slot is not among the bytes that differ. */
  lemma Spared(slot: Slot, other: Slot, bc: BootControl, s: seq<byte>, t: seq<byte>)
    requires OnlyIn(slot, bc, s, t) && (s == t || Apart(slot, other))
    requires Apart(other, Slot(bc.primary, SIZE)) && Apart(other, Slot(bc.backup, SIZE))
    ensures Untouched(other, s, t)
  {
  }

  // ---- header sizes ----

  /** The update stream puts the payload behind the 156 bytes of the header; the boot checks
      look for it behind the declared header size. What was finalized passes them when that
      size is 156. */
  lemma InstalledBoots<S, T(!new), G(!new)>(chk: Checker<S, T, G>, cells: seq<byte>, slot: Slot, h: seq<byte>,
                                            honest: bool, counter: u32)
    requires |h| == HDR && Installed(chk, cells, slot.addr, h, honest, counter) && HdrSize(h) == HDR
    requires slot.addr != 0 && ImageSize(h) > 0 && HDR + ImageSize(h) + TlvLen(h) <= slot.size
    ensures chk.Genuine(cells, slot, honest)
  {
    hide Checker.Authentic, Sha2.Hash, Intact, WellFormed;
    assert cells[slot.addr..slot.addr + HDR] == h;
  }

  /** The header and a payload behind its 156 bytes, as the update stream leaves them. */
  ghost predicate Streamed(cells: seq<byte>, slot: Slot, h: seq<byte>, payload: seq<byte>) {
    && |h| == HDR && slot.addr + slot.size <= |cells| && HDR + |payload| <= slot.size
    && cells[slot.addr..slot.addr + HDR] == h && cells[slot.addr + HDR..slot.addr + HDR + |payload|] == payload
  }

  function Altered(s: seq<byte>, i: nat, x: byte): seq<byte> { if i < |s| then s[i := x] else s }

  /** The digest tells payloads apart that differ in one byte. */
  ghost predicate Tells(sha: seq<byte> -> seq<byte>) {
    forall s: seq<byte>, i: nat, x: byte :: i < |s| && s[i] != x ==> sha(Altered(s, i, x)) != sha(s)
  }

  /** Take any header that the update stream and the boot checks take, and a payload that it
      stands for. That the boot checks look at the payload that finalize checked, whatever else
      is in the slot, holds exactly for a declared header size of 156. */
  lemma SamePayloadExactly(slot: Slot, h: seq<byte>, payload: seq<byte>, sha: seq<byte> -> seq<byte>)
    requires |h| == HDR && HeaderVerdict(h, slot.size) == OK && WellFormed(h) && FitsSlot(h, slot.size)
    requires |payload| == ImageSize(h) && Intact(sha, h, payload) && (HashIsSha256(h) ==> Tells(sha))
    ensures HdrSize(h) == HDR <==>
            forall cells: seq<byte> :: Streamed(cells, slot, h, payload) ==>
              ImageVerify.PayloadIntact(cells, sha, h, slot.addr)
  {
    hide Intact, HeaderVerdict, WellFormed, HashIsSha256, Tells;
    AcceptedSize(h, slot.size);
    SizeIsAtLeast(h);
    if HdrSize(h) != HDR {
      var n, at := |payload|, slot.addr + HdrSize(h);
      var cells, other := TwoFillings(slot, h, payload, HdrSize(h));
      OneByteBreaks(sha, h, cells[at..at + n], n - 1, 1);
    }
  }

  /** Two slots the stream may leave, which differ in the last byte behind a larger header. */
  lemma TwoFillings(slot: Slot, h: seq<byte>, payload: seq<byte>, from: nat)
      returns (cells: seq<byte>, other: seq<byte>)
    requires |h| == HDR < from && 0 < |payload| && from + |payload| <= slot.size
    ensures Streamed(cells, slot, h, payload) && Streamed(other, slot, h, payload)
    ensures var at, n := slot.addr + from, |payload|;
            && at + n <= |cells| == |other| && cells[at + n - 1] == 0
            && other[at..at + n] == cells[at..at + n][n - 1 := 1]
  {
    var front := Sha2.Zeros(slot.addr) + h + payload;
    cells := front + Sha2.Zeros(slot.addr + slot.size - |front|);
    other := cells[slot.addr + from + |payload| - 1 := 1];
  }

  lemma SizeIsAtLeast(h: seq<byte>)
    requires |h| == HDR && WellFormed(h)
    ensures HDR <= HdrSize(h)
  {
  }

  /** Not both of two payloads that differ in one byte are what a header stands for. */
  lemma OneByteBreaks(sha: seq<byte> -> seq<byte>, h: seq<byte>, p: seq<byte>, i: nat, x: byte)
    requires |h| == HDR && (HashIsSha256(h) ==> Tells(sha)) && i < |p| && p[i] != x
    ensures !Intact(sha, h, p) || !Intact(sha, h, p[i := x])
  {
    hide Crc32.Crc, HashIsSha256, StoredCrc, Hash;
    assert Altered(p, i, x) == p[i := x];
    Crc32.OneByteChanges(p, i, x);
  }
}
