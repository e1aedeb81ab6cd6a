/** The boot control block and its two flash copies (core/bootctl.c). */
module BootCtl {
  import opened Types
  import opened Flash
  import opened Words
  import opened DualCopy
  import Crc32
  import Rollback

  const MAGIC: u32 := 0x45424354
  const VERSION: u32 := 1
  const SLOT_A: u32 := 0
  const SLOT_B: u32 := 1
  const SLOT_NONE: u32 := 0xFF
  const MAX_BOOT_ATTEMPTS: u32 := 3
  const FORCE_RECOVERY: bv32 := 1
  const TEST_BOOT: bv32 := 2
  const CONFIRMED: bv32 := 4
  const ROLLBACK: bv32 := 8
  const FACTORY_RESET: bv32 := 16
  const UPGRADE_PENDING: bv32 := 32

  /** Bytes of a block, and of the part its CRC covers. */
  const SIZE := 92
  const COVERED := 88

  type Reserved = s: seq<u32> | |s| == 7 witness [0, 0, 0, 0, 0, 0, 0]

  datatype Block = Block(magic: u32, version: u32, active: u32, pending: u32, confirmed: u32, attempts: u32,
                         maxAttempts: u32, resetReason: u32, flags: bv32, imgAVersion: u32, imgBVersion: u32,
                         imgACrc: u32, imgBCrc: u32, logHead: u32, bootCount: u32, reserved: Reserved, crc: bv32)

  predicate Has(f: bv32, bit: bv32) { f & bit != 0 }
  function With(f: bv32, bit: bv32): bv32 { f | bit }
  function Without(f: bv32, bit: bv32): bv32 { f & !bit }

  // ---- the 92 bytes ----

  function CoveredWords(b: Block): (ws: seq<Quad>)
    ensures |ws| == 22
  {
    [WordBytes(b.magic), WordBytes(b.version), WordBytes(b.active), WordBytes(b.pending), WordBytes(b.confirmed),
     WordBytes(b.attempts), WordBytes(b.maxAttempts), WordBytes(b.resetReason), RegBytes(b.flags),
     WordBytes(b.imgAVersion), WordBytes(b.imgBVersion), WordBytes(b.imgACrc), WordBytes(b.imgBCrc),
     WordBytes(b.logHead), WordBytes(b.bootCount),
     WordBytes(b.reserved[0]), WordBytes(b.reserved[1]), WordBytes(b.reserved[2]), WordBytes(b.reserved[3]),
     WordBytes(b.reserved[4]), WordBytes(b.reserved[5]), WordBytes(b.reserved[6])]
  }

  function Covered(b: Block): (s: seq<byte>)
    ensures |s| == COVERED
  {
    Flat(CoveredWords(b))
  }

  /** The block as it lies in memory and in flash. */
  function Encode(b: Block): (s: seq<byte>)
    ensures |s| == SIZE
  {
    Covered(b) + RegBytes(b.crc)
  }

  function Number(q: Quad): u32 { Le32(q, 0) }

  function FromWords(ws: seq<Quad>, crc: bv32): Block
    requires |ws| == 22
  {
    Block(Number(ws[0]), Number(ws[1]), Number(ws[2]), Number(ws[3]), Number(ws[4]), Number(ws[5]), Number(ws[6]),
          Number(ws[7]), Reg(ws[8]), Number(ws[9]), Number(ws[10]), Number(ws[11]), Number(ws[12]), Number(ws[13]),
          Number(ws[14]),
          [Number(ws[15]), Number(ws[16]), Number(ws[17]), Number(ws[18]), Number(ws[19]), Number(ws[20]),
              Number(ws[21])],
          crc)
  }

  function Decode(s: seq<byte>): Block
    requires |s| == SIZE
  {
    FromWords(Split(s[..COVERED]), Reg(s[COVERED..]))
  }

  lemma WordRoundTrips()
    ensures forall n: u32 :: Number(WordBytes(n)) == n
    ensures forall q: Quad :: WordBytes(Number(q)) == q
    ensures forall c: bv32 :: Reg(RegBytes(c)) == c
    ensures forall q: Quad :: RegBytes(Reg(q)) == q
  {
    hide WordBytes, RegBytes, Reg;
    forall n: u32 ensures Number(WordBytes(n)) == n { WordOfBytes(n); }
    forall q: Quad ensures WordBytes(Number(q)) == q && RegBytes(Reg(q)) == q {
      BytesOfWord(q);
      BytesOfReg(q);
    }
    forall c: bv32 ensures Reg(RegBytes(c)) == c { RegOfBytes(c); }
  }

  /** Decoding inverts encoding. */
  lemma DecodeEncode(b: Block)
    ensures Decode(Encode(b)) == b
  {
    hide WordBytes, RegBytes, Reg, Number, Flat, Split;
    WordRoundTrips();
    SplitFlat(CoveredWords(b));
    assert Encode(b)[..COVERED] == Covered(b) && Encode(b)[COVERED..] == RegBytes(b.crc);
    var r := b.reserved;
    assert r == [r[0], r[1], r[2], r[3], r[4], r[5], r[6]];
  }

  /** Every 92 bytes are the encoding of what they decode to: the block is its bytes. */
  lemma EncodeDecode(s: seq<byte>)
    requires |s| == SIZE
    ensures Covered(Decode(s)) == s[..COVERED] && Encode(Decode(s)) == s
  {
    hide WordBytes, RegBytes, Reg, Number, Flat, Split;
    WordRoundTrips();
    var ws := Split(s[..COVERED]);
    FlatSplit(s[..COVERED]);
    assert CoveredWords(Decode(s)) == ws;
    assert s[..COVERED] + s[COVERED..] == s;
  }

  // ---- validation ----

  /** eos_bootctl_validate. */
  predicate Validate(b: Block) { b.magic == MAGIC && Crc32.Crc(Covered(b)) == b.crc }

  /** bootctl_update_crc. */
  function Sealed(b: Block): Block { b.(crc := Crc32.Crc(Covered(b))) }

  lemma SealedValidates(b: Block)
    ensures Covered(Sealed(b)) == Covered(b)
    ensures Validate(Sealed(b)) <==> b.magic == MAGIC
  {
    hide Crc32.Crc, Flat, WordBytes, RegBytes;
    assert CoveredWords(Sealed(b)) == CoveredWords(b);
  }

  /** What load makes of one copy. */
  predicate CopyValid(s: seq<byte>): (valid: bool)
    ensures valid ==> |s| == SIZE
  {
    |s| == SIZE && Validate(Decode(s))
  }

  lemma EncodedValidates(b: Block)
    ensures CopyValid(Encode(b)) <==> Validate(b)
    ensures Decode(Encode(b)) == b
  {
    hide Validate, Decode;
    DecodeEncode(b);
  }

  /** A valid copy with exactly one byte changed never validates. */
  lemma OneByteNeverValidates(s: seq<byte>, i: nat, x: byte)
    requires CopyValid(s) && i < SIZE && s[i] != x
    ensures !CopyValid(s[i := x])
  {
    hide Crc32.Crc, Split, FromWords, Covered, Encode, RegBytes, Reg;
    var t := s[i := x];
    EncodeDecode(s);
    EncodeDecode(t);
    BytesOfReg(s[COVERED..]);
    BytesOfReg(t[COVERED..]);
    if i < COVERED {
      assert t[COVERED..] == s[COVERED..] && t[..COVERED] == s[..COVERED][i := x];
      Crc32.OneByteChanges(s[..COVERED], i, x);
      DecodedCrc(s);
      DecodedCrc(t);
    } else {
      assert t[..COVERED] == s[..COVERED] && t[COVERED..][i - COVERED] != s[COVERED..][i - COVERED];
      DecodedCrc(s);
      DecodedCrc(t);
    }
  }

  lemma DecodedCrc(s: seq<byte>)
    requires |s| == SIZE
    ensures Decode(s).crc == Reg(s[COVERED..])
  {
    hide Reg, Split;
  }

  /** An erased sector. */
  function Erased(): seq<byte> { seq(SIZE, _ => 0xFF) }

  lemma ErasedIsInvalid()
    ensures !CopyValid(Erased()) && !FORMAT.valid(Erased())
  {
    hide Crc32.Crc, Reg, WordBytes, RegBytes, Encode, Decode, Covered;
    var s := Erased();
    FormatAt(s);
    EncodeDecode(s);
    FirstWord(s);
  }

  lemma FirstWord(s: seq<byte>)
    requires |s| == SIZE
    ensures Decode(s).magic == Le32(s, 0)
  {
    hide Reg, FromWords;
    var c := s[..COVERED];
    assert Split(c)[0] == c[..4];
    DecodedMagic(s);
  }

  lemma DecodedMagic(s: seq<byte>)
    requires |s| == SIZE
    ensures Decode(s).magic == Number(Split(s[..COVERED])[0])
  {
    hide Reg, Split, Number;
  }

  // ---- load and save against the two copies ----

  /** eos_bootctl_init_defaults. */
  function Defaults(): Block { Sealed(Unsealed()) }

  function Unsealed(): Block {
    Block(MAGIC, VERSION, SLOT_A, SLOT_NONE, SLOT_NONE, 0, MAX_BOOT_ATTEMPTS, 0, 0, 0, 0, 0, 0, 0, 0, seq(7, _ => 0), 0)
  }

  lemma DefaultsValidate()
    ensures Validate(Defaults()) && Defaults().magic == MAGIC
  {
    hide Validate;
    SealedValidates(Unsealed());
  }

  function DecodeAny(s: seq<byte>): Block { if |s| == SIZE then Decode(s) else Defaults() }

  /** The control block as a record kept in two copies. */
  const FORMAT: Format<Block> := Format(CopyValid, DecodeAny, Defaults())

  lemma FormatAt(s: seq<byte>)
    ensures FORMAT.valid(s) == CopyValid(s) && FORMAT.decode(s) == DecodeAny(s) && FORMAT.defaults == Defaults()
  {
    hide CopyValid, DecodeAny, Defaults;
  }

  lemma NoCopy()
    ensures !FORMAT.valid([]) && FORMAT.defaults == Defaults() && Defaults().magic == MAGIC
  {
    hide Defaults;
    FormatAt([]);
    DefaultsValidate();
  }

  lemma CopyReads(s: seq<byte>)
    requires |s| == SIZE
    ensures FORMAT.valid(s) == Validate(Decode(s)) && FORMAT.decode(s) == Decode(s)
    ensures Validate(Decode(s)) ==> Decode(s).magic == MAGIC
  {
    hide Decode, Crc32.Crc, Covered, Defaults;
    FormatAt(s);
  }

  /** A finished save round-trips through load and leaves the copies safe for the next one. */
  lemma FinishedSaveRoundTrips(b: Block)
    requires b.magic == MAGIC
    ensures LoadOf(FORMAT, Encode(Sealed(b)), Encode(Sealed(b))) == Loaded(OK, Sealed(b))
    ensures BackupCurrent(FORMAT, Encode(Sealed(b)), Encode(Sealed(b)))
  {
    hide Validate, Decode, Encode, CopyValid, Defaults, Sealed;
    SealedValidates(b);
    EncodedValidates(Sealed(b));
    FormatAt(Encode(Sealed(b)));
  }

  /** The loss of both copies at a stored block: a save of b1 is cut short in its backup phase,
      the save of b2 after it in its primary phase, and load falls back to the defaults. */
  lemma TwoCutsLoseTheBlock(b0: Block, b1: Block, b2: Block)
    requires b0.magic == b1.magic == b2.magic == MAGIC
    ensures var n0, n1, n2 := Encode(Sealed(b0)), Encode(Sealed(b1)), Encode(Sealed(b2));
            && BackupCurrent(FORMAT, n0, n0) && Stopped(FORMAT, n0, n0, n1, n1, Erased())
            && Stopped(FORMAT, n1, Erased(), n2, Erased(), Erased())
            && LoadOf(FORMAT, Erased(), Erased()) == Loaded(ERR_CRC, Defaults())
  {
    hide Encode, Sealed, Defaults, Erased, CopyValid, LoadOf, BackupCurrent, Stopped;
    SealedIsCopy(b0);
    SealedIsCopy(b1);
    SealedIsCopy(b2);
    ErasedIsInvalid();
    NoCopy();
    SecondCrashLosesBoth(FORMAT, Encode(Sealed(b0)), Encode(Sealed(b1)), Encode(Sealed(b2)), Erased());
  }

  lemma SealedIsCopy(b: Block)
    requires b.magic == MAGIC
    ensures FORMAT.valid(Encode(Sealed(b)))
  {
    hide Validate, Decode, Encode, CopyValid, Defaults, Sealed;
    SealedValidates(b);
    EncodedValidates(Sealed(b));
    FormatAt(Encode(Sealed(b)));
  }

  // ---- the operations ----

  function Incremented(b: Block): Block {
    b.(attempts := (b.attempts + 1) % 0x1_0000_0000, bootCount := (b.bootCount + 1) % 0x1_0000_0000)
  }

  function AttemptsReset(b: Block): Block { b.(attempts := 0) }

  function PendingSet(b: Block, slot: u32): Block { b.(pending := slot, flags := With(b.flags, UPGRADE_PENDING)) }

  function PendingCleared(b: Block): Block { b.(pending := SLOT_NONE, flags := Without(b.flags, UPGRADE_PENDING)) }

  function ConfirmedActive(b: Block): Block {
    b.(confirmed := b.active, flags := Without(With(b.flags, CONFIRMED), TEST_BOOT), attempts := 0)
  }

  function RecoveryRequested(b: Block): Block { b.(flags := With(b.flags, FORCE_RECOVERY)) }

  function FactoryRequested(b: Block): Block { b.(flags := With(b.flags, FACTORY_RESET)) }

  function OtherSlot(slot: u32): u32 { if slot == SLOT_A then SLOT_B else if slot == SLOT_B then SLOT_A else SLOT_NONE }

  /** The block in RAM and its two copies in flash. */
  class BootControl {
    const flash: FlashDevice
    const primary: u32
    const backup: u32
    var block: Block

    /** The copies lie in the device and apart. */
    ghost predicate Geometry()
      reads flash`cells
    {
      && primary + SIZE <= |flash.cells| && backup + SIZE <= |flash.cells|
      && (primary + SIZE <= backup || backup + SIZE <= primary)
    }

    ghost function Copy(addr: u32): seq<byte>
      reads flash`cells
      requires addr + SIZE <= |flash.cells|
    {
      flash.cells[addr..addr + SIZE]
    }

    /** Nothing but the two copies differs. */
    ghost predicate SameButCopies(s: seq<byte>, t: seq<byte>) {
      |s| == |t| &&
      forall i :: 0 <= i < |s| && !(primary <= i < primary + SIZE) && !(backup <= i < backup + SIZE) ==> t[i] == s[i]
    }

    twostate predicate OnlyCopies()
      reads this, flash
    {
      SameButCopies(old(flash.cells), flash.cells)
    }

    /** What a save leaves, finished or not. Every stop in the middle of it is a return with
        an error here, since a failing operation may leave anything in its own copy. */
    twostate predicate Saved(rc: int)
      requires old(Geometry()) && Geometry()
      reads this, flash
    {
      && OnlyCopies()
      && flash.faults >= old(flash.faults) && (flash.faults == old(flash.faults) ==> rc == OK)
      && flash.readFaults == old(flash.readFaults)
      && (rc == OK ==> Copy(primary) == Copy(backup) == Encode(block))
      && (rc != OK ==> rc == ERR_FLASH && (Copy(backup) == old(Copy(backup)) || Copy(primary) == Encode(block)))
    }

    /** Both copies hold the block in RAM, and it validates. */
    ghost predicate Stored()
      reads this`block, flash`cells
    {
      Geometry() && Copy(primary) == Copy(backup) == Encode(block) && Validate(block)
    }

    lemma StoredNow(b: Block)
      requires Geometry() && block == Sealed(b) && b.magic == MAGIC && Copy(primary) == Copy(backup) == Encode(block)
      ensures Stored()
    {
      hide Encode, Validate, Sealed;
      SealedValidates(b);
    }

    /** What load makes of the copies when it can read them. */
    ghost function OnFlash(): Loaded<Block>
      reads flash`cells
      requires Geometry()
    {
      LoadOf(FORMAT, Copy(primary), Copy(backup))
    }

    /** Loading what is stored gives the block back. */
    lemma StoredLoads()
      requires Stored()
      ensures OnFlash() == Loaded(OK, block) && BackupCurrent(FORMAT, Copy(primary), Copy(backup))
    {
      hide Encode, Validate, Decode, Defaults;
      EncodedValidates(block);
      FormatAt(Encode(block));
    }

    lemma LoadedIsOnFlash(p: seq<byte>, b: seq<byte>)
      requires Geometry() && p == Copy(primary) && (FORMAT.valid(p) || b == Copy(backup))
      ensures LoadOf(FORMAT, p, b) == OnFlash()
    {
      hide Decode, DecodeAny, CopyValid, Defaults;
    }

    /** The crash theorem for the method: from a current backup, a save that returns or stops
        anywhere, with the copy in progress torn, leaves the old or the new block. */
    twostate lemma CrashKeepsABlock(rc: int)
      requires old(Geometry()) && Geometry() && Saved(rc) && Validate(block)
      requires BackupCurrent(FORMAT, old(Copy(primary)), old(Copy(backup)))
      requires Torn(FORMAT, Copy(primary), old(Copy(primary)), Encode(block))
      requires Torn(FORMAT, Copy(backup), old(Copy(backup)), Encode(block))
      ensures Stopped(FORMAT, old(Copy(primary)), old(Copy(backup)), Encode(block), Copy(primary), Copy(backup))
      ensures OnFlash() == old(OnFlash()) || OnFlash() == Loaded(OK, block)
      ensures OnFlash().rc == OK
    {
      hide Encode, Validate, Decode, Defaults, BackupCurrent, LoadOf;
      EncodedValidates(block);
      FormatAt(Encode(block));
      CrashKeepsOldOrNew(FORMAT, old(Copy(primary)), old(Copy(backup)), Encode(block), Copy(primary), Copy(backup));
    }

    constructor (flash: FlashDevice, primary: u32, backup: u32)
      requires primary + SIZE <= |flash.cells| && backup + SIZE <= |flash.cells|
      requires primary + SIZE <= backup || backup + SIZE <= primary
      ensures Geometry() && this.flash == flash && this.primary == primary && this.backup == backup
    {
      this.flash, this.primary, this.backup, block := flash, primary, backup, Defaults();
    }

    method ReadCopy(addr: u32) returns (ok: bool, ghost copy: seq<byte>)
      requires Geometry() && (addr == primary || addr == backup)
      modifies this`block, flash`readFaults
      ensures copy == [] || copy == Copy(addr)
      ensures flash.readFaults >= old(flash.readFaults)
                && (flash.readFaults == old(flash.readFaults) ==> copy == Copy(addr))
      ensures ok <==> FORMAT.valid(copy)
      ensures ok ==> block == FORMAT.decode(copy) && block.magic == MAGIC
    {
      hide Decode, Validate, CopyValid, DecodeAny, Defaults, Sealed, Encode;
      NoCopy();
      var rc, data := flash.Read(addr, SIZE);
      if rc != OK { return false, []; }
      CopyReads(data);
      block := Decode(data);
      return Validate(block), data;
    }

    /** eos_bootctl_load. Each copy is either read or, on a failing read, as good as absent. */
    method Load() returns (rc: int, ghost p: seq<byte>, ghost b: seq<byte>)
      requires Geometry()
      modifies this`block, flash`readFaults
      ensures flash.readFaults >= old(flash.readFaults)
      ensures flash.readFaults == old(flash.readFaults) ==> p == Copy(primary) && (FORMAT.valid(p) || b == Copy(backup))
      ensures Loaded(rc, block) == LoadOf(FORMAT, p, b) && block.magic == MAGIC
      ensures p == [] || p == Copy(primary)
      ensures FORMAT.valid(p) || b == [] || b == Copy(backup)
    {
      hide CopyValid, DecodeAny, Decode, Defaults, Validate, Encode;
      var ok;
      b := [];
      NoCopy();
      ok, p := ReadCopy(primary);
      if ok { return OK, p, b; }
      ok, b := ReadCopy(backup);
      if ok { return OK, p, b; }
      block := Defaults();
      rc := ERR_CRC;
    }

    /** Erase and rewrite one copy; the other stays as it was. */
    method Rewrite(addr: u32, ghost other: u32, data: seq<byte>) returns (rc: int)
      requires Geometry() && |data| == SIZE
      requires (addr == primary && other == backup) || (addr == backup && other == primary)
      modifies flash
      ensures Geometry() && SameOutside(flash.cells, old(flash.cells), addr, SIZE)
      ensures rc != OK ==> rc == ERR_FLASH
      ensures Copy(other) == old(Copy(other))
      ensures rc == OK ==> Copy(addr) == data
      ensures flash.faults >= old(flash.faults) && (flash.faults == old(flash.faults) ==> rc == OK)
      ensures flash.readFaults == old(flash.readFaults)
    {
      rc := flash.Erase(addr, SIZE);
      Outside(old(flash.cells), flash.cells, addr, other);
      if rc != OK { return ERR_FLASH; }
      ghost var erased := flash.cells;
      rc := flash.Write(addr, data);
      Outside(erased, flash.cells, addr, other);
      if rc != OK { return ERR_FLASH; }
    }

    /** eos_bootctl_save. */
    method Save() returns (rc: int)
      requires Geometry()
      modifies this`block, flash
      ensures Geometry() && block == Sealed(old(block)) && Saved(rc)
      ensures rc == OK && old(block.magic) == MAGIC ==> Stored()
    {
      hide Encode, Sealed, Crc32.Crc;
      block := Sealed(block);
      rc := Rewrite(primary, backup, Encode(block));
      if rc != OK { return; }
      rc := Rewrite(backup, primary, Encode(block));
      if rc == OK && old(block.magic) == MAGIC { StoredNow(old(block)); }
    }

    /** eos_bootctl_increment_attempts; the counters wrap at 32 bits. */
    method IncrementAttempts() returns (rc: int)
      requires Geometry()
      modifies this`block, flash
      ensures Geometry() && block == Sealed(Incremented(old(block))) && Saved(rc)
      ensures rc == OK && old(block.magic) == MAGIC ==> Stored()
    {
      hide Encode, Sealed;
      block := block.(attempts := (block.attempts + 1) % 0x1_0000_0000);
      block := block.(bootCount := (block.bootCount + 1) % 0x1_0000_0000);
      rc := Save();
    }

    method ResetAttempts() returns (rc: int)
      requires Geometry()
      modifies this`block, flash
      ensures Geometry() && block == Sealed(AttemptsReset(old(block))) && Saved(rc)
      ensures rc == OK && old(block.magic) == MAGIC ==> Stored()
    {
      hide Encode, Sealed;
      block := block.(attempts := 0);
      rc := Save();
    }

    method SetPending(slot: u32) returns (rc: int)
      requires Geometry()
      modifies this`block, flash
      ensures Geometry() && block == Sealed(PendingSet(old(block), slot)) && Saved(rc)
      ensures rc == OK && old(block.magic) == MAGIC ==> Stored()
    {
      hide Encode, Sealed;
      block := block.(pending := slot);
      block := block.(flags := With(block.flags, UPGRADE_PENDING));
      rc := Save();
    }

    method ClearPending() returns (rc: int)
      requires Geometry()
      modifies this`block, flash
      ensures Geometry() && block == Sealed(PendingCleared(old(block))) && Saved(rc)
      ensures rc == OK && old(block.magic) == MAGIC ==> Stored()
    {
      hide Encode, Sealed;
      block := block.(pending := SLOT_NONE);
      block := block.(flags := Without(block.flags, UPGRADE_PENDING));
      rc := Save();
    }

    /** eos_bootctl_confirm: the floor is raised only once the confirmation is stored, and then,
        if no counter operation fails, to the staged counter unless that is out of reach. */
    method Confirm(staging: Rollback.Staging) returns (rc: int)
      requires Geometry()
      modifies this`block, flash, staging, staging.counter
      ensures Geometry() && block == Sealed(ConfirmedActive(old(block))) && Saved(rc)
      ensures rc == OK && old(block.magic) == MAGIC ==> Stored()
      ensures rc != OK ==> staging.St() == old(staging.St())
      ensures staging.counter.present && rc == OK ==>
                exists c :: Rollback.Next(old(staging.St()), Rollback.Event.Commit(c), staging.St())
      ensures rc == OK && staging.counter.present && staging.counter.faults == old(staging.counter.faults) ==>
                staging.counter.value == old(staging.Raised())
      ensures staging.counter.faults >= old(staging.counter.faults)
    {
      hide Encode, Sealed, Has, With, Without, Rollback.Next, Rollback.Staging.Raised;
      block := block.(confirmed := block.active);
      block := block.(flags := With(block.flags, CONFIRMED));
      block := block.(flags := Without(block.flags, TEST_BOOT));
      block := block.(attempts := 0);
      rc := Save();
      if rc != OK { return; }
      var committed := staging.Commit();
      rc := OK;
    }

    method RequestRecovery() returns (rc: int)
      requires Geometry()
      modifies this`block, flash
      ensures Geometry() && block == Sealed(RecoveryRequested(old(block))) && Saved(rc)
      ensures rc == OK && old(block.magic) == MAGIC ==> Stored()
    {
      hide Encode, Sealed;
      block := block.(flags := With(block.flags, FORCE_RECOVERY));
      rc := Save();
    }

    method RequestFactoryReset() returns (rc: int)
      requires Geometry()
      modifies this`block, flash
      ensures Geometry() && block == Sealed(FactoryRequested(old(block))) && Saved(rc)
      ensures rc == OK && old(block.magic) == MAGIC ==> Stored()
    {
      hide Encode, Sealed;
      block := block.(flags := With(block.flags, FACTORY_RESET));
      rc := Save();
    }

    lemma Outside(s: seq<byte>, t: seq<byte>, addr: u32, other: u32)
      requires SameOutside(s, t, addr, SIZE) && other + SIZE <= |s|
      requires addr + SIZE <= other || other + SIZE <= addr
      ensures s[other..other + SIZE] == t[other..other + SIZE]
    {
    }
  }
}
