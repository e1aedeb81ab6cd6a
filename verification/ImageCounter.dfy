/** The authenticated security counter of an image (core/rollback.c, lines 20-167). */
module ImageCounter {
  import opened Types
  import opened Flash
  import opened ImageHeader
  import opened ImageTlv
  import ImageVerify
  import Sha2
  import Sha256

  const TLV_HASH_LEN := 28

  // ---- what a TLV area declares ----

  datatype Counter = Malformed | Declares(value: u32)

  /** The first MIN_SEC_VER entry from off on; none means 0. */
  function CounterFrom(area: seq<byte>, off: nat, count: nat, total: nat): Counter
    decreases total - off
  {
    if !EntryAt(area, off, count, total) then Declares(0)
    else if Le16(area, off) == MIN_SEC_VER then
      if Le16(area, off + 2) != 4 || off + 8 > |area| then Malformed else Declares(Le32(area, off + 4))
    else CounterFrom(area, Align4(off + 4 + Le16(area, off + 2)), count + 1, total)
  }

  /** The counter of the area that begins where area begins. */
  function CounterOf(area: seq<byte>): Counter
    requires |area| >= 4
  {
    if Le16(area, 0) != INFO_MAGIC then Declares(0)
    else if !(4 <= Le16(area, 2) <= MAX_SIZE) then Malformed
    else CounterFrom(area, 4, 0, Le16(area, 2))
  }

  predicate FirstAt(es: seq<Entry>, kind: u16, k: nat) {
    k < |es| && es[k].kind == kind && forall j :: 0 <= j < k ==> es[j].kind != kind
  }

  /** Searching the parsed entries is searching the area. */
  lemma {:induction false} FoundInEntries(area: seq<byte>, base: nat, off: nat, count: nat, total: nat, k: nat)
    requires base + |area| < 0x1_0000_0000 && FirstAt(Entries(area, base, off, count, total), MIN_SEC_VER, k)
    ensures var e := Entries(area, base, off, count, total)[k];
            && base <= e.offset
            && CounterFrom(area, off, count, total) ==
                 if e.len != 4 || e.offset - base + 4 > |area| then Malformed else Declares(Le32(area, e.offset - base))
    decreases k
  {
    hide Align4, Le16, Le32, Entries;
    EntriesStep(area, base, off, count, total);
    var next := Align4(off + 4 + Le16(area, off + 2));
    if k > 0 {
      var es, tail := Entries(area, base, off, count, total), Entries(area, base, next, count + 1, total);
      assert forall j :: 0 <= j < |tail| ==> tail[j] == es[j + 1];
      assert es[0].kind != MIN_SEC_VER;
      FoundInEntries(area, base, next, count + 1, total, k - 1);
    }
  }

  lemma {:induction false} NotInEntries(area: seq<byte>, base: nat, off: nat, count: nat, total: nat)
    requires base + |area| < 0x1_0000_0000
    requires forall k :: 0 <= k < |Entries(area, base, off, count, total)| ==>
               Entries(area, base, off, count, total)[k].kind != MIN_SEC_VER
    ensures CounterFrom(area, off, count, total) == Declares(0)
    decreases total - off
  {
    hide Align4, Le16, Le32, Entries;
    EntriesStep(area, base, off, count, total);
    if EntryAt(area, off, count, total) {
      var next := Align4(off + 4 + Le16(area, off + 2));
      var es, tail := Entries(area, base, off, count, total), Entries(area, base, next, count + 1, total);
      assert forall j :: 0 <= j < |tail| ==> tail[j] == es[j + 1];
      assert es[0].kind != MIN_SEC_VER;
      NotInEntries(area, base, next, count + 1, total);
    }
  }

  // ---- what the digest fixes ----

  /** Entries and counters begin at multiples of four, so only that much of the declared
      area is ever interpreted. */
  function Interpreted(total: nat): nat { total / 4 * 4 }

  lemma {:induction false} SamePrefixSameCounter(a: seq<byte>, b: seq<byte>, off: nat, count: nat, total: nat)
    requires off % 4 == 0 && Interpreted(total) <= |a| && Interpreted(total) <= |b|
    requires a[..Interpreted(total)] == b[..Interpreted(total)]
    ensures CounterFrom(a, off, count, total) == CounterFrom(b, off, count, total)
    decreases total - off
  {
    hide Align4;
    var n := Interpreted(total);
    if off + 4 <= total {
      WordInside(off, total);
      SameWord(a, b, off, n);
      if EntryAt(a, off, count, total) {
        var len := Le16(a, off + 2);
        if len == 4 {
          WordInside(off + 4, total);
          SameWord(a, b, off + 4, n);
        }
        SamePrefixSameCounter(a, b, Align4(off + 4 + len), count + 1, total);
      }
    }
  }

  lemma WordInside(off: nat, total: nat)
    requires off % 4 == 0 && off + 4 <= total
    ensures off + 4 <= Interpreted(total)
  {
  }

  lemma SameWord(a: seq<byte>, b: seq<byte>, off: nat, n: nat)
    requires off + 4 <= n <= |a| && n <= |b| && a[..n] == b[..n]
    ensures Le16(a, off) == Le16(b, off) && Le16(a, off + 2) == Le16(b, off + 2) && Le32(a, off) == Le32(b, off)
  {
    assert forall i :: 0 <= i < n ==> a[i] == a[..n][i] == b[..n][i] == b[i];
  }

  /** Both areas declare total bytes and agree on the first n. */
  ghost predicate Alike(a: seq<byte>, b: seq<byte>, n: nat, total: nat) {
    && total <= |a| && total <= |b| && n <= |a| && n <= |b| && 4 <= n && a[..n] == b[..n]
    && 4 <= total <= MAX_SIZE
    && Le16(a, 0) == Le16(b, 0) == INFO_MAGIC && Le16(a, 2) == Le16(b, 2) == total
  }

  /** An area whose only interpreted entries are a filler and a counter at the very end. */
  function Crafted(total: nat, value: u32): (a: seq<byte>)
    requires 12 <= total <= MAX_SIZE
    ensures |a| == total
  {
    var t := Interpreted(total);
    var filler := if t == 12 then [] else Half(1) + Half(t - 16) + Sha2.Zeros(t - 16);
    Half(INFO_MAGIC) + Half(total) + filler
        + (Half(MIN_SEC_VER) + Half(4) + (Half(value % 0x1_0000) + Half(value / 0x1_0000)))
    + Sha2.Zeros(total - t)
  }

  lemma LastEntry(a: seq<byte>, off: nat, count: nat, total: nat)
    requires off + 8 <= total <= |a| && count < MAX_ENTRIES && Le16(a, off) == MIN_SEC_VER && Le16(a, off + 2) == 4
    ensures CounterFrom(a, off, count, total) == Declares(Le32(a, off + 4))
  {
    hide Align4, Le16, Le32;
  }

  lemma SkipEntry(a: seq<byte>, off: nat, count: nat, total: nat)
    requires EntryAt(a, off, count, total) && Le16(a, off) != MIN_SEC_VER
    ensures CounterFrom(a, off, count, total) == CounterFrom(a, Align4(off + 4 + Le16(a, off + 2)), count + 1, total)
  {
    hide Align4, Le16, Le32, EntryAt;
  }

  lemma CraftedDeclares(total: nat, value: u32)
    requires 12 <= total <= MAX_SIZE
    ensures var a := Crafted(total, value);
            Le16(a, 0) == INFO_MAGIC && Le16(a, 2) == total && CounterOf(a) == Declares(value)
  {
    hide Le16, Le32, CounterFrom, EntryAt, Half, Align4;
    var a, t := Crafted(total, value), Interpreted(total);
    var info := Half(INFO_MAGIC) + Half(total);
    HalvesOf(info, INFO_MAGIC, total, a[4..]);
    assert a == info + a[4..];
    CraftedEnd(total, value);
    if t == 12 {
      LastEntry(a, 4, 0, total);
    } else {
      var item := Item(1, Sha2.Zeros(t - 16));
      FirstItem(info, item, a[t - 8..], 0, 0, total);
      assert a == info + ItemBytes(item) + a[t - 8..];
      HeaderReads(info, item, a[t - 8..]);
      SkipEntry(a, 4, 0, total);
      AlreadyAligned(4 + 4 + (t - 16));
      LastEntry(a, t - 8, 1, total);
    }
  }

  lemma AlreadyAligned(n: nat)
    requires n % 4 == 0
    ensures Align4(n) == n
  {
  }

  lemma CraftedEnd(total: nat, value: u32)
    requires 12 <= total <= MAX_SIZE
    ensures var a, t := Crafted(total, value), Interpreted(total);
            Le16(a, t - 8) == MIN_SEC_VER && Le16(a, t - 6) == 4 && Le32(a, t - 4) == value
  {
    hide Le16, Le32, Half;
    var a, t := Crafted(total, value), Interpreted(total);
    var front := a[..t - 8];
    var data := Half(value % 0x1_0000) + Half(value / 0x1_0000);
    CounterAt(front, data, Sha2.Zeros(total - t));
    assert a == front + (Half(MIN_SEC_VER) + Half(4) + data) + Sha2.Zeros(total - t);
    ValueOf(front + Half(MIN_SEC_VER) + Half(4), value, Sha2.Zeros(total - t));
    assert a == (front + Half(MIN_SEC_VER) + Half(4)) + data + Sha2.Zeros(total - t);
  }

  lemma HalvesOf(info: seq<byte>, x: u16, y: u16, rest: seq<byte>)
    requires info == Half(x) + Half(y)
    ensures Le16(info + rest, 0) == x && Le16(info + rest, 2) == y
  {
  }

  lemma CounterAt(front: seq<byte>, data: seq<byte>, rest: seq<byte>)
    requires |data| == 4
    ensures var a := front + (Half(MIN_SEC_VER) + Half(4) + data) + rest;
            Le16(a, |front|) == MIN_SEC_VER && Le16(a, |front| + 2) == 4
  {
    HeaderReads(front, Item(MIN_SEC_VER, data), rest);
  }

  lemma ValueOf(front: seq<byte>, value: u32, rest: seq<byte>)
    ensures Le32(front + (Half(value % 0x1_0000) + Half(value / 0x1_0000)) + rest, |front|) == value
  {
    var lo, hi := Half(value % 0x1_0000), Half(value / 0x1_0000);
    var a := front + (lo + hi) + rest;
    assert a[|front|] == lo[0] && a[|front| + 1] == lo[1] && a[|front| + 2] == hi[0] && a[|front| + 3] == hi[1];
    assert Le16(lo, 0) == value % 0x1_0000 && Le16(hi, 0) == value / 0x1_0000;
  }

  /** Areas that differ in the last interpreted byte only, and in what they declare. */
  lemma LastByteDecides(total: nat, n: nat)
    requires 4 <= n < Interpreted(total) && total <= MAX_SIZE
    ensures exists a, b :: Alike(a, b, n, total) && CounterOf(a) != CounterOf(b)
  {
    hide CounterFrom, Le32;
    if total < 12 {
      var a := Half(INFO_MAGIC) + Half(total) + Half(MIN_SEC_VER) + Half(0) + Sha2.Zeros(total - 8);
      var b := Half(INFO_MAGIC) + Half(total) + Half(MIN_SEC_VER) + Half(0x100) + Sha2.Zeros(total - 8);
      ShortAreas(total, a, b);
      assert Alike(a, b, n, total);
    } else {
      CraftedDeclares(total, 0);
      CraftedDeclares(total, 0x100_0000);
      CraftedPrefix(total, n);
      assert Alike(Crafted(total, 0), Crafted(total, 0x100_0000), n, total);
    }
  }

  lemma ShortAreas(total: nat, a: seq<byte>, b: seq<byte>)
    requires 8 <= total < 12
    requires a == Half(INFO_MAGIC) + Half(total) + Half(MIN_SEC_VER) + Half(0) + Sha2.Zeros(total - 8)
    requires b == Half(INFO_MAGIC) + Half(total) + Half(MIN_SEC_VER) + Half(0x100) + Sha2.Zeros(total - 8)
    ensures CounterOf(a) == Malformed && CounterOf(b) == Declares(0) && a[..7] == b[..7]
    ensures Le16(a, 0) == Le16(b, 0) == INFO_MAGIC && Le16(a, 2) == Le16(b, 2) == total
  {
  }

  lemma CraftedPrefix(total: nat, n: nat)
    requires 12 <= total <= MAX_SIZE && n < Interpreted(total)
    ensures Crafted(total, 0)[..n] == Crafted(total, 0x100_0000)[..n]
  {
  }

  /** An authenticated prefix of n bytes fixes the declared counter exactly when it covers
      the interpreted part of the declared area. The parser checks the declared total
      against the maximum only, not against the length the header vouches for. */
  lemma PrefixFixesCounterExactly(n: nat, total: nat)
    requires 4 <= n <= MAX_SIZE && 4 <= total <= MAX_SIZE
    ensures Interpreted(total) <= n <==> forall a, b :: Alike(a, b, n, total) ==> CounterOf(a) == CounterOf(b)
  {
    hide CounterFrom, CounterOf;
    if Interpreted(total) <= n {
      forall a, b | Alike(a, b, n, total) ensures CounterOf(a) == CounterOf(b) {
        AlikeSameCounter(a, b, n, total);
      }
    } else {
      LastByteDecides(total, n);
    }
  }

  lemma AlikeSameCounter(a: seq<byte>, b: seq<byte>, n: nat, total: nat)
    requires Alike(a, b, n, total) && Interpreted(total) <= n
    ensures CounterOf(a) == CounterOf(b)
  {
    hide CounterFrom, Le16;
    var t := Interpreted(total);
    assert a[..t] == a[..n][..t] && b[..t] == b[..n][..t];
    SamePrefixSameCounter(a, b, 4, 0, total);
  }

  // ---- reading it ----

  function Trunc(d: seq<byte>): seq<byte> { if |d| <= TLV_HASH_LEN then d else d[..TLV_HASH_LEN] }

  /** The n-byte area passes the header's digest. */
  ghost predicate Vouched(sha: seq<byte> -> seq<byte>, h: seq<byte>, area: seq<byte>)
    requires |h| >= HDR
  {
    TlvLen(h) <= |area| && Trunc(sha(area[..TlvLen(h)])) == TlvHash(h)
  }

  /** Two flashes with the same header that both pass the digest check declare the same
      counter, or exhibit a collision of the truncated digest. */
  lemma VouchedAreasAgree(sha: seq<byte> -> seq<byte>, h: seq<byte>, a: seq<byte>, b: seq<byte>)
    requires |h| >= HDR && 4 <= TlvLen(h) && Vouched(sha, h, a) && Vouched(sha, h, b)
    requires Le16(a, 2) <= |a| && Le16(b, 2) <= |b| && Interpreted(Le16(a, 2)) <= TlvLen(h)
    ensures var x, y := a[..TlvLen(h)], b[..TlvLen(h)];
            CounterOf(a) == CounterOf(b) || (x != y && Trunc(sha(x)) == Trunc(sha(y)))
  {
    hide CounterFrom, Le16;
    var n := TlvLen(h);
    if a[..n] == b[..n] {
      SameWord(a, b, 0, n);
      if Le16(a, 0) == INFO_MAGIC && 4 <= Le16(a, 2) <= MAX_SIZE { AlikeSameCounter(a, b, n, Le16(a, 2)); }
    }
  }

  /** slot_remain_from: what is left of the first slot that contains the address. */
  method SlotRemain(slots: seq<Slot>, addr: u32) returns (rc: int, remain: u32)
    ensures rc == OK || rc == ERR_INVALID
    ensures rc == OK ==> exists k :: FirstContaining(slots, addr, k) && addr + remain == slots[k].addr + slots[k].size
    ensures rc != OK ==> forall j :: 0 <= j < |slots| ==> !Contains(slots[j], addr)
  {
    for i := 0 to |slots|
      invariant forall j :: 0 <= j < i ==> !Contains(slots[j], addr)
    {
      var base, size := slots[i].addr, slots[i].size;
      if base == 0 || size == 0 { continue; }
      if addr < base { continue; }
      if addr - base >= size { continue; }
      assert FirstContaining(slots, addr, i);
      return OK, size - (addr - base);
    }
    return ERR_INVALID, 0;
  }

  predicate Contains(slot: Slot, addr: u32) { slot.addr != 0 && slot.addr <= addr < slot.addr + slot.size }

  /** tlv_area_matches_header. */
  method AreaMatches<S>(flash: FlashDevice, f: (S, seq<byte>) -> S, init: S, render: S -> seq<byte>, h: seq<byte>,
                        addr: u32) returns (rc: int)
    requires |h| == HDR && TlvLen(h) > 0
    modifies flash`readFaults
    ensures flash.readFaults >= old(flash.readFaults)
    ensures flash.readFaults == old(flash.readFaults) && flash.Holds(addr, TlvLen(h)) ==> rc != ERR_FLASH
    ensures rc == OK ==> flash.Holds(addr, TlvLen(h))
                         && Vouched(m => render(Sha2.Hash(f, init, m, 64, 8)), h, flash.cells[addr..])
    ensures rc == ERR_INVALID && flash.Holds(addr, TlvLen(h)) ==>
              !Vouched(m => render(Sha2.Hash(f, init, m, 64, 8)), h, flash.cells[addr..])
    ensures rc == OK || rc == ERR_FLASH || rc == ERR_INVALID
  {
    hide Sha2.Hash, Le16;
    var state;
    rc, state := Sha256.HashRegion(flash, f, init, addr, TlvLen(h), 64);
    if rc != OK { return ERR_FLASH; }
    assert flash.cells[addr..][..TlvLen(h)] == flash.cells[addr..addr + TlvLen(h)];
    if Trunc(render(state)) != TlvHash(h) { return ERR_INVALID; }
  }

  /** The first slot that contains the address has n bytes left from it. */
  ghost predicate Fits(slots: seq<Slot>, addr: u32, n: nat) {
    exists k :: FirstContaining(slots, addr, k) && addr + n <= slots[k].addr + slots[k].size
  }

  ghost predicate FirstContaining(slots: seq<Slot>, addr: u32, k: int) {
    0 <= k < |slots| && Contains(slots[k], addr) && forall j :: 0 <= j < k ==> !Contains(slots[j], addr)
  }

  /** The image at addr declares the counter: its header is well-formed, header, payload and
      TLV area lie in its slot, and a counter other than 0 comes from an area that the header
      vouches for. */
  ghost predicate Declared(cells: seq<byte>, slots: seq<Slot>, sha: seq<byte> -> seq<byte>, addr: u32, counter: u32) {
    && addr + HDR <= |cells|
    && var h := cells[addr..addr + HDR];
       var t := addr + HdrSize(h) + ImageSize(h);
       && WellFormed(h) && t < 0x1_0000_0000 && Fits(slots, addr, HdrSize(h) + ImageSize(h) + TlvLen(h))
       && if TlvLen(h) == 0 then counter == 0
          else && 4 <= TlvLen(h) <= MAX_SIZE && t + TlvLen(h) <= |cells| && Vouched(sha, h, cells[t..])
               && CounterOf(cells[t..]) == Declares(counter)
  }

  /** What is declared depends on the header and on the 512 bytes from the TLV area on. */
  lemma DeclaredStays(s: seq<byte>, t: seq<byte>, slots: seq<Slot>, sha: seq<byte> -> seq<byte>, addr: u32,
                      counter: u32)
    requires Declared(s, slots, sha, addr, counter) && |s| == |t|
    requires s[addr..addr + HDR] == t[addr..addr + HDR]
    requires var a := AreaStart(s, addr); a + MAX_SIZE <= |s| && s[a..a + MAX_SIZE] == t[a..a + MAX_SIZE]
    ensures Declared(t, slots, sha, addr, counter)
  {
    hide WellFormed, CounterOf, Fits;
    var h, a := s[addr..addr + HDR], AreaStart(s, addr);
    if TlvLen(h) != 0 {
      SlicePrefix(s, a, TlvLen(h));
      SlicePrefix(t, a, TlvLen(h));
      SlicePrefix(s, a, MAX_SIZE);
      SlicePrefix(t, a, MAX_SIZE);
      CounterIsLocal(s[a..], t[a..]);
    }
  }

  lemma SlicePrefix(s: seq<byte>, a: nat, n: nat)
    requires n <= MAX_SIZE && a + MAX_SIZE <= |s|
    ensures s[a..][..n] == s[a..a + MAX_SIZE][..n]
  {
  }

  lemma CounterIsLocal(a: seq<byte>, b: seq<byte>)
    requires MAX_SIZE <= |a| && MAX_SIZE <= |b| && a[..MAX_SIZE] == b[..MAX_SIZE]
    ensures CounterOf(a) == CounterOf(b)
  {
    hide CounterFrom, Le16;
    SameWord(a, b, 0, MAX_SIZE);
    SameWord(a, b, 2, MAX_SIZE);
    if Le16(a, 0) == INFO_MAGIC && 4 <= Le16(a, 2) <= MAX_SIZE { AlikeSameCounter(a, b, MAX_SIZE, Le16(a, 2)); }
  }

  /** Where the TLV area of the image at addr begins. */
  function AreaStart(cells: seq<byte>, addr: u32): nat
    requires addr + HDR <= |cells|
  {
    var h := cells[addr..addr + HDR];
    addr + HdrSize(h) + ImageSize(h)
  }

  /** eos_rollback_read_image_counter: OK returns the counter the image declares, and with no
      failing read every declared counter is returned. */
  method ReadImageCounter<S>(flash: FlashDevice, slots: seq<Slot>, f: (S, seq<byte>) -> S, init: S,
                             render: S -> seq<byte>, imageAddr: u32) returns (rc: int, counter: u32)
    requires |flash.cells| < 0x1_0000_0000
    modifies flash`readFaults
    ensures flash.readFaults >= old(flash.readFaults)
    ensures rc != OK ==> counter == 0
    ensures var sha := m => render(Sha2.Hash(f, init, m, 64, 8));
            && (rc == OK ==> Declared(flash.cells, slots, sha, imageAddr, counter))
            && (flash.readFaults == old(flash.readFaults) && imageAddr + HDR <= |flash.cells|
                && AreaStart(flash.cells, imageAddr) + MAX_SIZE <= |flash.cells| ==>
                  forall c :: Declared(flash.cells, slots, sha, imageAddr, c) ==> rc == OK && counter == c)
  {
    hide Sha2.Hash, Le16, Le32, CounterOf, WellFormed, Vouched, Interpreted;
    counter := 0;
    var hdr;
    rc, hdr := ImageVerify.ParseHeader(flash, imageAddr);
    if rc != OK { return; }
    var remain: u32;
    rc, remain := SlotRemain(slots, imageAddr);
    if rc != OK { return; }
    assert forall n: nat :: Fits(slots, imageAddr, n) ==> n <= remain;
    if HdrSize(hdr) > remain { return ERR_INVALID, 0; }
    remain := remain - HdrSize(hdr);
    if ImageSize(hdr) > remain { return ERR_INVALID, 0; }
    remain := remain - ImageSize(hdr);
    if TlvLen(hdr) > remain { return ERR_INVALID, 0; }
    if imageAddr + HdrSize(hdr) >= 0x1_0000_0000 { return ERR_INVALID, 0; }
    if imageAddr + HdrSize(hdr) + ImageSize(hdr) >= 0x1_0000_0000 { return ERR_INVALID, 0; }
    var tlvAddr: u32 := imageAddr + HdrSize(hdr) + ImageSize(hdr);
    if TlvLen(hdr) == 0 { return OK, 0; }
    if TlvLen(hdr) < 4 || TlvLen(hdr) > MAX_SIZE { return ERR_INVALID, 0; }
    if tlvAddr + TlvLen(hdr) >= 0x1_0000_0000 { return ERR_INVALID, 0; }
    rc := AreaMatches(flash, f, init, render, hdr, tlvAddr);
    if rc != OK { return; }
    rc, counter := AreaCounter(flash, tlvAddr);
  }

  /** Parse, find and read behind the digest check. */
  method AreaCounter(flash: FlashDevice, tlvAddr: u32) returns (rc: int, counter: u32)
    requires tlvAddr + 4 <= |flash.cells| < 0x1_0000_0000
    modifies flash`readFaults
    ensures flash.readFaults >= old(flash.readFaults)
    ensures flash.readFaults == old(flash.readFaults) && tlvAddr + MAX_SIZE <= |flash.cells| ==> rc != ERR_FLASH
    ensures rc == OK ==> CounterOf(flash.cells[tlvAddr..]) == Declares(counter)
    ensures rc == ERR_INVALID ==> CounterOf(flash.cells[tlvAddr..]) == Malformed
    ensures rc != OK ==> counter == 0 && (rc == ERR_INVALID || rc == ERR_FLASH)
  {
    hide Entries, Le16, Le32, CounterFrom;
    counter := 0;
    ghost var area := flash.cells[tlvAddr..];
    var ctx := new TlvCtx();
    rc := ctx.Parse(flash, tlvAddr);
    if rc == ERR_NOT_FOUND { return OK, 0; }
    if rc != OK { return; }
    var entry;
    rc, entry := ctx.Find(MIN_SEC_VER);
    if rc == ERR_NOT_FOUND {
      NotInEntries(area, tlvAddr, 4, 0, ctx.totalLen);
      return OK, 0;
    }
    ghost var k: nat :| FirstAt(ctx.entries, MIN_SEC_VER, k) && entry == ctx.entries[k];
    FoundInEntries(area, tlvAddr, 4, 0, ctx.totalLen, k);
    EntriesAreOrdered(area, tlvAddr, 4, 0, ctx.totalLen);
    assert entry == Entries(area, tlvAddr, 4, 0, ctx.totalLen)[k];
    if entry.len != 4 { return ERR_INVALID, 0; }
    ghost var at: nat := entry.offset - tlvAddr;
    var data;
    rc, data := flash.Read(entry.offset, entry.len);
    if rc != OK { return; }
    counter := Le32(data, 0);
    assert data == area[at..at + 4];
    ValueRead(area, at);
  }

  lemma ValueRead(area: seq<byte>, off: nat)
    requires off + 4 <= |area|
    ensures Le32(area[off..off + 4], 0) == Le32(area, off)
  {
  }
}
