/** The TLV area behind an image: parser (core/image_tlv.c) and writer (tools/eos_sign.py). */
module ImageTlv {
  import opened Types
  import opened Flash
  import Sha2

  const INFO_MAGIC := 0x6907
  const TLV_KEYHASH: u16 := 0x01
  const TLV_SHA256: u16 := 0x10
  const MIN_SEC_VER: u16 := 0x50
  const MAX_ENTRIES := 16
  const MAX_SIZE := 512

  /** A parsed entry; offset is the flash address of its data. */
  datatype Entry = Entry(kind: u16, len: u16, offset: u32)

  function Align4(n: nat): (r: nat)
    ensures n <= r < n + 4 && r % 4 == 0
  {
    (n + 3) / 4 * 4
  }

  predicate Sentinel(kind: u16, len: u16) { kind == 0 && len == 0 }

  /** The walk reads another entry at off: a header fits, it is no sentinel, and its data fits. */
  predicate EntryAt(area: seq<byte>, off: nat, count: nat, total: nat) {
    && off + 4 <= total && count < MAX_ENTRIES && off + 4 <= |area|
    && !Sentinel(Le16(area, off), Le16(area, off + 2))
    && off + 4 + Le16(area, off + 2) <= total
  }

  /** The entries from off on, in an area that begins at flash address base. */
  function Entries(area: seq<byte>, base: nat, off: nat, count: nat, total: nat): (es: seq<Entry>)
    requires base + |area| < 0x1_0000_0000
    ensures count <= MAX_ENTRIES ==> |es| <= MAX_ENTRIES - count
    decreases total - off
  {
    if !EntryAt(area, off, count, total) then []
    else
      var len := Le16(area, off + 2);
      [Entry(Le16(area, off), len, base + off + 4)] + Entries(area, base, Align4(off + 4 + len), count + 1, total)
  }

  predicate Placed(e: Entry, lo: int, hi: int) { lo <= e.offset && e.offset + e.len <= hi }

  /** Behind e and its data there is room for a header before d's data. */
  predicate Behind(e: Entry, d: Entry) { e.offset + e.len + 4 <= d.offset }

  predicate Ordered(es: seq<Entry>, lo: int, hi: int) {
    && (forall i :: 0 <= i < |es| ==> Placed(es[i], lo, hi))
    && (forall i, j :: 0 <= i < j < |es| ==> Behind(es[i], es[j]))
  }

  /** Parsed entries are in order, disjoint and inside the declared area. */
  lemma {:induction false} EntriesAreOrdered(area: seq<byte>, base: nat, off: nat, count: nat, total: nat)
    requires base + |area| < 0x1_0000_0000
    ensures Ordered(Entries(area, base, off, count, total), base + off + 4, base + total)
    decreases total - off
  {
    hide Align4, Le16, Ordered, Entries;
    EntriesStep(area, base, off, count, total);
    if EntryAt(area, off, count, total) {
      var next := Align4(off + 4 + Le16(area, off + 2));
      EntriesAreOrdered(area, base, next, count + 1, total);
      Cons(NextEntry(area, base, off), Entries(area, base, next, count + 1, total), base + off + 4, base + next + 4,
          base + total);
    } else {
      NoneOrdered(base + off + 4, base + total);
    }
  }

  lemma NoneOrdered(lo: int, hi: int)
    ensures Ordered([], lo, hi)
  {
  }

  lemma Cons(e: Entry, tail: seq<Entry>, lo: int, next: int, hi: int)
    requires Placed(e, lo, hi) && Ordered(tail, next, hi) && e.offset + e.len + 4 <= next
    ensures Ordered([e] + tail, lo, hi)
  {
    var es := [e] + tail;
    forall i | 0 <= i < |es| ensures Placed(es[i], lo, hi) {
      if i > 0 { assert Placed(tail[i - 1], next, hi); }
    }
    forall i, j | 0 <= i < j < |es| ensures Behind(es[i], es[j]) {
      assert es[j] == tail[j - 1];
      if i > 0 { assert Behind(tail[i - 1], tail[j - 1]); } else { assert Placed(tail[j - 1], next, hi); }
    }
  }

  function NextEntry(area: seq<byte>, base: nat, off: nat): Entry
    requires off + 4 <= |area| && base + |area| < 0x1_0000_0000
  {
    Entry(Le16(area, off), Le16(area, off + 2), base + off + 4)
  }

  lemma EntriesStep(area: seq<byte>, base: nat, off: nat, count: nat, total: nat)
    requires base + |area| < 0x1_0000_0000
    ensures Entries(area, base, off, count, total) ==
              if EntryAt(area, off, count, total)
              then [NextEntry(area, base, off)]
                  + Entries(area, base, Align4(off + 4 + Le16(area, off + 2)), count + 1, total)
              else []
  {
    hide Align4, Le16;
  }

  lemma HeaderWord(area: seq<byte>, off: nat)
    requires off + 4 <= |area|
    ensures Le16(area[off..off + 4], 0) == Le16(area, off) && Le16(area[off..off + 4], 2) == Le16(area, off + 2)
  {
  }

  // ---- the parser ----

  /** The flash from an address on. */
  function From(cells: seq<byte>, addr: nat): seq<byte> { if addr <= |cells| then cells[addr..] else [] }

  class TlvCtx {
    var entries: seq<Entry>
    var baseAddr: u32
    var totalLen: u16

    constructor ()
      ensures entries == []
    {
      entries, baseAddr, totalLen := [], 0, 0;
    }

    /** eos_tlv_parse. Reads that succeed yield exactly the entries of the area at tlvAddr. */
    method Parse(flash: FlashDevice, tlvAddr: u32) returns (rc: int)
      requires |flash.cells| < 0x1_0000_0000
      modifies this, flash`readFaults
      ensures flash.readFaults >= old(flash.readFaults)
      ensures flash.readFaults == old(flash.readFaults) && tlvAddr + MAX_SIZE <= |flash.cells| ==> rc != ERR_FLASH
      ensures rc == OK || rc == ERR_FLASH || rc == ERR_NOT_FOUND || rc == ERR_INVALID
      ensures var area := From(flash.cells, tlvAddr);
              && (rc != ERR_FLASH ==> |area| >= 4)
              && (rc == ERR_NOT_FOUND ==> Le16(area, 0) != INFO_MAGIC)
              && (rc == ERR_INVALID ==> Le16(area, 0) == INFO_MAGIC && !(4 <= Le16(area, 2) <= MAX_SIZE))
              && (rc == OK ==> Le16(area, 0) == INFO_MAGIC && 4 <= Le16(area, 2) <= MAX_SIZE
                               && totalLen == Le16(area, 2)
                               && entries == Entries(area, tlvAddr, 4, 0, totalLen) && baseAddr == tlvAddr)
    {
      hide Entries, Align4, Le16;
      ghost var area := From(flash.cells, tlvAddr);
      entries, baseAddr, totalLen := [], tlvAddr, 0;
      var info;
      rc, info := flash.Read(tlvAddr, 4);
      if rc != OK { return ERR_FLASH; }
      assert info == area[0..4];
      HeaderWord(area, 0);
      var total := Le16(info, 2);
      if Le16(info, 0) != INFO_MAGIC { return ERR_NOT_FOUND; }
      if total < 4 || total > MAX_SIZE { return ERR_INVALID; }
      totalLen := total;
      rc := ReadEntries(flash, tlvAddr, total);
    }

    method ReadHeader(flash: FlashDevice, base: u32, off: nat) returns (rc: int, kind: u16, len: u16)
      requires base <= |flash.cells|
      modifies flash`readFaults
      ensures flash.readFaults == old(flash.readFaults) + (if rc != OK && base + off + 4 <= |flash.cells| then 1 else 0)
      ensures rc == OK ==> base + off + 4 <= |flash.cells| && kind == Le16(flash.cells[base..], off)
                           && len == Le16(flash.cells[base..], off + 2)
    {
      kind, len := 0, 0;
      var hdr;
      rc, hdr := flash.Read(base + off, 4);
      if rc != OK { return; }
      assert hdr == flash.cells[base..][off..off + 4];
      HeaderWord(flash.cells[base..], off);
      kind, len := Le16(hdr, 0), Le16(hdr, 2);
    }

    method ReadEntries(flash: FlashDevice, tlvAddr: u32, total: u16) returns (rc: int)
      requires tlvAddr <= |flash.cells| < 0x1_0000_0000 && entries == [] && 4 <= total <= MAX_SIZE
      modifies this`entries, flash`readFaults
      ensures flash.readFaults >= old(flash.readFaults)
      ensures flash.readFaults == old(flash.readFaults) && tlvAddr + total <= |flash.cells| ==> rc == OK
      ensures rc == OK || rc == ERR_FLASH
      ensures rc == OK ==> entries == Entries(flash.cells[tlvAddr..], tlvAddr, 4, 0, total)
    {
      hide Entries, Align4, Le16;
      ghost var area := flash.cells[tlvAddr..];
      ghost var all := Entries(area, tlvAddr, 4, 0, total);
      var offset := 4;
      assert [] + all == all;
      while offset + 4 <= total && |entries| < MAX_ENTRIES
        invariant entries + Entries(area, tlvAddr, offset, |entries|, total) == all
        invariant flash.readFaults == old(flash.readFaults)
        decreases total - offset
      {
        var kind, len;
        rc, kind, len := ReadHeader(flash, tlvAddr, offset);
        if rc != OK { return ERR_FLASH; }
        EntriesStep(area, tlvAddr, offset, |entries|, total);
        if len == 0 && kind == 0 { break; }
        if offset + 4 + len > total { break; }
        entries := entries + [Entry(kind, len, tlvAddr + offset + 4)];
        offset := offset + 4 + len;
        offset := Align4(offset);
      }
      EntriesStep(area, tlvAddr, offset, |entries|, total);
      rc := OK;
    }

    /** eos_tlv_find: the first entry of the kind. */
    method Find(kind: u16) returns (rc: int, out: Entry)
      ensures rc == OK <==> exists k :: 0 <= k < |entries| && entries[k].kind == kind
      ensures rc == OK ==> exists k :: 0 <= k < |entries| && out == entries[k] && out.kind == kind
                                       && forall j :: 0 <= j < k ==> entries[j].kind != kind
      ensures rc != OK ==> rc == ERR_NOT_FOUND
    {
      for i := 0 to |entries|
        invariant forall j :: 0 <= j < i ==> entries[j].kind != kind
      {
        if entries[i].kind == kind { return OK, entries[i]; }
      }
      return ERR_NOT_FOUND, Entry(0, 0, 0);
    }
  }

  // ---- the writer ----

  datatype Item = Item(kind: u16, data: seq<byte>)

  predicate Writable(items: seq<Item>) {
    forall i :: 0 <= i < |items| ==> |items[i].data| < 0x1_0000 && !(items[i].kind == 0 && items[i].data == [])
  }

  function Half(n: u16): (s: seq<byte>)
    ensures |s| == 2 && Le16(s, 0) == n
  {
    [n % 0x100, n / 0x100]
  }

  function Pad(n: nat): seq<byte> { Sha2.Zeros(Align4(n) - n) }

  /** One entry: header and data. */
  function ItemBytes(item: Item): (s: seq<byte>)
    requires |item.data| < 0x1_0000
    ensures |s| == 4 + |item.data|
  {
    Half(item.kind) + Half(|item.data|) + item.data
  }

  /** Entries back to back, each but the last padded to a multiple of four. */
  function Body(items: seq<Item>): seq<byte>
    requires Writable(items)
  {
    if items == [] then []
    else
      var e := ItemBytes(items[0]);
      if |items| == 1 then e else e + Pad(|e|) + Body(items[1..])
  }

  function Area(items: seq<Item>): seq<byte>
    requires Writable(items) && |Body(items)| + 4 <= MAX_SIZE
  {
    Half(INFO_MAGIC) + Half(4 + |Body(items)|) + Body(items)
  }

  /** build_tlv, for digests of any length whose first is a multiple of four. */
  function BuildTlv(payloadHash: seq<byte>, keyHash: seq<byte>): seq<byte>
    requires |payloadHash| + |keyHash| + 12 <= MAX_SIZE
  {
    var first := Half(TLV_SHA256) + Half(|payloadHash|) + payloadHash;
    var entries := if keyHash == [] then first else first + Half(TLV_KEYHASH) + Half(|keyHash|) + keyHash;
    Half(INFO_MAGIC) + Half(4 + |entries|) + entries
  }

  /** The parsed entries are the written items: same kinds, lengths and data, in order. */
  predicate Recovers(es: seq<Entry>, base: nat, area: seq<byte>, items: seq<Item>) {
    |es| == |items| && forall i :: 0 <= i < |es| ==> Holds(es[i], base, area, items[i])
  }

  predicate Holds(e: Entry, base: nat, area: seq<byte>, item: Item) {
    && e.kind == item.kind && e.len == |item.data| && base <= e.offset
    && e.offset - base + e.len <= |area| && area[e.offset - base..e.offset - base + e.len] == item.data
  }

  lemma {:induction false} BodyParses(items: seq<Item>, front: seq<byte>, base: nat, count: nat, rest: seq<byte>)
    requires Writable(items) && |items| + count <= MAX_ENTRIES && |front| % 4 == 0
    requires base + |front + Body(items) + rest| < 0x1_0000_0000
    ensures Recovers(Entries(front + Body(items) + rest, base, |front|, count, |front| + |Body(items)|), base,
                     front + Body(items) + rest, items)
    decreases |items|
  {
    hide Align4, Le16, ItemBytes, Pad, EntryAt, NextEntry, Holds, Entries, Recovers;
    var area, total := front + Body(items) + rest, |front| + |Body(items)|;
    if items == [] {
      NoneRecovered(base, area);
      PastTheEnd(area, |front|, count, total);
      EntriesStep(area, base, |front|, count, total);
    } else {
      var e := ItemBytes(items[0]);
      var more := if |items| == 1 then [] else Pad(|e|) + Body(items[1..]);
      assert Body(items) == e + more;
      FourParts(front, e, more, rest);
      FirstItem(front, items[0], more + rest, base, count, total);
      EntriesStep(area, base, |front|, count, total);
      var next := Align4(|front| + |e|);
      var tail := Entries(area, base, next, count + 1, total);
      AlignShift(|front|, |e|);
      if |items| == 1 {
        PastTheEnd(area, next, count + 1, total);
        EntriesStep(area, base, next, count + 1, total);
        NoneRecovered(base, area);
        assert items[1..] == [];
      } else {
        var front' := front + e + Pad(|e|);
        FiveParts(front, e, Pad(|e|), Body(items[1..]), rest);
        PadLength(|e|);
        BodyParses(items[1..], front', base, count + 1, rest);
      }
      Prepend(NextEntry(area, base, |front|), tail, base, area, items);
    }
  }

  lemma FourParts(a: seq<byte>, b: seq<byte>, c: seq<byte>, d: seq<byte>)
    ensures a + (b + c) + d == a + b + (c + d)
  {
  }

  lemma FiveParts(a: seq<byte>, b: seq<byte>, c: seq<byte>, d: seq<byte>, e: seq<byte>)
    ensures a + b + c + d + e == a + (b + (c + d)) + e
  {
  }

  lemma NoneRecovered(base: nat, area: seq<byte>)
    ensures Recovers([], base, area, [])
  {
  }

  lemma PastTheEnd(area: seq<byte>, off: nat, count: nat, total: nat)
    requires total <= off
    ensures !EntryAt(area, off, count, total)
  {
  }

  lemma FirstItem(front: seq<byte>, item: Item, rest: seq<byte>, base: nat, count: nat, total: nat)
    requires |item.data| < 0x1_0000 && !(item.kind == 0 && item.data == []) && count < MAX_ENTRIES
    requires |front| + 4 + |item.data| <= total
    requires base + |front + ItemBytes(item) + rest| < 0x1_0000_0000
    ensures var area := front + ItemBytes(item) + rest;
            && EntryAt(area, |front|, count, total) && Le16(area, |front| + 2) == |item.data|
            && Holds(NextEntry(area, base, |front|), base, area, item)
  {
    hide Le16, Half;
    HeaderReads(front, item, rest);
  }

  lemma PadLength(n: nat)
    ensures |Pad(n)| == Align4(n) - n
  {
  }

  lemma Prepend(e: Entry, tail: seq<Entry>, base: nat, area: seq<byte>, items: seq<Item>)
    requires items != [] && Holds(e, base, area, items[0]) && Recovers(tail, base, area, items[1..])
    ensures Recovers([e] + tail, base, area, items)
  {
    hide Holds;
    var es := [e] + tail;
    forall i | 0 <= i < |es| ensures Holds(es[i], base, area, items[i]) {
      if i > 0 { assert es[i] == tail[i - 1] && items[i] == items[1..][i - 1]; }
    }
  }

  lemma AlignShift(off: nat, n: nat)
    requires off % 4 == 0
    ensures Align4(off + n) == off + Align4(n)
  {
  }

  lemma HeaderReads(front: seq<byte>, item: Item, rest: seq<byte>)
    requires |item.data| < 0x1_0000
    ensures var area := front + ItemBytes(item) + rest;
            && Le16(area, |front|) == item.kind && Le16(area, |front| + 2) == |item.data|
            && area[|front| + 4..|front| + 4 + |item.data|] == item.data
  {
  }

  /** Parsing inverts writing: at most 16 items that are not sentinels come back exactly,
      whatever lies in flash behind the area. */
  lemma WrittenParses(items: seq<Item>, base: nat, rest: seq<byte>)
    requires Writable(items) && |items| <= MAX_ENTRIES && |Body(items)| + 4 <= MAX_SIZE
    requires base + |Area(items) + rest| < 0x1_0000_0000
    ensures var area := Area(items) + rest;
            && Le16(area, 0) == INFO_MAGIC && Le16(area, 2) == |Area(items)|
            && Recovers(Entries(area, base, 4, 0, |Area(items)|), base, area, items)
  {
    hide Body;
    var front := Half(INFO_MAGIC) + Half(4 + |Body(items)|);
    assert Area(items) + rest == front + Body(items) + rest;
    BodyParses(items, front, base, 0, rest);
  }

  /** The signing tool's output is such an area. */
  lemma BuildTlvIsWritten(payloadHash: seq<byte>, keyHash: seq<byte>)
    requires |payloadHash| + |keyHash| + 12 <= MAX_SIZE && |payloadHash| % 4 == 0
    ensures var items := [Item(TLV_SHA256, payloadHash)] + if keyHash == [] then [] else [Item(TLV_KEYHASH, keyHash)];
            && Writable(items) && |Body(items)| + 4 <= MAX_SIZE && Area(items) == BuildTlv(payloadHash, keyHash)
  {
    var first, second := Item(TLV_SHA256, payloadHash), Item(TLV_KEYHASH, keyHash);
    var e := Half(TLV_SHA256) + Half(|payloadHash|) + payloadHash;
    assert Pad(|e|) == [];
    if keyHash != [] {
      assert ([first] + [second])[1..] == [second];
      assert Body([second]) == Half(TLV_KEYHASH) + Half(|keyHash|) + keyHash;
      assert Body([first] + [second]) == e + Body([second]);
    } else {
      assert [first] + [] == [first];
    }
  }
}
