/** The streaming update container: header, payload, TLV tail (core/fw_update.c). */
module FwUpdate {
  import opened Types
  import opened Flash
  import opened ImageHeader
  import Crc32

  const TLV_MAX_SIZE := 512
  const CRC_START: bv32 := 0xFFFF_FFFF

  /** The container length a header declares. */
  function ContainerLen(h: seq<byte>): nat requires |h| >= HDR { HDR + ImageSize(h) + TlvLen(h) }

  /** The header checks; accepted exactly when the whole container fits the slot. */
  function HeaderVerdict(h: seq<byte>, slotSize: u32): (rc: int)
    requires |h| >= HDR
    ensures rc == OK <==> Le32(h, 0) == IMG_MAGIC && 0 < ImageSize(h) && ContainerLen(h) <= slotSize
                          && TlvLen(h) <= TLV_MAX_SIZE
  {
    if Le32(h, 0) != IMG_MAGIC then ERR_NO_IMAGE
    else if ImageSize(h) == 0 || slotSize < HDR then ERR_FULL
    else if ImageSize(h) > slotSize - HDR then ERR_FULL
    else if TlvLen(h) > slotSize - HDR - ImageSize(h) then ERR_FULL
    else if TlvLen(h) > TLV_MAX_SIZE then ERR_INVALID
    else OK
  }

  datatype Phase = Idle | Header | Payload | Tlv | Verify | Complete | Error

  /** Everything in the context that a later call can depend on. */
  datatype Snapshot = Snapshot(phase: Phase, hdr: seq<byte>, payloadTotal: int, payloadWritten: int,
                               tlvTotal: int, tlvWritten: int, digested: seq<byte>, crc: bv32)

  function Min(a: int, b: int): int { if a < b then a else b }

  /** The one-shot meaning of a stream: no chunk boundary occurs in it. */
  function Meaning(s: seq<byte>, slotSize: u32): Snapshot {
    if |s| < HDR then Snapshot(Header, s, 0, 0, 0, 0, [], CRC_START)
    else if HeaderVerdict(s[..HDR], slotSize) != OK then Snapshot(Error, s[..HDR], 0, 0, 0, 0, [], CRC_START)
    else
      var p, t, n := ImageSize(s[..HDR]), TlvLen(s[..HDR]), |s| - HDR;
      var body := s[HDR..HDR + Min(n, p)];
      Snapshot(if n < p then Payload else if n < p + t then Tlv else Verify,
               s[..HDR], p, Min(n, p), t, if n < p then 0 else Min(n - p, t), body, Crc32.Fold(CRC_START, body))
  }

  /** How many bytes of the stream belong to the container. */
  function Taken(s: seq<byte>, slotSize: u32): nat {
    if |s| < HDR then |s| else Min(|s|, ContainerLen(s[..HDR]))
  }

  predicate Accepted(s: seq<byte>, slotSize: u32) {
    |s| >= HDR && HeaderVerdict(s[..HDR], slotSize) == OK
  }

  lemma MeaningPayload(s: seq<byte>, c: seq<byte>, slotSize: u32)
    requires Accepted(s, slotSize) && |s| + |c| <= HDR + ImageSize(s[..HDR])
    ensures var m, m' := Meaning(s, slotSize), Meaning(s + c, slotSize);
            && m'.hdr == m.hdr && m'.payloadTotal == m.payloadTotal && m'.tlvTotal == m.tlvTotal && m'.tlvWritten == 0
            && m'.payloadWritten == m.payloadWritten + |c|
            && m'.digested == m.digested + c && m'.crc == Crc32.Fold(m.crc, c)
            && m'.phase == if m'.payloadWritten < m.payloadTotal then Payload else if m.tlvTotal == 0 then Verify
                else Tlv
    ensures Taken(s + c, slotSize) == |s| + |c| && Taken(s, slotSize) == |s|
  {
    hide Meaning, Taken, Crc32.Fold, HeaderVerdict, ImageSize, TlvLen;
    assert (s + c)[..HDR] == s[..HDR];
    MeaningAt(s, slotSize);
    MeaningAt(s + c, slotSize);
    assert (s + c)[HDR..] == s[HDR..] + c;
    Crc32.FoldConcat(CRC_START, s[HDR..], c);
  }

  /** The meaning of a stream that ends inside the payload or at its end. */
  lemma MeaningAt(s: seq<byte>, slotSize: u32)
    requires Accepted(s, slotSize) && |s| <= HDR + ImageSize(s[..HDR])
    ensures var h := s[..HDR];
            Meaning(s, slotSize) == Snapshot(
              if |s| - HDR < ImageSize(h) then Payload else if TlvLen(h) == 0 then Verify else Tlv,
              h, ImageSize(h), |s| - HDR, TlvLen(h), 0, s[HDR..], Crc32.Fold(CRC_START, s[HDR..]))
    ensures Taken(s, slotSize) == |s|
  {
    hide Crc32.Fold, ImageSize, TlvLen;
    assert s[HDR..|s|] == s[HDR..];
  }

  lemma MeaningTlv(s: seq<byte>, c: seq<byte>, slotSize: u32)
    requires Accepted(s, slotSize) && HDR + ImageSize(s[..HDR]) <= |s| && |s| + |c| <= ContainerLen(s[..HDR])
    ensures var m, m' := Meaning(s, slotSize), Meaning(s + c, slotSize);
            m' == m.(tlvWritten := m.tlvWritten + |c|, phase := if m.tlvWritten + |c| < m.tlvTotal then Tlv else Verify)
    ensures Taken(s + c, slotSize) == |s| + |c| && Taken(s, slotSize) == |s|
  {
    assert (s + c)[..HDR] == s[..HDR];
    var p := HDR + ImageSize(s[..HDR]);
    assert (s + c)[HDR..p] == s[HDR..p];
  }

  /** Bytes behind a complete container, or behind a refused header, change nothing. */
  lemma MeaningStable(s: seq<byte>, c: seq<byte>, slotSize: u32)
    requires |s| >= HDR && (HeaderVerdict(s[..HDR], slotSize) != OK || |s| >= ContainerLen(s[..HDR]))
    ensures Meaning(s + c, slotSize) == Meaning(s, slotSize)
    ensures Accepted(s, slotSize) ==> Taken(s + c, slotSize) == Taken(s, slotSize) == ContainerLen(s[..HDR])
  {
    assert (s + c)[..HDR] == s[..HDR];
    if HeaderVerdict(s[..HDR], slotSize) == OK {
      var p := HDR + ImageSize(s[..HDR]);
      assert (s + c)[HDR..p] == s[HDR..p];
    }
  }

  class UpdateCtx {
    const flash: FlashDevice
    const targetAddr: u32
    const slotSize: u32
    const hdrBuf: array<byte>
    var state: Phase
    var hdrReceived: nat
    var payloadTotal: u32
    var payloadWritten: u32
    var tlvTotal: u32
    var tlvWritten: u32
    var writeAddr: u32
    /** What the SHA-256 context has consumed; by Sha256 that is all it depends on. */
    var digested: seq<byte>
    var crcAccum: bv32
    var totalReceived: u32
    var lastError: int

    ghost predicate Shape()
      reads this, flash
    {
      && hdrBuf.Length == HDR && hdrReceived <= HDR
      && targetAddr > 0 && targetAddr + slotSize <= |flash.cells| < 0x1_0000_0000
    }

    ghost function Shot(): Snapshot
      reads this, hdrBuf
      requires hdrBuf.Length == HDR && hdrReceived <= HDR
    {
      Snapshot(state, hdrBuf[..hdrReceived], payloadTotal, payloadWritten, tlvTotal, tlvWritten, digested, crcAccum)
    }

    /** The context after the stream s, in any chunks: the one-shot meaning, with the
        container bytes received so far at the start of the slot. */
    ghost predicate After(s: seq<byte>)
      reads this, hdrBuf, flash
    {
      && Shape() && Shot() == Meaning(s, slotSize)
      && (Accepted(s, slotSize) ==>
            && writeAddr == targetAddr + Taken(s, slotSize)
            && flash.cells[targetAddr..targetAddr + Taken(s, slotSize)] == s[..Taken(s, slotSize)])
    }

    ghost predicate Counted(s: seq<byte>)
      reads this
    {
      state != Error ==> totalReceived == Taken(s, slotSize)
    }

    constructor (flash: FlashDevice, addr: u32, size: u32)
      requires 0 < addr && addr + size <= |flash.cells| < 0x1_0000_0000
      ensures After([]) && Counted([]) && state == Header && fresh(hdrBuf)
      ensures this.flash == flash && targetAddr == addr && slotSize == size
    {
      this.flash, targetAddr, slotSize := flash, addr, size;
      hdrBuf := new byte[HDR];
      state, hdrReceived, payloadTotal, payloadWritten, tlvTotal, tlvWritten := Header, 0, 0, 0, 0, 0;
      writeAddr, digested, crcAccum, totalReceived, lastError := addr, [], CRC_START, 0, OK;
    }

    method Fail(rc: int)
      modifies this`state, this`lastError
      ensures state == Error && lastError == rc
    {
      state, lastError := Error, rc;
    }

    /** Write the next container bytes behind the ones already in the slot. */
    method Program(c: seq<byte>, ghost s: seq<byte>) returns (rc: int)
      requires Shape() && writeAddr == targetAddr + |s| && |s| + |c| <= slotSize
      requires flash.cells[targetAddr..targetAddr + |s|] == s
      modifies flash`cells, flash`faults
      ensures flash.faults >= old(flash.faults)
      ensures Shape() && SameOutside(flash.cells, old(flash.cells), targetAddr, slotSize)
      ensures flash.faults == old(flash.faults) ==> rc == OK
      ensures flash.faults != old(flash.faults) ==> rc != OK
      ensures rc == OK ==> flash.cells[targetAddr..targetAddr + (|s| + |c|)] == s + c
    {
      rc := flash.Write(writeAddr, c);
      if rc == OK { SlotGrows(old(flash.cells), flash.cells, s, c); }
    }

    /** Payload bytes: flash, digest and CRC see the same chunk. */
    method TakePayload(c: seq<byte>, ghost s: seq<byte>) returns (rc: int)
      requires After(s) && state == Payload && 0 < |c| <= payloadTotal - payloadWritten
      modifies this, flash`cells, flash`faults
      ensures flash.faults >= old(flash.faults)
      ensures Shape() && hdrReceived == old(hdrReceived) && totalReceived == old(totalReceived)
      ensures SameOutside(flash.cells, old(flash.cells), targetAddr, slotSize)
      ensures flash.faults == old(flash.faults) ==> rc == OK && After(s + c)
      ensures flash.faults != old(flash.faults) ==> rc != OK && state == Error
      ensures rc == OK && |c| == old(payloadTotal - payloadWritten) ==> state != Payload
      ensures rc == OK ==> (state == Payload || state == Tlv || state == Verify) && Taken(s + c, slotSize) == |s + c|
    {
      hide Meaning, Crc32.Fold, Taken;
      MeaningNow(s);
      MeaningPayload(s, c, slotSize);
      rc := Program(c, s);
      if rc != OK {
        Fail(rc);
        return;
      }
      digested := digested + c;
      crcAccum := Crc32.Run(crcAccum, c);
      writeAddr := writeAddr + |c|;
      payloadWritten := payloadWritten + |c|;
      if payloadWritten >= payloadTotal {
        state := if tlvTotal == 0 then Verify else Tlv;
      }
      assert hdrBuf[..hdrReceived] == old(hdrBuf[..hdrReceived]);
    }

    lemma MeaningNow(s: seq<byte>)
      requires After(s) && (state == Payload || state == Tlv)
      ensures Accepted(s, slotSize) && Taken(s, slotSize) == |s| < ContainerLen(s[..HDR])
      ensures payloadTotal == ImageSize(s[..HDR]) && tlvTotal == TlvLen(s[..HDR])
      ensures state == Payload ==> |s| == HDR + payloadWritten && payloadWritten < payloadTotal && tlvWritten == 0
      ensures state == Tlv ==>
                |s| == HDR + payloadTotal + tlvWritten && payloadWritten == payloadTotal && tlvWritten < tlvTotal
    {
    }

    lemma SlotGrows(old_: seq<byte>, new_: seq<byte>, s: seq<byte>, c: seq<byte>)
      requires targetAddr + |s| + |c| <= |old_| && old_[targetAddr..targetAddr + |s|] == s
      requires new_ == Splice(old_, targetAddr + |s|, c)
      ensures new_[targetAddr..targetAddr + (|s| + |c|)] == s + c
    {
      assert new_[targetAddr..targetAddr + |s|] == s;
    }

    /** TLV bytes: exactly tlv_len of them, to flash only. */
    method TakeTlv(c: seq<byte>, ghost s: seq<byte>) returns (rc: int)
      requires After(s) && state == Tlv && 0 < |c| <= tlvTotal - tlvWritten
      modifies this, flash`cells, flash`faults
      ensures flash.faults >= old(flash.faults)
      ensures Shape() && hdrReceived == old(hdrReceived) && totalReceived == old(totalReceived)
      ensures SameOutside(flash.cells, old(flash.cells), targetAddr, slotSize)
      ensures flash.faults == old(flash.faults) ==> rc == OK && After(s + c)
      ensures flash.faults != old(flash.faults) ==> rc != OK && state == Error
      ensures rc == OK && |c| == old(tlvTotal - tlvWritten) ==> state == Verify
      ensures rc == OK ==> (state == Tlv || state == Verify) && Taken(s + c, slotSize) == |s + c|
    {
      hide Meaning, Crc32.Fold, Taken;
      MeaningNow(s);
      MeaningTlv(s, c, slotSize);
      rc := Program(c, s);
      if rc != OK {
        Fail(rc);
        return;
      }
      writeAddr := writeAddr + |c|;
      tlvWritten := tlvWritten + |c|;
      if tlvWritten >= tlvTotal { state := Verify; }
      assert hdrBuf[..hdrReceived] == old(hdrBuf[..hdrReceived]);
    }
 
    /** Header bytes into the buffer; a complete header is checked, parsed and written out. */
    method TakeHeader(c: seq<byte>, ghost s: seq<byte>) returns (rc: int)
      requires After(s) && state == Header && 0 < |c| <= HDR - hdrReceived
      modifies this, hdrBuf, flash`cells, flash`faults
      ensures flash.faults >= old(flash.faults)
      ensures Shape() && totalReceived == old(totalReceived)
      ensures SameOutside(flash.cells, old(flash.cells), targetAddr, slotSize)
      ensures flash.faults == old(flash.faults) ==> After(s + c)
      ensures flash.faults != old(flash.faults) ==> state == Error
      ensures rc == OK <==> state == Header || state == Payload
      ensures rc != OK <==> state == Error
      ensures state == Header ==> |s + c| < HDR
      ensures rc == OK ==> Taken(s + c, slotSize) == |s + c|
      ensures rc != OK && flash.faults == old(flash.faults) ==>
                |s + c| == HDR && HeaderVerdict((s + c)[..HDR], slotSize) != OK
    {
      hide Crc32.Fold, Meaning, Taken;
      HeaderNow(s);
      Buffer(c);
      hdrReceived := hdrReceived + |c|;
      ghost var h := s + c;
      if hdrReceived >= HDR {
        assert hdrBuf[..] == hdrBuf[..hdrReceived] == h;
        HeaderDone(h, slotSize);
        assert h[..HDR] == h;
        rc := ParseHeader(h);
      } else {
        HeaderGrows(h, slotSize);
        rc := OK;
      }
    }

    /** The complete header: refused, or parsed and written to the start of the slot. */
    method ParseHeader(ghost h: seq<byte>) returns (rc: int)
      requires Shape() && hdrReceived == HDR && hdrBuf[..] == h && state == Header
      requires payloadTotal == payloadWritten == tlvTotal == tlvWritten == 0 && digested == [] && crcAccum == CRC_START
      modifies this, flash`cells, flash`faults
      ensures flash.faults >= old(flash.faults)
      ensures Shape() && hdrReceived == HDR && totalReceived == old(totalReceived)
      ensures SameOutside(flash.cells, old(flash.cells), targetAddr, slotSize)
      ensures flash.faults == old(flash.faults) ==> After(h)
      ensures flash.faults != old(flash.faults) ==> state == Error
      ensures if rc == OK then state == Payload else state == Error
      ensures flash.faults == old(flash.faults) ==> rc == HeaderVerdict(h, slotSize)
    {
      hide Crc32.Fold, Meaning, Taken, Le32, Le16, HeaderVerdict, ImageSize, TlvLen, Accepted;
      var hdr := hdrBuf[..];
      HeaderDone(hdr, slotSize);
      assert hdrBuf[..HDR] == hdr && hdr[..HDR] == hdr;
      var verdict := HeaderVerdict(hdr, slotSize);
      if verdict != OK {
        Fail(verdict);
        return verdict;
      }
      payloadTotal, payloadWritten := ImageSize(hdr), 0;
      tlvTotal, tlvWritten := TlvLen(hdr), 0;
      rc := flash.Write(targetAddr, hdr);
      if rc != OK {
        Fail(rc);
        return;
      }
      writeAddr := targetAddr + HDR;
      state := Payload;
    }

    ghost predicate Streaming()
      reads this
    {
      state == Header || state == Payload || state == Tlv || state == Verify
    }

    /** The first offset bytes of data have been taken, all of them into the container. */
    ghost predicate Reached(s: seq<byte>, data: seq<byte>, offset: nat)
      reads this, hdrBuf, flash
    {
      && offset <= |data| && Streaming() && After(s + data[..offset])
      && Taken(s + data[..offset], slotSize) == |s| + offset
    }

    method HeaderSection(data: seq<byte>, ghost s: seq<byte>) returns (rc: int, offset: nat)
      requires Reached(s, data, 0) && data != []
      modifies this, hdrBuf, flash`cells, flash`faults
      ensures flash.faults >= old(flash.faults)
      ensures Shape() && totalReceived == old(totalReceived)
      ensures SameOutside(flash.cells, old(flash.cells), targetAddr, slotSize)
      ensures flash.faults == old(flash.faults) ==>
                if rc == OK then Reached(s, data, offset) && (state == Header ==> offset == |data|)
                else state == Error && After(s + data)
      ensures flash.faults != old(flash.faults) ==> rc != OK && state == Error
    {
      hide Meaning, Taken, Accepted, Crc32.Fold;
      if state != Header { return OK, 0; }
      assert s + data[..0] == s;
      HeaderNow(s);
      offset := if |data| < HDR - hdrReceived then |data| else HDR - hdrReceived;
      rc := TakeHeader(data[..offset], s);
      if rc != OK && flash.faults == old(flash.faults) {
        MeaningStable(s + data[..offset], data[offset..], slotSize);
        assert s + data[..offset] + data[offset..] == s + data;
        RefusedStays(s + data[..offset], data[offset..], slotSize);
      }
    }

    method PayloadSection(data: seq<byte>, from: nat, ghost s: seq<byte>) returns (rc: int, offset: nat)
      requires Reached(s, data, from) && (state == Header ==> from == |data|)
      modifies this, hdrBuf, flash`cells, flash`faults
      ensures flash.faults >= old(flash.faults)
      ensures Shape() && totalReceived == old(totalReceived)
      ensures SameOutside(flash.cells, old(flash.cells), targetAddr, slotSize)
      ensures flash.faults == old(flash.faults) ==>
                rc == OK && Reached(s, data, offset) && (state == Header || state == Payload ==> offset == |data|)
      ensures flash.faults != old(flash.faults) ==> rc != OK && state == Error
    {
      hide Meaning, Taken, Accepted, Crc32.Fold;
      offset := from;
      if state != Payload || offset >= |data| { return OK, offset; }
      MeaningNow(s + data[..offset]);
      var n := |data| - offset;
      if n > payloadTotal - payloadWritten { n := payloadTotal - payloadWritten; }
      rc := TakePayload(data[offset..offset + n], s + data[..offset]);
      assert s + data[..offset] + data[offset..offset + n] == s + data[..offset + n];
      offset := offset + n;
    }

    method TlvSection(data: seq<byte>, from: nat, ghost s: seq<byte>) returns (rc: int, offset: nat)
      requires Reached(s, data, from) && (state == Header || state == Payload ==> from == |data|)
      modifies this, hdrBuf, flash`cells, flash`faults
      ensures flash.faults >= old(flash.faults)
      ensures Shape() && totalReceived == old(totalReceived)
      ensures SameOutside(flash.cells, old(flash.cells), targetAddr, slotSize)
      ensures flash.faults == old(flash.faults) ==>
                rc == OK && Reached(s, data, offset) && (state != Verify ==> offset == |data|)
      ensures flash.faults != old(flash.faults) ==> rc != OK && state == Error
    {
      hide Meaning, Taken, Accepted, Crc32.Fold;
      offset := from;
      if state != Tlv || offset >= |data| { return OK, offset; }
      MeaningNow(s + data[..offset]);
      var n := |data| - offset;
      if n > tlvTotal - tlvWritten { n := tlvTotal - tlvWritten; }
      rc := TakeTlv(data[offset..offset + n], s + data[..offset]);
      assert s + data[..offset] + data[offset..offset + n] == s + data[..offset + n];
      offset := offset + n;
    }

    /** eos_fw_update_write. With succeeding flash writes the context after it is the
        one-shot meaning of the longer stream; bytes behind the container are rejected
        but not counted, and nothing outside the slot is touched. */
    method Write(data: seq<byte>, ghost s: seq<byte>) returns (rc: int)
      requires Shape() && (Streaming() ==> After(s) && Counted(s))
      modifies this, hdrBuf, flash`cells, flash`faults
      ensures flash.faults >= old(flash.faults)
      ensures Shape() && SameOutside(flash.cells, old(flash.cells), targetAddr, slotSize)
      ensures flash.faults == old(flash.faults) && old(After(s) && Counted(s)) ==> After(s + data) && Counted(s + data)
      ensures flash.faults == old(flash.faults) && old(Streaming()) && data != [] ==>
                (rc == OK <==> state != Error && Taken(s + data, slotSize) == |s + data|)
      ensures flash.faults != old(flash.faults) ==> rc != OK && state == Error
      ensures !old(Streaming()) || data == [] ==>
                rc == ERR_INVALID && state == old(state) && flash.faults == old(flash.faults)
    {
      hide Meaning, Taken, Accepted, Crc32.Fold;
      if data == [] {
        assert s + data == s;
        return ERR_INVALID;
      }
      if state == Error || state == Complete || state == Idle {
        ghost var refused := After(s);
        if refused {
          RefusedNow(s);
          MeaningStable(s, data, slotSize);
          RefusedStays(s, data, slotSize);
        }
        return ERR_INVALID;
      }
      if state == Verify {
        VerifyNow(s);
        MeaningStable(s, data, slotSize);
        AcceptedStays(s, data, slotSize);
        return ERR_INVALID;
      }
      rc := Sections(data, s);
    }

    lemma RefusedNow(s: seq<byte>)
      requires After(s) && (state == Error || state == Complete || state == Idle)
      ensures state == Error && |s| >= HDR && HeaderVerdict(s[..HDR], slotSize) != OK
    {
    }

    lemma VerifyNow(s: seq<byte>)
      requires After(s) && state == Verify
      ensures Accepted(s, slotSize) && |s| >= ContainerLen(s[..HDR]) && Taken(s, slotSize) == ContainerLen(s[..HDR])
    {
    }

    lemma ReachedStart(s: seq<byte>, data: seq<byte>)
      requires After(s) && (state == Header || state == Payload || state == Tlv)
      ensures Reached(s, data, 0)
    {
      assert s + data[..0] == s;
      if state == Header { HeaderNow(s); } else { MeaningNow(s); }
    }

    /** The three sections in turn, each taking what it wants of what is left. */
    method Sections(data: seq<byte>, ghost s: seq<byte>) returns (rc: int)
      requires After(s) && Counted(s) && data != [] && (state == Header || state == Payload || state == Tlv)
      modifies this, hdrBuf, flash`cells, flash`faults
      ensures flash.faults >= old(flash.faults)
      ensures Shape() && SameOutside(flash.cells, old(flash.cells), targetAddr, slotSize)
      ensures flash.faults == old(flash.faults) ==> After(s + data) && Counted(s + data)
      ensures flash.faults == old(flash.faults) ==>
                (rc == OK <==> state != Error && Taken(s + data, slotSize) == |s + data|)
      ensures flash.faults != old(flash.faults) ==> rc != OK && state == Error
    {
      hide Meaning, Taken, Accepted, Crc32.Fold, After;
      ReachedStart(s, data);
      assert s + data[..0] == s;
      assert totalReceived == |s|;
      var offset;
      rc, offset := HeaderSection(data, s);
      if rc != OK { return; }
      rc, offset := PayloadSection(data, offset, s);
      if rc != OK { return; }
      rc, offset := TlvSection(data, offset, s);
      if rc != OK { return; }
      assert data[..|data|] == data;
      rc := FinishWrite(data, offset, s);
    }

    lemma ReachedFits(s: seq<byte>, data: seq<byte>, offset: nat)
      requires Reached(s, data, offset)
      ensures |s| + offset < 0x1_0000_0000
    {
    }

    method FinishWrite(data: seq<byte>, offset: nat, ghost s: seq<byte>) returns (rc: int)
      requires Reached(s, data, offset) && (state != Verify ==> offset == |data|) && totalReceived == |s|
      modifies this`totalReceived
      ensures After(s + data) && Counted(s + data)
      ensures rc == OK <==> Taken(s + data, slotSize) == |s + data|
    {
      hide Meaning, Taken, Accepted, Crc32.Fold;
      ghost var t, rest := s + data[..offset], data[offset..];
      assert t + rest == s + data;
      ReachedFits(s, data, offset);
      totalReceived := totalReceived + offset;
      if offset < |data| {
        VerifyNow(t);
        MeaningStable(t, rest, slotSize);
        AcceptedStays(t, rest, slotSize);
        return ERR_INVALID;
      }
      assert rest == [] && t == s + data;
      rc := OK;
    }

    /** eos_fw_update_bytes_wanted. */
    function BytesWanted(): int
      reads this
    {
      match state
      case Header => HDR - hdrReceived
      case Payload => (payloadTotal - payloadWritten) + (tlvTotal - tlvWritten)
      case Tlv => tlvTotal - tlvWritten
      case _ => 0
    }

    /** Received plus wanted is the header until it is parsed, and the container from then on. */
    lemma WantedCompletes(s: seq<byte>)
      requires After(s) && Streaming()
      ensures state == Header ==> |s| + BytesWanted() == HDR && Taken(s, slotSize) == |s|
      ensures state != Header ==> Accepted(s, slotSize) && Taken(s, slotSize) + BytesWanted() == ContainerLen(s[..HDR])
      ensures BytesWanted() == 0 <==> state == Verify
      ensures state != Verify ==> Taken(s, slotSize) == |s|
      ensures 0 <= BytesWanted() < 0x1_0000_0000
    {
      hide Crc32.Fold;
    }

    /** eos_fw_update_progress. */
    function Progress(): int
      reads this
    {
      if payloadTotal == 0 then 0
      else if state == Complete then 100
      else
        var total := HDR + payloadTotal + tlvTotal;
        Min(totalReceived, total) * 100 / total
    }

    lemma ProgressIs(s: seq<byte>)
      requires After(s) && Counted(s) && Streaming()
      ensures Progress() == ProgressAt(s, slotSize)
    {
      hide Crc32.Fold;
    }

    /** The integrity half of eos_fw_update_finalize (lines 218-258): OK exactly when the
        payload now in the slot is the one the header stands for. */
    method CheckIntegrity(sha: seq<byte> -> seq<byte>, ghost s: seq<byte>) returns (rc: int)
      requires Shape() && (Streaming() ==> After(s))
      modifies this`state, this`lastError
      ensures old(state) != Verify ==> rc == ERR_INVALID && state == old(state)
      ensures old(state) == Verify ==>
                && Accepted(s, slotSize) && |s| >= ContainerLen(s[..HDR]) && hdrBuf[..] == s[..HDR]
                && flash.cells[targetAddr..targetAddr + ContainerLen(s[..HDR])] == s[..ContainerLen(s[..HDR])]
                && (rc == OK <==>
                      Intact(sha, s[..HDR], flash.cells[targetAddr + HDR..targetAddr + HDR + ImageSize(s[..HDR])]))
                && (if rc == OK then state == Verify else rc == ERR_CRC == lastError && state == Error)
    {
      hide Meaning, Taken, Crc32.Fold, Le32, Crc32.Not;
      if state != Verify { return ERR_INVALID; }
      VerifiedContents(s);
      var hdr := hdrBuf[..];
      assert hdr == s[..HDR];
      var bad: bool;
      // VERIFY is only reached with the whole TLV tail: the guard of line 226 never fires.
      if tlvWritten != TlvLen(hdr) { assert false; }
      if HashIsSha256(hdr) {
        bad := sha(digested) != Hash(hdr);
      } else {
        bad := Crc32.Not(crcAccum) != StoredCrc(hdr);
      }
      if bad { Fail(ERR_CRC); return ERR_CRC; }
      rc := OK;
    }

    /** In VERIFY the digest input is the payload now in the slot. */
    lemma VerifiedContents(s: seq<byte>)
      requires After(s) && state == Verify
      ensures Accepted(s, slotSize) && |s| >= ContainerLen(s[..HDR]) && hdrReceived == HDR && hdrBuf[..] == s[..HDR]
      ensures flash.cells[targetAddr..targetAddr + ContainerLen(s[..HDR])] == s[..ContainerLen(s[..HDR])]
      ensures tlvWritten == TlvLen(s[..HDR])
      ensures digested == flash.cells[targetAddr + HDR..targetAddr + HDR + ImageSize(s[..HDR])]
      ensures Crc32.Not(crcAccum) == Crc32.Crc(digested)
    {
      hide Crc32.Fold, Crc32.Not;
      VerifyNow(s);
      assert hdrBuf[..HDR] == hdrBuf[..];
      var p, k := HDR + ImageSize(s[..HDR]), Taken(s, slotSize);
      SamePart(flash.cells, targetAddr, s, p, k);
    }

    lemma SamePart(cells: seq<byte>, addr: nat, s: seq<byte>, p: nat, k: nat)
      requires HDR <= p <= k <= |s| && addr + k <= |cells| && cells[addr..addr + k] == s[..k]
      ensures cells[addr + HDR..addr + p] == s[HDR..p]
    {
      forall i | HDR <= i < p ensures cells[addr + i] == s[i] { assert cells[addr..addr + k][i] == s[..k][i]; }
    }

    method Buffer(c: seq<byte>)
      requires hdrBuf.Length == HDR && hdrReceived + |c| <= HDR
      modifies hdrBuf
      ensures hdrBuf[..hdrReceived + |c|] == old(hdrBuf[..hdrReceived]) + c
    {
      for i := 0 to |c|
        invariant hdrBuf[..hdrReceived + i] == old(hdrBuf[..hdrReceived]) + c[..i]
      {
        hdrBuf[hdrReceived + i] := c[i];
        assert hdrBuf[..hdrReceived + (i + 1)] == hdrBuf[..hdrReceived + i] + [c[i]];
      }
      assert c[..|c|] == c;
    }

    lemma HeaderNow(s: seq<byte>)
      requires After(s) && state == Header
      ensures |s| == hdrReceived < HDR && hdrBuf[..hdrReceived] == s && Taken(s, slotSize) == |s|
      ensures payloadTotal == payloadWritten == tlvTotal == tlvWritten == 0 && digested == [] && crcAccum == CRC_START
    {
    }
  }

  lemma HeaderGrows(h: seq<byte>, slotSize: u32)
    requires |h| < HDR
    ensures Meaning(h, slotSize) == Snapshot(Header, h, 0, 0, 0, 0, [], CRC_START) && !Accepted(h, slotSize)
    ensures Taken(h, slotSize) == |h|
  {
  }

  lemma HeaderDone(h: seq<byte>, slotSize: u32)
    requires |h| == HDR
    ensures Meaning(h, slotSize) ==
            if HeaderVerdict(h, slotSize) == OK
            then Snapshot(Payload, h, ImageSize(h), 0, TlvLen(h), 0, [], CRC_START)
            else Snapshot(Error, h, 0, 0, 0, 0, [], CRC_START)
    ensures Accepted(h, slotSize) <==> HeaderVerdict(h, slotSize) == OK
    ensures Accepted(h, slotSize) ==> Taken(h, slotSize) == HDR
  {
    assert h[..HDR] == h && h[HDR..HDR] == [];
  }

  lemma RefusedStays(t: seq<byte>, rest: seq<byte>, slotSize: u32)
    requires |t| >= HDR && HeaderVerdict(t[..HDR], slotSize) != OK
    ensures !Accepted(t, slotSize) && !Accepted(t + rest, slotSize)
  {
    assert (t + rest)[..HDR] == t[..HDR];
  }

  lemma AcceptedStays(t: seq<byte>, rest: seq<byte>, slotSize: u32)
    requires Accepted(t, slotSize) && |t| >= ContainerLen(t[..HDR])
    ensures Accepted(t + rest, slotSize)
    ensures (t + rest)[..Taken(t, slotSize)] == t[..Taken(t, slotSize)]
    ensures rest != [] ==> Taken(t + rest, slotSize) < |t + rest|
  {
    assert (t + rest)[..HDR] == t[..HDR];
  }

  // ---- progress ----

  /** Progress as a function of the stream. */
  function ProgressAt(s: seq<byte>, slotSize: u32): int {
    if !Accepted(s, slotSize) then 0
    else Taken(s, slotSize) * 100 / ContainerLen(s[..HDR])
  }

  /** Progress never goes back, stays below 100 until the container is complete, and is 100 then. */
  lemma ProgressMonotone(s: seq<byte>, c: seq<byte>, slotSize: u32)
    ensures 0 <= ProgressAt(s, slotSize) <= ProgressAt(s + c, slotSize) <= 100
    ensures Accepted(s, slotSize) ==> (ProgressAt(s, slotSize) == 100 <==> Taken(s, slotSize) == ContainerLen(s[..HDR]))
  {
    hide HeaderVerdict, ImageSize, TlvLen;
    if |s| >= HDR {
      assert (s + c)[..HDR] == s[..HDR];
      if Accepted(s, slotSize) {
        var l := ContainerLen(s[..HDR]);
        Percent(Taken(s, slotSize), Taken(s + c, slotSize), l);
      } else if Accepted(s + c, slotSize) {
        assert false;
      }
    } else if Accepted(s + c, slotSize) {
      var l := ContainerLen((s + c)[..HDR]);
      Percent(0, Taken(s + c, slotSize), l);
    }
  }

  lemma Percent(a: int, b: int, l: int)
    requires 0 <= a <= b <= l && l > 0
    ensures 0 <= a * 100 / l <= b * 100 / l <= 100
    ensures a * 100 / l == 100 <==> a == l
  {
    DivMonotone(a * 100, b * 100, l);
    DivMonotone(0, a * 100, l);
    DivMonotone(b * 100, l * 100, l);
    DivExact(100, l);
    DivExact(0, l);
    if a < l { DivBelow(a * 100, 100, l); }
  }

  lemma MulLe(a: int, b: int, l: int)
    requires a <= b && l > 0
    ensures a * l <= b * l
  {
  }

  lemma DivMonotone(x: int, y: int, l: int)
    requires x <= y && l > 0
    ensures x / l <= y / l
  {
    if x / l > y / l {
      MulLe(y / l + 1, x / l, l);
      assert false;
    }
  }

  lemma DivExact(k: int, l: int)
    requires l > 0
    ensures k * l / l == k
  {
    var q := k * l / l;
    if q < k { MulLe(q + 1, k, l); assert false; }
    if q > k { MulLe(k + 1, q, l); assert false; }
  }

  lemma DivBelow(x: int, k: int, l: int)
    requires l > 0 && x < k * l
    ensures x / l < k
  {
    if x / l >= k {
      MulLe(k, x / l, l);
      assert false;
    }
  }

  // ---- any chunking is as good as another ----

  function Flat(chunks: seq<seq<byte>>): seq<byte> {
    if chunks == [] then [] else Flat(chunks[..|chunks| - 1]) + chunks[|chunks| - 1]
  }

  /** Feeding a stream in any non-empty chunks ends in the meaning of the whole stream,
      which is also what a single call ends in. */
  method FeedAll(ctx: UpdateCtx, chunks: seq<seq<byte>>, ghost s: seq<byte>)
    requires ctx.After(s) && ctx.Counted(s)
    modifies ctx, ctx.hdrBuf, ctx.flash`cells, ctx.flash`faults
    ensures ctx.flash.faults >= old(ctx.flash.faults)
    ensures ctx.Shape() && SameOutside(ctx.flash.cells, old(ctx.flash.cells), ctx.targetAddr, ctx.slotSize)
    ensures ctx.flash.faults == old(ctx.flash.faults) ==> ctx.After(s + Flat(chunks)) && ctx.Counted(s + Flat(chunks))
    ensures ctx.flash.faults != old(ctx.flash.faults) ==> ctx.state == Error
  {
    hide Meaning, Taken, Accepted;
    assert s + Flat(chunks[..0]) == s;
    ghost var f0 := ctx.flash.faults;
    for i := 0 to |chunks|
      invariant ctx.Shape()
      invariant SameOutside(ctx.flash.cells, old(ctx.flash.cells), ctx.targetAddr, ctx.slotSize)
      invariant ctx.flash.faults >= f0
      invariant ctx.flash.faults == f0 ==> ctx.After(s + Flat(chunks[..i])) && ctx.Counted(s + Flat(chunks[..i]))
      invariant ctx.flash.faults != f0 ==> ctx.state == Error
    {
      ghost var t := s + Flat(chunks[..i]);
      var rc := ctx.Write(chunks[i], t);
      assert chunks[..i + 1][..i] == chunks[..i];
      assert t + chunks[i] == s + Flat(chunks[..i + 1]);
    }
    assert chunks[..|chunks|] == chunks;
  }
}
