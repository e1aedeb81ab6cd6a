/** The UART receivers: raw, XMODEM and YMODEM (core/fw_transport_uart.c). */
module FwTransport {
  import opened Types
  import opened Flash
  import opened FwUpdate
  import opened ImageHeader
  import opened Serial
  import Crc32
  import opened Wrappers

  const SOH: byte := 0x01
  const STX: byte := 0x02
  const EOT: byte := 0x04
  const ACK: byte := 0x06
  const NAK: byte := 0x15
  const CAN: byte := 0x18
  const CRC_MODE: byte := 0x43
  const RAW_CHUNK := 256
  const XMODEM_BLOCK := 128
  const YMODEM_BLOCK := 1024

  /** A context that is taking a stream s and has not failed. */
  ghost predicate Ready(ctx: UpdateCtx, s: seq<byte>)
    reads ctx, ctx.hdrBuf, ctx.flash
  {
    ctx.After(s) && ctx.Counted(s) && ctx.Streaming()
  }

  /** A finished container that is the prefix of the bytes delivered. */
  ghost predicate Delivered(ctx: UpdateCtx, s: seq<byte>)
    reads ctx, ctx.hdrBuf, ctx.flash
  {
    && Ready(ctx, s) && ctx.state == Verify
    && Accepted(s, ctx.slotSize) && ContainerLen(s[..HDR]) <= |s|
    && ctx.flash.cells[ctx.targetAddr..ctx.targetAddr + ContainerLen(s[..HDR])] == s[..ContainerLen(s[..HDR])]
  }

  lemma VerifyDelivers(ctx: UpdateCtx, s: seq<byte>)
    requires Ready(ctx, s) && ctx.BytesWanted() == 0
    ensures Delivered(ctx, s)
  {
    hide Meaning;
    ctx.WantedCompletes(s);
    ctx.VerifyNow(s);
  }

  /** s is a whole container that the slot takes, and less than n bytes behind it. */
  ghost predicate Whole(s: seq<byte>, n: nat, slotSize: u32) {
    Accepted(s, slotSize) && ContainerLen(s[..HDR]) <= |s| < ContainerLen(s[..HDR]) + n
  }

  lemma NotYetWhole(ctx: UpdateCtx, s: seq<byte>, n: nat)
    requires Ready(ctx, s) && ctx.BytesWanted() != 0
    ensures !Whole(s, n, ctx.slotSize)
  {
    hide Meaning;
    ctx.WantedCompletes(s);
  }

  /** A refused header stays refused. */
  ghost predicate Refused(s: seq<byte>, slotSize: u32) { |s| >= HDR && !Accepted(s, slotSize) }

  lemma RefusedStays(s: seq<byte>, more: seq<byte>, slotSize: u32)
    requires Refused(s, slotSize)
    ensures Refused(s + more, slotSize)
  {
    assert (s + more)[..HDR] == s[..HDR];
  }

  /** The container has ended. */
  ghost predicate Finish(s: seq<byte>, slotSize: u32) { Accepted(s, slotSize) && ContainerLen(s[..HDR]) <= |s| }

  lemma Ended(ctx: UpdateCtx, s: seq<byte>)
    requires Delivered(ctx, s)
    ensures Finish(s, ctx.slotSize)
  {
  }

  // ---- raw: a length prefix, then the container ----

  function RawLength(p: seq<byte>): u32 requires |p| >= 4 { Le32(p, 0) }

  /** uart_raw_receive: on success the declared length is exactly the container length, and
      the container is in the slot; and it is success exactly then if nothing fails. */
  method RawReceive(uart: Uart, ctx: UpdateCtx) returns (rc: int)
    requires Ready(ctx, [])
    modifies uart, ctx, ctx.hdrBuf, ctx.flash
    ensures rc == OK ==> |old(uart.input)| >= 4
    ensures rc == OK ==> var n := RawLength(old(uart.input));
              && 4 + n <= |old(uart.input)|
              && Delivered(ctx, old(uart.input)[4..4 + n])
              && ContainerLen(old(uart.input)[4..4 + n][..HDR]) == n
    ensures uart.timeouts == old(uart.timeouts) && ctx.flash.faults == old(ctx.flash.faults) ==>
              (rc == OK <==> RawWhole(old(uart.input), ctx.slotSize))
  {
    hide Ready, UpdateCtx.BytesWanted, Whole;
    ghost var input := uart.input;
    var prefix;
    rc, prefix := uart.Recv(4);
    if rc != OK { return; }
    var total: u32 := RawLength(prefix);
    assert Le32(prefix, 0) == Le32(input, 0);
    if total == 0 || total > ctx.slotSize {
      if RawWhole(input, ctx.slotSize) { WholeFits(input[4..4 + total], ctx.slotSize); }
      uart.Send(NAK);
      return ERR_FULL;
    }
    rc := RawBody(uart, ctx, total, input);
    if rc != OK {
      uart.Send(NAK);
      return;
    }
    ghost var s := input[4..4 + total];
    if ctx.BytesWanted() != 0 {
      NotYetWhole(ctx, s, 1);
      uart.Send(NAK);
      return ERR_INVALID;
    }
    RawFinished(ctx, s);
    uart.Send(ACK);
  }

  /** The bytes on the line are a length and a container of that length. */
  ghost predicate RawWhole(input: seq<byte>, slotSize: u32) {
    |input| >= 4 && 4 + RawLength(input) <= |input| && Whole(input[4..4 + RawLength(input)], 1, slotSize)
  }

  lemma WholeFits(s: seq<byte>, slotSize: u32)
    requires Whole(s, 1, slotSize)
    ensures HDR <= |s| <= slotSize
  {
    hide ImageSize, TlvLen;
  }

  lemma RawFinished(ctx: UpdateCtx, s: seq<byte>)
    requires Ready(ctx, s) && ctx.BytesWanted() == 0 && Taken(s, ctx.slotSize) == |s|
    ensures Delivered(ctx, s) && ContainerLen(s[..HDR]) == |s| && Whole(s, 1, ctx.slotSize)
  {
    hide Meaning;
    VerifyDelivers(ctx, s);
    ctx.VerifyNow(s);
  }

  /** Nothing that begins like this is a container and nothing else. */
  ghost predicate Spoilt(s: seq<byte>, slotSize: u32) {
    |s| >= HDR && (!Accepted(s, slotSize) || ContainerLen(s[..HDR]) < |s|)
  }

  lemma SpoiltStays(s: seq<byte>, more: seq<byte>, slotSize: u32)
    requires Spoilt(s, slotSize)
    ensures !Whole(s + more, 1, slotSize)
  {
    hide HeaderVerdict, ImageSize, TlvLen;
    assert (s + more)[..HDR] == s[..HDR];
  }

  method RawBody(uart: Uart, ctx: UpdateCtx, total: u32, ghost input: seq<byte>) returns (rc: int)
    requires Ready(ctx, []) && |input| >= 4 && uart.input == input[4..]
    modifies uart`input, uart`timeouts, ctx, ctx.hdrBuf, ctx.flash
    ensures rc == OK ==> 4 + total <= |input| && Ready(ctx, input[4..4 + total])
                         && Taken(input[4..4 + total], ctx.slotSize) == total
                         && ctx.flash.faults == old(ctx.flash.faults)
    ensures uart.timeouts >= old(uart.timeouts)
    ensures rc != OK && uart.timeouts == old(uart.timeouts) && ctx.flash.faults == old(ctx.flash.faults) ==>
              4 + total > |input| || !Whole(input[4..4 + total], 1, ctx.slotSize)
  {
    hide Meaning, Taken, Accepted, Ready, Whole, Spoilt;
    rc := OK;
    var remaining: u32 := total;
    ghost var done := 0;
    ghost var s: seq<byte> := [];
    TakenNothing(ctx.slotSize);
    while remaining > 0
      invariant done == total - remaining && 4 + done <= |input| && s == input[4..4 + done]
      invariant uart.input == input[4 + done..] && rc == OK
      invariant Ready(ctx, s) && Taken(s, ctx.slotSize) == done
      invariant uart.timeouts >= old(uart.timeouts) && ctx.flash.faults == old(ctx.flash.faults)
    {
      var toRead := if remaining > RAW_CHUNK then RAW_CHUNK else remaining;
      ghost var rest := uart.input;
      rc := RawChunk(uart, ctx, toRead, s);
      if rc != OK {
        if 4 + total <= |input| && Spoilt(s + rest[..toRead], ctx.slotSize) {
          var more := input[4 + done + toRead..4 + total];
          SpoiltStays(s + rest[..toRead], more, ctx.slotSize);
          ThreeParts(input, done, toRead, total);
        }
        return;
      }
      ThreeParts(input, done, toRead, done + toRead);
      s := s + rest[..toRead];
      done := done + toRead;
      assert s == input[4..4 + done];
      remaining := remaining - toRead;
    }
  }

  lemma ThreeParts(input: seq<byte>, done: nat, n: nat, total: nat)
    requires 4 + done + n <= 4 + total <= |input|
    ensures input[4..4 + done] + input[4 + done..][..n] + input[4 + done + n..4 + total] == input[4..4 + total]
    ensures input[4 + done..][n..] == input[4 + done + n..]
    ensures input[4..4 + done] + input[4 + done..][..n] == input[4..4 + (done + n)]
  {
  }

  method RawChunk(uart: Uart, ctx: UpdateCtx, n: nat, ghost s: seq<byte>) returns (rc: int)
    requires Ready(ctx, s) && n > 0
    modifies uart`input, uart`timeouts, ctx, ctx.hdrBuf, ctx.flash
    ensures uart.timeouts >= old(uart.timeouts) && (rc == OK ==> ctx.flash.faults == old(ctx.flash.faults))
    ensures rc != OK && uart.timeouts == old(uart.timeouts) && ctx.flash.faults == old(ctx.flash.faults) ==>
              n > |old(uart.input)| || Spoilt(s + old(uart.input)[..n], ctx.slotSize)
    ensures rc == OK ==> n <= |old(uart.input)| && uart.input == old(uart.input)[n..]
    ensures rc == OK ==> var t := s + old(uart.input)[..n]; Ready(ctx, t) && Taken(t, ctx.slotSize) == |t|
  {
    hide Meaning, Taken, Accepted, Spoilt;
    var chunk;
    rc, chunk := uart.Recv(n);
    if rc != OK { return; }
    rc := ctx.Write(chunk, s);
    if rc == OK {
      StillStreaming(ctx, s + chunk);
    } else if ctx.flash.faults == old(ctx.flash.faults) {
      WriteFailed(ctx, s + chunk);
    }
  }

  lemma WriteFailed(ctx: UpdateCtx, s: seq<byte>)
    requires ctx.After(s) && (ctx.state == Error || Taken(s, ctx.slotSize) != |s|)
    ensures Spoilt(s, ctx.slotSize)
  {
    if ctx.state == Error { ErrorIsRefusal(ctx, s); }
  }

  lemma TakenNothing(slotSize: u32)
    ensures Taken([], slotSize) == 0
  {
  }

  // ---- the container end inside a block ----

  /** Bytes the context wants all belong to the container. */
  lemma WantedIsTaken(ctx: UpdateCtx, t: seq<byte>, c: seq<byte>)
    requires Ready(ctx, t) && 0 < |c| <= ctx.BytesWanted()
    ensures Taken(t + c, ctx.slotSize) == |t + c|
  {
    hide Meaning;
    ctx.WantedCompletes(t);
    if |t| >= HDR { assert (t + c)[..HDR] == t[..HDR]; }
  }

  /** Behind a finished container nothing changes any more. */
  lemma DoneStays(ctx: UpdateCtx, t: seq<byte>, rest: seq<byte>)
    requires Ready(ctx, t) && ctx.BytesWanted() == 0
    ensures Ready(ctx, t + rest)
  {
    hide Meaning, Taken;
    ctx.WantedCompletes(t);
    ctx.VerifyNow(t);
    MeaningStable(t, rest, ctx.slotSize);
    AcceptedStays(t, rest, ctx.slotSize);
  }

  /** write_container_bytes: terminates, never hands over a byte behind the container, and
      with succeeding flash writes fails exactly when the header is refused. */
  method WriteContainerBytes(ctx: UpdateCtx, data: seq<byte>, ghost s: seq<byte>) returns (rc: int)
    requires Ready(ctx, s)
    modifies ctx, ctx.hdrBuf, ctx.flash
    ensures rc == OK ==> Ready(ctx, s + data) && ctx.flash.faults == old(ctx.flash.faults)
    ensures rc != OK ==> ctx.state == Error
    ensures rc != OK && ctx.flash.faults == old(ctx.flash.faults) ==> Refused(s + data, ctx.slotSize)
  {
    hide Meaning, Taken, Accepted, Ready, UpdateCtx.BytesWanted, Refused;
    var written := 0;
    assert s + data[..0] == s;
    rc := OK;
    while written < |data|
      invariant 0 <= written <= |data| && rc == OK && Ready(ctx, s + data[..written])
      invariant ctx.flash.faults == old(ctx.flash.faults)
    {
      ghost var t, rest := s + data[..written], data[written..];
      var wanted := ctx.BytesWanted();
      if wanted == 0 {
        DoneStays(ctx, t, rest);
        assert t + rest == s + data;
        return;
      }
      var chunk := |data| - written;
      WantedPositive(ctx, t);
      if chunk > wanted { chunk := wanted; }
      rc := WriteWanted(ctx, data[written..written + chunk], t);
      assert t + data[written..written + chunk] == s + data[..written + chunk];
      if rc != OK {
        if ctx.flash.faults == old(ctx.flash.faults) {
          RefusedStays(s + data[..written + chunk], data[written + chunk..], ctx.slotSize);
          assert s + data[..written + chunk] + data[written + chunk..] == s + data;
        }
        return;
      }
      written := written + chunk;
    }
    assert data[..written] == data;
  }

  lemma WantedPositive(ctx: UpdateCtx, t: seq<byte>)
    requires Ready(ctx, t)
    ensures ctx.BytesWanted() >= 0
  {
    hide Meaning;
    ctx.WantedCompletes(t);
  }

  method WriteWanted(ctx: UpdateCtx, c: seq<byte>, ghost t: seq<byte>) returns (rc: int)
    requires Ready(ctx, t) && 0 < |c| <= ctx.BytesWanted()
    modifies ctx, ctx.hdrBuf, ctx.flash
    ensures rc == OK ==> Ready(ctx, t + c) && ctx.flash.faults == old(ctx.flash.faults)
    ensures rc != OK ==> ctx.state == Error
    ensures rc != OK && ctx.flash.faults == old(ctx.flash.faults) ==> Refused(t + c, ctx.slotSize)
  {
    hide Meaning, Taken, Accepted, UpdateCtx.BytesWanted, Refused;
    WantedIsTaken(ctx, t, c);
    rc := ctx.Write(c, t);
    if rc == OK {
      StillStreaming(ctx, t + c);
    } else if ctx.flash.faults == old(ctx.flash.faults) {
      ErrorIsRefusal(ctx, t + c);
    }
  }

  lemma ErrorIsRefusal(ctx: UpdateCtx, s: seq<byte>)
    requires ctx.After(s) && ctx.state == Error
    ensures Refused(s, ctx.slotSize)
  {
  }

  lemma StillStreaming(ctx: UpdateCtx, t: seq<byte>)
    requires ctx.After(t) && ctx.state != Error
    ensures ctx.Streaming()
  {
  }

  // ---- CRC-16/XMODEM ----

  function Bit16(c: bv16): bv16 {
    if c & 0x8000 != 0 then (c << 1) ^ 0x1021 else c << 1
  }

  function Byte16(c: bv16, b: byte): bv16 {
    var d := c ^ (Wide16(b) << 8);
    Bit16(Bit16(Bit16(Bit16(Bit16(Bit16(Bit16(Bit16(d))))))))
  }

  function Wide16(b: byte): bv16 { (Crc32.Widen(b) & 0xFFFF) as bv16 }

  function Fold16(c: bv16, s: seq<byte>): bv16
    decreases |s|
  {
    if s == [] then c else Fold16(Byte16(c, s[0]), s[1..])
  }

  /** The last two bytes of a framed block are the CRC of the others. */
  predicate CrcOk(block: seq<byte>)
    requires |block| >= 2
  {
    var n := |block| - 2;
    Fold16(0, block[..n]) == (Wide16(block[n]) << 8) | Wide16(block[n + 1])
  }

  // ---- XMODEM ----

  function Next(blk: byte): byte { (blk + 1) % 256 }

  predicate Numbered(num: byte, comp: byte, expected: byte) { num == expected && comp == 255 - expected }

  /** The file an XMODEM trace carries: the data of the accepted blocks - right number, right
      complement, right CRC - in sequence order up to the end-of-transfer. */
  function XFile(t: seq<byte>, expected: byte): Option<seq<byte>>
    decreases |t|
  {
    if t == [] then None
    else if t[0] == EOT then Some([])
    else if t[0] == CAN then None
    else if t[0] != SOH then XFile(t[1..], expected)
    else if |t| < 3 + XMODEM_BLOCK + 2 then None
    else
      var block, rest := t[3..3 + XMODEM_BLOCK + 2], t[3 + XMODEM_BLOCK + 2..];
      if !Numbered(t[1], t[2], expected) || !CrcOk(block) then XFile(rest, expected)
      else Before(block[..XMODEM_BLOCK], XFile(rest, Next(expected)))
  }

  /** Data put in front of a file, if there is one. */
  function Before(data: seq<byte>, o: Option<seq<byte>>): Option<seq<byte>> {
    match o
    case None => None
    case Some(f) => Some(data + f)
  }

  lemma BeforeTwice(a: seq<byte>, b: seq<byte>, o: Option<seq<byte>>)
    ensures Before(a, Before(b, o)) == Before(a + b, o)
  {
    if o.Some? { assert a + (b + o.value) == a + b + o.value; }
  }

  /** One framed block after the SOH or STX at the head of t: header, data and CRC. */
  method RecvBlock(uart: Uart, size: nat, ghost t: seq<byte>) returns (rc: int, hdr: seq<byte>, block: seq<byte>)
    requires |t| > 0 && uart.input == t[1..]
    modifies uart`input, uart`timeouts
    ensures uart.timeouts >= old(uart.timeouts)
    ensures uart.timeouts == old(uart.timeouts) ==> (rc == OK <==> |t| >= size + 5)
    ensures rc == OK ==> |t| >= size + 5 && hdr == [t[1], t[2]] && block == t[3..3 + size + 2]
                         && uart.input == t[3 + size + 2..]
    ensures |uart.input| < |t|
  {
    hdr, block := [], [];
    rc, hdr := uart.Recv(2);
    if rc != OK { return; }
    rc, block := uart.Recv(size + 2);
    if rc == OK { BlockAt(t, size); }
  }

  lemma BlockAt(t: seq<byte>, size: nat)
    requires |t| >= size + 5
    ensures t[1..][2..][..size + 2] == t[3..3 + size + 2] && t[1..][2..][size + 2..] == t[3 + size + 2..]
    ensures t[1..][..2] == [t[1], t[2]]
  {
  }

  /** xmodem_receive: over every trace, success means the container is the prefix of the
      accepted blocks in sequence order, each written once, and that less than one block
      of padding follows it; and it is success exactly then if nothing fails. */
  method XmodemReceive(uart: Uart, ctx: UpdateCtx) returns (rc: int)
    requires Ready(ctx, [])
    modifies uart, ctx, ctx.hdrBuf, ctx.flash
    ensures rc == OK ==>
              var f := XFile(old(uart.input), 1);
              && f.Some? && Delivered(ctx, f.value)
              && |f.value| < ContainerLen(f.value[..HDR]) + XMODEM_BLOCK
    ensures uart.timeouts == old(uart.timeouts) && ctx.flash.faults == old(ctx.flash.faults) ==>
              var f := XFile(old(uart.input), 1);
              rc == OK <==> f.Some? && Whole(f.value, XMODEM_BLOCK, ctx.slotSize)
  {
    hide XFile, Ready, Delivered, UpdateCtx.BytesWanted, Whole, Refused, Before, Finish, PaddingBelow, CrcOk;
    var expected: byte := 1;
    uart.Send(CRC_MODE);
    ghost var got: seq<byte> := [];
    ghost var whole := XFile(uart.input, 1);
    NoneBefore(whole);
    NothingBehind(ctx.slotSize, XMODEM_BLOCK);
    while true
      invariant uart.timeouts >= old(uart.timeouts) && ctx.flash.faults == old(ctx.flash.faults)
      invariant Ready(ctx, got) && Before(got, XFile(uart.input, expected)) == whole
      invariant PaddingBelow(ctx.slotSize, got, XMODEM_BLOCK)
      decreases |uart.input|
    {
      ghost var t := uart.input;
      var soh;
      XStep(t, expected);
      AllThere(got);
      rc, soh := uart.Recv(1);
      if rc != OK { return; }
      if soh[0] == EOT {
        uart.Send(ACK);
        if ctx.BytesWanted() != 0 {
          NotYetWhole(ctx, got, XMODEM_BLOCK);
          return ERR_INVALID;
        }
        Finished(ctx, got, XMODEM_BLOCK);
        return OK;
      }
      if soh[0] == CAN { return ERR_GENERIC; }
      if soh[0] != SOH { continue; }
      var hdr, block;
      rc, hdr, block := RecvBlock(uart, XMODEM_BLOCK, t);
      if rc != OK { return; }
      if !Numbered(hdr[0], hdr[1], expected) || !CrcOk(block) {
        uart.Send(NAK);
        continue;
      }
      XNext(got, block[..XMODEM_BLOCK], XFile(uart.input, Next(expected)), ctx.slotSize);
      rc := XData(uart, ctx, block[..XMODEM_BLOCK], got);
      if rc != OK { return; }
      got := got + block[..XMODEM_BLOCK];
      expected := Next(expected);
    }
  }

  /** One token of an XMODEM trace. */
  lemma XStep(t: seq<byte>, expected: byte)
    ensures t == [] || t[0] == CAN || (t[0] == SOH && |t| < XMODEM_BLOCK + 5) ==> XFile(t, expected) == None
    ensures t != [] && t[0] == EOT ==> XFile(t, expected) == Some([])
    ensures t != [] && t[0] != EOT && t[0] != CAN && t[0] != SOH ==> XFile(t, expected) == XFile(t[1..], expected)
    ensures t != [] && t[0] == SOH && |t| >= 3 + XMODEM_BLOCK + 2 ==>
              var block, rest := t[3..3 + XMODEM_BLOCK + 2], t[3 + XMODEM_BLOCK + 2..];
              XFile(t, expected) ==
                if !Numbered(t[1], t[2], expected) || !CrcOk(block) then XFile(rest, expected)
                else Before(block[..XMODEM_BLOCK], XFile(rest, Next(expected)))
  {
  }

  lemma AllThere(got: seq<byte>)
    ensures Before(got, Some([])) == Some(got) && Before(got, None) == None
  {
    assert got + [] == got;
  }

  /** A block in sequence goes to the container. */
  method XData(uart: Uart, ctx: UpdateCtx, data: seq<byte>, ghost got: seq<byte>) returns (rc: int)
    requires Ready(ctx, got) && |data| == XMODEM_BLOCK
    modifies uart`sent, ctx, ctx.hdrBuf, ctx.flash
    ensures rc == OK ==> Ready(ctx, got + data) && PaddingBelow(ctx.slotSize, got + data, XMODEM_BLOCK)
    ensures rc == OK ==> ctx.flash.faults == old(ctx.flash.faults)
    ensures rc != OK && ctx.flash.faults == old(ctx.flash.faults) ==>
              Finish(got, ctx.slotSize) || Refused(got + data, ctx.slotSize)
  {
    hide Ready, Delivered, UpdateCtx.BytesWanted, PaddingBelow, Refused;
    if ctx.BytesWanted() == 0 {
      VerifyDelivers(ctx, got);
      Ended(ctx, got);
      uart.Send(CAN);
      return ERR_INVALID;
    }
    WantedMeansShort(ctx, got, data, XMODEM_BLOCK);
    rc := WriteContainerBytes(ctx, data, got);
    uart.Send(if rc != OK then CAN else ACK);
  }

  /** Behind a block in sequence: a whole block behind a finished container is more than
      padding. */
  lemma XNext(got: seq<byte>, data: seq<byte>, o: Option<seq<byte>>, slotSize: u32)
    requires |data| == XMODEM_BLOCK
    ensures var f := Before(got, Before(data, o));
            && f == Before(got + data, o)
            && (Finish(got, slotSize) || Refused(got + data, slotSize) ==>
                  f.Some? ==> !Whole(f.value, XMODEM_BLOCK, slotSize))
  {
    hide HeaderVerdict;
    BeforeTwice(got, data, o);
    if o.Some? {
      if Refused(got + data, slotSize) { RefusedStays(got + data, o.value, slotSize); }
      if Finish(got, slotSize) { assert (got + data + o.value)[..HDR] == got[..HDR]; }
    }
  }

  lemma NoneBefore(o: Option<seq<byte>>)
    ensures Before([], o) == o
  {
    if o.Some? { assert [] + o.value == o.value; }
  }

  /** Less than one block of the delivered bytes lies behind the container. */
  ghost predicate PaddingBelow(slotSize: u32, s: seq<byte>, n: nat) {
    Accepted(s, slotSize) ==> |s| < ContainerLen(s[..HDR]) + n
  }

  /** Nothing more is wanted: the container is in the slot, and less than one block follows it. */
  lemma Finished(ctx: UpdateCtx, s: seq<byte>, n: nat)
    requires Ready(ctx, s) && ctx.BytesWanted() == 0 && PaddingBelow(ctx.slotSize, s, n)
    ensures Delivered(ctx, s) && Whole(s, n, ctx.slotSize)
    ensures |s| >= HDR && ContainerLen(s[..HDR]) <= |s| < ContainerLen(s[..HDR]) + n
  {
    hide Ready, UpdateCtx.BytesWanted;
    VerifyDelivers(ctx, s);
  }

  lemma NothingBehind(slotSize: u32, n: nat)
    ensures PaddingBelow(slotSize, [], n)
  {
  }

  /** A block that begins while bytes are wanted begins inside the container. */
  lemma WantedMeansShort(ctx: UpdateCtx, s: seq<byte>, c: seq<byte>, n: nat)
    requires Ready(ctx, s) && ctx.BytesWanted() != 0 && |c| <= n
    ensures PaddingBelow(ctx.slotSize, s + c, n)
  {
    hide Meaning, Taken;
    ctx.WantedCompletes(s);
    if |s| >= HDR { assert (s + c)[..HDR] == s[..HDR]; }
  }

  // ---- YMODEM: the declared size ----

  /** Where the file name ends: the first NUL, or the end of the block. */
  function NameLen(b: seq<byte>): (n: nat)
    ensures n <= |b| && (forall i :: 0 <= i < n ==> b[i] != 0) && (n < |b| ==> b[n] == 0)
    decreases |b|
  {
    if b == [] || b[0] == 0 then 0 else 1 + NameLen(b[1..])
  }

  predicate IsDigit(b: byte) { 0x30 <= b <= 0x39 }

  /** The longest prefix of digits. */
  function DigitRun(b: seq<byte>): (r: seq<byte>)
    ensures |r| <= |b| && r == b[..|r|] && (forall i :: 0 <= i < |r| ==> IsDigit(r[i]))
    ensures |r| < |b| ==> !IsDigit(b[|r|])
    decreases |b|
  {
    if b == [] || !IsDigit(b[0]) then [] else [b[0]] + DigitRun(b[1..])
  }

  function Decimal(d: seq<byte>): nat
    requires forall i :: 0 <= i < |d| ==> IsDigit(d[i])
    decreases |d|
  {
    if d == [] then 0
    else
      assert IsDigit(d[|d| - 1]);
      10 * Decimal(d[..|d| - 1]) + (d[|d| - 1] as int - 0x30)
  }

  /** The size block 0 declares: the decimal number behind the name when it fits 32 bits,
      otherwise 0, which the receiver refuses. */
  function DeclaredSize(b: seq<byte>): u32 {
    var n := NameLen(b);
    if n == 0 || n + 1 >= |b| then 0
    else
      var v := Decimal(DigitRun(b[n + 1..]));
      if v < 0x1_0000_0000 then v else 0
  }

  lemma {:induction false} DecimalGrows(d: seq<byte>, k: nat)
    requires k <= |d| && forall i :: 0 <= i < |d| ==> IsDigit(d[i])
    ensures Decimal(d[..k]) <= Decimal(d)
    decreases |d|
  {
    if k == |d| {
      assert d[..k] == d;
    } else {
      DecimalGrows(d[..|d| - 1], k);
      assert d[..|d| - 1][..k] == d[..k];
    }
  }

  /** The two bounded scans over block 0; the guard of the accumulation is exact. */
  method ParseSize(b: seq<byte>) returns (size: u32)
    ensures size == DeclaredSize(b)
  {
    hide Decimal;
    var nameLen := 0;
    while nameLen < |b| && b[nameLen] != 0
      invariant nameLen <= |b| && nameLen <= NameLen(b)
    {
      nameLen := nameLen + 1;
    }
    size := 0;
    if nameLen > 0 && nameLen + 1 < |b| {
      size := ParseDigits(b[nameLen + 1..]);
    }
  }

  method ParseDigits(b: seq<byte>) returns (size: u32)
    ensures size == var v := Decimal(DigitRun(b)); if v < 0x1_0000_0000 then v else 0
  {
    hide Decimal, DigitRun;
    ghost var run := DigitRun(b);
    var i := 0;
    size := 0;
    DecimalStep(run, 0);
    while i < |b|
      invariant i <= |run| && size == Decimal(run[..i])
    {
      if !IsDigit(b[i]) { break; }
      DecimalStep(run, i);
      var digit: u32 := b[i] as int - 0x30;
      if size > (0xFFFF_FFFF - digit) / 10 {
        DecimalGrows(run, i + 1);
        return 0;
      }
      size := size * 10 + digit;
      i := i + 1;
    }
    assert run[..i] == run;
  }

  lemma DecimalStep(d: seq<byte>, i: nat)
    requires i <= |d| && forall k :: 0 <= k < |d| ==> IsDigit(d[k])
    ensures Decimal(d[..0]) == 0
    ensures i < |d| ==> Decimal(d[..i + 1]) == 10 * Decimal(d[..i]) + (d[i] as int - 0x30)
  {
    if i < |d| { assert d[..i + 1][..i] == d[..i]; }
  }

  // ---- YMODEM: the transfer ----

  /** The declared size, the file, and how much of it came in its last block. */
  datatype Transfer = Transfer(size: u32, file: seq<byte>, last: nat)

  /** What has been received, the last block of it last bytes long, and what is to come. */
  function Joined(got: seq<byte>, last: nat, o: Option<Transfer>): Option<Transfer> {
    match o
    case None => None
    case Some(f) => Some(Transfer(f.size, got + f.file, if f.file == [] then last else f.last))
  }

  function BlockSize(start: byte): nat { if start == SOH then XMODEM_BLOCK else YMODEM_BLOCK }

  /** A framed block whose CRC and number complement are right. */
  predicate Genuine(num: byte, comp: byte, block: seq<byte>)
    requires |block| >= 2
  {
    CrcOk(block) && comp == 255 - num
  }

  /** The file a YMODEM trace carries. No block 0 has been seen while fileSize is 0; after
      it, total bytes of the declared size have been received. Damaged blocks, repeats of
      the previous block and other wrong numbers carry nothing. */
  function YFile(t: seq<byte>, fileSize: u32, expected: byte, total: nat): (o: Option<Transfer>)
    requires total <= fileSize
    ensures o.Some? ==> o.value.last <= |o.value.file|
    decreases |t|
  {
    if t == [] then None
    else if t[0] == EOT then if fileSize == 0 then None else Some(Transfer(fileSize, [], 0))
    else if t[0] == CAN then None
    else if t[0] != SOH && t[0] != STX then YFile(t[1..], fileSize, expected, total)
    else if |t| < 3 + BlockSize(t[0]) + 2 then None
    else
      var size := BlockSize(t[0]);
      var block, rest := t[3..3 + size + 2], t[3 + size + 2..];
      if !Genuine(t[1], t[2], block) then YFile(rest, fileSize, expected, total)
      else if fileSize == 0 then
        if t[1] != 0 then YFile(rest, fileSize, expected, total)
        else if DeclaredSize(block[..size]) == 0 then None
        else YFile(rest, DeclaredSize(block[..size]), 1, 0)
      else if t[1] != expected then YFile(rest, fileSize, expected, total)
      else
        var n := Min(size, fileSize - total);
        if n == 0 then None
        else Joined(block[..n], n, YFile(rest, fileSize, Next(expected), total + n))
  }

  lemma JoinedTwice(a: seq<byte>, last: nat, b: seq<byte>, o: Option<Transfer>)
    requires b != []
    ensures Joined(a, last, Joined(b, |b|, o)) == Joined(a + b, |b|, o)
  {
    if o.Some? { assert a + (b + o.value.file) == a + b + o.value.file; }
  }

  lemma JoinedEnds(got: seq<byte>, last: nat, size: u32, o: Option<Transfer>)
    ensures Joined(got, last, None) == None
    ensures Joined(got, last, Some(Transfer(size, [], 0))) == Some(Transfer(size, got, last))
    ensures Joined([], 0, o) == if o.Some? && o.value.file == [] then Some(Transfer(o.value.size, [], 0)) else o
  {
    assert got + [] == got;
    if o.Some? { assert [] + o.value.file == o.value.file; }
  }

  /** A block that is written behind a finished container, or under a refused header, ends
      the hope for this file. */
  lemma NotWholeAfter(got: seq<byte>, c: seq<byte>, o: Option<Transfer>, slotSize: u32)
    requires c != [] && (Finish(got, slotSize) || Refused(got + c, slotSize))
    requires o.Some? ==> o.value.last <= |o.value.file|
    ensures var f := Joined(got + c, |c|, o); f.Some? ==> !Whole(f.value.file, f.value.last, slotSize)
  {
    hide HeaderVerdict;
    if o.Some? {
      if Refused(got + c, slotSize) {
        RefusedStays(got + c, o.value.file, slotSize);
      } else {
        assert (got + c + o.value.file)[..HDR] == got[..HDR];
      }
    }
  }

  /** The trace ends inside the block it begins with. */
  predicate Short(t: seq<byte>) { t != [] && (t[0] == SOH || t[0] == STX) && |t| < BlockSize(t[0]) + 5 }

  /** One token of a YMODEM trace that is not a data block in sequence. */
  lemma YToken(t: seq<byte>, fileSize: u32, expected: byte, total: nat)
    requires total <= fileSize
    ensures t != [] && t[0] == EOT && fileSize != 0 ==>
              YFile(t, fileSize, expected, total) == Some(Transfer(fileSize, [], 0))
    ensures t == [] || t[0] == CAN || (t[0] == EOT && fileSize == 0) || Short(t) ==>
              YFile(t, fileSize, expected, total) == None
    ensures t != [] && t[0] != EOT && t[0] != CAN && t[0] != SOH && t[0] != STX ==>
              YFile(t, fileSize, expected, total) == YFile(t[1..], fileSize, expected, total)
  {
  }

  /** One framed block of a YMODEM trace. */
  lemma YBlock(t: seq<byte>, fileSize: u32, expected: byte, total: nat)
    requires total <= fileSize && t != [] && (t[0] == SOH || t[0] == STX) && |t| >= BlockSize(t[0]) + 5
    ensures var size := BlockSize(t[0]);
            var block, rest, here := t[3..3 + size + 2], t[3 + size + 2..], YFile(t, fileSize, expected, total);
            && (!Genuine(t[1], t[2], block) ==> here == YFile(rest, fileSize, expected, total))
            && (Genuine(t[1], t[2], block) && fileSize == 0 && t[1] == 0 && DeclaredSize(block[..size]) != 0 ==>
                  here == YFile(rest, DeclaredSize(block[..size]), 1, 0))
            && (Genuine(t[1], t[2], block) && fileSize == 0 && t[1] != 0 ==>
                here == YFile(rest, fileSize, expected, total))
            && (Genuine(t[1], t[2], block) && fileSize != 0 && t[1] != expected ==>
                  here == YFile(rest, fileSize, expected, total))
            && (Genuine(t[1], t[2], block) && fileSize != 0 && t[1] == expected && total < fileSize ==>
                  var n := Min(size, fileSize - total);
                  here == Joined(block[..n], n, YFile(rest, fileSize, Next(expected), total + n)))
            && (Genuine(t[1], t[2], block) && fileSize == 0 && t[1] == 0 && DeclaredSize(block[..size]) == 0 ==>
                  here == None)
            && (Genuine(t[1], t[2], block) && fileSize != 0 && t[1] == expected && total == fileSize ==>
                  here == None)
  {
    hide DeclaredSize, Genuine;
  }

  /** A repeat of the block just accepted changes nothing of the file. */
  lemma RetransmissionIsDropped(b: seq<byte>, rest: seq<byte>, fileSize: u32, expected: byte, total: nat)
    requires total < fileSize && b != [] && (b[0] == SOH || b[0] == STX) && |b| == BlockSize(b[0]) + 5
    requires Genuine(b[1], b[2], b[3..]) && b[1] == expected
    ensures YFile(b + b + rest, fileSize, expected, total) == YFile(b + rest, fileSize, expected, total)
  {
    hide YFile, Genuine, DeclaredSize;
    var n := Min(BlockSize(b[0]), fileSize - total);
    YBlock(b + b + rest, fileSize, expected, total);
    YBlock(b + rest, fileSize, Next(expected), total + n);
    YBlock(b + rest, fileSize, expected, total);
    assert (b + b + rest)[3..|b|] == b[3..] && (b + b + rest)[|b|..] == b + rest;
    assert (b + rest)[3..|b|] == b[3..] && (b + rest)[|b|..] == rest;
  }

  /** A data block in sequence: the bytes of the declared file in it go to the container. */
  method YData(uart: Uart, ctx: UpdateCtx, data: seq<byte>, fileSize: u32, total: u32, ghost got: seq<byte>)
    returns (rc: int, fileLen: u32)
    requires Ready(ctx, got) && total <= fileSize && 0 < |data| <= YMODEM_BLOCK
    modifies uart`sent, ctx, ctx.hdrBuf, ctx.flash
    ensures rc == OK ==> 0 < fileLen == Min(|data|, fileSize - total) && ctx.flash.faults == old(ctx.flash.faults)
    ensures rc == OK ==> Ready(ctx, got + data[..fileLen])
    ensures rc == OK ==> PaddingBelow(ctx.slotSize, got + data[..fileLen], fileLen)
    ensures rc != OK && ctx.flash.faults == old(ctx.flash.faults) ==>
              total == fileSize || Finish(got, ctx.slotSize)
              || Refused(got + data[..Min(|data|, fileSize - total)], ctx.slotSize)
  {
    hide Ready, Delivered, UpdateCtx.BytesWanted, PaddingBelow, Refused;
    fileLen := 0;
    if ctx.BytesWanted() == 0 {
      VerifyDelivers(ctx, got);
      Ended(ctx, got);
      uart.Send(CAN);
      return ERR_INVALID, 0;
    }
    fileLen := |data|;
    if total + fileLen > fileSize { fileLen := fileSize - total; }
    if fileLen == 0 {
      uart.Send(CAN);
      return ERR_INVALID, 0;
    }
    WantedMeansShort(ctx, got, data[..fileLen], fileLen);
    rc := WriteContainerBytes(ctx, data[..fileLen], got);
    uart.Send(if rc != OK then CAN else ACK);
  }

  /** Block 0 names the file and its size; another number is asked for again. */
  method OpenFile(uart: Uart, num: byte, data: seq<byte>) returns (rc: int, fileSize: u32)
    modifies uart`sent
    ensures num != 0 ==> rc == OK && fileSize == 0
    ensures num == 0 ==> fileSize == DeclaredSize(data) && (rc == OK <==> fileSize != 0)
  {
    hide DeclaredSize;
    if num != 0 {
      uart.Send(NAK);
      return OK, 0;
    }
    fileSize := ParseSize(data);
    if fileSize == 0 {
      uart.Send(CAN);
      return ERR_INVALID, 0;
    }
    uart.Send(ACK);
    uart.Send(CRC_MODE);
    rc := OK;
  }

  /** The loop of the receiver: got has been received of the file that whole is about, and
      input is still to come. The file size is 0 until block 0 has been seen. */
  ghost predicate Receiving(input: seq<byte>, ctx: UpdateCtx, whole: Option<Transfer>, fileSize: u32, expected: byte,
                            total: nat, got: seq<byte>, last: nat)
    reads ctx, ctx.hdrBuf, ctx.flash
  {
    && |got| == total <= fileSize && Ready(ctx, got) && last <= YMODEM_BLOCK
    && Joined(got, last, YFile(input, fileSize, expected, total)) == whole && PaddingBelow(ctx.slotSize, got, last)
  }

  /** No file that a receiver should take. */
  ghost predicate Hopeless(whole: Option<Transfer>, slotSize: u32) {
    whole.Some? ==> !Whole(whole.value.file, whole.value.last, slotSize)
  }

  /** A block of the transfer, from behind its first byte to its answer. */
  method ReceiveBlock(uart: Uart, ctx: UpdateCtx, start: byte, ghost t: seq<byte>, ghost whole: Option<Transfer>,
                      size0: u32, expected0: byte, total0: u32, ghost got0: seq<byte>, ghost last0: nat)
      returns (rc: int, fileSize: u32, expected: byte, total: u32, ghost got: seq<byte>, ghost last: nat)
    requires Receiving(t, ctx, whole, size0, expected0, total0, got0, last0)
    requires t != [] && uart.input == t[1..] && start == t[0] && (start == SOH || start == STX)
    modifies uart, ctx, ctx.hdrBuf, ctx.flash
    ensures uart.timeouts >= old(uart.timeouts) && |uart.input| < |t|
    ensures rc == OK ==> ctx.flash.faults == old(ctx.flash.faults)
                         && Receiving(uart.input, ctx, whole, fileSize, expected, total, got, last)
    ensures rc != OK && uart.timeouts == old(uart.timeouts) && ctx.flash.faults == old(ctx.flash.faults) ==>
              Hopeless(whole, ctx.slotSize)
  {
    hide YFile, Ready, CrcOk, DeclaredSize, PaddingBelow, Joined, Whole, Finish, Refused;
    fileSize, expected, total, got, last := size0, expected0, total0, got0, last0;
    var size := BlockSize(start);
    YToken(t, fileSize, expected, total);
    JoinedEnds(got, last, fileSize, None);
    var hdr, block;
    rc, hdr, block := RecvBlock(uart, size, t);
    if rc != OK { return; }
    YBlock(t, fileSize, expected, total);
    if !CrcOk(block) || hdr[1] != 255 - hdr[0] {
      uart.Send(NAK);
      return;
    }
    if fileSize == 0 {
      rc, fileSize := OpenFile(uart, hdr[0], block[..size]);
      if rc == OK && fileSize != 0 { expected := 1; }
      return;
    }
    if hdr[0] != expected {
      uart.Send(if hdr[0] == Previous(expected) then ACK else NAK);
      return;
    }
    ghost var c := block[..Min(size, fileSize - total)];
    assert block[..size][..|c|] == c;
    if total < fileSize { YNext(got, last, c, uart.input, fileSize, expected, total, ctx.slotSize); }
    var fileLen;
    rc, fileLen := YData(uart, ctx, block[..size], fileSize, total, got);
    if rc != OK { return; }
    got, last, total, expected := got + c, |c|, total + fileLen, Next(expected);
  }

  /** ymodem_receive: success means the container is the prefix of the declared file, which
      is the accepted blocks in sequence order, each written once; the file is no longer than
      declared, and the container ends in its last block. If nothing fails, it is success
      exactly then. */
  method YmodemReceive(uart: Uart, ctx: UpdateCtx) returns (rc: int)
    requires Ready(ctx, [])
    modifies uart, ctx, ctx.hdrBuf, ctx.flash
    ensures rc == OK ==>
              var f := YFile(old(uart.input), 0, 0, 0);
              && f.Some? && Delivered(ctx, f.value.file) && |f.value.file| <= f.value.size
              && Whole(f.value.file, f.value.last, ctx.slotSize) && f.value.last <= YMODEM_BLOCK
    ensures uart.timeouts == old(uart.timeouts) && ctx.flash.faults == old(ctx.flash.faults) ==>
              var f := YFile(old(uart.input), 0, 0, 0);
              rc == OK <==> f.Some? && Whole(f.value.file, f.value.last, ctx.slotSize)
  {
    hide Ready, UpdateCtx.BytesWanted, YFile, Joined, Whole, PaddingBelow, BlockSize;
    uart.Send(CRC_MODE);
    var fileSize: u32, expected: byte, total: u32 := 0, 0, 0;
    ghost var got: seq<byte>, last: nat := [], 0;
    ghost var whole := YFile(uart.input, 0, 0, 0);
    JoinedEnds([], 0, 0, whole);
    NothingBehind(ctx.slotSize, 0);
    while true
      invariant uart.timeouts >= old(uart.timeouts) && ctx.flash.faults == old(ctx.flash.faults)
      invariant Receiving(uart.input, ctx, whole, fileSize, expected, total, got, last)
      decreases |uart.input|
    {
      ghost var t := uart.input;
      var start;
      YToken(t, fileSize, expected, total);
      JoinedEnds(got, last, fileSize, None);
      rc, start := uart.Recv(1);
      if rc != OK { return; }
      if start[0] == EOT {
        uart.Send(ACK);
        if fileSize != 0 { uart.Send(CRC_MODE); }
        if ctx.BytesWanted() != 0 {
          NotYetWhole(ctx, got, last);
          return ERR_INVALID;
        }
        Finished(ctx, got, last);
        return OK;
      }
      if start[0] == CAN { return ERR_GENERIC; }
      if start[0] != SOH && start[0] != STX { continue; }
      rc, fileSize, expected, total, got, last := ReceiveBlock(uart, ctx, start[0], t, whole, fileSize,
                                                              expected, total, got, last);
      if rc != OK { return; }
    }
  }

  /** Behind a data block in sequence. */
  lemma YNext(got: seq<byte>, last: nat, c: seq<byte>, rest: seq<byte>, fileSize: u32, expected: byte, total: nat,
              slotSize: u32)
    requires total + |c| <= fileSize && c != []
    ensures var o := YFile(rest, fileSize, Next(expected), total + |c|);
            var f := Joined(got, last, Joined(c, |c|, o));
            && f == Joined(got + c, |c|, o)
            && (Finish(got, slotSize) || Refused(got + c, slotSize) ==>
                  f.Some? ==> !Whole(f.value.file, f.value.last, slotSize))
  {
    hide YFile, Whole, Joined, Finish, Refused;
    var o := YFile(rest, fileSize, Next(expected), total + |c|);
    JoinedTwice(got, last, c, o);
    if Finish(got, slotSize) || Refused(got + c, slotSize) { NotWholeAfter(got, c, o, slotSize); }
  }

  function Previous(blk: byte): byte { (blk + 255) % 256 }
}
