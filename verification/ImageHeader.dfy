/** The 156-byte image header (include/eos_image.h) and what it declares. */
module ImageHeader {
  import opened Types
  import Crc32
  import Words

  const HDR := 156
  const IMG_MAGIC := 0x454F5349
  const HDR_VERSION := 2
  const MAX_HDR_SIZE := 4096
  const MAX_IMAGE_SIZE := 0x100_0000

  function Magic(h: seq<byte>): u32 requires |h| >= HDR { Le32(h, 0) }
  function Version(h: seq<byte>): u16 requires |h| >= HDR { Le16(h, 4) }
  function HdrSize(h: seq<byte>): u16 requires |h| >= HDR { Le16(h, 6) }
  function ImageSize(h: seq<byte>): u32 requires |h| >= HDR { Le32(h, 8) }
  function LoadAddr(h: seq<byte>): u32 requires |h| >= HDR { Le32(h, 12) }
  function EntryAddr(h: seq<byte>): u32 requires |h| >= HDR { Le32(h, 16) }
  function ImageVersion(h: seq<byte>): u32 requires |h| >= HDR { Le32(h, 20) }
  function Flags(h: seq<byte>): u32 requires |h| >= HDR { Le32(h, 24) }
  function Hash(h: seq<byte>): seq<byte> requires |h| >= HDR { h[28..60] }
  function TlvLen(h: seq<byte>): u16 requires |h| >= HDR { Le16(h, 62) }
  function TlvHash(h: seq<byte>): seq<byte> requires |h| >= HDR { h[64..92] }

  predicate HashIsSha256(h: seq<byte>) requires |h| >= HDR { Flags(h) / 64 % 2 == 1 }

  /** The CRC word stored in the first four bytes of hash[]. */
  function StoredCrc(h: seq<byte>): bv32
    requires |h| >= HDR
  {
    Words.Reg(h[28..32])
  }

  /** The integrity rule of the header: SHA-256 of the payload, or its CRC. */
  ghost predicate Intact(sha: seq<byte> -> seq<byte>, h: seq<byte>, payload: seq<byte>)
    requires |h| >= HDR
  {
    if HashIsSha256(h) then sha(payload) == Hash(h) else Crc32.Crc(payload) == StoredCrc(h)
  }

  /** What every header that is parsed without an error satisfies; the last clause is that
      the entry point lies in the loaded image, which does not wrap. */
  predicate WellFormed(h: seq<byte>)
    requires |h| >= HDR
  {
    && Magic(h) == IMG_MAGIC && 1 <= Version(h) <= HDR_VERSION
    && HDR <= HdrSize(h) <= MAX_HDR_SIZE && 1 <= ImageSize(h) <= MAX_IMAGE_SIZE
    && (LoadAddr(h) != 0 ==>
          LoadAddr(h) <= EntryAddr(h) < LoadAddr(h) + ImageSize(h) < 0x1_0000_0000)
  }

  /** eos_image_fits_slot: no step of it can wrap, and it is exactly the sum. */
  function FitsSlot(h: seq<byte>, slotSize: u32): (fits: bool)
    requires |h| >= HDR
    ensures fits <==> HdrSize(h) + ImageSize(h) + TlvLen(h) <= slotSize
  {
    if HdrSize(h) > slotSize then false
    else
      var remaining: u32 := slotSize - HdrSize(h);
      if ImageSize(h) > remaining then false
      else
        var left: u32 := remaining - ImageSize(h);
        TlvLen(h) <= left
  }
}
