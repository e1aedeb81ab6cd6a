/** Reading and verifying an image in flash (core/image_verify.c). */
module ImageVerify {
  import opened Types
  import opened Flash
  import opened ImageHeader
  import Crc32
  import Sha2
  import Sha256

  /** eos_image_parse_header: an error tells why, and success is exactly a well-formed header. */
  method ParseHeader(flash: FlashDevice, addr: u32) returns (rc: int, h: seq<byte>)
    modifies flash`readFaults
    ensures |h| == HDR
    ensures flash.readFaults >= old(flash.readFaults)
    ensures flash.readFaults == old(flash.readFaults) ==> (rc != ERR_FLASH <==> flash.Holds(addr, HDR))
    ensures rc != ERR_FLASH ==> flash.Holds(addr, HDR) && h == flash.cells[addr..addr + HDR]
    ensures rc == OK || rc == ERR_FLASH || rc == ERR_NO_IMAGE || rc == ERR_INVALID
    ensures rc != ERR_FLASH ==> (rc == OK <==> WellFormed(h)) && (rc == ERR_NO_IMAGE <==> Magic(h) != IMG_MAGIC)
  {
    hide Le32, Le16;
    h := seq(HDR, _ => 0);
    var raw;
    rc, raw := flash.Read(addr, HDR);
    if rc != OK { return ERR_FLASH, h; }
    h := raw;
    if Magic(h) != IMG_MAGIC { return ERR_NO_IMAGE, h; }
    if Version(h) == 0 || Version(h) > HDR_VERSION { return ERR_INVALID, h; }
    if HdrSize(h) < HDR || HdrSize(h) > MAX_HDR_SIZE { return ERR_INVALID, h; }
    if ImageSize(h) == 0 || ImageSize(h) > MAX_IMAGE_SIZE { return ERR_INVALID, h; }
    if LoadAddr(h) != 0 {
      var start: u32 := LoadAddr(h);
      if ImageSize(h) > 0xFFFF_FFFF - start { return ERR_INVALID, h; }
      var end: u32 := start + ImageSize(h);
      if EntryAddr(h) < start || EntryAddr(h) >= end { return ERR_INVALID, h; }
    }
  }

  /** eos_crc32_checked: the chunked CRC of exactly the region, or a flash error. */
  method Crc32Checked(flash: FlashDevice, addr: u32, len: nat) returns (rc: int, crc: bv32)
    requires |flash.cells| < 0x1_0000_0000
    modifies flash`readFaults
    ensures rc == OK || rc == ERR_FLASH
    ensures flash.readFaults >= old(flash.readFaults)
    ensures flash.readFaults == old(flash.readFaults) && flash.Holds(addr, len) ==> rc == OK
    ensures rc == OK && len > 0 ==> flash.Holds(addr, len) && crc == Crc32.Crc(flash.cells[addr..addr + len])
  {
    hide Crc32.ByteStep, Crc32.Not;
    crc := 0xFFFF_FFFF;
    var done := 0;
    ghost var m: seq<byte> := [];
    while done < len
      invariant 0 <= done <= len && |m| == done
      invariant done > 0 ==> flash.Holds(addr, done)
      invariant flash.Holds(addr, done) ==> m == flash.cells[addr..addr + done]
      invariant crc == Crc32.Fold(0xFFFF_FFFF, m)
      invariant flash.readFaults == old(flash.readFaults)
    {
      var chunk := if len - done > 256 then 256 else len - done;
      var data;
      rc, data := flash.Read(addr + done, chunk);
      if rc != OK { return ERR_FLASH, crc; }
      crc := Crc32.Run(crc, data);
      Crc32.FoldConcat(0xFFFF_FFFF, m, data);
      Sha256.Grows(flash.cells, addr, m, data);
      m := m + data;
      done := done + chunk;
    }
    crc := Crc32.Not(crc);
    rc := OK;
  }

  /** The payload behind the header at addr is in flash and is the one the header vouches for. */
  ghost predicate PayloadIntact(cells: seq<byte>, sha: seq<byte> -> seq<byte>, h: seq<byte>, addr: nat)
    requires |h| >= HDR
  {
    var p := addr + HdrSize(h);
    0 < ImageSize(h) && p + ImageSize(h) <= |cells| && Intact(sha, h, cells[p..p + ImageSize(h)])
  }

  /** eos_image_verify_integrity: unless a read fails, accepts exactly the payloads in flash
      that the header vouches for. A digest is checked twice; flash that cannot be read fails. */
  method VerifyIntegrity<S>(flash: FlashDevice, f: (S, seq<byte>) -> S, init: S, render: S -> seq<byte>,
                            h: seq<byte>, addr: u32) returns (rc: int)
    requires |h| == HDR && |flash.cells| < 0x1_0000_0000
    modifies flash`readFaults
    ensures flash.readFaults >= old(flash.readFaults)
    ensures rc == OK || rc == ERR_INVALID || rc == ERR_CRC || rc == ERR_FLASH
    ensures rc == OK ==> PayloadIntact(flash.cells, m => render(Sha2.Hash(f, init, m, 64, 8)), h, addr)
    ensures flash.readFaults == old(flash.readFaults) ==>
              (rc == OK <==> PayloadIntact(flash.cells, m => render(Sha2.Hash(f, init, m, 64, 8)), h, addr))
  {
    hide Sha2.Hash, Crc32.Fold, Crc32.Not, Le32, Le16, Crc32.Crc;
    if HdrSize(h) > 0xFFFF_FFFF - addr { return ERR_INVALID; }
    var payload: u32 := addr + HdrSize(h);
    if HashIsSha256(h) {
      rc := Sha256.VerifyImage(flash, f, init, render, payload, ImageSize(h), Hash(h));
      var rc2 := Sha256.VerifyImage(flash, f, init, render, payload, ImageSize(h), Hash(h));
      if rc != OK || rc2 != OK { return ERR_CRC; }
      return OK;
    }
    if ImageSize(h) == 0 { return ERR_INVALID; }
    var crc;
    rc, crc := Crc32Checked(flash, payload, ImageSize(h));
    if rc != OK { return ERR_FLASH; }
    if crc != StoredCrc(h) { return ERR_CRC; }
  }
}
