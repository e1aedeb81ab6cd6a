/** NOR flash behind the HAL (hal/hal_core.c, lines 24-43): bytes, and operations that may
    fail. A failed write or erase may leave anything inside the region it was given, and
    nothing else. */
module Flash {
  import opened Types

  const OK := 0
  const ERR_GENERIC := -1
  const ERR_INVALID := -2
  const ERR_CRC := -3
  const ERR_SIGNATURE := -4
  const ERR_NO_IMAGE := -5
  const ERR_FLASH := -6
  const ERR_FULL := -11
  const ERR_NOT_FOUND := -12
  const ERR_NOT_SUPPORTED := -13
  const ERR_ANTI_ROLLBACK := -14
  const ERR_KEY := -17

  /** An image slot of the board; an unmapped one has address or size 0. */
  datatype Slot = Slot(addr: u32, size: u32)

  /** s with the bytes at addr replaced. */
  function Splice(s: seq<byte>, addr: nat, data: seq<byte>): (r: seq<byte>)
    requires addr + |data| <= |s|
    ensures |r| == |s| && r[addr..addr + |data|] == data
    ensures r[..addr] == s[..addr] && r[addr + |data|..] == s[addr + |data|..]
  {
    s[..addr] + data + s[addr + |data|..]
  }

  ghost predicate SameOutside(s: seq<byte>, t: seq<byte>, addr: nat, len: nat) {
    |s| == |t| && forall i :: 0 <= i < |s| && !(addr <= i < addr + len) ==> s[i] == t[i]
  }

  class FlashDevice {
    /** Every addressable byte, from address 0. */
    var cells: seq<byte>
    /** How many writes and erases inside the device have failed so far. */
    ghost var faults: nat
    /** How many reads inside the device have failed so far. */
    ghost var readFaults: nat

    ghost predicate Holds(addr: nat, len: nat)
      reads this
    {
      addr + len <= |cells|
    }

    constructor (contents: seq<byte>)
      ensures cells == contents && faults == 0 && readFaults == 0
    {
      cells, faults, readFaults := contents, 0, 0;
    }

    /** A read inside the device succeeds unless it is counted as a fault. */
    method Read(addr: nat, len: nat) returns (rc: int, data: seq<byte>)
      modifies this`readFaults
      ensures rc == OK || rc == ERR_FLASH
      ensures rc == OK ==> Holds(addr, len) && data == cells[addr..addr + len]
      ensures readFaults == old(readFaults) + (if rc != OK && Holds(addr, len) then 1 else 0)
    {
      var fault: bool := *;
      if addr + len > |cells| { return ERR_FLASH, []; }
      if fault {
        readFaults := readFaults + 1;
        return ERR_FLASH, [];
      }
      return OK, cells[addr..addr + len];
    }

    method Write(addr: nat, data: seq<byte>) returns (rc: int)
      modifies this`cells, this`faults
      ensures rc == OK ==> old(Holds(addr, |data|)) && cells == Splice(old(cells), addr, data)
      ensures SameOutside(cells, old(cells), addr, |data|)
      ensures faults == old(faults) + (if rc != OK && addr + |data| <= |cells| then 1 else 0)
    {
      if addr + |data| > |cells| { return ERR_FLASH; }
      var fault: bool := *;
      if fault {
        faults := faults + 1;
        var done: int := *;
        if 0 <= done <= |data| { cells := Splice(cells, addr, data[..done]); }
        return ERR_FLASH;
      }
      cells := Splice(cells, addr, data);
      rc := OK;
    }

    method Erase(addr: nat, len: nat) returns (rc: int)
      modifies this`cells, this`faults
      ensures rc == OK ==> old(Holds(addr, len)) && cells == Splice(old(cells), addr, seq(len, _ => 0xFF))
      ensures SameOutside(cells, old(cells), addr, len)
      ensures faults == old(faults) + (if rc != OK && addr + len <= |cells| then 1 else 0)
    {
      if addr + len > |cells| { return ERR_FLASH; }
      var fault: bool := *;
      if fault {
        faults := faults + 1;
        var done: int := *;
        if 0 <= done <= len { cells := Splice(cells, addr, seq(done, _ => 0xFF)); }
        return ERR_FLASH;
      }
      cells := Splice(cells, addr, seq(len, _ => 0xFF));
      rc := OK;
    }
  }
}
