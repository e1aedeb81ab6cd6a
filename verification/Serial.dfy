/** The serial line behind the HAL (hal/hal_core.c). */
module Serial {
  import opened Types
  import opened Flash

  const ERR_TIMEOUT := -7

  /** s is what is left of t. */
  ghost predicate Suffix(s: seq<byte>, t: seq<byte>) { |s| <= |t| && s == t[|t| - |s|..] }

  /** A UART: a trace of bytes still to come, of which any receive may time out, and the
      bytes sent back. */
  class Uart {
    var input: seq<byte>
    var sent: seq<byte>
    /** How many receives have failed although the bytes were there. */
    ghost var timeouts: nat

    constructor (input: seq<byte>)
      ensures this.input == input && sent == [] && timeouts == 0
    {
      this.input, sent, timeouts := input, [], 0;
    }

    /** A receive delivers the next n bytes, or fails and loses some of what was coming. */
    method Recv(n: nat) returns (rc: int, data: seq<byte>)
      modifies this`input, this`timeouts
      ensures timeouts >= old(timeouts) && (timeouts == old(timeouts) ==> (rc == OK <==> n <= |old(input)|))
      ensures rc == OK ==> n <= |old(input)| && data == old(input)[..n] && input == old(input)[n..]
      ensures Suffix(input, old(input))
    {
      var timeout: bool := *;
      if timeout || n > |input| {
        var lost: int := *;
        if n <= |input| { timeouts := timeouts + 1; }
        if 0 <= lost <= |input| { input := input[lost..]; }
        return ERR_TIMEOUT, [];
      }
      data, input, rc := input[..n], input[n..], OK;
    }

    method SendAll(data: seq<byte>)
      modifies this`sent
      ensures sent == old(sent) + data
    {
      sent := sent + data;
    }

    method Send(b: byte)
      modifies this`sent
      ensures sent == old(sent) + [b]
    {
      sent := sent + [b];
    }
  }
}
