/** The recovery session: authentication by challenge and response, and the commands it
    guards (core/recovery.c). */
module Recovery {
  import opened Types
  import opened Flash
  import opened Serial
  import opened BootCtl
  import BootPolicy
  import Sha2
  import Sha256
  import Crc32

  const CMD_PING: byte := 0x01
  const CMD_INFO: byte := 0x02
  const CMD_ERASE: byte := 0x03
  const CMD_WRITE: byte := 0x04
  const CMD_VERIFY: byte := 0x05
  const CMD_BOOT: byte := 0x06
  const CMD_LOG: byte := 0x07
  const CMD_RESET: byte := 0x08
  const CMD_FACTORY: byte := 0x09
  const CMD_AUTH: byte := 0x10
  const ACK: byte := 0xAA
  const NACK: byte := 0x55
  const PING_ANSWER: seq<byte> := [0xAA, 0x45, 0x4F, 0x53, 1]
  const WRITE_CHUNK := 256
  const SECRET_SIZE := 32
  const CHALLENGE_SIZE := 32
  const MAX_AUTH_FAILS := 5

  // ---- authentication as a transition system ----

  datatype Auth = Anonymous | ChallengeSent | Authenticated

  datatype Session = Session(auth: Auth, fails: nat, challenge: seq<byte>)

  /** What one AUTH command can turn out to be. */
  datatype Event =
    | Refused
    | NoEntropy
    | Issued(challenge: seq<byte>)
    | TimedOut
    | Unreadable
    | Unprovisioned
    | Accepted(response: seq<byte>)
    | Rejected(response: seq<byte>)

  predicate IsResponse(e: Event) { !(e.Refused? || e.NoEntropy? || e.Issued?) }

  function Failed(s: Session): Session { s.(auth := Anonymous, fails := s.fails + 1) }

  predicate Provisioned(secret: seq<byte>) {
    (exists i :: 0 <= i < |secret| && secret[i] != 0) && (exists i :: 0 <= i < |secret| && secret[i] != 0xFF)
  }

  /** One AUTH command. digest is SHA-256. */
  predicate Next(digest: seq<byte> -> seq<byte>, secret: seq<byte>, s: Session, e: Event, t: Session) {
    if s.fails >= MAX_AUTH_FAILS || s.auth == Authenticated then e == Refused && t == s
    else if s.auth == Anonymous then
      (e == NoEntropy && t.auth == Anonymous && t.fails == s.fails + 1)
      || (e.Issued? && t == Session(ChallengeSent, s.fails, e.challenge))
    else
      match e
      case TimedOut => t == s.(auth := Anonymous)
      case Unreadable => t == Failed(s)
      case Unprovisioned => !Provisioned(secret) && t == Failed(s)
      case Accepted(r) => Provisioned(secret) && r == digest(s.challenge + secret)
          && t == s.(auth := Authenticated, fails := 0)
      case Rejected(r) => Provisioned(secret) && r != digest(s.challenge + secret) && t == Failed(s)
      case _ => false
  }

  predicate Fresh(s: Session) { s.auth == Anonymous && s.fails == 0 }

  /** A session from its entry: the states between AUTH commands. No other command touches them. */
  ghost predicate Trace(digest: seq<byte> -> seq<byte>, secret: seq<byte>, xs: seq<Session>, es: seq<Event>) {
    && |xs| == |es| + 1 && Fresh(xs[0])
    && forall i :: 0 <= i < |es| ==> Next(digest, secret, xs[i], es[i], xs[i + 1])
  }

  /** The failure count stays at most five, and five leaves no authentication open. */
  predicate Sane(s: Session) { s.fails <= MAX_AUTH_FAILS && (s.fails == MAX_AUTH_FAILS ==> s.auth == Anonymous) }

  lemma {:induction false} AlwaysSane(digest: seq<byte> -> seq<byte>, secret: seq<byte>, xs: seq<Session>,
      es: seq<Event>, k: nat)
    requires Trace(digest, secret, xs, es) && k < |xs|
    ensures Sane(xs[k])
    decreases k
  {
    if k > 0 {
      AlwaysSane(digest, secret, xs, es, k - 1);
      assert Next(digest, secret, xs[k - 1], es[k - 1], xs[k]);
    }
  }

  /** Five failures end authentication for the session: nothing is accepted any more. */
  lemma {:induction false} FiveFailuresAbsorb(digest: seq<byte> -> seq<byte>, secret: seq<byte>,
                                             xs: seq<Session>, es: seq<Event>, j: nat, k: nat)
    requires Trace(digest, secret, xs, es) && j <= k < |xs| && xs[j].fails == MAX_AUTH_FAILS
    ensures xs[k] == xs[j] && xs[k].auth == Anonymous
    decreases k
  {
    AlwaysSane(digest, secret, xs, es, j);
    if j < k {
      FiveFailuresAbsorb(digest, secret, xs, es, j, k - 1);
      assert Next(digest, secret, xs[k - 1], es[k - 1], xs[k]);
    }
  }

  /** Every response is judged against the challenge issued immediately before it, so no
      challenge is ever judged twice. */
  lemma ChallengeIsConsumed(digest: seq<byte> -> seq<byte>, secret: seq<byte>, xs: seq<Session>, es: seq<Event>, k: nat)
    requires Trace(digest, secret, xs, es) && k < |es| && IsResponse(es[k])
    ensures k > 0 && es[k - 1] == Issued(xs[k].challenge) && xs[k + 1].auth != ChallengeSent
  {
    assert Next(digest, secret, xs[k], es[k], xs[k + 1]);
    if k > 0 { assert Next(digest, secret, xs[k - 1], es[k - 1], xs[k]); }
  }

  /** An authenticated session has accepted the digest of its latest challenge and of a
      provisioned secret. */
  lemma {:induction false} AuthenticatedByResponse(digest: seq<byte> -> seq<byte>, secret: seq<byte>,
                                                   xs: seq<Session>, es: seq<Event>, k: nat)
    requires Trace(digest, secret, xs, es) && k < |xs| && xs[k].auth == Authenticated
    ensures Provisioned(secret)
    ensures exists j :: 1 <= j < k && es[j - 1] == Issued(xs[k].challenge)
              && es[j] == Accepted(digest(xs[k].challenge + secret))
    decreases k
  {
    assert Next(digest, secret, xs[k - 1], es[k - 1], xs[k]);
    if xs[k - 1].auth == Authenticated {
      AuthenticatedByResponse(digest, secret, xs, es, k - 1);
    } else {
      ChallengeIsConsumed(digest, secret, xs, es, k - 1);
      assert es[k - 1 - 1] == Issued(xs[k].challenge);
    }
  }

  // ---- what counts as a failure ----

  predicate IsTimeOut(e: Event) { e.TimedOut? }

  predicate IsStarved(e: Event) { e.NoEntropy? }

  function Count(p: Event -> bool, es: seq<Event>): nat {
    if es == [] then 0 else Count(p, es[..|es| - 1]) + if p(es[|es| - 1]) then 1 else 0
  }

  /** Without an acceptance, the failures are the challenges that could not be drawn and the
      challenges that were consumed, except by a time-out. */
  lemma {:induction false} FailuresAreCounted(digest: seq<byte> -> seq<byte>, secret: seq<byte>,
                                              xs: seq<Session>, es: seq<Event>, k: nat)
    requires Trace(digest, secret, xs, es) && k < |xs| && forall j :: 0 <= j < k ==> !es[j].Accepted?
    ensures xs[k].auth != Authenticated
    ensures xs[k].fails + Count(IsTimeOut, es[..k]) == Count(IsStarved, es[..k]) + Count(IsResponse, es[..k])
    decreases k
  {
    if k > 0 {
      FailuresAreCounted(digest, secret, xs, es, k - 1);
      assert es[..k][..k - 1] == es[..k - 1] && es[..k][k - 1] == es[k - 1];
      assert Next(digest, secret, xs[k - 1], es[k - 1], xs[k]);
    }
  }

  /** Five consumed challenges lock the session exactly when none of them timed out. */
  lemma FiveChallengesLockExactly(digest: seq<byte> -> seq<byte>, secret: seq<byte>, xs: seq<Session>,
      es: seq<Event>, k: nat)
    requires Trace(digest, secret, xs, es) && k < |xs|
    requires forall j :: 0 <= j < k ==> !es[j].Accepted? && !es[j].NoEntropy?
    requires Count(IsResponse, es[..k]) == MAX_AUTH_FAILS
    ensures xs[k].fails == MAX_AUTH_FAILS <==> forall j :: 0 <= j < k ==> !es[j].TimedOut?
  {
    FailuresAreCounted(digest, secret, xs, es, k);
    CountNone(IsStarved, es[..k]);
    CountNone(IsTimeOut, es[..k]);
    assert forall j :: 0 <= j < k ==> es[..k][j] == es[j];
  }

  lemma {:induction false} CountNone(p: Event -> bool, es: seq<Event>)
    ensures Count(p, es) == 0 <==> forall j :: 0 <= j < |es| ==> !p(es[j])
    decreases |es|
  {
    if es != [] {
      var front := es[..|es| - 1];
      CountNone(p, front);
      assert forall j :: 0 <= j < |front| ==> front[j] == es[j];
    }
  }

  /** n challenges in a row, every one of which times out. */
  function Unanswered(c: seq<byte>, n: nat): (seq<Session>, seq<Event>) {
    if n == 0 then ([Session(Anonymous, 0, c)], [])
    else
      var t := Unanswered(c, n - 1);
      (t.0 + [Session(ChallengeSent, 0, c), Session(Anonymous, 0, c)], t.1 + [Issued(c), TimedOut])
  }

  /** Such a session is never locked, however long it goes on. */
  lemma {:induction false} UnansweredNeverLocks(digest: seq<byte> -> seq<byte>, secret: seq<byte>, c: seq<byte>, n: nat)
    ensures var t := Unanswered(c, n);
            && Trace(digest, secret, t.0, t.1) && |t.1| == 2 * n && t.0[|t.1|] == Session(Anonymous, 0, c)
            && Count(IsResponse, t.1) == n
  {
    if n > 0 {
      UnansweredNeverLocks(digest, secret, c, n - 1);
      var t, u := Unanswered(c, n - 1), Unanswered(c, n);
      forall i | 0 <= i < |u.1| ensures Next(digest, secret, u.0[i], u.1[i], u.0[i + 1]) {
        if i < |t.1| { assert Next(digest, secret, t.0[i], t.1[i], t.0[i + 1]); }
      }
      assert u.1[..|u.1| - 1] == t.1 + [Issued(c)];
      assert (t.1 + [Issued(c)])[..|t.1|] == t.1;
    }
  }

  // ---- commands ----

  predicate RequiresAuth(cmd: byte) {
    cmd == CMD_ERASE || cmd == CMD_WRITE || cmd == CMD_VERIFY || cmd == CMD_BOOT || cmd == CMD_FACTORY || cmd == CMD_LOG
  }

  /** The a-th byte of a slot exists and has an address. */
  predicate Mapped(base: u32, size: u32, a: int) { base != 0 && 0 <= a < size && base + a < 0x1_0000_0000 }

  /** eos_recovery_write_in_range: exactly the non-empty ranges all of whose bytes are mapped. */
  function WriteInRange(base: u32, size: u32, offset: u32, len: u16): (rc: int)
    ensures rc == OK <==> len > 0 && forall a: int :: offset <= a < offset + len ==> Mapped(base, size, a)
  {
    if base == 0 || size == 0 || len == 0 then
      assert len > 0 ==> !Mapped(base, size, offset);
      ERR_INVALID
    else if len > size || offset > size - len then
      assert !Mapped(base, size, offset + len - 1);
      ERR_INVALID
    else if offset > 0xFFFF_FFFF - base then
      assert !Mapped(base, size, offset);
      ERR_INVALID
    else if len - 1 > 0xFFFF_FFFF - (base + offset) then
      assert !Mapped(base, size, offset + len - 1);
      ERR_INVALID
    else OK
  }

  datatype Packet = Packet(cmd: byte, slot: byte, len: u16, offset: u32)

  /** The packed little-endian packet header. */
  function ParsePacket(p: seq<byte>): Packet
    requires |p| == 8
  {
    Packet(p[0], p[1], Le16(p, 2), Le32(p, 4))
  }

  /** The board's entropy source: the bytes it is going to deliver. Any draw may fail. */
  class Entropy {
    var supply: seq<byte>
    /** How many draws have failed although the bytes were there. */
    ghost var faults: nat

    constructor (supply: seq<byte>)
      ensures this.supply == supply && faults == 0
    {
      this.supply, faults := supply, 0;
    }

    method Get(n: nat) returns (rc: int, data: seq<byte>)
      modifies this
      ensures rc == OK ==> n <= |old(supply)| && data == old(supply)[..n] && supply == old(supply)[n..]
      ensures rc != OK ==> supply == old(supply) && |data| == n
      ensures faults >= old(faults) && (faults == old(faults) ==> (rc == OK <==> n <= |old(supply)|))
    {
      var fault: bool := *;
      if fault || n > |supply| {
        if n <= |supply| { faults := faults + 1; }
        return ERR_NOT_SUPPORTED, Sha2.Zeros(n);
      }
      rc, data, supply := OK, supply[..n], supply[n..];
    }
  }

  ghost predicate At(r: seq<byte>, stream: seq<byte>, i: nat) {
    i + |r| <= |stream| && stream[i..i + |r|] == r
  }

  /** r is somewhere in the stream. */
  ghost predicate Occurs(r: seq<byte>, stream: seq<byte>) { exists i: nat :: At(r, stream, i) }

  /** A response came in on the line, and a challenge was drawn and went out on it. */
  ghost predicate OnTheWire(e: Event, input: seq<byte>, supply: seq<byte>, sent: seq<byte>) {
    && (e.Accepted? || e.Rejected? ==> Occurs(e.response, input))
    && (e.Issued? ==> Occurs(e.challenge, supply) && Occurs(e.challenge, sent))
  }

  lemma OccursLater(r: seq<byte>, s: seq<byte>, front: seq<byte>, back: seq<byte>)
    requires Occurs(r, s)
    ensures Occurs(r, front + s + back)
  {
    var i: nat :| At(r, s, i);
    assert (front + s + back)[|front| + i..|front| + i + |r|] == s[i..i + |r|];
    assert At(r, front + s + back, |front| + i);
  }

  lemma WireGrows(e: Event, input: seq<byte>, supply: seq<byte>, sent: seq<byte>,
                  input': seq<byte>, supply': seq<byte>, more: seq<byte>)
    requires OnTheWire(e, input, supply, sent) && Suffix(input, input') && Suffix(supply, supply')
    ensures OnTheWire(e, input', supply', sent + more)
  {
    hide Occurs;
    var x, y := input'[..|input'| - |input|], supply'[..|supply'| - |supply|];
    assert input' == x + input + [] && supply' == y + supply + [];
    if e.Accepted? || e.Rejected? { OccursLater(e.response, input, x, []); }
    if e.Issued? {
      OccursLater(e.challenge, supply, y, []);
      assert [] + sent + more == sent + more;
      OccursLater(e.challenge, sent, [], more);
    }
  }

  class RecoverySession<S> {
    const bc: BootControl
    const uart: Uart
    const rng: Entropy
    const slotA: Slot
    const slotB: Slot
    const f: (S, seq<byte>) -> S
    const init: S
    const render: S -> seq<byte>
    /** The recovery secret in OTP. */
    const secret: seq<byte>
    var authState: Auth
    var challenge: seq<byte>
    var authFailCount: u32
    var running: bool
    /** How many reads of the secret have failed. */
    ghost var secretFaults: nat
    /** The history since entry. */
    ghost var states: seq<Session>
    ghost var events: seq<Event>

    ghost function Digest(): seq<byte> -> seq<byte> { (m: seq<byte>) => render(Sha2.Hash(f, init, m, 64, 8)) }

    ghost function Now(): Session
      reads this
    {
      Session(authState, authFailCount, challenge)
    }

    /** Slots and boot control copies lie in the device; a slot does not overlap the copies. */
    ghost predicate Geometry()
      reads this, bc, bc.flash
    {
      && bc.Geometry() && |secret| == SECRET_SIZE && |challenge| == CHALLENGE_SIZE && |bc.flash.cells| < 0x1_0000_0000
      && Apart(slotA) && Apart(slotB)
      && (slotA.addr + slotA.size <= slotB.addr || slotB.addr + slotB.size <= slotA.addr)
    }

    ghost predicate Apart(slot: Slot) {
      && (slot.addr + slot.size <= bc.primary || bc.primary + SIZE <= slot.addr)
      && (slot.addr + slot.size <= bc.backup || bc.backup + SIZE <= slot.addr)
    }

    ghost predicate History()
      reads this
    {
      Trace(Digest(), secret, states, events) && states[|events|] == Now()
    }

    ghost predicate InSlots(a: int) {
      slotA.addr <= a < slotA.addr + slotA.size || slotB.addr <= a < slotB.addr + slotB.size
    }

    ghost predicate InCopies(a: int) { bc.primary <= a < bc.primary + SIZE || bc.backup <= a < bc.backup + SIZE }

    /** Only slot bytes differ. */
    ghost predicate OnlySlots(s: seq<byte>, t: seq<byte>) {
      |s| == |t| && forall a :: 0 <= a < |s| && !InSlots(a) ==> s[a] == t[a]
    }

    /** Only slot bytes and boot control copies differ. */
    ghost predicate OnlyState(s: seq<byte>, t: seq<byte>) {
      |s| == |t| && forall a :: 0 <= a < |s| && !InSlots(a) && !InCopies(a) ==> s[a] == t[a]
    }

    /** Only boot control copies differ. */
    ghost predicate OnlyCopies(s: seq<byte>, t: seq<byte>) {
      |s| == |t| && forall a :: 0 <= a < |s| && !InCopies(a) ==> s[a] == t[a]
    }

    ghost method Record(e: Event)
      requires Trace(Digest(), secret, states, events) && Next(Digest(), secret, states[|events|], e, Now())
      modifies this`states, this`events
      ensures History() && events == old(events) + [e]
    {
      hide Next, Sha2.Hash;
      states := states + [Now()];
      events := events + [e];
    }

    constructor (bc: BootControl, uart: Uart, rng: Entropy, slotA: Slot, slotB: Slot, f: (S, seq<byte>) -> S, init: S,
                 render: S -> seq<byte>, secret: seq<byte>)
      ensures this.bc == bc && this.uart == uart && this.rng == rng && this.slotA == slotA && this.slotB == slotB
      ensures this.f == f && this.init == init && this.render == render && this.secret == secret
      ensures |challenge| == CHALLENGE_SIZE && History()
    {
      this.bc, this.uart, this.rng, this.slotA, this.slotB := bc, uart, rng, slotA, slotB;
      this.f, this.init, this.render, this.secret := f, init, render, secret;
      authState, authFailCount, running, challenge := Anonymous, 0, true, Sha2.Zeros(CHALLENGE_SIZE);
      secretFaults := 0;
      states, events := [Session(Anonymous, 0, Sha2.Zeros(CHALLENGE_SIZE))], [];
    }

    /** recovery_handle_auth: one event of the transition system. A challenge is the next
        draw of the entropy source and goes out on the line; an accepted or rejected response
        is what came in on it. */
    method HandleAuth() returns (ghost e: Event)
      requires Geometry() && History()
      modifies this`authState, this`challenge, this`authFailCount, this`states, this`events, this`secretFaults
      modifies uart, rng
      ensures History() && events == old(events) + [e] && |challenge| == CHALLENGE_SIZE
      ensures Exchange(e, old(uart.input), old(rng.supply), old(uart.sent))
      ensures Suffix(uart.input, old(uart.input)) && Suffix(rng.supply, old(rng.supply)) && old(uart.sent) <= uart.sent
      ensures authState == Authenticated ==> old(authState) == Authenticated || e.Accepted?
      ensures rng.faults == old(rng.faults) && |old(rng.supply)| >= CHALLENGE_SIZE ==> !e.NoEntropy?
      ensures uart.timeouts == old(uart.timeouts) && secretFaults == old(secretFaults) ==>
                (e.TimedOut? ==> |old(uart.input)| < 32) && !e.Unreadable?
      ensures uart.timeouts >= old(uart.timeouts)
    {
      hide Sha2.Hash, Digest;
      AlwaysSane(Digest(), secret, states, events, |events|);
      if authFailCount >= MAX_AUTH_FAILS {
        uart.Send(NACK);
        e := Refused;
      } else if authState == Anonymous {
        e := IssueChallenge();
      } else if authState == ChallengeSent {
        e := JudgeResponse();
      } else {
        uart.Send(NACK);
        e := Refused;
      }
      Record(e);
    }

    /** The bytes of one AUTH command, given what was on the line and in the source before it. */
    ghost predicate Exchange(e: Event, input: seq<byte>, supply: seq<byte>, sent: seq<byte>)
      reads uart
    {
      && (e.Accepted? || e.Rejected? ==> |input| >= 32 && e.response == input[..32])
      && (e.Issued? ==> |supply| >= CHALLENGE_SIZE && e.challenge == supply[..CHALLENGE_SIZE])
      && uart.sent == sent + if e.Issued? then [ACK] + e.challenge else if e.Accepted? then [ACK] else [NACK]
    }

    method IssueChallenge() returns (ghost e: Event)
      requires authState == Anonymous && authFailCount < MAX_AUTH_FAILS
      modifies this`authState, this`challenge, this`authFailCount, uart`sent, rng
      ensures |challenge| == CHALLENGE_SIZE && (e.Issued? || e.NoEntropy?)
      ensures Next(Digest(), secret, old(Now()), e, Now())
      ensures Exchange(e, uart.input, old(rng.supply), old(uart.sent)) && Suffix(rng.supply, old(rng.supply))
      ensures rng.faults == old(rng.faults) ==> (e.Issued? <==> |old(rng.supply)| >= CHALLENGE_SIZE)
    {
      hide Sha2.Hash;
      var rc;
      rc, challenge := rng.Get(CHALLENGE_SIZE);
      if rc != OK {
        authFailCount := authFailCount + 1;
        authState := Anonymous;
        uart.Send(NACK);
        return NoEntropy;
      }
      uart.SendAll([ACK] + challenge);
      authState := ChallengeSent;
      e := Issued(challenge);
    }

    method JudgeResponse() returns (ghost e: Event)
      requires authState == ChallengeSent && authFailCount < MAX_AUTH_FAILS
      requires |secret| == SECRET_SIZE && |challenge| == CHALLENGE_SIZE
      modifies this`authState, this`authFailCount, this`secretFaults, uart
      ensures Next(Digest(), secret, old(Now()), e, Now())
      ensures Exchange(e, old(uart.input), [], old(uart.sent)) && Suffix(uart.input, old(uart.input))
      ensures authState == Authenticated ==>
                |old(uart.input)| >= 32 && old(uart.input)[..32] == Digest()(challenge + secret)
      ensures uart.timeouts == old(uart.timeouts) && secretFaults == old(secretFaults) ==>
                (e.TimedOut? <==> |old(uart.input)| < 32) && !e.Unreadable?
      ensures uart.timeouts >= old(uart.timeouts)
    {
      hide Sha2.Hash;
      var rc, response := uart.Recv(32);
      if rc != OK {
        authState := Anonymous;
        uart.Send(NACK);
        return TimedOut;
      }
      e := Compare(response);
    }

    /** The response against the digest of the challenge and the secret. */
    method Compare(response: seq<byte>) returns (ghost e: Event)
      requires authState == ChallengeSent && authFailCount < MAX_AUTH_FAILS
      requires |secret| == SECRET_SIZE && |challenge| == CHALLENGE_SIZE
      modifies this`authState, this`authFailCount, this`secretFaults, uart`sent
      ensures Next(Digest(), secret, old(Now()), e, Now()) && !e.TimedOut? && !e.Issued?
      ensures e.Accepted? || e.Rejected? ==> e.response == response
      ensures uart.sent == old(uart.sent) + if e.Accepted? then [ACK] else [NACK]
      ensures authState == Authenticated ==> response == Digest()(challenge + secret)
      ensures secretFaults == old(secretFaults) ==> !e.Unreadable?
    {
      hide Sha2.Hash;
      var unreadable: bool := *;
      if unreadable {
        secretFaults := secretFaults + 1;
        authFailCount := authFailCount + 1;
        authState := Anonymous;
        uart.Send(NACK);
        return Unreadable;
      }
      var provisioned := IsProvisioned();
      if !provisioned {
        authFailCount := authFailCount + 1;
        authState := Anonymous;
        uart.Send(NACK);
        return Unprovisioned;
      }
      var expected := Expected();
      if response == expected {
        authState := Authenticated;
        authFailCount := 0;
        uart.Send(ACK);
        e := Accepted(response);
      } else {
        authFailCount := authFailCount + 1;
        authState := Anonymous;
        uart.Send(NACK);
        e := Rejected(response);
      }
    }

    /** The loop over the secret: neither all zeros nor all ones. */
    method IsProvisioned() returns (r: bool)
      requires |secret| == SECRET_SIZE
      ensures r <==> Provisioned(secret)
    {
      var allZero, allOnes := true, true;
      for i := 0 to |secret|
        invariant allZero <==> forall k :: 0 <= k < i ==> secret[k] == 0
        invariant allOnes <==> forall k :: 0 <= k < i ==> secret[k] == 0xFF
      {
        allZero := allZero && secret[i] == 0;
        allOnes := allOnes && secret[i] == 0xFF;
      }
      r := !(allZero || allOnes);
    }

    method Expected() returns (d: seq<byte>)
      requires |challenge| + |secret| < 0x1_0000_0000
      ensures d == Digest()(challenge + secret)
    {
      hide Sha2.Hash;
      var h := Sha256.HashTwo(f, init, challenge, secret);
      d := render(h);
    }

    function SlotOf(id: byte): Slot { if id == 0 then slotA else slotB }

    /** The answer to a command. */
    method Reply(ok: bool)
      modifies uart`sent
      ensures uart.sent == old(uart.sent) + [if ok then ACK else NACK]
      ensures uart.sent == old(uart.sent) + [ACK] <==> ok
      ensures uart.sent == old(uart.sent) + [NACK] <==> !ok
    {
      uart.Send(if ok then ACK else NACK);
      assert uart.sent[|old(uart.sent)|] == if ok then ACK else NACK;
    }

    /** The slot is mapped and reads as erased. */
    ghost predicate Blank(slot: Slot)
      reads bc.flash
    {
      && slot.addr != 0 && slot.size != 0 && slot.addr + slot.size <= |bc.flash.cells|
      && forall a :: slot.addr <= a < slot.addr + slot.size ==> bc.flash.cells[a] == 0xFF
    }

    ghost predicate Erasable(slot: Slot)
      reads bc.flash
    {
      slot.addr != 0 && slot.size != 0 && slot.addr + slot.size <= |bc.flash.cells|
    }

    /** eos_slot_erase on the flash. */
    method EraseSlot(slot: Slot) returns (rc: int)
      requires Geometry() && (slot == slotA || slot == slotB)
      modifies bc.flash
      ensures bc.flash.readFaults == old(bc.flash.readFaults)
      ensures Geometry() && SameOutside(old(bc.flash.cells), bc.flash.cells, slot.addr, slot.size)
      ensures rc == OK ==> Blank(slot)
      ensures bc.flash.faults >= old(bc.flash.faults)
      ensures bc.flash.faults == old(bc.flash.faults) ==> (rc == OK <==> Erasable(slot))
    {
      if slot.addr == 0 || slot.size == 0 { return ERR_INVALID; }
      rc := bc.flash.Erase(slot.addr, slot.size);
      if rc != OK { return ERR_FLASH; }
      ghost var was := bc.flash.cells[slot.addr..slot.addr + slot.size];
      forall a | slot.addr <= a < slot.addr + slot.size ensures bc.flash.cells[a] == 0xFF {
        assert bc.flash.cells[a] == was[a - slot.addr];
      }
    }

    /** What an erase command does: it is acknowledged only with the slot reading as erased, and
        always then if flash works. */
    twostate predicate ErasedAs(id: byte)
      reads this, bc, bc.flash, uart
    {
      && (uart.sent == old(uart.sent) + [ACK] || uart.sent == old(uart.sent) + [NACK])
      && (uart.sent == old(uart.sent) + [ACK] ==> id <= 1 && Blank(SlotOf(id)))
      && (id <= 1 && Erasable(SlotOf(id)) && bc.flash.faults == old(bc.flash.faults) ==>
            uart.sent == old(uart.sent) + [ACK])
    }

    /** recovery_handle_erase: acknowledged exactly when the slot now reads as erased. */
    method HandleErase(id: byte)
      requires Geometry()
      modifies bc.flash, uart`sent
      ensures Geometry() && OnlySlots(old(bc.flash.cells), bc.flash.cells)
      ensures id > 1 ==> bc.flash.cells == old(bc.flash.cells)
      ensures ErasedAs(id) && old(uart.sent) <= uart.sent
    {
      if id != 0 && id != 1 {
        Reply(false);
        return;
      }
      var rc := EraseSlot(SlotOf(id));
      Reply(rc == OK);
    }

    /** The range of a write is in its slot and in the device. */
    ghost predicate Writable(id: byte, offset: u32, len: u16)
      reads bc.flash`cells
    {
      && id <= 1 && len <= WRITE_CHUNK && WriteInRange(SlotOf(id).addr, SlotOf(id).size, offset, len) == OK
      && SlotOf(id).addr + offset + len <= |bc.flash.cells|
    }

    /** What a write command does, given the bytes on the line behind it: acknowledged twice, it
        has put them into the range; and a writable range is written if nothing fails. */
    twostate predicate WroteAs(id: byte, offset: u32, len: u16, input: seq<byte>)
      reads this, bc, bc.flash, uart
    {
      && (uart.sent == old(uart.sent) + [ACK, ACK] ==>
            && len <= |input| && SlotOf(id).addr + offset + len <= |bc.flash.cells|
            && |bc.flash.cells| == old(|bc.flash.cells|)
            && bc.flash.cells == Splice(old(bc.flash.cells), SlotOf(id).addr + offset, input[..len]))
      && (bc.flash.faults == old(bc.flash.faults) && uart.timeouts == old(uart.timeouts) ==>
            old(Writable(id, offset, len)) && len <= |input| ==> uart.sent == old(uart.sent) + [ACK, ACK])
    }

    /** recovery_handle_write: flash changes only inside the named range of the named slot,
        and not at all when the range leaves the slot. A write that is acknowledged twice has
        put the bytes received into that range. */
    method HandleWrite(id: byte, offset: u32, len: u16)
      requires Geometry()
      modifies bc.flash, uart
      ensures Geometry() && OnlySlots(old(bc.flash.cells), bc.flash.cells)
      ensures id > 1 || len > WRITE_CHUNK || WriteInRange(SlotOf(id).addr, SlotOf(id).size, offset, len) != OK ==>
                bc.flash.cells == old(bc.flash.cells) && uart.sent == old(uart.sent) + [NACK]
      ensures SameOutside(old(bc.flash.cells), bc.flash.cells, SlotOf(id).addr + offset, len)
      ensures Suffix(uart.input, old(uart.input)) && old(uart.sent) <= uart.sent
      ensures WroteAs(id, offset, len, old(uart.input)) && uart.timeouts >= old(uart.timeouts)
    {
      if id != 0 && id != 1 {
        Reply(false);
        return;
      }
      var slot := SlotOf(id);
      if len > WRITE_CHUNK {
        Reply(false);
        return;
      }
      if WriteInRange(slot.addr, slot.size, offset, len) != OK {
        Reply(false);
        return;
      }
      InRangeIsInSlot(slot, offset, len);
      Reply(true);
      TakeData(slot, offset, len);
    }

    /** The data of a write, behind its first acknowledgement. */
    method TakeData(slot: Slot, offset: u32, len: u16)
      requires Geometry() && (slot == slotA || slot == slotB) && offset + len <= slot.size
      modifies bc.flash, uart
      ensures Geometry() && OnlySlots(old(bc.flash.cells), bc.flash.cells)
      ensures SameOutside(old(bc.flash.cells), bc.flash.cells, slot.addr + offset, len)
      ensures Suffix(uart.input, old(uart.input)) && uart.timeouts >= old(uart.timeouts)
      ensures uart.sent == old(uart.sent) + [ACK] || uart.sent == old(uart.sent) + [NACK]
      ensures uart.sent == old(uart.sent) + [ACK] ==>
                && len <= |old(uart.input)| && slot.addr + offset + len <= |bc.flash.cells|
                && bc.flash.cells == Splice(old(bc.flash.cells), slot.addr + offset, old(uart.input)[..len])
      ensures bc.flash.faults == old(bc.flash.faults) && uart.timeouts == old(uart.timeouts) ==>
                len <= |old(uart.input)| && slot.addr + offset + len <= old(|bc.flash.cells|) ==>
                  uart.sent == old(uart.sent) + [ACK]
    {
      hide WriteInRange;
      var rc, data := uart.Recv(len);
      if rc != OK {
        Reply(false);
        return;
      }
      rc := bc.flash.Write(slot.addr + offset, data);
      Reply(rc == OK);
    }

    lemma InRangeIsInSlot(slot: Slot, offset: u32, len: u16)
      requires WriteInRange(slot.addr, slot.size, offset, len) == OK
      ensures len > 0 && offset + len <= slot.size
    {
      assert Mapped(slot.addr, slot.size, offset + len - 1);
    }

    /** What a boot command does to the block: it is acknowledged only when both copies hold the
        new one, and always then if flash works, and the board resets. */
    twostate predicate BootedAs(id: byte)
      reads this, bc, bc.flash, uart
    {
      && BootPolicy.Ctl(bc.block) == BootPolicy.RecoveryBooted(old(BootPolicy.Ctl(bc.block)), id)
      && (uart.sent == old(uart.sent) + [ACK] || uart.sent == old(uart.sent) + [NACK])
      && (uart.sent == old(uart.sent) + [ACK] ==>
            id <= 1 && !running && (old(bc.block.magic) == MAGIC ==> bc.Stored()))
      && (id <= 1 && bc.flash.faults == old(bc.flash.faults) ==> uart.sent == old(uart.sent) + [ACK])
    }

    /** recovery_handle_boot: acknowledged exactly when both copies hold the new block, and
        then the board resets. */
    method HandleBoot(id: byte)
      requires Geometry()
      modifies this`running, bc`block, bc.flash, uart`sent
      ensures Geometry() && OnlyCopies(old(bc.flash.cells), bc.flash.cells)
      ensures BootedAs(id) && old(uart.sent) <= uart.sent
      ensures uart.sent != old(uart.sent) + [ACK] ==> running == old(running)
      ensures id > 1 ==> bc.block == old(bc.block) && bc.flash.cells == old(bc.flash.cells)
      ensures bc.flash.faults >= old(bc.flash.faults) && bc.flash.readFaults == old(bc.flash.readFaults)
      ensures bc.block.magic == old(bc.block.magic)
    {
      hide Encode, Covered, Crc32.Crc, With, Without, BootControl.Stored;
      if id != 0 && id != 1 {
        Reply(false);
        return;
      }
      bc.block := bc.block.(active := id);
      bc.block := bc.block.(pending := SLOT_NONE);
      bc.block := bc.block.(attempts := 0);
      bc.block := bc.block.(flags := Without(bc.block.flags, FORCE_RECOVERY));
      bc.block := bc.block.(flags := Without(bc.block.flags, FACTORY_RESET));
      var rc := bc.Save();
      if rc != OK {
        Reply(false);
        return;
      }
      Reply(true);
      running := false;
    }

    /** Back to the defaults: a save of them leaves both slots as they are. */
    method StoreDefaults() returns (rc: int)
      requires Geometry()
      modifies bc`block, bc.flash
      ensures bc.flash.readFaults == old(bc.flash.readFaults)
      ensures Geometry() && OnlyCopies(old(bc.flash.cells), bc.flash.cells)
      ensures BootPolicy.Ctl(bc.block) == BootPolicy.Factory() && bc.block.magic == MAGIC
      ensures rc == OK ==> bc.Stored()
      ensures bc.flash.faults >= old(bc.flash.faults) && (bc.flash.faults == old(bc.flash.faults) ==> rc == OK)
    {
      hide Encode, Covered, Crc32.Crc, Defaults, Validate, BootControl.Stored;
      BootPolicy.DefaultsAreFactory();
      DefaultsValidate();
      bc.block := Defaults();
      rc := bc.Save();
    }

    /** What a factory reset does: it is acknowledged only with both slots erased and the defaults
        stored, and always then if flash works. */
    twostate predicate ResetAs()
      reads this, bc, bc.flash, uart
    {
      && BootPolicy.Ctl(bc.block) == BootPolicy.Factory()
      && (uart.sent == old(uart.sent) + [ACK] || uart.sent == old(uart.sent) + [NACK])
      && (uart.sent == old(uart.sent) + [ACK] ==> Blank(slotA) && Blank(slotB) && bc.Stored())
      && (bc.flash.faults == old(bc.flash.faults) && old(Erasable(slotA)) && old(Erasable(slotB)) ==>
            uart.sent == old(uart.sent) + [ACK])
    }

    /** recovery_handle_factory_reset: both erases are attempted and the defaults stored; the
        command is acknowledged exactly when all of that succeeded. */
    method HandleFactory()
      requires Geometry()
      modifies bc`block, bc.flash, uart`sent
      ensures Geometry() && OnlyState(old(bc.flash.cells), bc.flash.cells)
      ensures ResetAs() && old(uart.sent) <= uart.sent && (bc.flash.faults == old(bc.flash.faults) ==> bc.Stored())
      ensures bc.flash.faults >= old(bc.flash.faults) && bc.flash.readFaults == old(bc.flash.readFaults)
      ensures bc.block.magic == MAGIC
    {
      hide Encode, BootPolicy.Factory, BootControl.Stored;
      var rc1 := EraseSlot(slotA);
      var rc2 := EraseSlot(slotB);
      var rc3 := StoreDefaults();
      Reply(rc1 == OK && rc2 == OK && rc3 == OK);
    }

    /** Commands that read and answer, whatever they answer. */
    method Answer()
      modifies uart`sent
      ensures old(uart.sent) <= uart.sent && |uart.sent| > |old(uart.sent)|
    {
      var good: bool := *;
      Reply(good);
    }

    /** Everything a turn of the loop may touch, and how. */
    twostate predicate Kept()
      reads this, bc, bc.flash, uart, rng
    {
      && old(events) <= events && OnlyState(old(bc.flash.cells), bc.flash.cells)
      && Suffix(uart.input, old(uart.input)) && Suffix(rng.supply, old(rng.supply)) && old(uart.sent) <= uart.sent
    }

    /** One turn of the command loop. Without authentication no byte of flash and nothing of
        the control block changes; a session becomes authenticated only by a response that
        came in on the line behind an AUTH command. */
    method HandlePacket()
      requires Geometry() && History()
      modifies this`authState, this`challenge, this`authFailCount, this`running, this`states, this`events
      modifies this`secretFaults, bc`block, bc.flash, uart, rng
      ensures Geometry() && History() && Kept() && |events| <= |old(events)| + 1
      ensures old(authState) != Authenticated ==>
                bc.flash.cells == old(bc.flash.cells) && bc.block == old(bc.block)
      ensures |events| > |old(events)| ==>
                && |old(uart.input)| >= 8 && old(uart.input)[0] == CMD_AUTH
                && Exchange(events[|old(events)|], old(uart.input)[8..], old(rng.supply), old(uart.sent))
      ensures authState == Authenticated && old(authState) != Authenticated ==>
                |events| > |old(events)| && events[|old(events)|].Accepted?
      ensures uart.timeouts >= old(uart.timeouts)
      ensures uart.timeouts == old(uart.timeouts) && |old(uart.input)| >= 8 ==>
                Turned(ParsePacket(old(uart.input)[..8]), old(uart.input)[8..])
    {
      hide Trace, Next, Sha2.Hash, Encode, Blank, Erasable, Writable, BootControl.Stored, BootPolicy.RecoveryBooted,
           BootPolicy.Factory, BootPolicy.Ctl;
      var rc, raw := uart.Recv(8);
      if rc != OK { return; }
      var pkt := ParsePacket(raw);
      if RequiresAuth(pkt.cmd) && authState != Authenticated {
        Reply(false);
        return;
      }
      if pkt.cmd == CMD_PING {
        uart.SendAll(PING_ANSWER);
      } else if pkt.cmd == CMD_INFO || pkt.cmd == CMD_VERIFY || pkt.cmd == CMD_LOG {
        Answer();
      } else if pkt.cmd == CMD_AUTH {
        var _ := HandleAuth();
      } else if pkt.cmd == CMD_RESET {
        Reply(true);
        running := false;
      } else if RequiresAuth(pkt.cmd) {
        HandleGuarded(pkt);
      } else {
        Reply(false);
      }
    }

    /** What the commands that change something do. */
    twostate predicate Commanded(pkt: Packet, input: seq<byte>)
      reads this, bc, bc.flash, uart
    {
      && (pkt.cmd == CMD_ERASE ==> ErasedAs(pkt.slot))
      && (pkt.cmd == CMD_WRITE ==> WroteAs(pkt.slot, pkt.offset, pkt.len, input))
      && (pkt.cmd == CMD_BOOT ==> BootedAs(pkt.slot))
      && (pkt.cmd == CMD_FACTORY ==> ResetAs())
    }

    /** What a turn of the loop does with a packet that has arrived, and the bytes behind it. */
    twostate predicate Turned(pkt: Packet, input: seq<byte>)
      reads this, bc, bc.flash, uart
    {
      if RequiresAuth(pkt.cmd) && old(authState) != Authenticated then uart.sent == old(uart.sent) + [NACK]
      else if pkt.cmd == CMD_PING then uart.sent == old(uart.sent) + PING_ANSWER
      else if pkt.cmd == CMD_AUTH then |events| == |old(events)| + 1
      else if pkt.cmd == CMD_RESET then uart.sent == old(uart.sent) + [ACK] && !running
      else if pkt.cmd == CMD_INFO || pkt.cmd == CMD_VERIFY || pkt.cmd == CMD_LOG then |uart.sent| > |old(uart.sent)|
      else if RequiresAuth(pkt.cmd) then Commanded(pkt, input)
      else uart.sent == old(uart.sent) + [NACK]
    }

    /** The commands that change something. */
    method HandleGuarded(pkt: Packet)
      requires Geometry() && authState == Authenticated
      modifies this`running, bc`block, bc.flash, uart
      ensures Geometry() && OnlyState(old(bc.flash.cells), bc.flash.cells)
      ensures Suffix(uart.input, old(uart.input)) && old(uart.sent) <= uart.sent
      ensures uart.timeouts >= old(uart.timeouts)
      ensures Commanded(pkt, old(uart.input))
    {
      hide Encode, BootPolicy.RecoveryBooted, Blank, Erasable, ErasedAs, WroteAs, BootedAs, ResetAs;
      if pkt.cmd == CMD_ERASE {
        HandleErase(pkt.slot);
      } else if pkt.cmd == CMD_WRITE {
        HandleWrite(pkt.slot, pkt.offset, pkt.len);
      } else if pkt.cmd == CMD_BOOT {
        HandleBoot(pkt.slot);
      } else if pkt.cmd == CMD_FACTORY {
        HandleFactory();
      }
    }

    /** The command loop over any packets. Until a response has been accepted, no command has
        changed a byte of flash or the control block; and every response judged came in on the
        line, every challenge issued was drawn from the entropy source and went out on it. */
    method Serve(turns: nat)
      requires Geometry() && History()
      modifies this`authState, this`challenge, this`authFailCount, this`running, this`states, this`events
      modifies this`secretFaults, bc`block, bc.flash, uart, rng
      ensures Geometry() && History() && Kept()
      ensures forall k :: |old(events)| <= k < |events| ==>
                OnTheWire(events[k], old(uart.input), old(rng.supply), uart.sent)
      ensures old(authState) != Authenticated
                && (forall k :: |old(events)| <= k < |events| ==> !events[k].Accepted?) ==>
                bc.flash.cells == old(bc.flash.cells) && bc.block == old(bc.block) && authState != Authenticated
    {
      hide Trace, Next, Sha2.Hash, Encode, OnTheWire, Exchange;
      var turn := 0;
      while turn < turns && running
        invariant Geometry() && History() && Kept()
        invariant forall k :: |old(events)| <= k < |events| ==>
                    OnTheWire(events[k], old(uart.input), old(rng.supply), uart.sent)
        invariant old(authState) != Authenticated
                  && (forall k :: |old(events)| <= k < |events| ==> !events[k].Accepted?) ==>
                    bc.flash.cells == old(bc.flash.cells) && bc.block == old(bc.block) && authState != Authenticated
      {
        ghost var before, input, supply, sent := events, uart.input, rng.supply, uart.sent;
        HandlePacket();
        assert forall k :: 0 <= k < |before| ==> events[k] == before[k];
        ghost var more := uart.sent[|sent|..];
        assert uart.sent == sent + more;
        forall k | |old(events)| <= k < |events|
          ensures OnTheWire(events[k], old(uart.input), old(rng.supply), uart.sent)
        {
          if k < |before| {
            WireGrows(events[k], old(uart.input), old(rng.supply), sent, old(uart.input), old(rng.supply), more);
          } else {
            ExchangeIsOnTheWire(events[k], input, supply, sent);
            WireGrows(events[k], input, supply, uart.sent, old(uart.input), old(rng.supply), []);
            assert uart.sent + [] == uart.sent;
          }
        }
        turn := turn + 1;
      }
    }

    lemma ExchangeIsOnTheWire(e: Event, input: seq<byte>, supply: seq<byte>, sent: seq<byte>)
      requires |input| >= 8 && Exchange(e, input[8..], supply, sent)
      ensures OnTheWire(e, input, supply, uart.sent)
    {
      if e.Accepted? || e.Rejected? { assert At(e.response, input, 8); }
      if e.Issued? {
        assert At(e.challenge, supply, 0) && At(e.challenge, uart.sent, |sent| + 1);
      }
    }

    /** Whether a factory reset is due once the force flag is cleared. */
    ghost predicate ResetDue(b: Block) { Has(Without(b.flags, FORCE_RECOVERY), FACTORY_RESET) }

    /** eos_recovery_enter up to its loop: the force flag is cleared and stored, a requested
        factory reset is carried out, and authentication starts over. Without that request no
        slot is touched; with it, and no failing flash operation, both slots read as erased
        and the defaults are stored. */
    method Enter(logHead: u32) returns (ghost erased: bool)
      requires Geometry()
      modifies this`authState, this`authFailCount, this`states, this`events, bc`block, bc.flash
      ensures bc.flash.readFaults == old(bc.flash.readFaults)
      ensures Geometry() && History() && events == [] && authState == Anonymous && authFailCount == 0
      ensures old(bc.block.magic) == MAGIC ==> bc.block.magic == MAGIC
      ensures BootPolicy.Ctl(bc.block) == BootPolicy.RecoveryEntered(old(BootPolicy.Ctl(bc.block)), erased)
      ensures OnlyState(old(bc.flash.cells), bc.flash.cells)
      ensures !ResetDue(old(bc.block)) ==> !erased && OnlyCopies(old(bc.flash.cells), bc.flash.cells)
      ensures erased ==> Blank(slotA) && Blank(slotB)
      ensures bc.flash.faults >= old(bc.flash.faults)
      ensures bc.flash.faults == old(bc.flash.faults) ==>
                && (old(bc.block.magic) == MAGIC ==> bc.Stored())
                && (erased <==> ResetDue(old(bc.block)) && old(Erasable(slotA)) && old(Erasable(slotB)))
    {
      hide Encode, With, Without, Has, Sha2.Hash, Blank, Erasable, BootPolicy.Factory, BootControl.Stored;
      ClearForce(logHead);
      erased := false;
      if Has(bc.block.flags, FACTORY_RESET) { erased := FactoryReset(); }
      authState, authFailCount := Anonymous, 0;
      states, events := [Now()], [];
    }

    /** The force flag and the log head, stored. */
    method ClearForce(logHead: u32)
      requires Geometry()
      modifies bc`block, bc.flash
      ensures bc.flash.readFaults == old(bc.flash.readFaults)
      ensures Geometry() && OnlyCopies(old(bc.flash.cells), bc.flash.cells)
      ensures Erasable(slotA) == old(Erasable(slotA)) && Erasable(slotB) == old(Erasable(slotB))
      ensures bc.block.flags == Without(old(bc.block.flags), FORCE_RECOVERY)
      ensures BootPolicy.Ctl(bc.block) ==
                old(BootPolicy.Ctl(bc.block)).(flags := Without(old(bc.block.flags), FORCE_RECOVERY))
      ensures bc.flash.faults >= old(bc.flash.faults)
      ensures bc.block.magic == old(bc.block.magic)
      ensures bc.flash.faults == old(bc.flash.faults) && old(bc.block.magic) == MAGIC ==> bc.Stored()
    {
      hide Encode, Covered, Crc32.Crc, Without, BootControl.Stored;
      bc.block := bc.block.(flags := Without(bc.block.flags, FORCE_RECOVERY));
      bc.block := bc.block.(logHead := logHead);
      var _ := bc.Save();
    }

    /** The factory reset on entry: the defaults are stored only behind two successful erases. */
    method FactoryReset() returns (erased: bool)
      requires Geometry()
      modifies bc`block, bc.flash
      ensures bc.flash.readFaults == old(bc.flash.readFaults)
      ensures Geometry() && OnlyState(old(bc.flash.cells), bc.flash.cells)
      ensures erased ==> bc.block.magic == MAGIC
      ensures if erased then Blank(slotA) && Blank(slotB) && BootPolicy.Ctl(bc.block) == BootPolicy.Factory()
              else bc.block == old(bc.block) && (old(bc.Stored()) ==> bc.Stored())
      ensures bc.flash.faults >= old(bc.flash.faults)
      ensures bc.flash.faults == old(bc.flash.faults) ==>
                && (erased <==> old(Erasable(slotA)) && old(Erasable(slotB)))
                && (erased ==> bc.Stored())
    {
      hide Encode, BootPolicy.Factory, Erasable, BootControl.Stored;
      erased := EraseBoth();
      if erased {
        ghost var before := bc.flash.cells;
        var _ := StoreDefaults();
        StillBlank(slotA, before);
        StillBlank(slotB, before);
      }
    }

    lemma StillBlank(slot: Slot, before: seq<byte>)
      requires Apart(slot) && OnlyCopies(before, bc.flash.cells)
      requires slot.addr != 0 && slot.size != 0 && slot.addr + slot.size <= |before|
      requires forall a :: slot.addr <= a < slot.addr + slot.size ==> before[a] == 0xFF
      ensures Blank(slot)
    {
    }

    method EraseBoth() returns (erased: bool)
      requires Geometry()
      modifies bc.flash
      ensures bc.flash.readFaults == old(bc.flash.readFaults)
      ensures Geometry() && OnlySlots(old(bc.flash.cells), bc.flash.cells)
      ensures erased ==> Blank(slotA) && Blank(slotB)
      ensures old(bc.Stored()) ==> bc.Stored()
      ensures bc.flash.faults >= old(bc.flash.faults)
      ensures bc.flash.faults == old(bc.flash.faults) ==> (erased <==> old(Erasable(slotA)) && old(Erasable(slotB)))
    {
      hide Encode, Validate;
      ghost var start := bc.flash.cells;
      var rc := EraseSlot(slotA);
      CopiesStay(start, bc.flash.cells);
      if rc != OK { return false; }
      ghost var middle := bc.flash.cells;
      rc := EraseSlot(slotB);
      CopiesStay(middle, bc.flash.cells);
      erased := rc == OK;
    }

    lemma CopiesStay(s: seq<byte>, t: seq<byte>)
      requires Geometry() && OnlySlots(s, t) && |s| == |bc.flash.cells|
      ensures s[bc.primary..bc.primary + SIZE] == t[bc.primary..bc.primary + SIZE]
      ensures s[bc.backup..bc.backup + SIZE] == t[bc.backup..bc.backup + SIZE]
    {
    }
  }
}
