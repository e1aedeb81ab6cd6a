/** What an image must pass before it is scanned as valid, installed or jumped to: header,
    bounds, payload and signature (core/image_verify.c, lines 73-220; core/slot_manager.c,
    lines 26-76; core/crypto_boot.c, lines 221-232). */
module ImageCheck {
  import opened Types
  import opened Flash
  import opened ImageHeader
  import opened Keystore
  import opened Wrappers
  import ImageVerify
  import Rollback
  import Sha2
  import Edwards
  import Ed25519
  import Ladder
  import PointDecoding

  const SIG_NONE := 0
  const SIG_CRC32 := 1
  const SIG_SHA256 := 2
  const SIG_ED25519 := 3
  const SIG_MAX_SIZE := 64
  const SIGNED_LEN := 92

  function SigType(h: seq<byte>): byte requires |h| == HDR { h[60] }
  function SigLen(h: seq<byte>): byte requires |h| == HDR { h[61] }
  function Signature(h: seq<byte>): (s: seq<byte>) requires |h| == HDR ensures |s| == SIG_MAX_SIZE { h[SIGNED_LEN..] }

  /** Everything the checks consult: flash and slots, the keys, SHA-256 over S, SHA-512 over T,
      and the group the signature equation is about. */
  class Checker<S, T(!new), G(!new)> {
    const flash: FlashDevice
    const slots: seq<Slot>
    const otp: Otp
    const counter: Rollback.MonotonicCounter
    const compiledKey: Key
    const f: (S, seq<byte>) -> S
    const init: S
    const render: S -> seq<byte>
    const g: (T, seq<byte>) -> T
    const gInit: T
    const gRender: T -> seq<byte>
    ghost const group: Ladder.Monoid<G>
    ghost const phi: Edwards.Coords -> G
    ghost const valid: Edwards.Coords -> bool
    ghost const enc: G -> int

    constructor (flash: FlashDevice, slots: seq<Slot>, otp: Otp, counter: Rollback.MonotonicCounter, compiledKey: Key,
                 f: (S, seq<byte>) -> S, init: S, render: S -> seq<byte>,
                 g: (T, seq<byte>) -> T, gInit: T, gRender: T -> seq<byte>,
                 ghost group: Ladder.Monoid<G>, ghost phi: Edwards.Coords -> G,
                 ghost valid: Edwards.Coords -> bool, ghost enc: G -> int)
      ensures this.flash == flash && this.slots == slots && this.otp == otp && this.counter == counter
      ensures this.compiledKey == compiledKey && this.f == f && this.init == init && this.render == render
      ensures this.g == g && this.gInit == gInit && this.gRender == gRender
      ensures this.group == group && this.phi == phi && this.valid == valid && this.enc == enc
    {
      this.flash, this.slots, this.otp, this.counter, this.compiledKey := flash, slots, otp, counter, compiledKey;
      this.f, this.init, this.render, this.g, this.gInit, this.gRender := f, init, render, g, gInit, gRender;
      this.group, this.phi, this.valid, this.enc := group, phi, valid, enc;
    }

    /** Slots A, B and recovery; two keys; 64-byte SHA-512 digests; the stated group. */
    ghost predicate Ready()
      reads flash
    {
      && |flash.cells| < 0x1_0000_0000 && |slots| == 3 && |otp.keys| == KEY_SLOTS
      && (forall t :: |gRender(t)| == 64) && Ed25519.CurveGroup(group, phi, valid, enc)
    }

    /** eos_hal_slot_addr and eos_hal_slot_size. */
    function SlotAt(id: u32): Slot
      requires |slots| == 3
    {
      if id < 3 then slots[id] else Slot(0, 0)
    }

    ghost function Sha(): seq<byte> -> seq<byte> { m => render(Sha2.Hash(f, init, m, 64, 8)) }

    /** The whole 512-bit challenge hash of a header's signature under a key. */
    ghost function Challenge(key: seq<byte>, h: seq<byte>): seq<byte>
      requires |h| == HDR
    {
      gRender(Sha2.Hash(g, gInit, Signature(h)[..32] + key + h[..SIGNED_LEN], 128, 16))
    }

    /** The signature equation over the signed header prefix, for the decoded key. */
    ghost predicate Verifies(d: Edwards.Point, key: seq<byte>, h: seq<byte>)
      requires |key| == KEY_SIZE && |h| == HDR
    {
      Ed25519.SignedUnder(group, phi, enc, key, d, Challenge(key, h), Signature(h))
    }

    /** A key that signatures may be checked with: an OTP key that is not revoked, or the
        compiled-in key of a board without OTP. */
    ghost predicate Trusted(key: Key, honest: bool)
      reads otp`revoked
    {
      || (otp.present && exists i :: 0 <= i < |otp.keys| && key == otp.keys[i] && i !in otp.revoked)
      || (key == compiledKey && !(otp.present && honest))
    }

    ghost predicate SignedBy(key: Key, d: Edwards.Point, h: seq<byte>, honest: bool)
      requires |h| == HDR
      reads otp`revoked
    {
      Trusted(key, honest) && Verifies(d, key, h)
    }

    /** The header carries an Ed25519 signature of its signed prefix under a trusted key. */
    ghost predicate Authentic(h: seq<byte>, honest: bool)
      requires |h| == HDR
      reads otp`revoked
    {
      SigType(h) == SIG_ED25519 && SigLen(h) == SIG_MAX_SIZE && exists key, d :: SignedBy(key, d, h, honest)
    }

    /** The header carries an Ed25519 signature of its signed prefix under this key. */
    ghost predicate Signed(h: seq<byte>, key: Option<Key>)
      requires |h| == HDR
    {
      SigType(h) == SIG_ED25519 && SigLen(h) == SIG_MAX_SIZE && key.Some? && exists d :: Verifies(d, key.value, h)
    }

    /** What a slot holds that passes every check. */
    ghost predicate Genuine(cells: seq<byte>, slot: Slot, honest: bool)
      reads otp`revoked
    {
      && slot.addr != 0 && slot.size != 0 && slot.addr + HDR <= |cells|
      && var h := cells[slot.addr..slot.addr + HDR];
         && Sized(cells, h, slot) && Authentic(h, honest)
    }

    /** Its part without the signature. */
    ghost predicate Sized(cells: seq<byte>, h: seq<byte>, slot: Slot)
      requires |h| == HDR
    {
      && WellFormed(h) && HdrSize(h) + ImageSize(h) + TlvLen(h) <= slot.size
      && ImageVerify.PayloadIntact(cells, Sha(), h, slot.addr)
    }

    ghost predicate Accepts(cells: seq<byte>, slot: Slot, key: Option<Key>) {
      && slot.addr != 0 && slot.size != 0 && slot.addr + HDR <= |cells|
      && var h := cells[slot.addr..slot.addr + HDR];
         && Sized(cells, h, slot) && Signed(h, key)
    }

    /** The key in use: keystore, slot selection and revocation. */
    method ActiveKey() returns (rc: int, key: Key)
      requires |otp.keys| == KEY_SLOTS
      modifies otp`codes, counter`faults
      ensures rc == OK || rc == ERR_KEY
      ensures rc == OK <==> old(otp.KeyInUse(compiledKey)).Some?
      ensures rc == OK ==> key == old(otp.KeyInUse(compiledKey)).value && Trusted(key, old(otp.Honest()))
      ensures (old(otp.Honest()) ==> otp.Honest()) && (old(otp.codes) == [] ==> otp.codes == [])
      ensures counter.faults >= old(counter.faults)
    {
      key := Sha2.Zeros(KEY_SIZE);
      var store := new KeyStore(compiledKey);
      rc := store.Init(otp, counter);
      if rc != OK { return ERR_KEY, key; }
      rc, key := store.GetActiveKey();
      if rc != OK { return ERR_KEY, key; }
    }

    /** eos_image_verify_signature: only an Ed25519 signature of exactly 64 bytes over the
        signed prefix is accepted, checked twice under the active key; and such a signature
        is accepted. */
    method VerifySignature(h: seq<byte>) returns (rc: int)
      requires Ready() && |h| == HDR
      modifies otp`codes, counter`faults
      ensures rc == OK || rc == ERR_SIGNATURE || rc == ERR_KEY
      ensures rc == OK ==> Signed(h, old(otp.KeyInUse(compiledKey))) && Authentic(h, old(otp.Honest()))
      ensures PointDecoding.PrimeField() ==> (rc == OK <==> Signed(h, old(otp.KeyInUse(compiledKey))))
      ensures (old(otp.Honest()) ==> otp.Honest()) && (old(otp.codes) == [] ==> otp.codes == [])
      ensures counter.faults >= old(counter.faults)
    {
      hide Ed25519.CurveGroup, Trusted, Verifies, PointDecoding.PrimeField, Otp.KeyInUse;
      if SigType(h) == SIG_NONE || SigType(h) == SIG_CRC32 || SigType(h) == SIG_SHA256 { return ERR_SIGNATURE; }
      if SigType(h) == SIG_ED25519 && SigLen(h) != SIG_MAX_SIZE { return ERR_SIGNATURE; }
      if SigLen(h) == 0 || SigLen(h) > SIG_MAX_SIZE { return ERR_SIGNATURE; }
      if SigType(h) != SIG_ED25519 { return ERR_SIGNATURE; }
      var key;
      rc, key := ActiveKey();
      if rc != OK { return; }
      ghost var d, d2;
      rc, d := CheckEquation(h, key);
      var rc2;
      rc2, d2 := CheckEquation(h, key);
      if rc != OK || rc2 != OK { return ERR_SIGNATURE; }
      assert SignedBy(key, d.point, h, old(otp.Honest()));
    }

    method CheckEquation(h: seq<byte>, key: Key) returns (rc: int, ghost d: PointDecoding.Decoded)
      requires Ready() && |h| == HDR
      ensures rc == OK ==> d.Decoded? && Verifies(d.point, key, h)
      ensures PointDecoding.PrimeField() ==> (rc == OK <==> exists q :: Verifies(q, key, h))
    {
      hide Ed25519.CurveGroup, Ed25519.SignedUnder, Sha2.Hash, PointDecoding.PrimeField;
      rc, d := Ed25519.Verify(g, gInit, gRender, Signature(h), key, h[..SIGNED_LEN], group, phi, valid, enc);
      ghost var hash := Challenge(key, h);
      assert forall q :: Verifies(q, key, h) <==> Ed25519.SignedUnder(group, phi, enc, key, q, hash, Signature(h));
    }

    /** The checks verify_slot and the jump share. When no read fails, they accept exactly the
        slots that hold a sized image signed under the key in use. */
    method CheckImage(slot: Slot) returns (rc: int, h: seq<byte>)
      requires Ready()
      modifies flash`readFaults, otp`codes, counter`faults
      ensures |h| == HDR
      ensures rc == OK ==> Genuine(flash.cells, slot, old(otp.Honest())) && h == flash.cells[slot.addr..slot.addr + HDR]
      ensures flash.readFaults >= old(flash.readFaults) && counter.faults >= old(counter.faults)
      ensures (old(otp.Honest()) ==> otp.Honest()) && (old(otp.codes) == [] ==> otp.codes == [])
      ensures flash.readFaults == old(flash.readFaults) && PointDecoding.PrimeField() ==>
                (rc == OK <==> Accepts(flash.cells, slot, old(otp.KeyInUse(compiledKey))))
    {
      hide Ed25519.CurveGroup, Authentic, Sha2.Hash, WellFormed, ImageVerify.PayloadIntact, PointDecoding.PrimeField,
           Otp.KeyInUse, Signed;
      h := Sha2.Zeros(HDR);
      if slot.addr == 0 { return ERR_INVALID, h; }
      rc, h := ImageVerify.ParseHeader(flash, slot.addr);
      if rc != OK { return; }
      if slot.size == 0 || !FitsSlot(h, slot.size) { return ERR_INVALID, h; }
      rc := ImageVerify.VerifyIntegrity(flash, f, init, render, h, slot.addr);
      if rc != OK { return; }
      rc := VerifySignature(h);
    }
  }
}
