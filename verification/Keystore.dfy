/** Verification keys in OTP and their revocation (core/keystore.c). */
module Keystore {
  import opened Types
  import opened Flash
  import opened Wrappers
  import Rollback
  import Sha2

  const KEY_SIZE := 32
  const KEY_SLOTS := 2

  type Key = k: seq<byte> | |k| == KEY_SIZE witness Sha2.Zeros(KEY_SIZE)

  /** The OTP area. codes holds the results of the coming operations on a board with OTP;
      past its end they succeed. The revocation byte is the set of its bits that are 1; it is
      rewritten as a whole. */
  class Otp {
    const present: bool
    const keys: seq<Key>
    var revoked: set<nat>
    var codes: seq<int>

    constructor (present: bool, keys: seq<Key>, revoked: set<nat>, codes: seq<int>)
      ensures this.present == present && this.keys == keys && this.revoked == revoked && this.codes == codes
    {
      this.present, this.keys, this.revoked, this.codes := present, keys, revoked, codes;
    }

    /** No failure on a board with OTP is reported as EOS_ERR_NOT_SUPPORTED, which means that
        there is no OTP at all. */
    predicate Honest()
      reads this
    {
      ERR_NOT_SUPPORTED !in codes
    }

    /** The result of the k-th operation from now. */
    function Code(k: nat): int
      reads this
    {
      if !present then ERR_NOT_SUPPORTED else if k < |codes| then codes[k] else OK
    }

    /** The key that an initialisation whose reads end so makes active: the compiled-in one
        exactly without OTP, otherwise the first key that is there and not revoked. */
    function KeyInUse(compiledKey: Key): Option<Key>
      requires |keys| == KEY_SLOTS
      reads this
    {
      if Code(0) == ERR_NOT_SUPPORTED then Some(compiledKey)
      else if Code(0) != OK || Unreadable(Code(1)) || Code(2) != OK then None
      else if keys[0] != Sha2.Zeros(KEY_SIZE) && 0 !in revoked then Some(keys[0])
      else if Code(1) == OK && keys[1] != Sha2.Zeros(KEY_SIZE) && 1 !in revoked then Some(keys[1])
      else None
    }

    method Outcome() returns (rc: int)
      modifies this`codes
      ensures rc == old(Code(0)) && codes == if old(codes) == [] then [] else old(codes)[1..]
    {
      rc := Code(0);
      if codes != [] { codes := codes[1..]; }
    }

    method ReadKey(slot: nat) returns (rc: int, key: Key)
      requires slot < |keys|
      modifies this`codes
      ensures rc == old(Code(0)) && codes == if old(codes) == [] then [] else old(codes)[1..]
      ensures rc == OK ==> key == keys[slot]
    {
      rc := Outcome();
      key := if rc == OK then keys[slot] else Sha2.Zeros(KEY_SIZE);
    }

    method ReadRevoked() returns (rc: int, bits: set<nat>)
      modifies this`codes
      ensures rc == old(Code(0)) && codes == if old(codes) == [] then [] else old(codes)[1..]
      ensures rc == OK ==> bits == revoked
    {
      rc := Outcome();
      bits := if rc == OK then revoked else {};
    }

    /** A write that fails may have changed some of the bits it was to change. */
    method WriteRevoked(bits: set<nat>) returns (rc: int)
      modifies this
      ensures rc == old(Code(0)) && codes == if old(codes) == [] then [] else old(codes)[1..]
      ensures rc == OK ==> revoked == bits
      ensures old(revoked) * bits <= revoked <= old(revoked) + bits
    {
      rc := Outcome();
      if rc == OK {
        revoked := bits;
      } else {
        var some: set<nat> := *;
        revoked := revoked * bits + (revoked + bits) * some;
      }
    }
  }

  datatype KeySlot = KeySlot(key: Key, valid: bool, revoked: bool, version: u32)

  datatype Source = NoSource | FromOtp | Compiled

  /** A read that fails on a board with OTP. */
  predicate Unreadable(code: int) { code != OK && code != ERR_NOT_SUPPORTED }

  predicate SecondFailed(firstCode: int, secondCode: int) { firstCode == OK && Unreadable(secondCode) }

  predicate Usable(s: KeySlot) { s.valid && !s.revoked }

  class KeyStore {
    const compiledKey: Key
    var slots: seq<KeySlot>
    var activeSlot: nat
    var source: Source

    ghost predicate Valid()
      reads this
    {
      |slots| == KEY_SLOTS
    }

    /** The active slot is the first usable one. */
    ghost predicate FirstUsable()
      reads this
    {
      && Valid() && activeSlot <= KEY_SLOTS
      && (forall i :: 0 <= i < KEY_SLOTS && i < activeSlot ==> !Usable(slots[i]))
      && (activeSlot < KEY_SLOTS ==> Usable(slots[activeSlot]))
    }

    constructor (compiledKey: Key)
      ensures Valid() && this.compiledKey == compiledKey
    {
      var blank := KeySlot(Sha2.Zeros(KEY_SIZE), false, false, 0);
      this.compiledKey, slots, activeSlot, source := compiledKey, [blank, blank], 0, NoSource;
    }

    method Clear()
      modifies this
      ensures Valid() && forall i :: 0 <= i < KEY_SLOTS ==> slots[i] == KeySlot(Sha2.Zeros(KEY_SIZE), false, false, 0)
      ensures activeSlot == 0 && source == NoSource
    {
      var blank := KeySlot(Sha2.Zeros(KEY_SIZE), false, false, 0);
      slots, activeSlot, source := [blank, blank], 0, NoSource;
    }

    method PickActive()
      requires Valid()
      modifies this`activeSlot
      ensures FirstUsable()
    {
      activeSlot := KEY_SLOTS;
      for i := 0 to KEY_SLOTS
        invariant activeSlot == KEY_SLOTS && forall j :: 0 <= j < i ==> !Usable(slots[j])
      {
        if slots[i].valid && !slots[i].revoked {
          activeSlot := i;
          return;
        }
      }
    }

    /** The OTP half of eos_keystore_init, in terms of the results of its three reads. */
    method ReadOtp(otp: Otp) returns (rc: int, otpPresent: bool)
      requires Valid() && |otp.keys| == KEY_SLOTS && source == NoSource && activeSlot == 0
      requires forall i :: 0 <= i < KEY_SLOTS ==> slots[i] == KeySlot(Sha2.Zeros(KEY_SIZE), false, false, 0)
      modifies this, otp`codes
      ensures Valid() && source != Compiled && activeSlot == 0 && otpPresent == (old(otp.Code(0)) != ERR_NOT_SUPPORTED)
      ensures rc == if Unreadable(old(otp.Code(0))) || SecondFailed(old(otp.Code(0)), old(otp.Code(1))) then ERR_KEY
                else OK
      ensures rc == OK && otpPresent ==> Provisioned(otp.keys, otp.revoked, old(otp.Code(1)), old(otp.Code(2)))
      ensures rc == OK && !otpPresent ==> !slots[0].valid && !slots[1].valid && !slots[0].revoked
      ensures rc != OK ==> !slots[0].revoked
      ensures rc != OK ==>
                (slots[0].valid <==>
                   SecondFailed(old(otp.Code(0)), old(otp.Code(1))) && otp.keys[0] != Sha2.Zeros(KEY_SIZE))
      ensures rc != OK && slots[0].valid ==> slots[0].key == otp.keys[0]
      ensures (old(otp.Honest()) ==> otp.Honest()) && (old(otp.codes) == [] ==> otp.codes == [])
    {
      var key;
      rc, key := otp.ReadKey(0);
      otpPresent := rc != ERR_NOT_SUPPORTED;
      if otpPresent && rc != OK { return ERR_KEY, otpPresent; }
      if rc != OK { return OK, false; }
      slots := slots[0 := slots[0].(key := key)];
      if key != Sha2.Zeros(KEY_SIZE) {
        slots := slots[0 := slots[0].(valid := true)];
        source := FromOtp;
      }
      rc, key := otp.ReadKey(1);
      if rc != OK && rc != ERR_NOT_SUPPORTED { return ERR_KEY, true; }
      slots := slots[1 := slots[1].(key := key)];
      if rc == OK && key != Sha2.Zeros(KEY_SIZE) {
        slots := slots[1 := slots[1].(valid := true)];
      }
      ReadRevocation(otp);
      rc := OK;
    }

    /** What an initialisation from OTP leaves: keys that are not blank, and revocation as
        read, or total when it could not be read. */
    ghost predicate Provisioned(keys: seq<Key>, revoked: set<nat>, secondCode: int, thirdCode: int)
      reads this
    {
      && Valid() && |keys| == KEY_SLOTS
      && slots[0].key == keys[0] && slots[0].valid == (keys[0] != Sha2.Zeros(KEY_SIZE))
      && slots[1].valid == (secondCode == OK && keys[1] != Sha2.Zeros(KEY_SIZE))
      && (slots[1].valid ==> slots[1].key == keys[1])
      && forall i :: 0 <= i < KEY_SLOTS ==> slots[i].revoked == (thirdCode != OK || i in revoked)
    }

    /** Revocation status; what cannot be read counts as revoked. */
    method ReadRevocation(otp: Otp)
      requires Valid() && !slots[0].revoked && !slots[1].revoked
      modifies this`slots, otp`codes
      ensures Valid() && (old(otp.Honest()) ==> otp.Honest()) && (old(otp.codes) == [] ==> otp.codes == [])
      ensures forall i :: 0 <= i < KEY_SLOTS ==>
                slots[i] == old(slots[i]).(revoked := old(otp.Code(0)) != OK || i in otp.revoked)
    {
      var rc, bits := otp.ReadRevoked();
      if rc == OK {
        if 0 in bits { slots := slots[0 := slots[0].(revoked := true)]; }
        if 1 in bits { slots := slots[1 := slots[1].(revoked := true)]; }
      } else {
        for i := 0 to KEY_SLOTS
          invariant Valid() && (old(otp.Honest()) ==> otp.Honest()) && (old(otp.codes) == [] ==> otp.codes == [])
          invariant forall j :: 0 <= j < i ==> slots[j] == old(slots[j]).(revoked := true)
          invariant forall j :: i <= j < KEY_SLOTS ==> slots[j] == old(slots[j])
        {
          slots := slots[i := slots[i].(revoked := true)];
        }
      }
    }

    /** eos_keystore_init. It fails exactly when the first read fails on a board with OTP, or
        the first succeeds and the second fails. The compiled-in key is used exactly when the
        first read reports that there is no OTP; otherwise an active key is an OTP key whose
        revocation was read as clear. A failure at the second key leaves slot 0 looking usable
        whenever it holds a key, revoked or not. */
    method Init(otp: Otp, counter: Rollback.MonotonicCounter) returns (rc: int)
      requires |otp.keys| == KEY_SLOTS
      modifies this, otp`codes, counter`faults
      ensures Valid() && counter.faults >= old(counter.faults)
      ensures (old(otp.Honest()) ==> otp.Honest()) && (old(otp.codes) == [] ==> otp.codes == [])
      ensures rc == if Unreadable(old(otp.Code(0))) || SecondFailed(old(otp.Code(0)), old(otp.Code(1))) then ERR_KEY
                else OK
      ensures rc == OK ==> FirstUsable()
      ensures source == Compiled <==> old(otp.Code(0)) == ERR_NOT_SUPPORTED
      ensures source == Compiled ==> rc == OK && activeSlot == 0 && slots[0].key == compiledKey
      ensures rc == OK && source != Compiled ==> Provisioned(otp.keys, otp.revoked, old(otp.Code(1)), old(otp.Code(2)))
      ensures rc != OK ==> activeSlot == 0 && (Usable(slots[0]) <==>
                SecondFailed(old(otp.Code(0)), old(otp.Code(1))) && otp.keys[0] != Sha2.Zeros(KEY_SIZE))
      ensures rc != OK && Usable(slots[0]) ==> slots[0].key == otp.keys[0]
      ensures rc == OK && counter.faults == old(counter.faults) && counter.present ==>
                forall i :: 0 <= i < KEY_SLOTS ==> slots[i].version == counter.value
      ensures rc == OK && !counter.present ==> forall i :: 0 <= i < KEY_SLOTS ==> slots[i].version == 1
    {
      Clear();
      var otpPresent;
      rc, otpPresent := ReadOtp(otp);
      if rc != OK { return; }
      if !slots[0].valid && !slots[1].valid && !otpPresent {
        slots := slots[0 := slots[0].(key := compiledKey, valid := true)];
        source := Compiled;
      }
      PickActive();
      var crc, version := counter.Read();
      if crc != OK { version := 1; }
      slots := [slots[0].(version := version), slots[1].(version := version)];
    }

    /** eos_keystore_get_active_key. */
    method GetActiveKey() returns (rc: int, key: Key)
      requires Valid()
      ensures rc == OK <==> activeSlot < KEY_SLOTS && Usable(slots[activeSlot])
      ensures rc == OK ==> key == slots[activeSlot].key
      ensures rc != OK ==> rc == ERR_KEY
    {
      key := Sha2.Zeros(KEY_SIZE);
      if activeSlot >= KEY_SLOTS { return ERR_KEY, key; }
      if !slots[activeSlot].valid || slots[activeSlot].revoked { return ERR_KEY, key; }
      return OK, slots[activeSlot].key;
    }

    /** eos_keystore_revoke_slot: no bit is ever cleared, and OK on a board with OTP means
        that the revocation is stored. */
    method RevokeSlot(otp: Otp, slot: nat) returns (rc: int)
      requires Valid()
      modifies this, otp
      ensures Valid() && old(otp.revoked) <= otp.revoked <= old(otp.revoked) + {slot}
      ensures slot < KEY_SLOTS ==> slots[slot].revoked && activeSlot != slot && FirstUsable()
      ensures slot >= KEY_SLOTS ==> rc == ERR_INVALID && otp.revoked == old(otp.revoked)
      ensures slot < KEY_SLOTS ==>
                rc == if old(otp.Code(0)) == OK then old(otp.Code(1))
                      else if old(otp.Code(0)) == ERR_NOT_SUPPORTED then OK else old(otp.Code(0))
      ensures rc == OK && otp.present && old(otp.Honest()) ==> slot in otp.revoked
      ensures old(otp.Honest()) ==> otp.Honest()
    {
      if slot >= KEY_SLOTS { return ERR_INVALID; }
      slots := slots[slot := slots[slot].(revoked := true)];
      var persisted, bits;
      rc, bits := otp.ReadRevoked();
      if rc == OK {
        bits := bits + {slot};
        persisted := otp.WriteRevoked(bits);
      } else if rc == ERR_NOT_SUPPORTED {
        persisted := OK;
      } else {
        persisted := rc;
      }
      PickActive();
      rc := persisted;
    }
  }

  // ---- over resets ----

  /** What a boot may do with the store. */
  datatype Action = Boot | Revoke(slot: nat)

  /** On an honest board with OTP: once a revocation of slot s has returned OK, then after any
      further boots and revocations, finished or failing, a store that initialises does not
      yield the key of slot s. */
  method AfterRevocation(otp: Otp, counter: Rollback.MonotonicCounter, compiledKey: Key, s: nat, plan: seq<Action>)
      returns (revokeRc: int, initRc: int, keyRc: int, key: Key, used: nat)
    requires otp.present && otp.Honest() && |otp.keys| == KEY_SLOTS && s < KEY_SLOTS
    modifies otp, counter`faults
    ensures revokeRc == OK && initRc == OK && keyRc == OK ==> used < KEY_SLOTS && used != s && key == otp.keys[used]
    ensures old(otp.revoked) <= otp.revoked
  {
    var store := new KeyStore(compiledKey);
    revokeRc := store.RevokeSlot(otp, s);
    for i := 0 to |plan|
      invariant old(otp.revoked) <= otp.revoked && otp.Honest() && store.Valid() && fresh(store)
      invariant revokeRc == OK ==> s in otp.revoked
    {
      match plan[i] {
        case Boot =>
          store := new KeyStore(compiledKey);
          var _ := store.Init(otp, counter);
        case Revoke(k) =>
          var _ := store.RevokeSlot(otp, k);
      }
    }
    store := new KeyStore(compiledKey);
    initRc := store.Init(otp, counter);
    keyRc, key := store.GetActiveKey();
    used := store.activeSlot;
  }

  /** An initialisation that fails at the second key hands a caller that ignores the return
      code the key of slot 0, although that key is revoked. */
  method FailedInitYieldsRevokedKey(key0: Key, key1: Key, compiledKey: Key) returns (initRc: int, keyRc: int, key: Key)
    requires key0 != Sha2.Zeros(KEY_SIZE)
    ensures initRc == ERR_KEY && keyRc == OK && key == key0
  {
    var otp := new Otp(true, [key0, key1], {0}, [OK, ERR_FLASH]);
    assert otp.Honest() && 0 in otp.revoked;
    var counter := new Rollback.MonotonicCounter(false, 0);
    var store := new KeyStore(compiledKey);
    initRc := store.Init(otp, counter);
    keyRc, key := store.GetActiveKey();
  }
}
