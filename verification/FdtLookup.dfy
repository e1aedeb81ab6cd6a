/** The token walk refines lookup on the tree. */
module FdtLookup {
  import opened Types
  import opened Wrappers
  import opened DeviceTree
  import opened FdtLoader

  // ---- the walk's state is a function of the chain of open nodes ----

  /** How many components the open nodes match, counted from the root's children. */
  function MatchLen(chain: seq<Bytes>, comps: seq<Bytes>): (m: nat)
    ensures m <= |comps| && (|chain| <= 1 ==> m == 0) && (|chain| > 1 ==> m < |chain|)
  {
    if |chain| <= 1 then 0
    else
      var k := |chain| - 2;
      var m := MatchLen(chain[..k + 1], comps);
      if m == k && k < |comps| && Matches(chain[k + 1], comps[k]) then k + 1 else m
  }

  function StateOf(chain: seq<Bytes>, comps: seq<Bytes>): State {
    State(|chain|, MatchLen(chain, comps), |chain| > |comps| && MatchLen(chain, comps) == |comps|)
  }

  lemma EnterChain(chain: seq<Bytes>, name: Bytes, comps: seq<Bytes>)
    ensures Enter(StateOf(chain, comps), name, comps) == StateOf(chain + [name], comps)
  {
    var c := chain + [name];
    if |chain| >= 1 {
      assert c[..|chain|] == chain;
    }
  }

  lemma LeaveChain(chain: seq<Bytes>, name: Bytes, comps: seq<Bytes>)
    ensures Leave(StateOf(chain + [name], comps), comps) == StateOf(chain, comps)
  {
    var c := chain + [name];
    if |chain| >= 1 {
      assert c[..|chain|] == chain;
    }
  }

  /** All components are matched exactly when each open node matches its component. */
  lemma {:induction false} MatchLenIsPrefix(chain: seq<Bytes>, comps: seq<Bytes>, n: nat)
    requires |chain| > n && n <= |comps|
    ensures MatchLen(chain, comps) >= n <==> forall i :: 0 <= i < n ==> Matches(chain[i + 1], comps[i])
  {
    if n > 0 {
      var k := |chain| - 2;
      var init := chain[..k + 1];
      assert forall i :: 0 <= i <= k ==> init[i] == chain[i];
      if n == k + 1 {
        MatchLenIsPrefix(init, comps, k);
      } else {
        MatchLenIsPrefix(init, comps, n);
      }
    }
  }

  /** A property is the target's own exactly when its chain is the path. */
  lemma TargetIsOnPath(chain: seq<Bytes>, comps: seq<Bytes>)
    ensures var st := StateOf(chain, comps);
            st.inTarget && st.depth == |comps| + 1 <==> OnPath(chain, comps)
  {
    if |chain| > |comps| { MatchLenIsPrefix(chain, comps, |comps|); }
  }

  // ---- reading back what Flatten wrote ----

  lemma ReadBe32(v: u32, tail: Bytes)
    ensures ReadU32(Be32(v) + tail, 0) == v && (Be32(v) + tail)[4..] == tail
  {
  }

  lemma WalkBegin(name: Bytes, tail: Bytes, strings: Bytes, comps: seq<Bytes>, prop: Bytes, st: State)
    requires 0 !in name
    ensures Walk(Be32(FDT_BEGIN_NODE) + (Pad(name + [0]) + tail), strings, comps, prop, st)
         == Walk(tail, strings, comps, prop, Enter(st, name, comps))
  {
    hide Enter;
    var t := Pad(name + [0]) + tail;
    ReadBe32(FDT_BEGIN_NODE, t);
    assert t[..|name|] == name by { assert Pad(name + [0])[..|name| + 1] == name + [0]; }
    assert t[|name|] == 0 by { assert Pad(name + [0])[..|name| + 1][|name|] == 0; }
    IndexUnique(t, 0, |name|);
    assert t[Padded(|name| + 1)..] == tail;
  }

  lemma WalkEnd(tail: Bytes, strings: Bytes, comps: seq<Bytes>, prop: Bytes, st: State)
    requires st.depth > 0
    ensures Walk(Be32(FDT_END_NODE) + tail, strings, comps, prop, st) ==
              Walk(tail, strings, comps, prop, Leave(st, comps))
  {
    hide Leave;
    ReadBe32(FDT_END_NODE, tail);
  }

  lemma WalkNop(tail: Bytes, strings: Bytes, comps: seq<Bytes>, prop: Bytes, st: State)
    ensures Walk(Be32(FDT_NOP) + tail, strings, comps, prop, st) == Walk(tail, strings, comps, prop, st)
  {
    ReadBe32(FDT_NOP, tail);
  }

  lemma WalkProperty(off: u32, v: Bytes, tail: Bytes, strings: Bytes, comps: seq<Bytes>, prop: Bytes, st: State)
    requires off < |strings| && 0 in strings[off..] && |v| < 0x1_0000_0000
    ensures Walk(Be32(FDT_PROP) + (Be32(|v|) + (Be32(off) + (Pad(v) + tail))), strings, comps, prop, st)
         == if st.inTarget && st.depth == |comps| + 1 && CString(strings, off) == prop then Value(v)
            else Walk(tail, strings, comps, prop, st)
  {
    var u := Pad(v) + tail;
    var t := Be32(|v|) + (Be32(off) + u);
    ReadBe32(FDT_PROP, t);
    ReadBe32(|v|, Be32(off) + u);
    ReadBe32(off, u);
    assert ReadU32(t, 4) == ReadU32(t[4..], 0);
    assert t[8..] == t[4..][4..] == u;
    assert u[..|v|] == v by { assert Pad(v)[..|v|] == v; }
    assert u[Padded(|v|)..] == tail;
  }

  // ---- the refinement ----

  /** Walking the flattened items of an open node finds the first entry on the path, and
      otherwise carries on behind them in the state it started from. */
  lemma {:induction false} WalkItems(items: Items, chain: seq<Bytes>, tail: Bytes, strings: Bytes,
                                     comps: seq<Bytes>, prop: Bytes)
    requires WellFormed(items, strings)
    ensures Walk(Flatten(items) + tail, strings, comps, prop, StateOf(chain, comps))
         == match First(Entries(items, chain, strings), comps, prop)
            case Some(v) => Value(v)
            case None => Walk(tail, strings, comps, prop, StateOf(chain, comps))
  {
    hide Walk, StateOf, Enter, Leave, Be32, Pad, OnPath, Flatten;
    var st := StateOf(chain, comps);
    match items
    case Done =>
      assert Flatten(Done) == [] by { FlattenDone(); }
      assert [] + tail == tail;
    case Filler(rest) =>
      FlattenFiller(rest, tail);
      WalkNop(Flatten(rest) + tail, strings, comps, prop, st);
      WalkItems(rest, chain, tail, strings, comps, prop);
    case Property(off, v, rest) =>
      var after := Flatten(rest) + tail;
      FlattenProperty(off, v, rest, tail);
      WalkProperty(off, v, after, strings, comps, prop, st);
      TargetIsOnPath(chain, comps);
      WalkItems(rest, chain, tail, strings, comps, prop);
      FirstCons(Entry(chain, CString(strings, off), v), Entries(rest, chain, strings), comps, prop);
    case Child(name, body, rest) =>
      var after := Flatten(rest) + tail;
      var close := Be32(FDT_END_NODE) + after;
      FlattenChild(name, body, rest, tail);
      WalkBegin(name, Flatten(body) + close, strings, comps, prop, st);
      EnterChain(chain, name, comps);
      WalkItems(body, chain + [name], close, strings, comps, prop);
      StateDepth(chain + [name], comps);
      WalkEnd(after, strings, comps, prop, StateOf(chain + [name], comps));
      LeaveChain(chain, name, comps);
      WalkItems(rest, chain, tail, strings, comps, prop);
      FirstConcat(Entries(body, chain + [name], strings), Entries(rest, chain, strings), comps, prop);
  }

  lemma FlattenDone()
    ensures Flatten(Done) == []
  {
  }

  lemma FlattenFiller(rest: Items, tail: Bytes)
    ensures Flatten(Filler(rest)) + tail == Be32(FDT_NOP) + (Flatten(rest) + tail)
  {
    hide Be32;
  }

  lemma FlattenProperty(off: u32, v: Bytes, rest: Items, tail: Bytes)
    requires |v| < 0x1_0000_0000
    ensures Flatten(Property(off, v, rest)) + tail
         == Be32(FDT_PROP) + (Be32(|v|) + (Be32(off) + (Pad(v) + (Flatten(rest) + tail))))
  {
    hide Be32, Pad;
  }

  lemma FlattenChild(name: Bytes, body: Items, rest: Items, tail: Bytes)
    ensures Flatten(Child(name, body, rest)) + tail
         == Be32(FDT_BEGIN_NODE) + (Pad(name + [0]) + (Flatten(body) + (Be32(FDT_END_NODE) + (Flatten(rest) + tail))))
  {
    hide Be32, Pad;
  }

  lemma StateDepth(chain: seq<Bytes>, comps: seq<Bytes>)
    ensures StateOf(chain, comps).depth == |chain|
  {
  }

  lemma FirstCons(e: Entry, es: seq<Entry>, comps: seq<Bytes>, prop: Bytes)
    ensures First([e] + es, comps, prop)
         == if OnPath(e.chain, comps) && e.name == prop then Some(e.value) else First(es, comps, prop)
  {
    assert ([e] + es)[1..] == es;
  }

  /** On the structure block of any tree - NOPs anywhere, END, and any bytes behind it - the
      walk reports the first property in document order whose chain of nodes is the path, and
      not-found exactly when there is none. */
  lemma WalkFindsFirst(top: Items, junk: Bytes, strings: Bytes, comps: seq<Bytes>, prop: Bytes)
    requires WellFormed(top, strings)
    ensures Walk(Flatten(top) + (Be32(FDT_END) + junk), strings, comps, prop, State(0, 0, false))
         == match First(Entries(top, [], strings), comps, prop)
            case Some(v) => Value(v)
            case None => NotFound
  {
    WalkItems(top, [], Be32(FDT_END) + junk, strings, comps, prop);
    ReadBe32(FDT_END, junk);
  }

  /** eos_fdt_get_prop on a blob whose structure block is a flattened tree. */
  method LookUp(blob: Bytes, path: Bytes, prop: Bytes, bufLen: u32, ghost top: Items, ghost junk: Bytes)
      returns (rc: int, buf: Bytes, outLen: int)
    requires |blob| < 0x1_0000_0000 && Validate(blob, |blob|) == 0
    requires blob[StructOff(blob)..StructOff(blob) + StructSize(blob)] == Flatten(top) + (Be32(FDT_END) + junk)
    requires WellFormed(top, blob[StringsOff(blob)..StringsOff(blob) + StringsSize(blob)])
    ensures |Components(path)| > FDT_MAX_PATH_DEPTH ==> rc == -8
    ensures |Components(path)| <= FDT_MAX_PATH_DEPTH ==>
            var es := Entries(top, [], blob[StringsOff(blob)..StringsOff(blob) + StringsSize(blob)]);
            match First(es, Components(path), prop)
            case Some(v) => if |v| > bufLen then rc == -7 && outLen == |v| else rc == 0 && buf == v && outLen == |v|
            case None => rc == -5
  {
    hide Components, Flatten, First, Walk;
    rc, buf, outLen := GetProp(blob, |blob|, path, prop, bufLen);
    WalkFindsFirst(top, junk, blob[StringsOff(blob)..StringsOff(blob) + StringsSize(blob)], Components(path), prop);
  }
}
