/** The device tree blob parser (core/fdt_loader.c). */
module FdtLoader {
  import opened Types
  import opened DeviceTree

  const FDT_MAGIC := 0xD00DFEED
  const HEADER_SIZE := 40
  const FDT_MAX_PATH_DEPTH := 16

  // ---- eos_fdt_validate ----

  /** fdt_block_in_bounds: the block lies after the header and inside totalsize. */
  predicate BlockInBounds(off: u32, len: u32, totalsize: u32)
    ensures BlockInBounds(off, len, totalsize) <==> HEADER_SIZE <= off && off + len <= totalsize
  {
    if off < HEADER_SIZE then false
    else if len > totalsize then false
    else off <= totalsize - len
  }

  function StructOff(blob: Bytes): u32 requires |blob| >= HEADER_SIZE { ReadU32(blob, 8) }
  function StringsOff(blob: Bytes): u32 requires |blob| >= HEADER_SIZE { ReadU32(blob, 12) }
  function StringsSize(blob: Bytes): u32 requires |blob| >= HEADER_SIZE { ReadU32(blob, 32) }
  function StructSize(blob: Bytes): u32 requires |blob| >= HEADER_SIZE { ReadU32(blob, 36) }

  /** Both blocks of an accepted blob are readable, whatever its header claims. */
  function Validate(blob: Bytes, avail: u32): (rc: int)
    requires |blob| == avail
    ensures rc == 0 ==> HEADER_SIZE <= avail && ReadU32(blob, 0) == FDT_MAGIC && ReadU32(blob, 20) >= 16
    ensures rc == 0 ==> HEADER_SIZE <= StructOff(blob) && StructOff(blob) + StructSize(blob) <= avail
    ensures rc == 0 ==> HEADER_SIZE <= StringsOff(blob) && StringsOff(blob) + StringsSize(blob) <= avail
  {
    if avail < HEADER_SIZE then -6
    else if ReadU32(blob, 0) != FDT_MAGIC then -2
    else if ReadU32(blob, 20) < 16 then -3
    else if ReadU32(blob, 4) > avail then -6
    else
      var totalsize := ReadU32(blob, 4);
      if totalsize < HEADER_SIZE then -6
      else if !BlockInBounds(StructOff(blob), StructSize(blob), totalsize) then -6
      else if !BlockInBounds(StringsOff(blob), StringsSize(blob), totalsize) then -6
      else 0
  }

  // ---- the path ----

  const SLASH: byte := 47

  /** The components of a path: maximal runs without '/'. */
  function Components(path: Bytes): seq<Bytes>
    decreases |path|
  {
    if path == [] then []
    else if path[0] == SLASH then Components(path[1..])
    else var n := IndexOf(path, SLASH); [path[..n]] + Components(path[n..])
  }

  lemma SlashSkipped(path: Bytes)
    requires path != [] && path[0] == SLASH
    ensures Components(path) == Components(path[1..])
  {
  }

  method SkipSlashes(path: Bytes, from: nat) returns (p: nat)
    requires from <= |path|
    ensures from <= p <= |path| && (p < |path| ==> path[p] != SLASH)
    ensures Components(path[p..]) == Components(path[from..])
  {
    hide Components;
    p := from;
    while p < |path| && path[p] == SLASH
      invariant from <= p <= |path|
      invariant Components(path[p..]) == Components(path[from..])
    {
      assert path[p..][1..] == path[p + 1..];
      SlashSkipped(path[p..]);
      p := p + 1;
    }
  }

  method ScanComponent(path: Bytes, start: nat) returns (p: nat)
    requires start < |path| && path[start] != SLASH
    ensures start < p <= |path|
    ensures Components(path[start..]) == [path[start..p]] + Components(path[p..])
  {
    p := start;
    while p < |path| && path[p] != SLASH
      invariant start <= p <= |path| && SLASH !in path[start..p]
    {
      assert path[start..p + 1] == path[start..p] + [path[p]];
      p := p + 1;
    }
    var s := path[start..];
    assert s[..p - start] == path[start..p] && s[p - start..] == path[p..];
    IndexUnique(s, SLASH, p - start);
  }

  lemma {:induction false} IndexUnique(s: Bytes, b: byte, n: nat)
    requires n <= |s| && b !in s[..n] && (n < |s| ==> s[n] == b)
    ensures IndexOf(s, b) == n
  {
    if n > 0 {
      assert s[..n][0] == s[0];
      assert s[1..][..n - 1] == s[..n][1..];
      IndexUnique(s[1..], b, n - 1);
    }
  }

  /** Splits the path; fails exactly when it has more than 16 components. */
  method SplitPath(path: Bytes) returns (ok: bool, comps: seq<Bytes>)
    ensures ok <==> |Components(path)| <= FDT_MAX_PATH_DEPTH
    ensures ok ==> comps == Components(path)
  {
    hide Components;
    comps := [];
    var p := 0;
    assert path[0..] == path;
    NoComponents(path[|path|..]);
    while p < |path|
      invariant 0 <= p <= |path| && |comps| <= FDT_MAX_PATH_DEPTH
      invariant comps + Components(path[p..]) == Components(path)
    {
      p := SkipSlashes(path, p);
      if p == |path| { break; }
      var start := p;
      p := ScanComponent(path, start);
      if |comps| >= FDT_MAX_PATH_DEPTH { return false, comps; }
      comps := comps + [path[start..p]];
    }
    ok := true;
  }

  lemma NoComponents(s: Bytes)
    requires s == []
    ensures Components(s) == []
  {
  }

  // ---- the token walk ----

  /** fdt_name_matches, comparison by comparison. */
  predicate NameMatches(name: Bytes, comp: Bytes)
    ensures NameMatches(name, comp) <==> Matches(name, comp)
  {
    if 64 in comp then |name| == |comp| && name[..|comp|] == comp
    else IndexOf(name, 64) == |comp| && name[..|comp|] == comp
  }

  /** depth, matched and in_target of eos_fdt_get_prop. */
  datatype State = State(depth: nat, matched: nat, inTarget: bool)

  datatype Outcome = Value(value: Bytes) | NotFound | Malformed

  function Enter(st: State, name: Bytes, comps: seq<Bytes>): State {
    var depth := st.depth + 1;
    var matched :=
      if depth >= 2 && st.matched == depth - 2 && depth - 2 < |comps| && NameMatches(name, comps[depth - 2])
      then depth - 1 else st.matched;
    State(depth, matched, st.inTarget || (depth == |comps| + 1 && matched == |comps|))
  }

  function Leave(st: State, comps: seq<Bytes>): State
    requires st.depth > 0
  {
    State(st.depth - 1,
          if st.matched >= st.depth - 1 && st.depth >= 2 then st.depth - 2 else st.matched,
          st.inTarget && st.depth != |comps| + 1)
  }

  /** The walk over what is left of the structure block. */
  function Walk(s: Bytes, strings: Bytes, comps: seq<Bytes>, prop: Bytes, st: State): Outcome
    decreases |s|
  {
    if |s| < 4 then NotFound
    else
      var tag, t := ReadU32(s, 0), s[4..];
      if tag == FDT_BEGIN_NODE then
        var n := IndexOf(t, 0);
        if n == |t| || Padded(n + 1) > |t| then Malformed
        else Walk(t[Padded(n + 1)..], strings, comps, prop, Enter(st, t[..n], comps))
      else if tag == FDT_END_NODE then
        if st.depth == 0 then Malformed else Walk(t, strings, comps, prop, Leave(st, comps))
      else if tag == FDT_PROP then
        if |t| < 8 then Malformed
        else
          var len, nameoff, u := ReadU32(t, 0), ReadU32(t, 4), t[8..];
          if nameoff >= |strings| || 0 !in strings[nameoff..] || len > |u| then Malformed
          else if st.inTarget && st.depth == |comps| + 1 && CString(strings, nameoff) == prop then Value(u[..len])
          else if Padded(len) > |u| then Malformed
          else Walk(u[Padded(len)..], strings, comps, prop, st)
      else if tag == FDT_END then NotFound
      else if tag == FDT_NOP then Walk(t, strings, comps, prop, st)
      else Malformed
  }

  // ---- eos_fdt_get_prop ----

  /** Return code, value and length out of eos_fdt_get_prop. */
  function Report(o: Outcome, bufLen: u32): (int, Bytes, int) {
    match o
    case Value(v) => if |v| > bufLen then (-7, [], |v|) else (0, v, |v|)
    case NotFound => (-5, [], bufLen)
    case Malformed => (-6, [], bufLen)
  }

  /** eos_fdt_get_prop on arbitrary bytes: every read is inside the blob, no offset wraps,
      the loop terminates, and the answer is that of the walk over the structure block. */
  method GetProp(blob: Bytes, len: u32, path: Bytes, prop: Bytes, bufLen: u32)
      returns (rc: int, buf: Bytes, outLen: int)
    requires |blob| == len
    ensures Validate(blob, len) != 0 ==> rc == Validate(blob, len)
    ensures Validate(blob, len) == 0 && |Components(path)| > FDT_MAX_PATH_DEPTH ==> rc == -8
    ensures Validate(blob, len) == 0 && |Components(path)| <= FDT_MAX_PATH_DEPTH ==>
              (rc, buf, outLen) == Report(
                Walk(blob[StructOff(blob)..StructOff(blob) + StructSize(blob)],
                     blob[StringsOff(blob)..StringsOff(blob) + StringsSize(blob)],
                     Components(path), prop, State(0, 0, false)), bufLen)
  {
    hide Components;
    var vrc := Validate(blob, len);
    if vrc != 0 { return vrc, [], bufLen; }
    var structSize: u32 := StructSize(blob);
    var ds := blob[StructOff(blob)..StructOff(blob) + structSize];
    var strings := blob[StringsOff(blob)..StringsOff(blob) + StringsSize(blob)];
    var ok, comps := SplitPath(path);
    if !ok { return -8, [], bufLen; }
    rc, buf, outLen := Scan(ds, strings, comps, prop, bufLen);
  }

  /** The token walk: one token per iteration, each read checked for the width it takes. */
  method Scan(ds: Bytes, strings: Bytes, comps: seq<Bytes>, prop: Bytes, bufLen: u32)
      returns (rc: int, buf: Bytes, outLen: int)
    requires |ds| + HEADER_SIZE < 0x1_0000_0000 && |strings| < 0x1_0000_0000
    ensures (rc, buf, outLen) == Report(Walk(ds, strings, comps, prop, State(0, 0, false)), bufLen)
  {
    hide Walk, Enter, Leave, Report;
    buf, outLen := [], bufLen;
    var offset: u32 := 0;
    var st := State(0, 0, false);
    var structSize: u32 := |ds|;
    assert ds[0..] == ds;
    while offset + 4 <= structSize
      invariant offset <= structSize
      invariant Walk(ds, strings, comps, prop, State(0, 0, false)) == Walk(ds[offset..], strings, comps, prop, st)
      decreases structSize - offset
    {
      var step := Token(ds, strings, comps, prop, offset, st);
      match step
      case Stop(o) =>
        rc, buf, outLen := Finish(o, bufLen);
        return;
      case Go(next, st') =>
        offset, st := next, st';
    }
    WalkShort(ds[offset..], strings, comps, prop, st);
    rc, buf, outLen := Finish(NotFound, bufLen);
  }

  lemma WalkShort(s: Bytes, strings: Bytes, comps: seq<Bytes>, prop: Bytes, st: State)
    requires |s| < 4
    ensures Walk(s, strings, comps, prop, st) == NotFound
  {
  }

  method Finish(o: Outcome, bufLen: u32) returns (rc: int, buf: Bytes, outLen: int)
    ensures (rc, buf, outLen) == Report(o, bufLen)
  {
    match o
    case Malformed => return -6, [], bufLen;
    case NotFound => return -5, [], bufLen;
    case Value(v) =>
      if |v| > bufLen { return -7, [], |v|; }
      return 0, v, |v|;
  }

  /** What one token does: end the walk, or move on to a later offset. */
  datatype Progress = Stop(o: Outcome) | Go(next: u32, st: State)

  /** The step agrees with the walk from the same offset. */
  ghost predicate Agrees(p: Progress, ds: Bytes, offset: nat, strings: Bytes, comps: seq<Bytes>, prop: Bytes,
      o: Outcome) {
    match p
    case Stop(o') => o == o'
    case Go(next, st) => offset < next <= |ds| && o == Walk(ds[next..], strings, comps, prop, st)
  }

  method Token(ds: Bytes, strings: Bytes, comps: seq<Bytes>, prop: Bytes, start: u32, st: State) returns (p: Progress)
    requires |ds| + HEADER_SIZE < 0x1_0000_0000 && |strings| < 0x1_0000_0000 && start + 4 <= |ds|
    ensures Agrees(p, ds, start, strings, comps, prop, Walk(ds[start..], strings, comps, prop, st))
  {
    var tag := ReadU32(ds, start);
    assert ReadU32(ds[start..], 0) == tag;
    var offset: u32 := start + 4;
    assert ds[start..][4..] == ds[offset..];
    if tag == FDT_BEGIN_NODE {
      p := BeginToken(ds, offset, st, comps);
    } else if tag == FDT_END_NODE {
      if st.depth == 0 { return Stop(Malformed); }
      p := Go(offset, Leave(st, comps));
    } else if tag == FDT_PROP {
      p := PropToken(ds, strings, comps, prop, offset, st);
    } else if tag == FDT_END {
      p := Stop(NotFound);
    } else if tag == FDT_NOP {
      p := Go(offset, st);
    } else {
      p := Stop(Malformed);
    }
  }

  method BeginToken(ds: Bytes, start: u32, st: State, comps: seq<Bytes>) returns (p: Progress)
    requires |ds| + HEADER_SIZE < 0x1_0000_0000 && start <= |ds|
    ensures var t := ds[start..];
            var n := IndexOf(t, 0);
            if n == |t| || Padded(n + 1) > |t| then p == Stop(Malformed)
            else p.Go? && start < p.next <= |ds| && ds[p.next..] == t[Padded(n + 1)..]
                 && p.st == Enter(st, t[..n], comps)
  {
    hide Enter;
    var structSize: u32 := |ds|;
    var n := IndexOf(ds[start..], 0);
    if n == structSize - start { return Stop(Malformed); }
    var name := ds[start..][..n];
    var offset: u32 := start + Padded(n + 1);
    if offset > structSize { return Stop(Malformed); }
    p := Go(offset, Enter(st, name, comps));
  }

  method PropToken(ds: Bytes, strings: Bytes, comps: seq<Bytes>, prop: Bytes, start: u32, st: State)
      returns (p: Progress)
    requires |ds| + HEADER_SIZE < 0x1_0000_0000 && |strings| < 0x1_0000_0000 && start <= |ds|
    ensures var t := ds[start..];
            if |t| < 8 then p == Stop(Malformed)
            else
              var len, nameoff, u := ReadU32(t, 0), ReadU32(t, 4), t[8..];
              if nameoff >= |strings| || 0 !in strings[nameoff..] || len > |u| then p == Stop(Malformed)
              else if st.inTarget && st.depth == |comps| + 1 && CString(strings, nameoff) == prop
                  then p == Stop(Value(u[..len]))
              else if Padded(len) > |u| then p == Stop(Malformed)
              else p.Go? && start < p.next <= |ds| && ds[p.next..] == u[Padded(len)..] && p.st == st
  {
    var structSize: u32 := |ds|;
    if start + 8 > structSize { return Stop(Malformed); }
    var len, nameoff := ReadU32(ds, start), ReadU32(ds, start + 4);
    assert ReadU32(ds[start..], 0) == len && ReadU32(ds[start..], 4) == nameoff;
    var offset: u32 := start + 8;
    if nameoff >= |strings| { return Stop(Malformed); }
    if IndexOf(strings[nameoff..], 0) == |strings| - nameoff { return Stop(Malformed); }
    if len > structSize - offset { return Stop(Malformed); }
    assert ds[start..][8..] == ds[offset..];
    if st.inTarget && st.depth == |comps| + 1 && CString(strings, nameoff) == prop {
      return Stop(Value(ds[offset..][..len]));
    }
    offset := offset + Padded(len);
    if offset > structSize { return Stop(Malformed); }
    p := Go(offset, st);
  }
}
