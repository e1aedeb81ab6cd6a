/** Device trees and their flattened form (Devicetree Specification, sections 5.2, 5.4 and 5.5),
    and what a property lookup by path means on the tree. */
module DeviceTree {
  import opened Types
  import opened Wrappers

  type Bytes = seq<byte>

  const FDT_BEGIN_NODE := 1
  const FDT_END_NODE := 2
  const FDT_PROP := 3
  const FDT_NOP := 4
  const FDT_END := 9

  // ---- trees ----

  /** What is between a node's BEGIN and END tokens, in order. */
  datatype Items =
    | Done
    | Property(nameoff: u32, value: Bytes, rest: Items)
    | Filler(rest: Items)
    | Child(name: Bytes, body: Items, rest: Items)

  /** A property together with the names of the nodes it is nested in, outermost first. */
  datatype Entry = Entry(chain: seq<Bytes>, name: Bytes, value: Bytes)

  function IndexOf(s: Bytes, b: byte): (n: nat)
    ensures n <= |s| && b !in s[..n]
    ensures n < |s| ==> s[n] == b
    ensures n == |s| <==> b !in s
  {
    if s == [] || s[0] == b then 0 else 1 + IndexOf(s[1..], b)
  }

  /** The NUL-terminated string at an offset of the strings block. */
  function CString(strings: Bytes, off: nat): Bytes
    requires off <= |strings|
  {
    strings[off..off + IndexOf(strings[off..], 0)]
  }

  /** All properties of a tree in document order. */
  function Entries(items: Items, chain: seq<Bytes>, strings: Bytes): seq<Entry>
    requires WellFormed(items, strings)
  {
    match items
    case Done => []
    case Property(off, v, rest) => [Entry(chain, CString(strings, off), v)] + Entries(rest, chain, strings)
    case Filler(rest) => Entries(rest, chain, strings)
    case Child(name, body, rest) => Entries(body, chain + [name], strings) + Entries(rest, chain, strings)
  }

  /** Names have no NUL and property names are terminated inside the strings block. */
  ghost predicate WellFormed(items: Items, strings: Bytes) {
    match items
    case Done => true
    case Property(off, v, rest) =>
      off < |strings| && 0 in strings[off..] && |v| < 0x1_0000_0000 && WellFormed(rest, strings)
    case Filler(rest) => WellFormed(rest, strings)
    case Child(name, body, rest) => 0 !in name && WellFormed(body, strings) && WellFormed(rest, strings)
  }

  // ---- paths ----

  /** A component without '@' matches a node name up to its unit address. */
  predicate Matches(name: Bytes, comp: Bytes) {
    if 64 in comp then name == comp else name[..IndexOf(name, 64)] == comp
  }

  /** The chain of node names below the root matches the path component by component. */
  ghost predicate OnPath(chain: seq<Bytes>, comps: seq<Bytes>) {
    |chain| == |comps| + 1 && forall i :: 0 <= i < |comps| ==> Matches(chain[i + 1], comps[i])
  }

  /** The first entry on the path with the wanted name. */
  ghost function First(es: seq<Entry>, comps: seq<Bytes>, prop: Bytes): Option<Bytes> {
    if es == [] then None
    else if OnPath(es[0].chain, comps) && es[0].name == prop then Some(es[0].value)
    else First(es[1..], comps, prop)
  }

  lemma {:induction false} FirstConcat(a: seq<Entry>, b: seq<Entry>, comps: seq<Bytes>, prop: Bytes)
    ensures First(a + b, comps, prop) == if First(a, comps, prop).Some? then First(a, comps, prop)
              else First(b, comps, prop)
  {
    if a == [] {
      assert a + b == b;
    } else {
      assert (a + b)[1..] == a[1..] + b;
      FirstConcat(a[1..], b, comps, prop);
    }
  }

  /** First finds something exactly when an entry on the path has the name, and then it is
      the earliest one. */
  lemma {:induction false} FirstIsEarliest(es: seq<Entry>, comps: seq<Bytes>, prop: Bytes)
    ensures First(es, comps, prop) == None <==>
            forall i :: 0 <= i < |es| ==> !(OnPath(es[i].chain, comps) && es[i].name == prop)
    ensures First(es, comps, prop).Some? ==> exists i ::
              && 0 <= i < |es| && OnPath(es[i].chain, comps) && es[i].name == prop
              && es[i].value == First(es, comps, prop).value
              && forall j :: 0 <= j < i ==> !(OnPath(es[j].chain, comps) && es[j].name == prop)
  {
    if es != [] && !(OnPath(es[0].chain, comps) && es[0].name == prop) {
      var t := es[1..];
      FirstIsEarliest(t, comps, prop);
      if First(t, comps, prop).Some? {
        var i :| && 0 <= i < |t| && OnPath(t[i].chain, comps) && t[i].name == prop
                 && t[i].value == First(t, comps, prop).value
                 && forall j :: 0 <= j < i ==> !(OnPath(t[j].chain, comps) && t[j].name == prop);
        assert es[i + 1] == t[i];
        forall j | 0 <= j < i + 1 ensures !(OnPath(es[j].chain, comps) && es[j].name == prop) {
          if j > 0 { assert es[j] == t[j - 1]; }
        }
      } else {
        forall i | 0 <= i < |es| ensures !(OnPath(es[i].chain, comps) && es[i].name == prop) {
          if i > 0 { assert es[i] == t[i - 1]; }
        }
      }
    }
  }

  // ---- the flattened form ----

  function Be32(v: u32): (s: Bytes)
    ensures |s| == 4
  {
    [v / 0x100_0000, v / 0x1_0000 % 0x100, v / 0x100 % 0x100, v % 0x100]
  }

  /** fdt_read_u32. */
  function ReadU32(s: Bytes, off: nat): u32
    requires off + 4 <= |s|
  {
    s[off] as int * 0x100_0000 + s[off + 1] as int * 0x1_0000 + s[off + 2] as int * 0x100 + s[off + 3] as int
  }

  function Padded(n: nat): nat { (n + 3) / 4 * 4 }

  function Pad(s: Bytes): (r: Bytes)
    ensures |r| == Padded(|s|) && |s| <= |r| && r[..|s|] == s
  {
    s + seq(Padded(|s|) - |s|, _ => 0)
  }

  function Flatten(items: Items): Bytes
  {
    match items
    case Done => []
    case Property(off, v, rest) =>
      Be32(FDT_PROP) + Be32(|v| % 0x1_0000_0000) + Be32(off) + Pad(v) + Flatten(rest)
    case Filler(rest) => Be32(FDT_NOP) + Flatten(rest)
    case Child(name, body, rest) =>
      Be32(FDT_BEGIN_NODE) + Pad(name + [0]) + Flatten(body) + Be32(FDT_END_NODE) + Flatten(rest)
  }
}
