/** Positional notation with signed digits: the meaning of the limb vectors of
    core/ed25519_verify.c (radix 2^16) and of its byte strings (radix 2^8). */
module Limbs {

  function Pow(b: nat, n: nat): (r: nat)
    requires b > 0
    ensures r > 0
  {
    if n == 0 then 1 else b * Pow(b, n - 1)
  }

  lemma {:induction false} PowAdd(b: nat, m: nat, n: nat)
    requires b > 0
    ensures Pow(b, m + n) == Pow(b, m) * Pow(b, n)
  {
    if m != 0 {
      PowAdd(b, m - 1, n);
      var x, y := Pow(b, m - 1), Pow(b, n);
      assert b * (x * y) == (b * x) * y;
    }
  }

  /** The integer a vector of (signed) digits stands for, least significant first. */
  function Val(b: nat, s: seq<int>): int
    requires b > 0
  {
    if s == [] then 0 else s[0] + b * Val(b, s[1..])
  }

  lemma {:induction false} ValConcat(b: nat, s: seq<int>, t: seq<int>)
    requires b > 0
    ensures Val(b, s + t) == Val(b, s) + Pow(b, |s|) * Val(b, t)
  {
    if s == [] {
      assert s + t == t;
    } else {
      assert (s + t)[1..] == s[1..] + t;
      ValConcat(b, s[1..], t);
      var p, v := Pow(b, |s| - 1), Val(b, t);
      assert b * (p * v) == (b * p) * v;
      assert b * (Val(b, s[1..]) + p * v) == b * Val(b, s[1..]) + b * (p * v);
    }
  }

  /** Appending a digit. */
  lemma ValSnoc(b: nat, s: seq<int>, d: int)
    requires b > 0
    ensures Val(b, s + [d]) == Val(b, s) + Pow(b, |s|) * d
  {
    ValConcat(b, s, [d]);
    assert Val(b, [d]) == d + b * Val(b, [d][1..]);
  }

  /** A prefix grows by one digit. */
  lemma ValTake(b: nat, s: seq<int>, i: nat)
    requires b > 0 && i < |s|
    ensures Val(b, s[..i + 1]) == Val(b, s[..i]) + Pow(b, i) * s[i]
  {
    assert s[..i + 1] == s[..i] + [s[i]];
    ValSnoc(b, s[..i], s[i]);
  }

  /** Changing one digit changes the value by that much at its weight. */
  lemma {:induction false} ValUpdate(b: nat, s: seq<int>, i: nat, d: int)
    requires b > 0 && i < |s|
    ensures Val(b, s[i := s[i] + d]) == Val(b, s) + Pow(b, i) * d
  {
    var t := s[i := s[i] + d];
    if i == 0 {
      assert t[1..] == s[1..];
    } else {
      assert t[1..] == s[1..][i - 1 := s[1..][i - 1] + d];
      ValUpdate(b, s[1..], i - 1, d);
      UpdateWeight(b, Val(b, s[1..]), Pow(b, i - 1), d);
    }
  }

  lemma UpdateWeight(b: int, v: int, p: int, d: int)
    ensures b * (v + p * d) == b * v + (b * p) * d
  {
    assert b * (p * d) == (b * p) * d;
  }

  ghost predicate Digits(b: nat, s: seq<int>) {
    forall i :: 0 <= i < |s| ==> 0 <= s[i] < b
  }

  /** Proper digits stand for a number below the next weight. */
  lemma {:induction false} ValBound(b: nat, s: seq<int>)
    requires b > 0 && Digits(b, s)
    ensures 0 <= Val(b, s) < Pow(b, |s|)
  {
    if s != [] {
      ValBound(b, s[1..]);
      var v, p := Val(b, s[1..]), Pow(b, |s| - 1);
      BoundStep(b, s[0], v, p);
    }
  }

  lemma BoundStep(b: nat, d: int, v: int, p: int)
    requires 0 <= d < b && 0 <= v < p
    ensures 0 <= d + b * v < b * p
  {
    MulMono(b, v, p - 1);
    MulMono(b, 0, v);
    assert b * (p - 1) == b * p - b;
  }

  lemma MulMono(b: nat, x: int, y: int)
    requires x <= y
    ensures b * x <= b * y
  {
  }

  /** Proper digit strings of one length are determined by their value. */
  lemma {:induction false} ValInjective(b: nat, s: seq<int>, t: seq<int>)
    requires b > 0 && |s| == |t| && Digits(b, s) && Digits(b, t)
    requires Val(b, s) == Val(b, t)
    ensures s == t
  {
    if s != [] {
      var v, w := Val(b, s[1..]), Val(b, t[1..]);
      assert b * v - b * w == t[0] - s[0];
      assert b * (v - w) == b * v - b * w;
      if v > w { MulMono(b, 1, v - w); }
      if v < w { MulMono(b, v - w, -1); }
      ValInjective(b, s[1..], t[1..]);
      assert s == [s[0]] + s[1..] && t == [t[0]] + t[1..];
    }
  }

  /** Digits bounded by m in magnitude bound the value. */
  lemma {:induction false} ValMagnitude(b: nat, s: seq<int>, m: int)
    requires b > 1 && m >= 0
    requires forall i :: 0 <= i < |s| ==> -m <= s[i] <= m
    ensures -(m * (Pow(b, |s|) - 1)) <= Val(b, s) <= m * (Pow(b, |s|) - 1)
  {
    if s != [] {
      ValMagnitude(b, s[1..], m);
      MagnitudeStep(b, m, Pow(b, |s| - 1), s[0], Val(b, s[1..]));
    }
  }

  lemma MagnitudeStep(b: nat, m: int, p: nat, x: int, v: int)
    requires b > 1 && m >= 0 && -m <= x <= m
    requires -(m * (p - 1)) <= v <= m * (p - 1)
    ensures -(m * (b * p - 1)) <= x + b * v <= m * (b * p - 1)
  {
    var q := m * (p - 1);
    MulMono(b, v, q);
    MulMono(b, -q, v);
    assert b * -q == -(b * q);
    assert m * (b * p - 1) == b * q + m * (b - 1) by {
      assert b * q == m * (b * p) - m * b;
    }
    assert m * (b - 1) >= m by { MulMono(m, 1, b - 1); }
  }

  /** Moving k times the base from one digit into the next keeps the value. */
  lemma CarryMoves(b: nat, s: seq<int>, i: nat, k: int)
    requires b > 0 && i + 1 < |s|
    ensures Val(b, s[i := s[i] - b * k][i + 1 := s[i + 1] + k]) == Val(b, s)
  {
    var t := s[i := s[i] + -(b * k)];
    ValUpdate(b, s, i, -(b * k));
    ValUpdate(b, t, i + 1, k);
    CarryWeight(Pow(b, i), b, k);
  }

  lemma CarryWeight(w: int, b: int, k: int)
    ensures w * -(b * k) + (b * w) * k == 0
  {
    assert w * (b * k) == (b * w) * k;
  }
}
