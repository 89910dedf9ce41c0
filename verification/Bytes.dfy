/** Big-endian byte strings and the numbers they stand for. */
module Bytes {

  type Byte = b: int | 0 <= b < 256

  function Pow(b: nat, e: nat): nat {
    if e == 0 then 1 else b * Pow(b, e - 1)
  }

  /** The unsigned big-endian value. */
  function Value(s: seq<Byte>): nat {
    if s == [] then 0 else Value(s[..|s| - 1]) * 256 + s[|s| - 1]
  }

  function Trim(s: seq<Byte>): seq<Byte> {
    if s != [] && s[0] == 0 then Trim(s[1..]) else s
  }

  predicate Trimmed(s: seq<Byte>) {
    s != [] ==> s[0] != 0
  }

  lemma {:induction false} PowPositive(b: nat, e: nat)
    requires b > 0
    ensures Pow(b, e) > 0
  {
    if e > 0 {
      PowPositive(b, e - 1);
    }
  }

  lemma {:induction false} PowAdd(b: nat, m: nat, n: nat)
    ensures Pow(b, m + n) == Pow(b, m) * Pow(b, n)
  {
    if m > 0 {
      PowAdd(b, m - 1, n);
      assert m + n > 0 && m + n - 1 == m - 1 + n;
      MulAssoc(b, Pow(b, m - 1), Pow(b, n));
    }
  }

  lemma {:induction false} PowGrows(b: nat, m: nat, n: nat)
    requires b > 0 && m <= n
    ensures Pow(b, m) <= Pow(b, n)
  {
    if m < n {
      PowGrows(b, m, n - 1);
      MulGrows(b, Pow(b, n - 1));
    }
  }

  lemma MulGrows(b: nat, x: nat)
    requires b > 0
    ensures b * x >= x
  {
    MulDistr(b - 1, 1, x);
  }

  lemma MulAssoc(x: int, y: int, z: int)
    ensures x * y * z == x * (y * z)
  {
  }

  lemma MulDistr(x: int, y: int, z: int)
    ensures (x + y) * z == x * z + y * z
  {
  }

  lemma QuotientIs(v: nat, p: nat, q: nat)
    requires p > 0 && q * p <= v < (q + 1) * p
    ensures v / p == q
  {
    assert v == (v / p) * p + v % p;
    MulDistr(v / p, 1, p);
    MulMono(v / p + 1, q, p);
    MulMono(q + 1, v / p, p);
  }

  lemma MulMono(a: nat, b: nat, p: nat)
    ensures a <= b ==> a * p <= b * p
  {
    if a <= b {
      MulDistr(b - a, a, p);
      MulNonNegative(b - a, p);
    }
  }

  lemma MulNonNegative(a: nat, b: nat)
    ensures a * b >= 0
  {
  }

  lemma {:induction false} ValueConcat(a: seq<Byte>, b: seq<Byte>)
    ensures Value(a + b) == Value(a) * Pow(256, |b|) + Value(b)
  {
    if b == [] {
      assert a + b == a;
    } else {
      var rest, last := b[..|b| - 1], b[|b| - 1];
      assert (a + b)[..|a + b| - 1] == a + rest;
      ValueConcat(a, rest);
      var p := Pow(256, |rest|);
      MulAssoc(Value(a), p, 256);
      assert Pow(256, |b|) == p * 256;
    }
  }

  lemma ValueHead(s: seq<Byte>)
    requires s != []
    ensures Value(s) == s[0] * Pow(256, |s| - 1) + Value(s[1..])
  {
    var head, rest := [s[0]], s[1..];
    assert s == head + rest;
    ValueConcat(head, rest);
    ValueOne(s[0]);
  }

  lemma ValueOne(b: Byte)
    ensures Value([b]) == b
  {
    assert [b][..0] == [];
  }

  lemma {:induction false} ValueBound(s: seq<Byte>)
    ensures Value(s) < Pow(256, |s|)
  {
    if s != [] {
      ValueBound(s[..|s| - 1]);
    }
  }

  lemma {:induction false} TrimKeepsValue(s: seq<Byte>)
    ensures Value(Trim(s)) == Value(s) && Trimmed(Trim(s)) && |Trim(s)| <= |s|
  {
    if s != [] && s[0] == 0 {
      TrimKeepsValue(s[1..]);
      ValueHead(s);
    }
  }

  /** A trimmed string of a given length has a value of at least that many bytes. */
  lemma TrimmedLow(s: seq<Byte>)
    requires Trimmed(s) && s != []
    ensures Value(s) >= Pow(256, |s| - 1) > 0
  {
    ValueHead(s);
    PowPositive(256, |s| - 1);
    var p := Pow(256, |s| - 1);
    assert s[0] * p >= p by {
      MulDistr(s[0] - 1, 1, p);
    }
  }

  lemma {:induction false} SameLengthSameValue(a: seq<Byte>, b: seq<Byte>)
    requires |a| == |b| && Value(a) == Value(b)
    ensures a == b
  {
    if a != [] {
      SameLengthSameValue(a[..|a| - 1], b[..|b| - 1]);
      assert a == a[..|a| - 1] + [a[|a| - 1]] && b == b[..|b| - 1] + [b[|b| - 1]];
    }
  }

  /** A trimmed string is determined by its value. */
  lemma TrimmedUnique(a: seq<Byte>, b: seq<Byte>)
    requires Trimmed(a) && Trimmed(b) && Value(a) == Value(b)
    ensures a == b
  {
    if |a| == |b| {
      SameLengthSameValue(a, b);
    } else {
      var shorter, longer := if |a| < |b| then a else b, if |a| < |b| then b else a;
      ValueBound(shorter);
      TrimmedLow(longer);
      PowGrows(256, |shorter|, |longer| - 1);
    }
  }

  /** One byte of a multiplication by `p` with addend `s`, done from the last byte to the
      first with a carry. */
  lemma CarryStep(be: seq<Byte>, tail: seq<Byte>, b: Byte, carry: nat, newCarry: nat, p: nat, s: nat)
    requires be != [] && |tail| == |be| - 1
    requires newCarry * 256 + b == be[0] * p + carry
    requires carry * Pow(256, |tail|) + Value(tail) == Value(be[1..]) * p + s
    ensures newCarry * Pow(256, |be|) + Value([b] + tail) == Value(be) * p + s
  {
    ValueHead(be);
    ValueConcat([b], tail);
    ValueOne(b);
    CarryAlgebra(newCarry, b, carry, be[0], p, Pow(256, |tail|), Value(tail), Value(be[1..]), s);
  }

  lemma CarryAlgebra(nc: nat, b: nat, c: nat, b0: nat, p: nat, q: nat, vt: nat, vr: nat, s: nat)
    requires nc * 256 + b == b0 * p + c && c * q + vt == vr * p + s
    ensures nc * (256 * q) + (b * q + vt) == (b0 * q + vr) * p + s
  {
    calc {
      nc * (256 * q) + (b * q + vt);
      { MulAssoc(nc, 256, q); }
      (nc * 256) * q + b * q + vt;
      { MulDistr(nc * 256, b, q); }
      (b0 * p + c) * q + vt;
      { MulDistr(b0 * p, c, q); }
      b0 * p * q + vr * p + s;
      { MulAssoc(b0, p, q); MulAssoc(b0, q, p); assert p * q == q * p; }
      b0 * q * p + vr * p + s;
      { MulDistr(b0 * q, vr, p); }
      (b0 * q + vr) * p + s;
    }
  }

  /** How far a multiplication in place has come: the bytes from `i` on are done and `carry`
      goes into the next. */
  ghost predicate CarriedTo(mag: seq<Byte>, out: seq<Byte>, i: int, carry: nat, p: nat, s: nat) {
    && 0 <= i <= |mag| == |out| && out[..i] == mag[..i]
    && carry * Pow(256, |mag| - i) + Value(out[i..]) == Value(mag[i..]) * p + s
  }

  lemma CarryStart(mag: seq<Byte>, p: nat, s: nat)
    ensures CarriedTo(mag, mag, |mag|, s, p, s)
  {
    assert mag[|mag|..] == [];
  }

  lemma CarryNext(mag: seq<Byte>, out: seq<Byte>, i: nat, carry: nat, p: nat, s: nat, b: Byte, next: nat)
    requires CarriedTo(mag, out, i + 1, carry, p, s) && next * 256 + b == mag[i] * p + carry
    ensures out[i] == mag[i] && CarriedTo(mag, out[i := b], i, next, p, s)
  {
    var tail, be, out' := out[i + 1..], mag[i..], out[i := b];
    assert be[0] == mag[i] && be[1..] == mag[i + 1..];
    CarryStep(be, tail, b, carry, next, p, s);
    assert out'[i..] == [b] + tail;
    assert out[..i + 1][..i] == out[..i] == out'[..i] && mag[..i + 1][..i] == mag[..i];
    assert out[..i + 1][i] == mag[..i + 1][i];
  }

  lemma CarryDone(mag: seq<Byte>, out: seq<Byte>, carry: nat, p: nat, s: nat)
    requires CarriedTo(mag, out, 0, carry, p, s)
    ensures carry * Pow(256, |out|) + Value(out) == Value(mag) * p + s
  {
    assert mag[0..] == mag && out[0..] == out;
  }

  /** With nothing left to carry the untouched bytes are already right. */
  lemma CarryStops(mag: seq<Byte>, out: seq<Byte>, i: nat, s: nat)
    requires CarriedTo(mag, out, i, 0, 1, s)
    ensures Value(out) == Value(mag) + s
  {
    assert out == out[..i] + out[i..] && mag == mag[..i] + mag[i..];
    ValueConcat(out[..i], out[i..]);
    ValueConcat(mag[..i], mag[i..]);
  }

  /** The trimming loop both files carry. */
  method TrimLeadingZeros(be: seq<Byte>) returns (r: seq<Byte>)
    ensures r == Trim(be)
  {
    var i := 0;
    while i < |be| && be[i] == 0
      invariant 0 <= i <= |be| && Trim(be) == Trim(be[i..])
    {
      assert be[i..][1..] == be[i + 1..];
      i := i + 1;
    }
    if i == |be| {
      return [];
    }
    r := be[i..];
  }
}
