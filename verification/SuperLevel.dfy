/** The super level of a block: Maths::getSuperLevel works on big-endian bytes with shifts
    and comparisons only, TxPoW::getSuperLevel divides big integers. */
module SuperLevel {
  import opened Common
  import opened Bytes

  /** How many bits a number has; zero has none. */
  function BitLen(n: nat): nat {
    if n == 0 then 0 else 1 + BitLen(n / 2)
  }

  lemma {:induction false} BitLenBounds(n: nat)
    requires n > 0
    ensures BitLen(n) > 0 && Pow(2, BitLen(n) - 1) <= n < Pow(2, BitLen(n))
  {
    if n > 1 {
      BitLenBounds(n / 2);
    } else {
      assert BitLen(1) == 1 && Pow(2, 1) == 2 by {
        assert BitLen(0) == 0;
      }
    }
  }

  /** The bit length is the one exponent that fits. */
  lemma {:induction false} BitLenUnique(n: nat, k: nat)
    requires Pow(2, k) <= n < Pow(2, k + 1)
    ensures BitLen(n) == k + 1
  {
    PowPositive(2, k);
    BitLenBounds(n);
    if BitLen(n) <= k {
      PowGrows(2, BitLen(n), k);
    } else if BitLen(n) > k + 1 {
      PowGrows(2, k + 1, BitLen(n) - 1);
    }
  }

  lemma {:induction false} BytesArePowers(k: nat)
    ensures Pow(256, k) == Pow(2, 8 * k)
  {
    if k > 0 {
      BytesArePowers(k - 1);
      PowAdd(2, 8, 8 * (k - 1));
      PowTable();
    }
  }

  lemma PowTable()
    ensures Pow(2, 0) == 1 && Pow(2, 1) == 2 && Pow(2, 2) == 4 && Pow(2, 3) == 8 && Pow(2, 4) == 16
    ensures Pow(2, 5) == 32 && Pow(2, 6) == 64 && Pow(2, 7) == 128 && Pow(2, 8) == 256
  {
    assert Pow(2, 4) == 2 * (2 * (2 * (2 * Pow(2, 0))));
    assert Pow(2, 8) == 2 * (2 * (2 * (2 * Pow(2, 4))));
  }

  // ---------------------------------------------------------------- the byte helpers

  /** countLeadingZeros8: the bits are tested from the top. */
  method CountLeadingZeros8(v: Byte) returns (cnt: nat)
    ensures cnt == 8 - BitLen(v)
  {
    PowTable();
    cnt := 0;
    var i := 7;
    while i >= 0
      invariant -1 <= i <= 7 && cnt == 7 - i && v < Pow(2, i + 1)
    {
      PowPositive(2, i);
      if (v / Pow(2, i)) % 2 == 1 {
        TopBit(v, i);
        return;
      }
      TopBit(v, i);
      cnt := cnt + 1;
      i := i - 1;
    }
    assert BitLen(0) == 0;
  }

  lemma TopBit(v: nat, i: nat)
    requires v < Pow(2, i + 1) && Pow(2, i) > 0
    ensures (v / Pow(2, i)) % 2 == 1 <==> v >= Pow(2, i)
    ensures v >= Pow(2, i) ==> BitLen(v) == i + 1
  {
    var p := Pow(2, i);
    if v >= p {
      assert v / p == 1 by {
        QuotientIs(v, p, 1);
      }
      BitLenUnique(v, i);
    } else {
      assert v / p == 0 by {
        QuotientIs(v, p, 0);
      }
    }
  }

  method BitLengthBE(raw: seq<Byte>) returns (total: nat)
    ensures total == BitLen(Value(raw))
  {
    var be := TrimLeadingZeros(raw);
    TrimKeepsValue(raw);
    if be == [] {
      return 0;
    }
    var leading := CountLeadingZeros8(be[0]);
    BitLenByte(be[0]);
    var bitsInMsb := 8 - leading;
    total := (|be| - 1) * 8 + bitsInMsb;
    BitLenOfBytes(be);
  }

  lemma BitLenByte(v: Byte)
    ensures BitLen(v) <= 8
  {
    if v > 0 {
      BitLenBounds(v);
      PowTable();
      if BitLen(v) > 8 {
        PowGrows(2, 8, BitLen(v) - 1);
      }
    }
  }

  lemma BitLenDouble(n: nat, h: nat, r: nat)
    requires n == 2 * h + r && n > 0
    ensures BitLen(n) == 1 + BitLen(h + r / 2)
  {
    assert n / 2 == h + r / 2;
  }

  lemma {:induction false} BitLenScaled(v: nat, k: nat, r: nat)
    requires v > 0 && r < Pow(2, k)
    ensures BitLen(v * Pow(2, k) + r) == BitLen(v) + k
  {
    if k > 0 {
      var q := Pow(2, k - 1);
      BitLenScaled(v, k - 1, r / 2);
      DoubleProduct(v, q);
      PowPositive(2, k - 1);
      MulGrows(v, q);
      BitLenDouble(v * (2 * q) + r, v * q, r);
    }
  }

  lemma DoubleProduct(v: nat, p: nat)
    ensures v * (2 * p) == 2 * (v * p)
  {
  }

  lemma BitLenOfBytes(be: seq<Byte>)
    requires Trimmed(be) && be != []
    ensures BitLen(Value(be)) == (|be| - 1) * 8 + BitLen(be[0])
  {
    ValueHead(be);
    ValueBound(be[1..]);
    BytesArePowers(|be| - 1);
    BitLenScaled(be[0], 8 * (|be| - 1), Value(be[1..]));
  }

  /** compareUnsignedBE: the sign of the difference of the values. */
  method CompareUnsignedBE(aRaw: seq<Byte>, bRaw: seq<Byte>) returns (c: int)
    ensures c == if Value(aRaw) < Value(bRaw) then -1 else if Value(aRaw) > Value(bRaw) then 1 else 0
  {
    var a := TrimLeadingZeros(aRaw);
    var b := TrimLeadingZeros(bRaw);
    TrimKeepsValue(aRaw);
    TrimKeepsValue(bRaw);
    if |a| < |b| {
      ShorterIsLess(a, b);
      return -1;
    }
    if |a| > |b| {
      ShorterIsLess(b, a);
      return 1;
    }
    for i := 0 to |a|
      invariant a[..i] == b[..i]
    {
      if a[i] != b[i] {
        FirstDifference(a, b, i);
        return if a[i] < b[i] then -1 else 1;
      }
      assert a[..i + 1] == a[..i] + [a[i]] && b[..i + 1] == b[..i] + [b[i]];
    }
    assert a[..|a|] == a && b[..|a|] == b;
    c := 0;
  }

  lemma ShorterIsLess(a: seq<Byte>, b: seq<Byte>)
    requires Trimmed(b) && |a| < |b|
    ensures Value(a) < Value(b)
  {
    ValueBound(a);
    TrimmedLow(b);
    PowGrows(256, |a|, |b| - 1);
  }

  /** The higher digit decides, whatever comes after it. */
  lemma DigitDecides(x: nat, y: nat, p: nat, rx: nat, ry: nat)
    requires x < y && rx < p
    ensures x * p + rx < y * p + ry
  {
    MulMono(x + 1, y, p);
    MulDistr(x, 1, p);
  }

  lemma FirstDifference(a: seq<Byte>, b: seq<Byte>, i: nat)
    requires |a| == |b| && i < |a| && a[..i] == b[..i] && a[i] != b[i]
    ensures a[i] < b[i] <==> Value(a) < Value(b)
    ensures Value(a) != Value(b)
  {
    SplitAt(a, i);
    SplitAt(b, i);
    var x, y := Value(a[i + 1..]), Value(b[i + 1..]);
    ValueBound(a[i + 1..]);
    ValueBound(b[i + 1..]);
    var p := Pow(256, |a| - i - 1);
    if a[i] < b[i] {
      DigitDecides(a[i], b[i], p, x, y);
    } else {
      DigitDecides(b[i], a[i], p, y, x);
    }
  }

  lemma SplitAt(a: seq<Byte>, i: nat)
    requires i < |a|
    ensures Value(a) == Value(a[..i]) * Pow(256, |a| - i) + (a[i] * Pow(256, |a| - i - 1) + Value(a[i + 1..]))
  {
    var x, y := a[..i], a[i..];
    assert a == x + y && y[0] == a[i] && y[1..] == a[i + 1..];
    ValueConcat(x, y);
    ValueHead(y);
  }

  // ---------------------------------------------------------------- shifting

  /** One byte of the shift: what stays, and what carries into the next byte. */
  lemma ShiftByte(val: Byte, bits: nat, carry: nat)
    requires 1 <= bits <= 7 && carry < Pow(2, bits)
    ensures Pow(2, bits) > 0 && Pow(2, 8 - bits) > 0
    ensures
      var p := Pow(2, bits);
      var stays := (val * p) % 256;
      var next := val / Pow(2, 8 - bits);
      && stays % p == 0 && stays + carry < 256 && next < p
      && next * 256 + (stays + carry) == val * p + carry
  {
    PowTable();
    PowAdd(2, bits, 8 - bits);
    PowPositive(2, bits);
    PowPositive(2, 8 - bits);
    ShiftWith(val, Pow(2, bits), Pow(2, 8 - bits));
  }

  lemma ScaledSplit(h: nat, l: nat, p: nat, q: nat)
    requires p * q == 256
    ensures (h * q + l) * p == h * 256 + l * p
  {
    MulDistr(h * q, l, p);
    MulAssoc(h, q, p);
  }

  lemma SmallProduct(l: nat, p: nat, q: nat)
    requires p * q == 256 && l < q
    ensures l * p <= 256 - p
  {
    MulMono(l + 1, q, p);
    MulDistr(l, 1, p);
  }

  lemma SmallQuotient(h: nat, l: nat, p: nat, q: nat)
    requires p * q == 256 && h * q + l < 256
    ensures h < p
  {
    MulMono(p, h, q);
  }

  lemma MultipleHasNoRest(l: nat, p: nat)
    requires p > 0
    ensures (l * p) % p == 0
  {
    MulDistr(l, 1, p);
    QuotientIs(l * p, p, l);
  }

  lemma ShiftParts(v: nat, h: nat, small: nat)
    requires v == h * 256 + small && small < 256
    ensures v % 256 == small
  {
  }

  lemma ShiftWith(val: Byte, p: nat, q: nat)
    requires p > 0 && q > 0 && p * q == 256
    ensures
      var stays := (val * p) % 256;
      stays % p == 0 && stays <= 256 - p && val / q < p && val / q * 256 + stays == val * p
  {
    var h, l := val / q, val % q;
    assert val == h * q + l;
    ScaledSplit(h, l, p, q);
    SmallProduct(l, p, q);
    SmallQuotient(h, l, p, q);
    MultipleHasNoRest(l, p);
    MulNonNegative(l, p);
    ShiftParts(val * p, h, l * p);
  }

  /** shiftLeftBE: the bytes are shifted from the last to the first with a carry, then
      whole zero bytes are appended. The two parts joined by `|` share no bit, so joining
      them is adding them. */
  method ShiftLeftBE(raw: seq<Byte>, nbits: nat) returns (out: seq<Byte>)
    ensures Value(out) == Value(raw) * Pow(2, nbits) && Trimmed(out)
  {
    var be := TrimLeadingZeros(raw);
    TrimKeepsValue(raw);
    if be == [] {
      return be;
    }
    var byteShift, bitShift := nbits / 8, nbits % 8;
    out := be;
    if bitShift != 0 {
      out := ShiftBits(be, bitShift);
    }
    assert Value(out) == Value(be) * Pow(2, bitShift) by {
      PowTable();
    }
    if byteShift > 0 {
      var zeros := seq(byteShift, i => 0);
      ZerosValue(zeros);
      ValueConcat(out, zeros);
      out := out + zeros;
    }
    BytesArePowers(byteShift);
    PowAdd(2, bitShift, 8 * byteShift);
    MulAssoc(Value(be), Pow(2, bitShift), Pow(2, 8 * byteShift));
    TrimKeepsValue(out);
    out := TrimLeadingZeros(out);
  }

  lemma {:induction false} ZerosValue(zeros: seq<Byte>)
    requires forall i :: 0 <= i < |zeros| ==> zeros[i] == 0
    ensures Value(zeros) == 0
  {
    if zeros != [] {
      ZerosValue(zeros[..|zeros| - 1]);
    }
  }

  /** One byte of the loop: what stays is joined by what was carried in. */
  method ShiftOne(val: Byte, bitShift: nat, carry: nat) returns (b: Byte, next: nat)
    requires 1 <= bitShift <= 7 && carry < Pow(2, bitShift)
    ensures next * 256 + b == val * Pow(2, bitShift) + carry && next < Pow(2, bitShift)
  {
    ShiftByte(val, bitShift, carry);
    var shifted := (val * Pow(2, bitShift)) % 256;
    b := shifted + carry;
    next := val / Pow(2, 8 - bitShift);
  }

  method ShiftBits(be: seq<Byte>, bitShift: nat) returns (out: seq<Byte>)
    requires 1 <= bitShift <= 7
    ensures Value(out) == Value(be) * Pow(2, bitShift)
  {
    out := be;
    var carry: nat := 0;
    var i := |out|;
    ghost var p := Pow(2, bitShift);
    PowPositive(2, bitShift);
    CarryStart(be, p, 0);
    while i > 0
      invariant CarriedTo(be, out, i, carry, p, 0) && carry < p
    {
      i := i - 1;
      var b, next := ShiftOne(out[i], bitShift, carry);
      assert out[i] == out[..i + 1][i] == be[..i + 1][i];
      CarryNext(be, out, i, carry, p, 0, b, next);
      out := out[i := b];
      carry := next;
    }
    CarryDone(be, out, carry, p, 0);
    if carry != 0 {
      CarryByte(carry, bitShift);
      ValueConcat([carry], out);
      ValueOne(carry);
      out := [carry] + out;
    }
  }

  lemma CarryByte(carry: nat, bitShift: nat)
    requires bitShift <= 7 && carry < Pow(2, bitShift)
    ensures carry < 256
  {
    PowTable();
    PowGrows(2, bitShift, 8);
  }

  // ---------------------------------------------------------------- the two levels

  /** TxPoW::getSuperLevel: the highest bit of the quotient, or -1. */
  function DividedLevel(difficulty: nat, actual: nat): int {
    if actual == 0 then -1
    else
      var quot := difficulty / actual;
      if quot == 0 then -1 else BitLen(quot) - 1
  }

  /** The clamp of calculateTXPOWID. */
  function Clamp(level: int, levels: int): int {
    if level < 0 then 0 else if level >= levels then levels - 1 else level
  }

  /** The shift-and-compare level as a function of the two values. */
  function ShiftedLevel(d: nat, a: nat): int
    requires a > 0
  {
    if d == 0 || BitLen(d) < BitLen(a) then 0
    else
      var shift := BitLen(d) - BitLen(a);
      var bits := if d < a * Pow(2, shift) then shift else shift + 1;
      if bits == 0 then 0 else bits - 1
  }

  /** Comparing against the shifted divisor gives the bit length of the quotient. */
  lemma ShiftCompareIsDivision(d: nat, a: nat)
    requires a > 0
    ensures ShiftedLevel(d, a) == if d / a == 0 then 0 else BitLen(d / a) - 1
  {
    if d == 0 {
      QuotientIs(d, a, 0);
    } else if BitLen(d) < BitLen(a) {
      BitLenBounds(d);
      BitLenBounds(a);
      PowGrows(2, BitLen(d), BitLen(a) - 1);
      QuotientIs(d, a, 0);
    } else {
      QuotientBits(d, a, BitLen(d) - BitLen(a));
    }
  }

  lemma DividendBelow(d: nat, a: nat, m: nat, shift: nat)
    requires m > 0 && Pow(2, m - 1) <= a && d < Pow(2, m + shift)
    ensures d < a * Pow(2, shift + 1)
  {
    PowAdd(2, m - 1, shift + 1);
    assert m - 1 + (shift + 1) == m + shift;
    MulMono(Pow(2, m - 1), a, Pow(2, shift + 1));
  }

  lemma DividendAbove(d: nat, a: nat, m: nat, shift: nat)
    requires shift > 0 && a < Pow(2, m) && Pow(2, m + shift - 1) <= d
    ensures a * Pow(2, shift - 1) <= d
  {
    PowAdd(2, m, shift - 1);
    assert m + (shift - 1) == m + shift - 1;
    MulMono(a, Pow(2, m), Pow(2, shift - 1));
  }

  lemma DividendBounds(d: nat, a: nat, shift: nat)
    requires d > 0 && a > 0 && BitLen(d) == BitLen(a) + shift
    ensures d < a * Pow(2, shift + 1)
    ensures shift > 0 ==> a * Pow(2, shift - 1) <= d
  {
    BitLenBounds(d);
    BitLenBounds(a);
    DividendBelow(d, a, BitLen(a), shift);
    if shift > 0 {
      DividendAbove(d, a, BitLen(a), shift);
    }
  }

  lemma QuotientBits(d: nat, a: nat, shift: nat)
    requires d > 0 && a > 0 && BitLen(d) == BitLen(a) + shift
    ensures d >= a * Pow(2, shift) ==> d / a > 0 && BitLen(d / a) == shift + 1
    ensures d < a * Pow(2, shift) && shift > 0 ==> d / a > 0 && BitLen(d / a) == shift
    ensures d < a * Pow(2, shift) && shift == 0 ==> d / a == 0
  {
    DividendBounds(d, a, shift);
    if d >= a * Pow(2, shift) {
      BitsBetween(d, a, shift);
    } else if shift > 0 {
      BitsBetween(d, a, shift - 1);
    } else {
      assert Pow(2, 0) == 1;
      QuotientIs(d, a, 0);
    }
  }

  lemma BitsBetween(d: nat, a: nat, e: nat)
    requires a > 0 && a * Pow(2, e) <= d < a * Pow(2, e + 1)
    ensures d / a > 0 && BitLen(d / a) == e + 1
  {
    QuotientBetween(d, a, Pow(2, e), Pow(2, e + 1));
    PowPositive(2, e);
    BitLenUnique(d / a, e);
  }

  lemma QuotientBetween(d: nat, a: nat, lo: nat, hi: nat)
    requires a > 0 && a * lo <= d < a * hi
    ensures lo <= d / a < hi
  {
    var q := d / a;
    assert d == q * a + d % a;
    MulDistr(q, 1, a);
    MulMono(q + 1, lo, a);
    MulMono(hi, q, a);
  }

  /** Maths::getSuperLevel on bytes: for every difficulty and every nonzero actual value, the
      clamped level that TxPoW finds by dividing the two integers. */
  method GetSuperLevel(difficulty: seq<Byte>, actual: seq<Byte>, levels: int) returns (r: Result<int>)
    requires levels >= 1
    ensures Value(actual) == 0 <==> r == Failure
    ensures Value(actual) != 0 ==> r == Ok(Clamp(DividedLevel(Value(difficulty), Value(actual)), levels))
  {
    var dbe := TrimLeadingZeros(difficulty);
    var abe := TrimLeadingZeros(actual);
    TrimKeepsValue(difficulty);
    TrimKeepsValue(actual);
    if abe == [] {
      return Failure;
    }
    TrimmedLow(abe);
    ghost var d, a := Value(dbe), Value(abe);
    ShiftCompareIsDivision(d, a);
    if dbe == [] {
      return Ok(0);
    }
    TrimmedLow(dbe);
    var n: int, m: int;
    n := BitLengthBE(dbe);
    m := BitLengthBE(abe);
    var shift := n - m;
    if shift < 0 {
      return Ok(0);
    }
    var aShifted := ShiftLeftBE(abe, shift);
    var cmp := CompareUnsignedBE(dbe, aShifted);
    var quotientBitLen := if cmp < 0 then shift else shift + 1;
    var ll2 := if quotientBitLen == 0 then -1 else quotientBitLen - 1;
    if ll2 < 0 {
      ll2 := 0;
    }
    assert ll2 == ShiftedLevel(d, a);
    var maxlevel := levels - 1;
    if ll2 > maxlevel {
      ll2 := maxlevel;
    }
    r := Ok(ll2);
  }

  lemma ProductBetween(d: nat, a: nat, lo: nat, hi: nat)
    requires a > 0 && lo <= d / a < hi
    ensures a * lo <= d < a * hi
  {
    var q := d / a;
    assert d == q * a + d % a;
    MulDistr(q, 1, a);
    MulMono(lo, q, a);
    MulMono(q + 1, hi, a);
  }

  lemma QuotientPositive(d: nat, a: nat)
    requires d >= a > 0
    ensures d / a >= 1
  {
    assert d == (d / a) * a + d % a;
  }

  /** The level found by division is the floor of the base-two logarithm: the largest power
      of two that goes into the difficulty is that of the level. */
  lemma DividedLevelIsLog(d: nat, a: nat)
    requires d >= a > 0
    ensures
      var l := DividedLevel(d, a);
      l >= 0 && a * Pow(2, l) <= d < a * Pow(2, l + 1)
  {
    QuotientPositive(d, a);
    var q := d / a;
    BitLenBounds(q);
    ProductBetween(d, a, Pow(2, BitLen(q) - 1), Pow(2, BitLen(q)));
  }

  /** The level a header is given: the floor of the logarithm as far as there are levels, none
      below the first and the top one from there on. */
  lemma ClampedLevelIs(d: nat, a: nat, levels: nat)
    requires a > 0 && levels >= 1
    ensures
      var r := Clamp(DividedLevel(d, a), levels);
      && 0 <= r < levels
      && (d < a ==> r == 0)
      && (d >= a && d < a * Pow(2, levels) ==> a * Pow(2, r) <= d < a * Pow(2, r + 1))
      && (d >= a * Pow(2, levels - 1) ==> r == levels - 1)
  {
    if d < a {
      QuotientIs(d, a, 0);
      PowPositive(2, levels - 1);
      MulGrows(Pow(2, levels - 1), a);
    } else {
      DividedLevelIsLog(d, a);
      var l := DividedLevel(d, a);
      if l >= levels {
        PowGrows(2, levels, l);
        MulMono(Pow(2, levels), Pow(2, l), a);
      } else if l < levels - 1 {
        PowGrows(2, l + 1, levels - 1);
        MulMono(Pow(2, l + 1), Pow(2, levels - 1), a);
      }
    }
  }
}
