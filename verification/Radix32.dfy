/** The base-32 text form of a byte string, read as one big number, and the address format
    built on it. */
module Radix32 {
  import opened Common
  import opened Bytes

  // ---------------------------------------------------------------- byte arithmetic

  /** The division so far: the first `i` bytes are done and `rem` goes into the next. */
  ghost predicate DividedTo(mag: seq<Byte>, quot: seq<Byte>, i: nat, base: nat, rem: nat) {
    && i <= |mag| == |quot| && quot[i..] == mag[i..] && rem < base
    && Value(mag[..i]) == Value(quot[..i]) * base + rem
  }

  lemma DivideNext(mag: seq<Byte>, quot: seq<Byte>, i: nat, base: nat, rem: nat)
    requires base >= 2 && i < |mag| && DividedTo(mag, quot, i, base, rem)
    ensures
      var cur := rem * 256 + quot[i];
      0 <= cur / base < 256 && DividedTo(mag, quot[i := cur / base], i + 1, base, cur % base)
  {
    var cur := rem * 256 + quot[i];
    DivStep(cur, base, rem);
    assert quot[i] == quot[i..][0] == mag[i..][0] == mag[i];
    var next := quot[i := cur / base];
    assert next[..i + 1] == quot[..i] + [cur / base] && mag[..i + 1] == mag[..i] + [mag[i]];
    ValueLast(quot[..i], cur / base);
    ValueLast(mag[..i], mag[i]);
    DivAlgebra(Value(quot[..i]), base, rem, cur, mag[i]);
    assert next[i + 1..] == quot[i..][1..] == mag[i..][1..] == mag[i + 1..];
  }

  /** divmod_small: the number divided by a small base in place; the remainder comes back. */
  method DivmodSmall(mag: seq<Byte>, base: nat) returns (quot: seq<Byte>, rem: nat)
    requires base >= 2
    ensures Value(mag) == Value(quot) * base + rem && rem < base && Trimmed(quot)
  {
    quot := mag;
    rem := 0;
    for i := 0 to |mag|
      invariant DividedTo(mag, quot, i, base, rem)
    {
      DivideNext(mag, quot, i, base, rem);
      var cur := rem * 256 + quot[i];
      quot := quot[i := cur / base];
      rem := cur % base;
    }
    assert quot[..|mag|] == quot && mag[..|mag|] == mag;
    TrimKeepsValue(quot);
    quot := TrimLeadingZeros(quot);
  }

  lemma ValueLast(s: seq<Byte>, b: Byte)
    ensures Value(s + [b]) == Value(s) * 256 + b
  {
    assert (s + [b])[..|s|] == s;
  }

  lemma DivStep(cur: nat, base: nat, rem: nat)
    requires base >= 2 && rem < base && rem * 256 <= cur < rem * 256 + 256
    ensures 0 <= cur / base < 256
  {
    assert cur == (cur / base) * base + cur % base;
    MulMono(256, cur / base, base);
  }

  lemma DivAlgebra(q: nat, base: nat, rem: nat, cur: nat, b: nat)
    requires base >= 2 && cur == rem * 256 + b
    ensures (q * base + rem) * 256 + b == (q * 256 + cur / base) * base + cur % base
  {
    MulDistr(q * base, rem, 256);
    MulDistr(q * 256, cur / base, base);
    MulAssoc(q, base, 256);
    MulAssoc(q, 256, base);
    assert cur == (cur / base) * base + cur % base;
  }

  /** The two insertion loops of muladd_small: the carry goes in front, byte by byte. */
  method PrependCarry(mag: seq<Byte>, start: nat) returns (out: seq<Byte>)
    requires start > 0 || Trimmed(mag)
    ensures Value(out) == start * Pow(256, |mag|) + Value(mag) && Trimmed(out)
  {
    out := mag;
    var carry: nat := start;
    while carry > 0
      invariant carry * Pow(256, |out|) + Value(out) == start * Pow(256, |mag|) + Value(mag)
      invariant carry > 0 || Trimmed(out)
    {
      var low := carry % 256;
      ValueConcat([low], out);
      ValueOne(low);
      CarrySplit(carry, Pow(256, |out|));
      out := [low] + out;
      carry := carry / 256;
    }
    assert carry == 0;
  }

  lemma CarrySplit(carry: nat, p: nat)
    ensures carry * p == (carry / 256) * (256 * p) + (carry % 256) * p
  {
    MulAssoc(carry / 256, 256, p);
    MulDistr((carry / 256) * 256, carry % 256, p);
  }

  /** The multiplication loop of muladd_small. */
  method MulSmall(mag: seq<Byte>, base: nat) returns (out: seq<Byte>)
    requires base >= 2 && Trimmed(mag)
    ensures Value(out) == Value(mag) * base && Trimmed(out)
  {
    out := mag;
    var carry: nat := 0;
    var i := |mag|;
    CarryStart(mag, base, 0);
    while i > 0
      invariant CarriedTo(mag, out, i, carry, base, 0)
      invariant i == 0 && mag != [] ==> carry > 0 || out[0] != 0
    {
      i := i - 1;
      assert out[..i + 1][i] == mag[..i + 1][i];
      MulGrows(base, mag[i]);
      var prod: nat := out[i] * base + carry;
      CarryNext(mag, out, i, carry, base, 0, prod % 256, prod / 256);
      out := out[i := prod % 256];
      carry := prod / 256;
    }
    CarryDone(mag, out, carry, base, 0);
    out := PrependCarry(out, carry);
  }

  /** The addition loop of muladd_small; it stops as soon as nothing is left to carry. */
  method AddSmall(mag: seq<Byte>, addend: nat) returns (out: seq<Byte>)
    requires Trimmed(mag)
    ensures Value(out) == Value(mag) + addend && Trimmed(out)
  {
    out := mag;
    var carry: nat := addend;
    var i := |mag|;
    CarryStart(mag, 1, addend);
    while i > 0 && carry > 0
      invariant CarriedTo(mag, out, i, carry, 1, addend)
      invariant i == 0 && mag != [] ==> carry > 0 || out[0] != 0
    {
      i := i - 1;
      assert out[..i + 1][i] == mag[..i + 1][i];
      var sum: nat := out[i] + carry;
      CarryNext(mag, out, i, carry, 1, addend, sum % 256, sum / 256);
      out := out[i := sum % 256];
      carry := sum / 256;
    }
    if carry == 0 {
      CarryStops(mag, out, i, addend);
      assert i > 0 && mag != [] ==> out[0] == out[..i][0] == mag[..i][0] == mag[0];
      return;
    }
    CarryDone(mag, out, carry, 1, addend);
    out := PrependCarry(out, carry);
  }

  /** muladd_small: never makes a leading zero byte. */
  method MuladdSmall(mag: seq<Byte>, base: nat, addend: nat) returns (out: seq<Byte>)
    requires base >= 2 && Trimmed(mag)
    ensures Value(out) == Value(mag) * base + addend && Trimmed(out)
  {
    out := MulSmall(mag, base);
    out := AddSmall(out, addend);
  }

  // ---------------------------------------------------------------- digits

  type Digit = d: int | 0 <= d < 32

  /** The base-32 digits of a number, most significant first; none for zero. */
  function Digits(n: nat): seq<Digit> {
    if n == 0 then [] else Digits(n / 32) + [n % 32]
  }

  function FromDigits(ds: seq<Digit>): nat {
    if ds == [] then 0 else FromDigits(ds[..|ds| - 1]) * 32 + ds[|ds| - 1]
  }

  lemma {:induction false} DigitsBack(n: nat)
    ensures FromDigits(Digits(n)) == n
  {
    if n > 0 {
      DigitsBack(n / 32);
      assert (Digits(n / 32) + [n % 32])[..|Digits(n / 32)|] == Digits(n / 32);
    }
  }

  // ---------------------------------------------------------------- characters

  function Lower(c: char): char {
    if 'A' <= c <= 'Z' then c + ' ' else c
  }

  function Upper(c: char): char {
    if 'a' <= c <= 'z' then c - ' ' else c
  }

  function DigitFromVal(v: Digit): char {
    if v < 10 then '0' + v as char else 'a' + (v - 10) as char
  }

  /** The letters that look like digits are written as the three unused ones. */
  function Replace(c: char): char {
    if c == 'i' then 'w' else if c == 'l' then 'y' else if c == 'o' then 'z' else c
  }

  function Restore(c: char): char {
    if c == 'w' then 'i' else if c == 'y' then 'l' else if c == 'z' then 'o' else c
  }

  function ValFromDigit(c: char): int {
    if '0' <= c <= '9' then c as int - '0' as int
    else if 'a' <= c <= 'v' then 10 + c as int - 'a' as int
    else -1
  }

  function WriteDigit(v: Digit): char {
    Upper(Replace(DigitFromVal(v)))
  }

  function ReadDigit(c: char): int {
    ValFromDigit(Restore(Lower(c)))
  }

  lemma DigitRoundTrip(v: Digit)
    ensures ReadDigit(WriteDigit(v)) == v
  {
    var c := DigitFromVal(v);
    if v < 10 {
      assert '0' <= c <= '9' && Replace(c) == c && Upper(c) == c && Lower(c) == c;
    } else {
      assert 'a' <= c <= 'v';
      assert 'a' <= Replace(c) <= 'z' && Restore(Replace(c)) == c;
      assert 'A' <= Upper(Replace(c)) <= 'Z' && Lower(Upper(Replace(c))) == Replace(c);
    }
  }

  const ALPHABET := "0123456789ABCDEFGHWJKYMNZPQRSTUV"

  /** The thirty-two characters written: digits and upper-case letters, with W, Y and Z in the
      places of I, L and O. */
  lemma AlphabetIs(v: Digit)
    ensures WriteDigit(v) == ALPHABET[v]
    ensures '0' <= WriteDigit(v) <= '9' || 'A' <= WriteDigit(v) <= 'Z'
    ensures WriteDigit(v) !in {'I', 'L', 'O', 'X'}
  {
    if v < 10 {
      assert ALPHABET[v] == "0123456789"[v];
    } else if v < 21 {
      assert ALPHABET[v] == "ABCDEFGHWJK"[v - 10];
    } else {
      assert ALPHABET[v] == "YMNZPQRSTUV"[v - 21];
    }
  }

  // ---------------------------------------------------------------- encode32 and decode32

  function WriteDigits(ds: seq<Digit>): string {
    if ds == [] then "" else WriteDigits(ds[..|ds| - 1]) + [WriteDigit(ds[|ds| - 1])]
  }

  /** The text of a number. */
  function Encoded(n: nat): string {
    "Mx" + if n == 0 then "0" else WriteDigits(Digits(n))
  }

  /** The number of a digit string, or nothing if a character is no digit. */
  function ReadDigits(s: string): Result<nat> {
    if s == "" then Ok(0)
    else
      var rest := ReadDigits(s[..|s| - 1]);
      var v := ReadDigit(s[|s| - 1]);
      if rest == Failure || v < 0 then Failure else Ok(rest.value * 32 + v)
  }

  function StripPrefix(s: string): string {
    if |s| >= 2 && Lower(s[0]) == 'm' && Lower(s[1]) == 'x' then s[2..] else s
  }

  function Decoded(s: string): Result<nat> {
    var payload := StripPrefix(s);
    if payload == "" then Failure else ReadDigits(payload)
  }

  /** The bytes of a number without leading zeros. */
  function BytesOf(n: nat): seq<Byte> {
    if n == 0 then [] else BytesOf(n / 256) + [n % 256]
  }

  lemma {:induction false} BytesOfValue(n: nat)
    ensures Value(BytesOf(n)) == n && Trimmed(BytesOf(n))
    ensures n > 0 ==> BytesOf(n) != []
  {
    if n > 0 {
      BytesOfValue(n / 256);
      ValueLast(BytesOf(n / 256), n % 256);
    }
  }

  function DecodedBytes(s: string): Result<seq<Byte>> {
    match Decoded(s)
    case Ok(n) => Ok(BytesOf(n))
    case Failure => Failure
  }

  lemma {:induction false} ReadWritten(ds: seq<Digit>)
    ensures |WriteDigits(ds)| == |ds| && ReadDigits(WriteDigits(ds)) == Ok(FromDigits(ds))
  {
    if ds != [] {
      ReadWritten(ds[..|ds| - 1]);
      var w, c := WriteDigits(ds[..|ds| - 1]), WriteDigit(ds[|ds| - 1]);
      assert (w + [c])[..|w|] == w;
      DigitRoundTrip(ds[|ds| - 1]);
    }
  }

  lemma {:induction false} WrittenIs(ds: seq<Digit>)
    ensures |WriteDigits(ds)| == |ds| && forall i :: 0 <= i < |ds| ==> WriteDigits(ds)[i] == ALPHABET[ds[i]]
  {
    if ds != [] {
      WrittenIs(ds[..|ds| - 1]);
      AlphabetIs(ds[|ds| - 1]);
    }
  }

  /** What a character reads as: digits, the letters up to V in either case, W, Y and Z as the
      I, L and O they stand for, and nothing else. */
  lemma ReadDigitIs(c: char)
    ensures '0' <= c <= '9' ==> ReadDigit(c) == c as int - '0' as int
    ensures 'A' <= c <= 'V' ==> ReadDigit(c) == 10 + c as int - 'A' as int
    ensures 'a' <= c <= 'v' ==> ReadDigit(c) == 10 + c as int - 'a' as int
    ensures c in {'W', 'w'} ==> ReadDigit(c) == 18
    ensures c in {'Y', 'y'} ==> ReadDigit(c) == 21
    ensures c in {'Z', 'z'} ==> ReadDigit(c) == 24
    ensures (!('0' <= c <= '9') && !('A' <= c <= 'Z') && !('a' <= c <= 'z')) || c in {'X', 'x'} ==> ReadDigit(c) == -1
  {
    if 'A' <= c <= 'Z' {
      assert 'a' <= Lower(c) <= 'z' && Lower(c) as int == c as int + 32;
    } else {
      assert Lower(c) == c;
    }
  }

  /** A text fails exactly if nothing follows the prefix or some character is no digit. */
  lemma DecodedExactly(s: string)
    ensures Decoded(s) == Failure <==>
            StripPrefix(s) == "" || exists i :: 0 <= i < |StripPrefix(s)| && ReadDigit(StripPrefix(s)[i]) < 0
  {
    ReadDigitsFail(StripPrefix(s));
  }

  lemma {:induction false} ReadDigitsFail(s: string)
    ensures ReadDigits(s) == Failure <==> exists i :: 0 <= i < |s| && ReadDigit(s[i]) < 0
  {
    if s != "" {
      var rest := s[..|s| - 1];
      ReadDigitsFail(rest);
      if i :| 0 <= i < |s| && ReadDigit(s[i]) < 0 {
        assert i < |rest| ==> rest[i] == s[i];
      }
      if i :| 0 <= i < |rest| && ReadDigit(rest[i]) < 0 {
        assert s[i] == rest[i];
      }
    }
  }

  lemma StripIs(s: string)
    ensures |s| >= 2 && s[0] in {'M', 'm'} && s[1] in {'X', 'x'} ==> StripPrefix(s) == s[2..]
    ensures !(|s| >= 2 && s[0] in {'M', 'm'} && s[1] in {'X', 'x'}) ==> StripPrefix(s) == s
  {
  }

  /** The text is "Mx" and then the digits in this alphabet, a single zero for zero. */
  lemma EncodedIs(n: nat)
    ensures
      var text, ds := Encoded(n), if n == 0 then [0] else Digits(n);
      && |text| == |ds| + 2 && text[..2] == "Mx"
      && forall i :: 0 <= i < |ds| ==> text[i + 2] == ALPHABET[ds[i]]
  {
    WrittenIs(Digits(n));
  }

  /** Decoding undoes encoding, for every number. */
  lemma NumberRoundTrip(n: nat)
    ensures Decoded(Encoded(n)) == Ok(n)
  {
    DigitsBack(n);
    ReadWritten(Digits(n));
    var payload := if n == 0 then "0" else WriteDigits(Digits(n));
    assert Encoded(n)[2..] == payload;
    if n == 0 {
      assert WriteDigit(0) == '0';
      DigitRoundTrip(0);
      assert payload[..0] == "";
    }
  }

  /** The division loop: remainders from the least significant on, then reversed. */
  method DigitsOf(mag: seq<Byte>) returns (digits: seq<Digit>)
    requires Trimmed(mag)
    ensures digits == Digits(Value(mag))
  {
    digits := [];
    var tmp := mag;
    while tmp != []
      invariant Trimmed(tmp) && Digits(Value(mag)) == Digits(Value(tmp)) + digits
      decreases Value(tmp)
    {
      TrimmedLow(tmp);
      var quot, rem := DivmodSmall(tmp, 32);
      DigitStep(Value(tmp), Value(quot), rem, digits);
      digits := [rem] + digits;
      tmp := quot;
    }
  }

  lemma DigitStep(n: nat, q: nat, r: nat, digits: seq<Digit>)
    requires n > 0 && n == q * 32 + r && r < 32
    ensures q < n && Digits(n) + digits == Digits(q) + ([r] + digits)
  {
    assert n / 32 == q && n % 32 == r;
    assert Digits(q) + [r] + digits == Digits(q) + ([r] + digits);
  }

  method Encode32(data: seq<Byte>) returns (text: string)
    ensures text == Encoded(Value(data))
  {
    var mag := TrimLeadingZeros(data);
    TrimKeepsValue(data);
    if mag == [] {
      return "Mx" + "0";
    }
    TrimmedLow(mag);
    var digits := DigitsOf(mag);
    var chars := "";
    for i := 0 to |digits|
      invariant chars == WriteDigits(digits[..i])
    {
      assert digits[..i + 1][..i] == digits[..i];
      chars := chars + [WriteDigit(digits[i])];
    }
    assert digits[..|digits|] == digits;
    text := "Mx" + chars;
  }

  method Decode32(text: string) returns (r: Result<seq<Byte>>)
    ensures r == DecodedBytes(text)
  {
    var b32 := StripPrefix(text);
    if b32 == "" {
      return Failure;
    }
    var mag: seq<Byte> := [];
    for i := 0 to |b32|
      invariant Trimmed(mag) && ReadDigits(b32[..i]) == Ok(Value(mag))
    {
      assert b32[..i + 1][..i] == b32[..i];
      var val := ReadDigit(b32[i]);
      if val < 0 {
        InvalidStays(b32, i + 1);
        return Failure;
      }
      mag := MuladdSmall(mag, 32, val);
    }
    assert b32[..|b32|] == b32;
    BytesOfValue(Value(mag));
    TrimmedUnique(mag, BytesOf(Value(mag)));
    r := Ok(mag);
  }

  lemma {:induction false} InvalidStays(s: string, i: nat)
    requires i <= |s| && ReadDigits(s[..i]) == Failure
    ensures ReadDigits(s) == Failure
    decreases |s|
  {
    if i < |s| {
      assert s[..|s| - 1][..i] == s[..i];
      InvalidStays(s[..|s| - 1], i);
    } else {
      assert s[..i] == s;
    }
  }

  /** Bytes in, bytes out: what comes back is the data without its leading zero bytes. */
  lemma BytesRoundTrip(data: seq<Byte>)
    ensures DecodedBytes(Encoded(Value(data))) == Ok(Trim(data))
  {
    NumberRoundTrip(Value(data));
    BytesOfValue(Value(data));
    TrimKeepsValue(data);
    TrimmedUnique(BytesOf(Value(data)), Trim(data));
  }

  // ---------------------------------------------------------------- Mx addresses

  function Checksum(hash: seq<Byte> -> seq<Byte>, data: seq<Byte>): seq<Byte>
    requires |hash(data)| >= 4
  {
    hash(data)[..4]
  }

  /** A one, the length in two bytes, the data, and four bytes of its hash. */
  function Packed(hash: seq<Byte> -> seq<Byte>, data: seq<Byte>): (r: seq<Byte>)
    requires |hash(data)| >= 4
    ensures |r| == |data| + 7 && Trimmed(r)
  {
    var len16 := |data| % 65536;
    [1, len16 / 256, len16 % 256] + data + Checksum(hash, data)
  }

  /** The layout of an address, byte by byte. */
  lemma PackedIs(hash: seq<Byte> -> seq<Byte>, data: seq<Byte>)
    requires |hash(data)| >= 4
    ensures
      var r, n := Packed(hash, data), |data|;
      && |r| == n + 7 && r[0] == 1
      && (r[1] as int) * 256 + r[2] == n % 65536
      && r[3..3 + n] == data && r[3 + n..] == hash(data)[..4]
  {
  }

  function TwoBytes(hi: int, lo: int): int { hi * 256 + lo }

  /** The reading side, from the decoded bytes. */
  function Unpacked(hash: seq<Byte> -> seq<Byte>, bytes: seq<Byte>): Result<seq<Byte>> {
    if |bytes| < 7 then Failure
    else if bytes[0] != 1 then Failure
    else
      var datalen := TwoBytes(bytes[1], bytes[2]);
      if |bytes| < 3 + datalen + 4 then Failure
      else
        var data := bytes[3..3 + datalen];
        if |hash(data)| < 4 || hash(data)[..4] != bytes[3 + datalen..3 + datalen + 4] then Failure else Ok(data)
  }

  /** Unpacking gives the data back exactly when its length fits the two length bytes; of
      longer data it never returns the whole. */
  lemma UnpackedExactly(hash: seq<Byte> -> seq<Byte>, data: seq<Byte>)
    requires |hash(data)| >= 4
    ensures Unpacked(hash, Packed(hash, data)) == Ok(data) <==> |data| < 65536
  {
    var bytes := Packed(hash, data);
    var datalen := TwoBytes(bytes[1], bytes[2]);
    assert datalen == |data| % 65536;
    if |data| < 65536 {
      assert bytes[3..3 + datalen] == data;
      assert bytes[3 + datalen..3 + datalen + 4] == Checksum(hash, data);
    } else {
      assert |bytes[3..3 + datalen]| < |data|;
    }
  }

  function Address(hash: seq<Byte> -> seq<Byte>, data: seq<Byte>): Result<string> {
    if |hash(data)| < 4 then Failure else Ok(Encoded(Value(Packed(hash, data))))
  }

  function Converted(hash: seq<Byte> -> seq<Byte>, text: string): Result<seq<Byte>> {
    match DecodedBytes(text)
    case Ok(bytes) => Unpacked(hash, bytes)
    case Failure => Failure
  }

  method MakeMinimaAddress(hash: seq<Byte> -> seq<Byte>, data: seq<Byte>) returns (text: Result<string>)
    ensures text == Address(hash, data)
  {
    var h := hash(data);
    if |h| < 4 {
      return Failure;
    }
    var origdata: seq<Byte> := [1];
    var len16 := |data| % 65536;
    origdata := origdata + [len16 / 256];
    origdata := origdata + [len16 % 256];
    origdata := origdata + data;
    origdata := origdata + h[..4];
    assert origdata == Packed(hash, data);
    var encoded := Encode32(origdata);
    text := Ok(encoded);
  }

  /** The loop over the four checksum bytes. */
  method SameChecksum(h: seq<Byte>, decode: seq<Byte>, at: nat) returns (same: bool)
    requires |h| >= 4 && at + 4 <= |decode|
    ensures same <==> h[..4] == decode[at..at + 4]
  {
    for i := 0 to 4
      invariant forall j :: 0 <= j < i ==> h[j] == decode[at + j]
    {
      if h[i] != decode[at + i] {
        assert h[..4][i] != decode[at..at + 4][i];
        return false;
      }
    }
    same := true;
  }

  method ConvertMinimaAddress(hash: seq<Byte> -> seq<Byte>, text: string) returns (r: Result<seq<Byte>>)
    ensures r == Converted(hash, text)
  {
    var decoded := Decode32(text);
    if decoded == Failure {
      return Failure;
    }
    var decode := decoded.value;
    if |decode| < 1 + 2 + 4 {
      return Failure;
    }
    if decode[0] != 1 {
      return Failure;
    }
    var datalen := TwoBytes(decode[1], decode[2]);
    if |decode| < 3 + datalen + 4 {
      return Failure;
    }
    var data := decode[3..3 + datalen];
    var h := hash(data);
    if |h| < 4 {
      return Failure;
    }
    var same := SameChecksum(h, decode, 3 + datalen);
    r := if same then Ok(data) else Failure;
  }

  /** Converting an address back: the packed bytes start with a one, so none are lost in the
      number, and the data returns exactly when it is shorter than 65536 bytes. */
  lemma AddressRoundTrip(hash: seq<Byte> -> seq<Byte>, data: seq<Byte>)
    requires |hash(data)| >= 4
    ensures Address(hash, data).Ok?
    ensures Converted(hash, Address(hash, data).value) == Ok(data) <==> |data| < 65536
  {
    var packed := Packed(hash, data);
    BytesRoundTrip(packed);
    assert Trim(packed) == packed;
    UnpackedExactly(hash, data);
  }

  /** The other way round: whatever text converts, its bytes are the packed form of the data
      it gives, hash included, with anything at all behind them. */
  lemma ConvertedIsPacked(hash: seq<Byte> -> seq<Byte>, text: string)
    requires Converted(hash, text).Ok?
    ensures
      var data := Converted(hash, text).value;
      && |data| < 65536 && |hash(data)| >= 4
      && exists rest :: DecodedBytes(text) == Ok(Packed(hash, data) + rest)
  {
    var bytes, data := DecodedBytes(text).value, Converted(hash, text).value;
    var rest := UnpackedIsPacked(hash, bytes, data);
    assert DecodedBytes(text) == Ok(Packed(hash, data) + rest);
  }

  /** And nothing else is asked of a text: one whose bytes start with the packed form of short
      enough data converts to that data. */
  lemma PackedConverts(hash: seq<Byte> -> seq<Byte>, text: string, data: seq<Byte>, rest: seq<Byte>)
    requires |hash(data)| >= 4 && |data| < 65536 && DecodedBytes(text) == Ok(Packed(hash, data) + rest)
    ensures Converted(hash, text) == Ok(data)
  {
    var packed := Packed(hash, data);
    var bytes := packed + rest;
    assert bytes[1] == packed[1] && bytes[2] == packed[2];
    assert TwoBytes(bytes[1], bytes[2]) == |data|;
    assert bytes[3..3 + |data|] == data;
    assert bytes[3 + |data|..3 + |data| + 4] == Checksum(hash, data);
  }

  lemma UnpackedIsPacked(hash: seq<Byte> -> seq<Byte>, bytes: seq<Byte>, data: seq<Byte>) returns (rest: seq<Byte>)
    requires Unpacked(hash, bytes) == Ok(data)
    ensures |data| < 65536 && |hash(data)| >= 4 && bytes == Packed(hash, data) + rest
  {
    UnpackedParts(hash, bytes, data);
    rest := bytes[3 + |data| + 4..];
    PartsJoin(hash, bytes, data);
  }

  lemma PartsJoin(hash: seq<Byte> -> seq<Byte>, bytes: seq<Byte>, data: seq<Byte>)
    requires |data| < 65536 && |hash(data)| >= 4 && |bytes| >= 3 + |data| + 4
    requires bytes[..3] == [1, |data| / 256, |data| % 256]
    requires bytes[3..3 + |data|] == data && bytes[3 + |data|..3 + |data| + 4] == Checksum(hash, data)
    ensures bytes == Packed(hash, data) + bytes[3 + |data| + 4..]
  {
    FourParts(bytes, 3, 3 + |data|, 3 + |data| + 4);
  }

  /** The head, the data and the checksum an accepted text must have. */
  lemma UnpackedParts(hash: seq<Byte> -> seq<Byte>, bytes: seq<Byte>, data: seq<Byte>)
    requires Unpacked(hash, bytes) == Ok(data)
    ensures |data| < 65536 && |hash(data)| >= 4 && |bytes| >= 3 + |data| + 4
    ensures bytes[..3] == [1, |data| / 256, |data| % 256]
    ensures bytes[3..3 + |data|] == data && bytes[3 + |data|..3 + |data| + 4] == Checksum(hash, data)
  {
    LengthBytes(bytes[1], bytes[2]);
  }

  lemma FourParts(s: seq<Byte>, i: nat, j: nat, k: nat)
    requires i <= j <= k <= |s|
    ensures s == s[..i] + s[i..j] + s[j..k] + s[k..]
  {
  }

  lemma LengthBytes(hi: Byte, lo: Byte)
    ensures
      var n := TwoBytes(hi, lo);
      0 <= n < 65536 && n / 256 == hi && n % 256 == lo
  {
  }
}
