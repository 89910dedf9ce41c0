/** The run-length form of the super parents in a block header, down to the bytes: a count
    byte and a length-prefixed hash for each run of equal parents. */
module HeaderRuns {
  import opened Common
  import opened Bytes

  const MAX_HASH_LENGTH := 64

  /** A super parent. Writing a longer one throws. */
  type Hash = h: seq<Byte> | |h| <= MAX_HASH_LENGTH

  /** writeHashToStream: the length as a big-endian 32-bit number, then the bytes. */
  function HashBytes(h: Hash): seq<Byte>
  {
    [0, 0, 0, |h|] + h
  }

  function FourBytes(a: Byte, b: Byte, c: Byte, d: Byte): nat {
    ((a * 256 + b) * 256 + c) * 256 + d
  }

  /** readHashFromStream at a place in the stream: the hash and the place after it. A negative
      or too large length, or a stream that ends early, fails. */
  function ReadHash(s: seq<Byte>, pos: nat): (r: Result<(Hash, nat)>)
    ensures r.Ok? ==> pos + 4 <= r.value.1 <= |s|
  {
    if |s| < pos + 4 then Failure
    else
      var len := FourBytes(s[pos], s[pos + 1], s[pos + 2], s[pos + 3]);
      if len > MAX_HASH_LENGTH || |s| < pos + 4 + len then Failure
      else
        var h: Hash := s[pos + 4..pos + 4 + len];
        Ok((h, pos + 4 + len))
  }

  /** The stream holds these bytes at this place. */
  predicate HoldsAt(s: seq<Byte>, pos: nat, bytes: seq<Byte>) {
    pos + |bytes| <= |s| && forall i :: 0 <= i < |bytes| ==> s[pos + i] == bytes[i]
  }

  lemma HoldsParts(s: seq<Byte>, pos: nat, a: seq<Byte>, b: seq<Byte>)
    requires HoldsAt(s, pos, a + b)
    ensures HoldsAt(s, pos, a) && HoldsAt(s, pos + |a|, b)
  {
    assert forall i :: 0 <= i < |a| ==> a[i] == (a + b)[i];
    assert forall i :: 0 <= i < |b| ==> b[i] == (a + b)[|a| + i];
  }

  lemma HashRoundTrip(h: Hash, s: seq<Byte>, pos: nat)
    requires HoldsAt(s, pos, HashBytes(h))
    ensures ReadHash(s, pos) == Ok((h, pos + 4 + |h|))
  {
    HoldsParts(s, pos, [0, 0, 0, |h|], h);
    var w := [0, 0, 0, |h|];
    assert s[pos + 0] == w[0] && s[pos + 1] == w[1] && s[pos + 2] == w[2] && s[pos + 3] == w[3];
    assert s[pos + 4..pos + 4 + |h|] == h;
    assert FourBytes(0, 0, 0, |h|) == |h|;
  }

  // ---------------------------------------------------------------- runs

  /** How many of the first parents equal the first one. */
  function RunLength(list: seq<Hash>): nat
    requires list != []
  {
    if |list| > 1 && list[1] == list[0] then 1 + RunLength(list[1..]) else 1
  }

  lemma {:induction false} RunIs(list: seq<Hash>)
    requires list != []
    ensures 1 <= RunLength(list) <= |list|
    ensures forall i :: 0 <= i < RunLength(list) ==> list[i] == list[0]
    ensures RunLength(list) < |list| ==> list[RunLength(list)] != list[0]
  {
    if |list| > 1 && list[1] == list[0] {
      RunIs(list[1..]);
      assert forall i :: 1 <= i < RunLength(list) ==> list[i] == list[1..][i - 1];
    }
  }

  /** The runs, in order, with their lengths. */
  function Runs(list: seq<Hash>): seq<(nat, Hash)>
    decreases |list|
  {
    if list == [] then []
    else
      RunIs(list);
      [(RunLength(list), list[0])] + Runs(list[RunLength(list)..])
  }

  /** Neighbouring runs always differ. */
  lemma {:induction false} NeighboursDiffer(list: seq<Hash>)
    ensures forall i :: 0 <= i < |Runs(list)| - 1 ==> Runs(list)[i].1 != Runs(list)[i + 1].1
    ensures list != [] ==> Runs(list) != [] && Runs(list)[0].1 == list[0]
    decreases |list|
  {
    if list != [] {
      RunIs(list);
      NeighboursDiffer(list[RunLength(list)..]);
    }
  }

  // ---------------------------------------------------------------- the codec

  /** One run; the count is cut to one byte. */
  function RunBytes(k: nat, h: Hash): seq<Byte> {
    [k % 256] + HashBytes(h)
  }

  /** The bytes of one run: its count, four bytes of length, the parent. */
  lemma RunBytesAre(k: nat, h: Hash)
    ensures RunBytes(k, h) == [k % 256, 0, 0, 0, |h|] + h
  {
  }

  /** A hash is read exactly if its four length bytes say at most 64 and that many follow. */
  lemma ReadHashExactly(s: seq<Byte>, pos: nat)
    ensures ReadHash(s, pos).Ok? <==>
            && pos + 4 <= |s|
            && (((s[pos] as int) * 256 + s[pos + 1]) * 256 + s[pos + 2]) * 256 + s[pos + 3] <= 64
            && pos + 4 + (((s[pos] * 256 + s[pos + 1]) * 256 + s[pos + 2]) * 256 + s[pos + 3]) <= |s|
  {
  }

  function EncodeRuns(rs: seq<(nat, Hash)>): seq<Byte> {
    if rs == [] then [] else RunBytes(rs[0].0, rs[0].1) + EncodeRuns(rs[1..])
  }

  /** What the header writes. */
  function Encode(list: seq<Hash>): seq<Byte> {
    EncodeRuns(Runs(list))
  }

  lemma EncodeFirst(list: seq<Hash>)
    requires list != []
    ensures RunLength(list) <= |list|
    ensures Encode(list) == RunBytes(RunLength(list), list[0]) + Encode(list[RunLength(list)..])
  {
    RunIs(list);
    assert Runs(list)[1..] == Runs(list[RunLength(list)..]);
  }

  /** What the header reads from a place in the stream: runs until all levels are filled; a
      run that overshoots fails. */
  function Decode(levels: nat, s: seq<Byte>, pos: nat): Result<(seq<Hash>, nat)>
    decreases |s| - pos
  {
    if levels == 0 then Ok(([], pos))
    else if pos >= |s| then Failure
    else
      var count := s[pos];
      match ReadHash(s, pos + 1)
      case Failure => Failure
      case Ok((sup, next)) =>
        if count > levels then Failure
        else Prefixed(Copies(count, sup), Decode(levels - count, s, next))
  }

  function Copies(count: nat, h: Hash): seq<Hash> {
    seq(count, i => h)
  }

  /** One run in the stream is read back as that many equal parents, the number taken
      modulo 256. */
  lemma RunRead(h: Hash, k: nat, levels: nat, s: seq<Byte>, pos: nat)
    requires k % 256 <= levels && levels > 0 && HoldsAt(s, pos, RunBytes(k, h))
    ensures Decode(levels, s, pos) ==
            Prefixed(Copies(k % 256, h), Decode(levels - k % 256, s, pos + 5 + |h|))
  {
    HoldsParts(s, pos, [k % 256], HashBytes(h));
    assert s[pos + 0] == [k % 256][0];
    HashRoundTrip(h, s, pos + 1);
  }

  lemma Regroup(a: seq<Byte>, b: seq<Byte>, c: seq<Byte>)
    ensures a + b + c == a + (b + c)
  {
  }

  /** The parents the runs stand for. */
  function Expand(rs: seq<(nat, Hash)>): seq<Hash> {
    if rs == [] then [] else Copies(rs[0].0, rs[0].1) + Expand(rs[1..])
  }

  lemma {:induction false} RunsExpand(list: seq<Hash>)
    ensures Expand(Runs(list)) == list
    decreases |list|
  {
    if list != [] {
      RunIs(list);
      var k := RunLength(list);
      RunsExpand(list[k..]);
      assert Runs(list)[1..] == Runs(list[k..]);
      RunJoins(list, k);
    }
  }

  /** Every count fits its byte. */
  predicate Short(rs: seq<(nat, Hash)>) {
    forall i :: 0 <= i < |rs| ==> rs[i].0 <= 255
  }

  lemma {:induction false} FewLevelsShortRuns(list: seq<Hash>)
    requires |list| <= 255
    ensures Short(Runs(list))
    decreases |list|
  {
    if list != [] {
      RunIs(list);
      FewLevelsShortRuns(list[RunLength(list)..]);
    }
  }

  /** Decoding starts with the first run. */
  lemma DecodeFirstRun(rs: seq<(nat, Hash)>, levels: nat, s: seq<Byte>, pos: nat) returns (next: nat)
    requires rs != [] && rs[0].0 % 256 <= levels && levels > 0 && HoldsAt(s, pos, EncodeRuns(rs))
    ensures HoldsAt(s, next, EncodeRuns(rs[1..])) && next + |EncodeRuns(rs[1..])| == pos + |EncodeRuns(rs)|
    ensures Decode(levels, s, pos) == Prefixed(Copies(rs[0].0 % 256, rs[0].1), Decode(levels - rs[0].0 % 256, s, next))
  {
    var k, h := rs[0].0, rs[0].1;
    next := pos + 5 + |h|;
    var head, tail := RunBytes(k, h), EncodeRuns(rs[1..]);
    assert EncodeRuns(rs) == head + tail && |head| == 5 + |h|;
    HoldsParts(s, pos, head, tail);
    RunRead(h, k, levels, s, pos);
  }

  predicate Fit(rs: seq<(nat, Hash)>) {
    forall i :: 0 <= i < |rs| ==> 0 < rs[i].0 <= 255
  }

  /** What the reader should return for these runs, ending at this place. */
  function Expected(rs: seq<(nat, Hash)>, end: nat): Result<(seq<Hash>, nat)> {
    Ok((Expand(rs), end))
  }

  lemma ExpectedFirst(rs: seq<(nat, Hash)>, end: nat)
    requires rs != [] && Fit(rs)
    ensures Prefixed(Copies(rs[0].0 % 256, rs[0].1), Expected(rs[1..], end)) == Expected(rs, end)
    ensures |Expand(rs)| == rs[0].0 % 256 + |Expand(rs[1..])| && rs[0].0 % 256 > 0 && Fit(rs[1..])
  {
  }

  lemma {:induction false} ShortRunsRead(rs: seq<(nat, Hash)>, levels: nat, s: seq<Byte>, pos: nat)
    requires Fit(rs) && HoldsAt(s, pos, EncodeRuns(rs)) && levels == |Expand(rs)|
    ensures Decode(levels, s, pos) == Expected(rs, pos + |EncodeRuns(rs)|)
  {
    if rs != [] {
      ExpectedFirst(rs, pos + |EncodeRuns(rs)|);
      var next := DecodeFirstRun(rs, levels, s, pos);
      ShortRunsRead(rs[1..], levels - rs[0].0 % 256, s, next);
    }
  }

  /** How many levels the written counts add up to. */
  function Counted(rs: seq<(nat, Hash)>): nat {
    if rs == [] then 0 else rs[0].0 % 256 + Counted(rs[1..])
  }

  lemma {:induction false} LongRunsCountLess(rs: seq<(nat, Hash)>)
    ensures Counted(rs) <= |Expand(rs)|
    ensures !Short(rs) ==> Counted(rs) < |Expand(rs)|
  {
    if rs != [] {
      LongRunsCountLess(rs[1..]);
    }
  }

  /** Reading at least one level takes at least one byte. */
  lemma {:induction false} DecodeConsumes(levels: nat, s: seq<Byte>, pos: nat)
    ensures Decode(levels, s, pos).Ok? ==> Decode(levels, s, pos).value.1 >= pos + if levels > 0 then 1 else 0
    decreases |s| - pos
  {
    if levels > 0 && pos < |s| && ReadHash(s, pos + 1).Ok? && s[pos] <= levels {
      DecodeConsumes(levels - s[pos], s, ReadHash(s, pos + 1).value.1);
    }
  }

  /** With fewer levels counted than asked for, the reader goes on into the bytes after. */
  lemma {:induction false} ReadsPast(rs: seq<(nat, Hash)>, levels: nat, s: seq<Byte>, pos: nat)
    requires Counted(rs) < levels && HoldsAt(s, pos, EncodeRuns(rs))
    ensures Decode(levels, s, pos).Ok? ==> Decode(levels, s, pos).value.1 > pos + |EncodeRuns(rs)|
  {
    if rs == [] {
      DecodeConsumes(levels, s, pos);
    } else {
      var next := DecodeFirstRun(rs, levels, s, pos);
      ReadsPast(rs[1..], levels - rs[0].0 % 256, s, next);
    }
  }

  lemma {:induction false} RunsPositive(list: seq<Hash>)
    ensures forall i :: 0 <= i < |Runs(list)| ==> Runs(list)[i].0 > 0
    decreases |list|
  {
    if list != [] {
      RunIs(list);
      RunsPositive(list[RunLength(list)..]);
    }
  }

  /** Wherever the encoding stands in a stream and whatever follows it, decoding gives the
      list back and stops exactly at its end if and only if no run is longer than its one-byte
      count can say; with up to 255 levels none is. */
  lemma RunsRoundTrip(list: seq<Hash>, s: seq<Byte>, pos: nat)
    requires HoldsAt(s, pos, Encode(list))
    ensures Decode(|list|, s, pos) == Ok((list, pos + |Encode(list)|)) <==> Short(Runs(list))
    ensures |list| <= 255 ==> Short(Runs(list))
  {
    if |list| <= 255 {
      FewLevelsShortRuns(list);
    }
    RunsExpand(list);
    RunsPositive(list);
    if Short(Runs(list)) {
      ShortRunsRead(Runs(list), |list|, s, pos);
    } else {
      LongRunsCountLess(Runs(list));
      ReadsPast(Runs(list), |list|, s, pos);
    }
  }

  lemma LengthByte(a: Byte, b: Byte, c: Byte, d: Byte)
    requires FourBytes(a, b, c, d) <= 64
    ensures a == 0 && b == 0 && c == 0 && FourBytes(a, b, c, d) == d
  {
  }

  /** A hash that is read stood in the stream as it would be written. */
  lemma ReadIsWritten(s: seq<Byte>, pos: nat)
    requires ReadHash(s, pos).Ok?
    ensures
      var (h, next) := ReadHash(s, pos).value;
      next == pos + 4 + |h| && HoldsAt(s, pos, HashBytes(h))
  {
    LengthByte(s[pos], s[pos + 1], s[pos + 2], s[pos + 3]);
    var (h, next) := ReadHash(s, pos).value;
    var bytes := HashBytes(h);
    forall i | 0 <= i < |bytes| ensures s[pos + i] == bytes[i] {
      if i >= 4 {
        assert bytes[i] == h[i - 4] && s[pos + 4..pos + 4 + |h|][i - 4] == s[pos + i];
      }
    }
  }

  lemma HoldsJoined(s: seq<Byte>, pos: nat, a: seq<Byte>, b: seq<Byte>)
    requires HoldsAt(s, pos, a) && HoldsAt(s, pos + |a|, b)
    ensures HoldsAt(s, pos, a + b)
  {
    forall i | 0 <= i < |a + b| ensures s[pos + i] == (a + b)[i] {
      if i >= |a| {
        assert s[pos + |a| + (i - |a|)] == b[i - |a|];
      }
    }
  }

  /** Whatever is decoded, the stream held runs, each count one byte, that fill the levels
      exactly and stand for the list, up to the place returned. */
  lemma {:induction false} DecodedIsRuns(levels: nat, s: seq<Byte>, pos: nat) returns (rs: seq<(nat, Hash)>)
    requires Decode(levels, s, pos).Ok?
    ensures Short(rs) && (levels > 0 ==> HoldsAt(s, pos, EncodeRuns(rs)))
    ensures levels == 0 <==> rs == []
    ensures |Expand(rs)| == levels
    ensures Decode(levels, s, pos) == Ok((Expand(rs), pos + |EncodeRuns(rs)|))
    decreases |s| - pos
  {
    if levels == 0 {
      rs := [];
    } else {
      var count := s[pos];
      var (h, next) := ReadHash(s, pos + 1).value;
      ReadIsWritten(s, pos + 1);
      var more := DecodedIsRuns(levels - count, s, next);
      rs := [(count, h)] + more;
      assert rs[1..] == more;
      RunStands(s, pos, count, h);
      if more == [] {
        assert RunBytes(count, h) + [] == RunBytes(count, h);
      } else {
        HoldsJoined(s, pos, RunBytes(count, h), EncodeRuns(more));
      }
    }
  }

  lemma RunStands(s: seq<Byte>, pos: nat, count: Byte, h: Hash)
    requires pos < |s| && s[pos] == count && HoldsAt(s, pos + 1, HashBytes(h))
    ensures HoldsAt(s, pos, RunBytes(count, h))
  {
    assert HoldsAt(s, pos, [count]);
    HoldsJoined(s, pos, [count], HashBytes(h));
  }

  lemma RunJoins(list: seq<Hash>, k: nat)
    requires k <= |list| && forall i :: 0 <= i < k ==> list[i] == list[0]
    ensures list != [] ==> Copies(k, list[0]) + list[k..] == list
  {
    if list != [] {
      assert list == list[..k] + list[k..];
      assert Copies(k, list[0]) == list[..k];
    }
  }

  /** 256 equal parents are written as none, and cannot be read back. */
  lemma LongRunLost(h: Hash)
    ensures
      var list := Copies(256, h);
      !Short(Runs(list)) && Decode(256, Encode(list), 0) == Failure
  {
    var list := Copies(256, h);
    RunIs(list);
    assert Runs(list)[0].0 == RunLength(list) == 256;
    EncodeFirst(list);
    assert list[256..] == [];
    assert Encode(list) == RunBytes(256, h);
    RunRead(h, 256, 256, Encode(list), 0);
    assert Decode(256, Encode(list), 5 + |h|) == Failure;
  }

  /** `counter` parents before place `i` equal `sparent` and are still to be written. */
  predicate Pending(list: seq<Hash>, i: nat, counter: nat, sparent: Hash, out: seq<Byte>) {
    && 1 <= counter <= i <= |list|
    && (forall j :: i - counter <= j < i ==> list[j] == sparent)
    && Encode(list) == out + Encode(list[i - counter..])
  }

  lemma PendingFirst(list: seq<Hash>)
    requires list != []
    ensures Pending(list, 1, 1, list[0], [])
  {
    assert list[0..] == list;
    assert [] + Encode(list) == Encode(list);
  }

  lemma PendingMore(list: seq<Hash>, i: nat, counter: nat, sparent: Hash, out: seq<Byte>)
    requires Pending(list, i, counter, sparent, out) && i < |list| && list[i] == sparent
    ensures Pending(list, i + 1, counter + 1, sparent, out)
  {
  }

  lemma PendingFlush(list: seq<Hash>, i: nat, counter: nat, sparent: Hash, out: seq<Byte>)
    requires Pending(list, i, counter, sparent, out) && (i < |list| ==> list[i] != sparent)
    ensures i < |list| ==> Pending(list, i + 1, 1, list[i], out + RunBytes(counter, sparent))
    ensures i == |list| ==> Encode(list) == out + RunBytes(counter, sparent)
  {
    var from := i - counter;
    RunOf(list, from, counter, out);
    assert list[from] == sparent && from + counter == i;
    assert Encode(list) == out + RunBytes(counter, sparent) + Encode(list[i..]);
    if i == |list| {
      assert list[i..] == [];
      Unpadded(out + RunBytes(counter, sparent));
    }
  }

  lemma Unpadded(s: seq<Byte>)
    ensures s + [] == s
  {
  }

  /** The writing loop: a run is put out when the next parent differs and at the end. */
  method WriteRuns(list: seq<Hash>) returns (out: seq<Byte>)
    ensures out == Encode(list)
  {
    out := [];
    var haveParent := false;
    var sparent: Hash := [];
    var counter := 0;
    for i := 0 to |list|
      invariant haveParent <==> i > 0
      invariant i == 0 ==> out == []
      invariant 0 < i < |list| ==> Pending(list, i, counter, sparent, out)
      invariant i == |list| > 0 ==> out == Encode(list)
    {
      var curr := list[i];
      if !haveParent {
        PendingFirst(list);
        sparent := curr;
        counter := 1;
        haveParent := true;
      } else if sparent == curr {
        PendingMore(list, i, counter, sparent, out);
        counter := counter + 1;
      } else {
        PendingFlush(list, i, counter, sparent, out);
        out := out + RunBytes(counter, sparent);
        sparent := curr;
        counter := 1;
      }
      assert Pending(list, i + 1, counter, sparent, out);
      if i == |list| - 1 {
        PendingFlush(list, i + 1, counter, sparent, out);
        out := out + RunBytes(counter, sparent);
      }
    }
  }

  /** A stretch of equal parents that ends the list or is followed by another is a run. */
  lemma RunOf(list: seq<Hash>, from: nat, k: nat, out: seq<Byte>)
    requires 1 <= k && from + k <= |list|
    requires forall j :: from <= j < from + k ==> list[j] == list[from]
    requires from + k < |list| ==> list[from + k] != list[from]
    requires Encode(list) == out + Encode(list[from..])
    ensures Encode(list) == out + RunBytes(k, list[from]) + Encode(list[from + k..])
  {
    var s := list[from..];
    RunLengthIs(s, k);
    EncodeFirst(s);
    assert s[k..] == list[from + k..];
    Regroup(out, RunBytes(k, list[from]), Encode(list[from + k..]));
  }

  lemma RunLengthIs(s: seq<Hash>, k: nat)
    requires 1 <= k <= |s| && (forall j :: 0 <= j < k ==> s[j] == s[0]) && (k < |s| ==> s[k] != s[0])
    ensures RunLength(s) == k
  {
    RunIs(s);
  }

  /** The inner loop: `count` times the same parent, unless that overshoots. */
  method FillLevels(start: seq<Hash>, levels: nat, count: nat, sup: Hash) returns (r: Result<seq<Hash>>)
    requires |start| <= levels
    ensures r == if |start| + count > levels then Failure else Ok(start + Copies(count, sup))
  {
    var list := start;
    for i := 0 to count
      invariant list == start + Copies(i, sup) && |list| <= levels
    {
      if |list| >= levels {
        return Failure;
      }
      list := list + [sup];
      assert start + Copies(i, sup) + [sup] == start + Copies(i + 1, sup);
    }
    r := Ok(list);
  }

  /** The reading loops: fill `count` levels with each run. */
  method ReadRuns(levels: nat, s: seq<Byte>, start: nat) returns (r: Result<(seq<Hash>, nat)>)
    ensures r == Decode(levels, s, start)
  {
    var list: seq<Hash> := [];
    var pos := start;
    PrefixedNothing(Decode(levels, s, start));
    while |list| < levels
      invariant |list| <= levels
      invariant Decode(levels, s, start) == Prefixed(list, Decode(levels - |list|, s, pos))
      decreases |s| - pos
    {
      if pos >= |s| {
        return Failure;
      }
      var count := s[pos];
      var hash := ReadHash(s, pos + 1);
      if hash == Failure {
        return Failure;
      }
      var filled := FillLevels(list, levels, count, hash.value.0);
      if filled == Failure {
        return Failure;
      }
      PrefixedTwice(list, Copies(count, hash.value.0), Decode(levels - |list| - count, s, hash.value.1));
      list := filled.value;
      pos := hash.value.1;
    }
    assert list + [] == list;
    r := Ok((list, pos));
  }

  function Prefixed(list: seq<Hash>, r: Result<(seq<Hash>, nat)>): Result<(seq<Hash>, nat)> {
    match r
    case Failure => Failure
    case Ok((more, after)) => Ok((list + more, after))
  }

  lemma PrefixedNothing(r: Result<(seq<Hash>, nat)>)
    ensures Prefixed([], r) == r
  {
    if r.Ok? {
      assert [] + r.value.0 == r.value.0;
    }
  }

  lemma PrefixedTwice(a: seq<Hash>, b: seq<Hash>, r: Result<(seq<Hash>, nat)>)
    ensures Prefixed(a, Prefixed(b, r)) == Prefixed(a + b, r)
  {
    if r.Ok? {
      assert a + (b + r.value.0) == a + b + r.value.0;
    }
  }
}
