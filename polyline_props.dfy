/** What the decoder computes, stated without its loop: the string is cut
    into values, the values are sign-decoded into deltas, the deltas pair up
    as (latitude, longitude), and each point is the running sum of the pairs
    before it. */
module PolylineProps {
  import opened Polyline
  import opened PolylineValues

  /** The values of a string from index `i`, in order, and whether the last
      one is complete (`false` when the string ends inside a value). */
  datatype Tokens = Tokens(values: seq<nat>, complete: bool)

  function Tokenize(s: string, i: nat): Tokens
    requires i <= |s|
    decreases |s| - i
  {
    if i == |s| then Tokens([], true)
    else
      match ScanValue(s, i)
      case None => Tokens([], false)
      case Some(Read(v, j)) =>
        var t := Tokenize(s, j);
        Tokens([v] + t.values, t.complete)
  }

  /** Number of characters without the continuation bit: each ends a value. */
  function Terminals(cs: seq<char>): nat {
    if cs == [] then 0
    else (if More(cs[0]) then 0 else 1) + Terminals(cs[1..])
  }

  /** The string holds one value per terminal character, and its last value
      is complete exactly when the string is empty or its last character has
      no continuation bit. */
  lemma {:induction false} TokenizeShape(s: string, i: nat)
    requires i <= |s|
    ensures |Tokenize(s, i).values| == Terminals(s[i..])
    ensures Tokenize(s, i).complete <==> i == |s| || !More(s[|s| - 1])
    decreases |s| - i
  {
    if i < |s| {
      assert s[i..][1..] == s[i + 1..];
      TokenizeShape(s, i + 1);
      if More(s[i]) && i + 1 < |s| {
        match ScanValue(s, i + 1)
        case None =>
        case Some(Read(v, j)) =>
          assert Tokenize(s, i + 1) == Tokens([v] + Tokenize(s, j).values, Tokenize(s, j).complete);
      }
    }
  }

  /** `dlat`/`dlng` of lines 232 and 242 for every value, in order. */
  function Deltas(vs: seq<nat>): seq<int> {
    seq(|vs|, k requires 0 <= k < |vs| => SignDecode(vs[k]))
  }

  /** Sum of the first `n` latitude deltas: those at even positions. */
  function LatSum(ds: seq<int>, n: nat): int
    requires 2 * n <= |ds|
  {
    if n == 0 then 0 else ds[0] + LatSum(ds[2..], n - 1)
  }

  /** Sum of the first `n` longitude deltas: those at odd positions. */
  function LngSum(ds: seq<int>, n: nat): int
    requires 2 * n <= |ds|
  {
    if n == 0 then 0 else ds[1] + LngSum(ds[2..], n - 1)
  }

  /** The route of deltas `ds` starting from totals `lat`, `lng`: point `k`
      is the start plus the first `k + 1` deltas of each coordinate. */
  function Track(ds: seq<int>, lat: int, lng: int): seq<Point> {
    seq(|ds| / 2, k requires 0 <= k < |ds| / 2 =>
      Point(lat + LatSum(ds, k + 1), lng + LngSum(ds, k + 1)))
  }

  /** Decoding as a pipeline: all values must be complete and pair up. */
  function Reference(s: string, i: nat, lat: int, lng: int): Result<seq<Point>>
    requires i <= |s|
  {
    var t := Tokenize(s, i);
    if !t.complete || |t.values| % 2 == 1 then Failure(ReadPastEnd)
    else Success(Track(Deltas(t.values), lat, lng))
  }

  lemma TrackCons(d1: int, d2: int, ds: seq<int>, lat: int, lng: int)
    ensures Track([d1, d2] + ds, lat, lng) == [Point(lat + d1, lng + d2)] + Track(ds, lat + d1, lng + d2)
  {
    var all := [d1, d2] + ds;
    assert all[2..] == ds;
    var lhs, rhs := Track(all, lat, lng), [Point(lat + d1, lng + d2)] + Track(ds, lat + d1, lng + d2);
    forall k | 0 <= k < |lhs|
      ensures lhs[k] == rhs[k]
    {
      if k > 0 {
        assert LatSum(all, k + 1) == d1 + LatSum(ds, k);
        assert LngSum(all, k + 1) == d2 + LngSum(ds, k);
      }
    }
  }

  /** The pipeline, like the loop, takes one pair of values off the front
      and prepends its point to the route of the rest. */
  lemma ReferenceStep(s: string, i: nat, lat: int, lng: int, v1: nat, j: nat, v2: nat, k: nat)
    requires i < |s| && j <= |s| && k <= |s|
    requires ScanValue(s, i) == Some(Read(v1, j)) && ScanValue(s, j) == Some(Read(v2, k))
    ensures Reference(s, i, lat, lng) ==
      Prepend([Point(lat + SignDecode(v1), lng + SignDecode(v2))],
        Reference(s, k, lat + SignDecode(v1), lng + SignDecode(v2)))
  {
    var vs := Tokenize(s, k).values;
    assert Tokenize(s, j).values == [v2] + vs;
    assert Tokenize(s, i).values == [v1, v2] + vs;
    assert Deltas([v1, v2] + vs) == [SignDecode(v1), SignDecode(v2)] + Deltas(vs);
    TrackCons(SignDecode(v1), SignDecode(v2), Deltas(vs), lat, lng);
  }

  /** The loop-by-loop decoder and the pipeline agree on every input, from
      every index and every pair of running totals. */
  lemma {:induction false} DecodeFromIsReference(s: string, i: nat, lat: int, lng: int)
    requires i <= |s|
    ensures DecodeFrom(s, i, lat, lng) == Reference(s, i, lat, lng)
    decreases |s| - i
  {
    if i == |s| {
      assert Track(Deltas([]), lat, lng) == [];
    } else {
      match ScanValue(s, i)
      case None =>
      case Some(Read(v1, j)) =>
        match ScanValue(s, j)
        case None =>
          assert Tokenize(s, i).values == [v1] + Tokenize(s, j).values;
        case Some(Read(v2, k)) =>
          DecodeFromIsReference(s, k, lat + SignDecode(v1), lng + SignDecode(v2));
          ReferenceStep(s, i, lat, lng, v1, j, v2, k);
          DecodeFromStep(s, i, lat, lng, v1, j, v2, k);
    }
  }

  /** `decodePolyline` returns a route exactly when the string is empty or
      ends on a group without the continuation bit, and the values it holds
      pair up; otherwise it reads `encoded[length]` and throws. */
  lemma DecodeSucceedsIff(s: string)
    ensures Decode(s).Success? <==> (s == [] || !More(s[|s| - 1])) && Terminals(s) % 2 == 0
  {
    DecodeFromIsReference(s, 0, 0, 0);
    TokenizeShape(s, 0);
    assert s[0..] == s;
  }

  /** One point per (latitude, longitude) pair of values, in scan order; the
      k-th point is the sum of the first k + 1 latitude deltas and of the
      first k + 1 longitude deltas (the totals start at 0, lines 220-221, and
      are never reset). */
  lemma DecodeRunningTotals(s: string)
    requires Decode(s).Success?
    ensures var ps := Decode(s).value;
      var ds := Deltas(Tokenize(s, 0).values);
      && 2 * |ps| == |ds| == Terminals(s)
      && forall k | 0 <= k < |ps| :: ps[k] == Point(LatSum(ds, k + 1), LngSum(ds, k + 1))
  {
    DecodeFromIsReference(s, 0, 0, 0);
    TokenizeShape(s, 0);
    assert s[0..] == s;
  }

  /** Every point of `ps` moved by `(lat, lng)`. */
  function Moved(ps: seq<Point>, lat: int, lng: int): seq<Point> {
    seq(|ps|, k requires 0 <= k < |ps| => Point(ps[k].lat + lat, ps[k].lng + lng))
  }

  function MovedResult(r: Result<seq<Point>>, lat: int, lng: int): Result<seq<Point>> {
    match r
    case Success(ps) => Success(Moved(ps, lat, lng))
    case Failure(e) => Failure(e)
  }

  /** Running totals are carried, never reset: starting from other totals
      moves every point of the route by exactly those totals, and does not
      change whether decoding succeeds. */
  lemma DecodeFromTranslates(s: string, i: nat, lat: int, lng: int)
    requires i <= |s|
    ensures DecodeFrom(s, i, lat, lng) == MovedResult(DecodeFrom(s, i, 0, 0), lat, lng)
  {
    DecodeFromIsReference(s, i, lat, lng);
    DecodeFromIsReference(s, i, 0, 0);
    var ds := Deltas(Tokenize(s, i).values);
    assert Track(ds, lat, lng) == Moved(Track(ds, 0, 0), lat, lng);
  }

  lemma {:induction false} TokenizeShift(a: string, b: string, i: nat)
    requires i <= |b|
    ensures Tokenize(a + b, |a| + i) == Tokenize(b, i)
    decreases |b| - i
  {
    if i == |b| {
      assert |a + b| == |a| + i;
    } else {
      ScanValueShift(a, b, i);
      if ScanValue(b, i).Some? {
        TokenizeShift(a, b, ScanValue(b, i).value.next);
      }
    }
  }

  /** The first pass of the outer loop over `a + b` from `|a| + i` reads
      what it reads over `b` from `i`. */
  lemma ShiftStep(a: string, b: string, i: nat, lat: int, lng: int, v1: nat, j: nat, v2: nat, k: nat)
    requires i < |b| && j <= |b| && k <= |b|
    requires ScanValue(b, i) == Some(Read(v1, j)) && ScanValue(b, j) == Some(Read(v2, k))
    ensures DecodeFrom(a + b, |a| + i, lat, lng) ==
      Prepend([Point(lat + SignDecode(v1), lng + SignDecode(v2))],
        DecodeFrom(a + b, |a| + k, lat + SignDecode(v1), lng + SignDecode(v2)))
  {
    ScanValueShift(a, b, i);
    ScanValueShift(a, b, j);
    DecodeFromStep(a + b, |a| + i, lat, lng, v1, |a| + j, v2, |a| + k);
  }

  /** Where a pass over `b` from `i` fails, so does the pass over `a + b`. */
  lemma ShiftFailure(a: string, b: string, i: nat, lat: int, lng: int)
    requires i < |b|
    requires ScanValue(b, i).None? || ScanValue(b, ScanValue(b, i).value.next).None?
    ensures DecodeFrom(a + b, |a| + i, lat, lng) == Failure(ReadPastEnd)
    ensures DecodeFrom(b, i, lat, lng) == Failure(ReadPastEnd)
  {
    ScanValueShift(a, b, i);
    if ScanValue(b, i).Some? {
      ScanValueShift(a, b, ScanValue(b, i).value.next);
    }
  }

  /** Characters in front of index `i` do not change how the rest decodes. */
  lemma {:induction false} DecodeFromShift(a: string, b: string, i: nat, lat: int, lng: int)
    requires i <= |b|
    ensures DecodeFrom(a + b, |a| + i, lat, lng) == DecodeFrom(b, i, lat, lng)
    decreases |b| - i
  {
    if i == |b| {
      assert |a + b| == |a| + i;
    } else if ScanValue(b, i).None? || ScanValue(b, ScanValue(b, i).value.next).None? {
      ShiftFailure(a, b, i, lat, lng);
    } else {
      var Read(v1, j) := ScanValue(b, i).value;
      var Read(v2, k) := ScanValue(b, j).value;
      var lat', lng' := lat + SignDecode(v1), lng + SignDecode(v2);
      DecodeFromShift(a, b, k, lat', lng');
      DecodeFromStep(b, i, lat, lng, v1, j, v2, k);
      ShiftStep(a, b, i, lat, lng, v1, j, v2, k);
    }
  }

  /** Where a route decoded from `(lat, lng)` leaves the running totals. */
  function LastTotals(ps: seq<Point>, lat: int, lng: int): Point {
    if ps == [] then Point(lat, lng) else ps[|ps| - 1]
  }

  /** A complete run of values in `a` is followed, in `a + b`, by the values
      of `b`. */
  lemma {:induction false} TokenizeAppend(a: string, b: string, i: nat)
    requires i <= |a| && Tokenize(a, i).complete
    ensures Tokenize(a + b, i) ==
      Tokens(Tokenize(a, i).values + Tokenize(b, 0).values, Tokenize(b, 0).complete)
    decreases |a| - i
  {
    var vb := Tokenize(b, 0).values;
    if i == |a| {
      TokenizeShift(a, b, 0);
      assert [] + vb == vb;
    } else {
      var r := ScanValue(a, i).value;
      ScanValuePrefix(a, b, i);
      TokenizeAppend(a, b, r.next);
      var va := Tokenize(a, r.next).values;
      assert ([r.value] + va) + vb == [r.value] + (va + vb);
    }
  }

  /** The first `n` pairs' sums look only at those pairs. */
  lemma {:induction false} SumsPrefix(xs: seq<int>, ys: seq<int>, n: nat)
    requires 2 * n <= |xs|
    ensures LatSum(xs + ys, n) == LatSum(xs, n) && LngSum(xs + ys, n) == LngSum(xs, n)
    decreases n
  {
    if n > 0 {
      assert (xs + ys)[2..] == xs[2..] + ys;
      SumsPrefix(xs[2..], ys, n - 1);
    }
  }

  /** Sums over the pairs of `xs` and then `m` pairs of `ys`. */
  lemma {:induction false} SumsAppend(xs: seq<int>, ys: seq<int>, n: nat, m: nat)
    requires |xs| == 2 * n && 2 * m <= |ys|
    ensures LatSum(xs + ys, n + m) == LatSum(xs, n) + LatSum(ys, m)
    ensures LngSum(xs + ys, n + m) == LngSum(xs, n) + LngSum(ys, m)
    decreases n
  {
    if n == 0 {
      assert xs + ys == ys;
    } else {
      assert (xs + ys)[2..] == xs[2..] + ys;
      SumsAppend(xs[2..], ys, n - 1, m);
    }
  }

  /** The route of two runs of deltas is the route of the first, then the
      route of the second from where the first left the totals. */
  lemma TrackAppend(xs: seq<int>, ys: seq<int>, lat: int, lng: int)
    requires |xs| % 2 == 0
    ensures var end := LastTotals(Track(xs, lat, lng), lat, lng);
      Track(xs + ys, lat, lng) == Track(xs, lat, lng) + Track(ys, end.lat, end.lng)
  {
    var n := |xs| / 2;
    var end := LastTotals(Track(xs, lat, lng), lat, lng);
    assert end == Point(lat + LatSum(xs, n), lng + LngSum(xs, n));
    var lhs, rhs := Track(xs + ys, lat, lng), Track(xs, lat, lng) + Track(ys, end.lat, end.lng);
    forall k | 0 <= k < |lhs|
      ensures lhs[k] == rhs[k]
    {
      if k < n {
        SumsPrefix(xs, ys, k + 1);
      } else {
        SumsAppend(xs, ys, n, k - n + 1);
      }
    }
  }

  lemma DeltasAppend(xs: seq<nat>, ys: seq<nat>)
    ensures Deltas(xs + ys) == Deltas(xs) + Deltas(ys)
  {
  }

  /** Decoding `a + b` where `a` decodes on its own: the points of `a`, then
      those of `b` decoded from where `a` left the totals. */
  lemma DecodeFromAppend(a: string, b: string, i: nat, lat: int, lng: int)
    requires i <= |a|
    requires DecodeFrom(a, i, lat, lng).Success?
    ensures var ps := DecodeFrom(a, i, lat, lng).value;
      var end := LastTotals(ps, lat, lng);
      DecodeFrom(a + b, i, lat, lng) == Prepend(ps, DecodeFrom(b, 0, end.lat, end.lng))
  {
    DecodeFromIsReference(a, i, lat, lng);
    TokenizeAppend(a, b, i);
    var va, vb := Tokenize(a, i).values, Tokenize(b, 0).values;
    var end := LastTotals(Track(Deltas(va), lat, lng), lat, lng);
    DecodeFromIsReference(a + b, i, lat, lng);
    DecodeFromIsReference(b, 0, end.lat, end.lng);
    DeltasAppend(va, vb);
    TrackAppend(Deltas(va), Deltas(vb), lat, lng);
  }

  /** Order and continuity: decoding two encoded routes written one after
      the other gives the first route followed by the second, moved by the
      last point of the first. */
  lemma DecodeAppend(a: string, b: string)
    requires Decode(a).Success? && Decode(b).Success?
    ensures var pa, pb := Decode(a).value, Decode(b).value;
      var end := LastTotals(pa, 0, 0);
      Decode(a + b) == Success(pa + Moved(pb, end.lat, end.lng))
  {
    var pa := Decode(a).value;
    var end := LastTotals(pa, 0, 0);
    DecodeFromAppend(a, b, 0, 0, 0);
    DecodeFromTranslates(b, 0, end.lat, end.lng);
  }

  /** One pass of the outer loop, for decoding concrete strings. */
  lemma DecodeFromStep(s: string, i: nat, lat: int, lng: int, v1: nat, j: nat, v2: nat, k: nat)
    requires i < |s| && j <= |s| && k <= |s|
    requires ScanValue(s, i) == Some(Read(v1, j)) && ScanValue(s, j) == Some(Read(v2, k))
    ensures DecodeFrom(s, i, lat, lng) ==
      Prepend([Point(lat + SignDecode(v1), lng + SignDecode(v2))],
        DecodeFrom(s, k, lat + SignDecode(v1), lng + SignDecode(v2)))
  {
  }

  /** A lone '?' is one complete latitude value and no longitude: the second
      do-while reads past the end. */
  lemma DecodeOneQuestionMark()
    ensures Decode("?") == Failure(ReadPastEnd)
  {
  }

  /** '?' is a terminal group of value 0, so "??" is the single point (0, 0). */
  lemma DecodeTwoQuestionMarks()
    ensures Decode("??") == Success([Point(0, 0)])
  {
    assert ScanValue("??", 1) == Some(Read(0, 2));
    assert ScanValue("??", 0) == Some(Read(0, 1));
    DecodeFromStep("??", 0, 0, 0, 0, 1, 0, 2);
    assert [Point(0, 0)] + [] == [Point(0, 0)];
  }

  /** The format's published example string. */
  const StandardExample: string := "_p~iF~ps|U_ulLnnqC_mqNvxq`@"

  /** Its six values, read group by group from the last group of each back
      to the first. */
  lemma LatValueOne(s: string)
    requires s == StandardExample
    ensures ScanValue(s, 0) == Some(Read(7700000, 5))
  {
    assert ScanValue(s, 4) == Some(Read(7, 5));
    assert ScanValue(s, 3) == Some(Read(234, 5));
    assert ScanValue(s, 2) == Some(Read(7519, 5));
    assert ScanValue(s, 1) == Some(Read(240625, 5));
  }

  lemma LngValueOne(s: string)
    requires s == StandardExample
    ensures ScanValue(s, 5) == Some(Read(24039999, 10))
  {
    assert ScanValue(s, 9) == Some(Read(22, 10));
    assert ScanValue(s, 8) == Some(Read(733, 10));
    assert ScanValue(s, 7) == Some(Read(23476, 10));
    assert ScanValue(s, 6) == Some(Read(751249, 10));
  }

  lemma LatValueTwo(s: string)
    requires s == StandardExample
    ensures ScanValue(s, 10) == Some(Read(440000, 14))
  {
    assert ScanValue(s, 13) == Some(Read(13, 14));
    assert ScanValue(s, 12) == Some(Read(429, 14));
    assert ScanValue(s, 11) == Some(Read(13750, 14));
  }

  lemma LngValueTwo(s: string)
    requires s == StandardExample
    ensures ScanValue(s, 14) == Some(Read(149999, 18))
  {
    assert ScanValue(s, 17) == Some(Read(4, 18));
    assert ScanValue(s, 16) == Some(Read(146, 18));
    assert ScanValue(s, 15) == Some(Read(4687, 18));
  }

  lemma LatValueThree(s: string)
    requires s == StandardExample
    ensures ScanValue(s, 18) == Some(Read(510400, 22))
  {
    assert ScanValue(s, 21) == Some(Read(15, 22));
    assert ScanValue(s, 20) == Some(Read(498, 22));
    assert ScanValue(s, 19) == Some(Read(15950, 22));
  }

  lemma LngValueThree(s: string)
    requires s == StandardExample
    ensures ScanValue(s, 22) == Some(Read(1100599, 27))
  {
    assert ScanValue(s, 26) == Some(Read(1, 27));
    assert ScanValue(s, 25) == Some(Read(33, 27));
    assert ScanValue(s, 24) == Some(Read(1074, 27));
    assert ScanValue(s, 23) == Some(Read(34393, 27));
  }

  /** Any 27-character string holding those six values decodes to the three
      points of the example; stated over an arbitrary `s` so that the proof
      follows the loop instead of unfolding the literal. */
  lemma DecodeExampleValues(s: string)
    requires |s| == 27
    requires ScanValue(s, 0) == Some(Read(7700000, 5))
    requires ScanValue(s, 5) == Some(Read(24039999, 10))
    requires ScanValue(s, 10) == Some(Read(440000, 14))
    requires ScanValue(s, 14) == Some(Read(149999, 18))
    requires ScanValue(s, 18) == Some(Read(510400, 22))
    requires ScanValue(s, 22) == Some(Read(1100599, 27))
    ensures Decode(s) ==
      Success([Point(3850000, -12020000), Point(4070000, -12095000), Point(4325200, -12645300)])
  {
    var p1, p2, p3 := Point(3850000, -12020000), Point(4070000, -12095000), Point(4325200, -12645300);
    assert SignDecode(7700000) == 3850000 && SignDecode(24039999) == -12020000;
    assert SignDecode(440000) == 220000 && SignDecode(149999) == -75000;
    assert SignDecode(510400) == 255200 && SignDecode(1100599) == -550300;
    assert DecodeFrom(s, 27, p3.lat, p3.lng) == Success([]);
    DecodeFromStep(s, 18, p2.lat, p2.lng, 510400, 22, 1100599, 27);
    assert Point(p2.lat + SignDecode(510400), p2.lng + SignDecode(1100599)) == p3;
    assert DecodeFrom(s, 18, p2.lat, p2.lng) == Prepend([p3], DecodeFrom(s, 27, p3.lat, p3.lng));
    assert [p3] + [] == [p3];
    assert DecodeFrom(s, 18, p2.lat, p2.lng) == Success([p3]);
    DecodeFromStep(s, 10, p1.lat, p1.lng, 440000, 14, 149999, 18);
    assert Point(p1.lat + SignDecode(440000), p1.lng + SignDecode(149999)) == p2;
    assert DecodeFrom(s, 10, p1.lat, p1.lng) == Prepend([p2], DecodeFrom(s, 18, p2.lat, p2.lng));
    assert [p2] + [p3] == [p2, p3];
    DecodeFromStep(s, 0, 0, 0, 7700000, 5, 24039999, 10);
    assert Point(0 + SignDecode(7700000), 0 + SignDecode(24039999)) == p1;
    assert DecodeFrom(s, 0, 0, 0) == Prepend([p1], DecodeFrom(s, 10, p1.lat, p1.lng));
    assert [p1] + [p2, p3] == [p1, p2, p3];
  }

  /** Those six values have at most `MaxGroups` groups each and the totals
      stay far inside the `Int` range, so the 32-bit loop decodes the
      example exactly. */
  lemma FitsExampleValues(s: string)
    requires |s| == 27
    requires ScanValue(s, 0) == Some(Read(7700000, 5))
    requires ScanValue(s, 5) == Some(Read(24039999, 10))
    requires ScanValue(s, 10) == Some(Read(440000, 14))
    requires ScanValue(s, 14) == Some(Read(149999, 18))
    requires ScanValue(s, 18) == Some(Read(510400, 22))
    requires ScanValue(s, 22) == Some(Read(1100599, 27))
    ensures Fits(s)
  {
    assert SignDecode(7700000) == 3850000 && SignDecode(24039999) == -12020000;
    assert SignDecode(440000) == 220000 && SignDecode(149999) == -75000;
    assert SignDecode(510400) == 255200 && SignDecode(1100599) == -550300;
    assert FitsFrom(s, 27, 4325200, -12645300);
    assert FitsFrom(s, 18, 4070000, -12095000);
    assert FitsFrom(s, 10, 3850000, -12020000);
  }

  /** It decodes to (38.5, -120.2), (40.7, -120.95), (43.252, -126.453),
      and lies in the range where the 32-bit loop agrees with the model. */
  lemma DecodeStandardExample()
    ensures Fits(StandardExample)
    ensures Decode(StandardExample) ==
      Success([Point(3850000, -12020000), Point(4070000, -12095000), Point(4325200, -12645300)])
  {
    LatValueOne(StandardExample);
    LngValueOne(StandardExample);
    LatValueTwo(StandardExample);
    LngValueTwo(StandardExample);
    LatValueThree(StandardExample);
    LngValueThree(StandardExample);
    DecodeExampleValues(StandardExample);
    FitsExampleValues(StandardExample);
  }

  /** A character below '?' is not rejected: ' ' gives `b = -31`, which has
      no continuation bit and whose low five bits are 1, so " ?" is the
      single point (-1, 0) (in 1e-5 degree). */
  lemma DecodeBelowQuestionMark()
    ensures Decode(" ?") == Success([Point(-1, 0)])
  {
    assert Byte(' ') == -31 && Chunk(' ') == 1 && !More(' ');
    assert ScanValue(" ?", 1) == Some(Read(0, 2));
    assert ScanValue(" ?", 0) == Some(Read(1, 1));
    DecodeFromStep(" ?", 0, 0, 0, 1, 1, 0, 2);
    assert SignDecode(1) == -1;
    assert [Point(-1, 0)] + [] == [Point(-1, 0)];
  }
}
