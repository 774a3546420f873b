/** The encoder the decoder inverts. The application only decodes; this
    module writes routes the way the Encoded Polyline Algorithm Format
    writes them (zig-zag sign step, five-bit groups lowest first, `+ 63`),
    so that the decoder's behaviour can be stated as a round trip. */
module PolylineEncoding {
  import opened Polyline
  import opened PolylineValues
  import opened PolylineProps

  /** Zig-zag code of a delta: non-negative `d` to `2d`, negative to `-2d - 1`. */
  function SignEncode(d: int): nat {
    if d < 0 then -2 * d - 1 else 2 * d
  }

  /** The sign step of the decoder undoes the zig-zag code... */
  lemma SignDecodeEncode(d: int)
    ensures SignDecode(SignEncode(d)) == d
  {
  }

  /** ...and every code is the zig-zag code of the delta it decodes to. */
  lemma SignEncodeDecode(v: nat)
    ensures SignEncode(SignDecode(v)) == v
  {
  }

  /** Groups of `v`, lowest first; every group but the last carries the
      continuation bit `0x20`, and each is offset by 63. */
  function EncodeValue(v: nat): (e: string)
    ensures |e| >= 1
    decreases v
  {
    if v < 32 then [(v + 63) as char]
    else [((v % 32) + 95) as char] + EncodeValue(v / 32)
  }

  /** The do-while reads an encoded value back whole, wherever it stands
      in the string and whatever follows it. */
  lemma {:induction false} ScanEncodedValue(v: nat, s: string, i: nat)
    requires i + |EncodeValue(v)| <= |s| && s[i..i + |EncodeValue(v)|] == EncodeValue(v)
    ensures ScanValue(s, i) == Some(Read(v, i + |EncodeValue(v)|))
    decreases v
  {
    var e := EncodeValue(v);
    assert s[i] == e[0];
    if v >= 32 {
      var rest := EncodeValue(v / 32);
      assert e == [e[0]] + rest;
      assert s[i + 1..i + |e|] == rest;
      assert More(s[i]) && Chunk(s[i]) == v % 32;
      ScanEncodedValue(v / 32, s, i + 1);
    }
  }

  /** A value below `2^(5n)` takes at most `n` characters; with `n` at
      `MaxGroups`, every value below bit 30 fits the decoder's shifts. */
  lemma {:induction false} EncodeValueLength(v: nat, n: nat)
    requires n >= 1 && v < Pow2(5 * n)
    ensures |EncodeValue(v)| <= n
    decreases v
  {
    if v >= 32 {
      Pow2Five();
      Pow2Add(5, 5 * (n - 1));
      assert 5 * n == 5 + 5 * (n - 1);
      if n > 1 {
        DivBelow(v, Pow2(5 * (n - 1)));
        EncodeValueLength(v / 32, n - 1);
      }
    }
  }

  lemma DivBelow(v: nat, p: nat)
    requires v < 32 * p
    ensures v / 32 < p
  {
  }

  /** Point `p` written as its two deltas from the totals `(lat, lng)`. */
  function EncodePoint(p: Point, lat: int, lng: int): string {
    EncodeValue(SignEncode(p.lat - lat)) + EncodeValue(SignEncode(p.lng - lng))
  }

  /** Route `ps` written point by point, each as deltas from the one before. */
  function EncodeFrom(ps: seq<Point>, lat: int, lng: int): string
    decreases |ps|
  {
    if ps == [] then []
    else EncodePoint(ps[0], lat, lng) + EncodeFrom(ps[1..], ps[0].lat, ps[0].lng)
  }

  function Encode(ps: seq<Point>): string {
    EncodeFrom(ps, 0, 0)
  }

  lemma PointBack(p: Point, lat: int, lng: int)
    ensures Point(lat + SignDecode(SignEncode(p.lat - lat)), lng + SignDecode(SignEncode(p.lng - lng))) == p
  {
  }

  /** One encoded point decodes to that point. */
  lemma DecodeEncodePoint(p: Point, lat: int, lng: int)
    ensures DecodeFrom(EncodePoint(p, lat, lng), 0, lat, lng) == Success([p])
  {
    var u1, u2 := SignEncode(p.lat - lat), SignEncode(p.lng - lng);
    var s := EncodePoint(p, lat, lng);
    assert s[0..] == s + [];
    var j, k := EncodedValuesAt(s, 0, u1, u2, []);
    DecodeFromStep(s, 0, lat, lng, u1, j, u2, k);
    PointBack(p, lat, lng);
    assert [p] + [] == [p];
  }

  /** Decoding from the totals the route was written from gives it back. */
  lemma {:induction false} DecodeEncodeFrom(ps: seq<Point>, lat: int, lng: int)
    ensures DecodeFrom(EncodeFrom(ps, lat, lng), 0, lat, lng) == Success(ps)
    decreases |ps|
  {
    if ps != [] {
      var p := ps[0];
      var a, t := EncodePoint(p, lat, lng), EncodeFrom(ps[1..], p.lat, p.lng);
      DecodeEncodePoint(p, lat, lng);
      DecodeFromAppend(a, t, 0, lat, lng);
      assert LastTotals([p], lat, lng) == p;
      DecodeEncodeFrom(ps[1..], p.lat, p.lng);
      assert [p] + ps[1..] == ps;
    }
  }

  /** Every route survives encoding and decoding unchanged. */
  lemma DecodeEncode(ps: seq<Point>)
    ensures Decode(Encode(ps)) == Success(ps)
  {
    DecodeEncodeFrom(ps, 0, 0);
  }

  /** A point on the globe, in 1e-5 degree: latitude within 90 degrees,
      longitude within 180 degrees. */
  predicate OnEarth(p: Point) {
    -9_000_000 <= p.lat <= 9_000_000 && -18_000_000 <= p.lng <= 18_000_000
  }

  /** `x`, `y` and `z` stand one after the other from index `i`. */
  lemma SliceThree(s: string, i: nat, x: string, y: string, z: string)
    requires i <= |s| && s[i..] == (x + y) + z
    ensures i + |x| + |y| + |z| == |s|
    ensures s[i..i + |x|] == x && s[i + |x|..i + |x| + |y|] == y && s[i + |x| + |y|..] == z
  {
    assert |s[i..]| == |s| - i;
    assert s[i..i + |x|] == s[i..][..|x|];
    assert s[i + |x|..i + |x| + |y|] == s[i..][|x|..|x| + |y|];
    assert s[i + |x| + |y|..] == s[i..][|x| + |y|..];
  }

  /** One pass of the outer loop inside `Fits`: two short values whose
      totals stay `Int`s, followed by a rest that fits. */
  lemma FitsFromStep(s: string, i: nat, lat: int, lng: int, v1: nat, j: nat, v2: nat, k: nat, q: Point)
    requires i < |s| && j <= |s| && k <= |s|
    requires ScanValue(s, i) == Some(Read(v1, j)) && ScanValue(s, j) == Some(Read(v2, k))
    requires j - i <= MaxGroups && k - j <= MaxGroups
    requires q == Point(lat + SignDecode(v1), lng + SignDecode(v2)) && InInt32(q.lat) && InInt32(q.lng)
    requires FitsFrom(s, k, q.lat, q.lng)
    ensures FitsFrom(s, i, lat, lng)
  {
  }

  /** Two encoded values followed by `t`, read from where they start: `t`
      starts at `k`. */
  lemma EncodedValuesAt(s: string, i: nat, u1: nat, u2: nat, t: string) returns (j: nat, k: nat)
    requires i <= |s| && s[i..] == (EncodeValue(u1) + EncodeValue(u2)) + t
    ensures j == i + |EncodeValue(u1)| && k == j + |EncodeValue(u2)| && k <= |s|
    ensures ScanValue(s, i) == Some(Read(u1, j)) && ScanValue(s, j) == Some(Read(u2, k))
    ensures s[k..] == t
  {
    var e1, e2 := EncodeValue(u1), EncodeValue(u2);
    j, k := i + |e1|, i + |e1| + |e2|;
    SliceThree(s, i, e1, e2, t);
    ScanEncodedValue(u1, s, i);
    ScanEncodedValue(u2, s, j);
  }

  /** A value below bit 30 takes at most six groups. */
  lemma EncodedValueGroups(u: nat)
    requires u < 0x4000_0000
    ensures |EncodeValue(u)| <= MaxGroups
  {
    Pow2Thirty();
    EncodeValueLength(u, MaxGroups);
  }

  /** An encoded point on the globe, written from totals on the globe and
      followed by `t`: its two values fit, and `t` starts at `k`. */
  lemma EncodedPointFits(s: string, i: nat, lat: int, lng: int, p: Point, t: string) returns (k: nat)
    requires OnEarth(Point(lat, lng)) && OnEarth(p)
    requires i <= |s| && s[i..] == EncodePoint(p, lat, lng) + t
    ensures k <= |s| && s[k..] == t
    ensures FitsFrom(s, k, p.lat, p.lng) ==> FitsFrom(s, i, lat, lng)
  {
    var u1, u2 := SignEncode(p.lat - lat), SignEncode(p.lng - lng);
    var j;
    j, k := EncodedValuesAt(s, i, u1, u2, t);
    EncodedValueGroups(u1);
    EncodedValueGroups(u2);
    SignDecodeEncode(p.lat - lat);
    SignDecodeEncode(p.lng - lng);
    if FitsFrom(s, k, p.lat, p.lng) {
      FitsFromStep(s, i, lat, lng, u1, j, u2, k, p);
    }
  }

  /** A route on the globe, written from totals on the globe, keeps every
      value within six groups and every total within the `Int` range. */
  lemma {:induction false} EncodedFitsFrom(ps: seq<Point>, lat: int, lng: int, s: string, i: nat)
    requires OnEarth(Point(lat, lng)) && forall k | 0 <= k < |ps| :: OnEarth(ps[k])
    requires i <= |s| && s[i..] == EncodeFrom(ps, lat, lng)
    ensures FitsFrom(s, i, lat, lng)
    decreases |ps|
  {
    if ps == [] {
      assert |s[i..]| == 0;
    } else {
      var t := EncodeFrom(ps[1..], ps[0].lat, ps[0].lng);
      var k := EncodedPointFits(s, i, lat, lng, ps[0], t);
      assert forall m | 0 <= m < |ps[1..]| :: OnEarth(ps[1..][m]);
      EncodedFitsFrom(ps[1..], ps[0].lat, ps[0].lng, s, k);
    }
  }

  /** Every route on the globe, encoded, lies inside `Fits`: however long it
      is, the 32-bit decoder reads it without overflow. */
  lemma EncodeFits(ps: seq<Point>)
    requires forall k | 0 <= k < |ps| :: OnEarth(ps[k])
    ensures Fits(Encode(ps))
  {
    var s := Encode(ps);
    assert s[0..] == s;
    EncodedFitsFrom(ps, 0, 0, s, 0);
  }
}
