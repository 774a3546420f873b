/** The Encoded Polyline Algorithm Format as `decodePolyline` reads it: the
    character-level steps, one variable-length value, the full decode, and the
    range of inputs on which 32-bit `Int` arithmetic agrees with `int`. */
module Polyline {

  /** A route point in the wire's integer units, 1e-5 degree of latitude and
      of longitude (the source divides these by 1E5 only to build a LatLng). */
  datatype Point = Point(lat: int, lng: int)

  /** `encoded[index]` with `index == encoded.length` throws; that is the only
      way the decoder fails. */
  datatype Error = ReadPastEnd

  datatype Result<T> = Success(value: T) | Failure(error: Error)

  datatype Option<T> = None | Some(value: T)

  /** One value as the inner do-while leaves it: the accumulated `result`
      and the `index` just after its last group. */
  datatype Read = Read(value: nat, next: nat)

  /** The values a Kotlin `Int` holds. */
  predicate InInt32(x: int) {
    -0x8000_0000 <= x < 0x8000_0000
  }

  type Int32 = x: int | InInt32(x)

  /** Longest value, in groups, whose bits all land below bit 30. */
  const MaxGroups: nat := 6

  function Pow2(n: nat): (r: nat)
    ensures r >= 1
  {
    if n == 0 then 1 else 2 * Pow2(n - 1)
  }

  lemma {:induction false} Pow2Add(a: nat, b: nat)
    ensures Pow2(a + b) == Pow2(a) * Pow2(b)
  {
    if a > 0 {
      Pow2Add(a - 1, b);
    }
  }

  lemma {:induction false} Pow2Monotone(a: nat, b: nat)
    requires a <= b
    ensures Pow2(a) <= Pow2(b)
  {
    if a < b {
      Pow2Monotone(a, b - 1);
    }
  }

  lemma Pow2Five()
    ensures Pow2(5) == 32
  {
  }

  lemma Pow2Thirty()
    ensures Pow2(30) == 0x4000_0000
  {
    Pow2Five();
    Pow2Add(5, 5);
    Pow2Add(10, 10);
    Pow2Add(20, 10);
  }

  /** `x shl n` for a result that does not leave the `Int`: the low `n` bits
      are clear and shifting back right by `n` gives `x`. */
  function Shl(x: nat, n: nat): (r: nat)
    ensures r % Pow2(n) == 0 && r / Pow2(n) == x
  {
    MultipleDiv(x, Pow2(n));
    x * Pow2(n)
  }

  /** The quotient and remainder of a multiple of `p`. */
  lemma MultipleDiv(x: nat, p: nat)
    requires p >= 1
    ensures (x * p) % p == 0 && (x * p) / p == x
  {
    var q, m := (x * p) / p, (x * p) % p;
    assert (x - q) * p == m;
    if q < x {
      assert false;
    } else if q > x {
      assert false;
    }
  }

  /** A group placed above `p` keeps the value below `32 * p`. */
  lemma GroupBelow(low: nat, g: nat, p: nat)
    requires low < p && g < 32
    ensures low + g * p < 32 * p
  {
  }

  /** Bitwise OR of two non-negative numbers, bit by bit from the lowest
      (Kotlin's `or` on non-negative `Int`s). */
  function BitOr(a: nat, b: nat): (r: nat)
    ensures a <= r && b <= r && r <= a + b
    decreases a + b
  {
    if a == 0 && b == 0 then 0
    else 2 * BitOr(a / 2, b / 2) + (if a % 2 == 1 || b % 2 == 1 then 1 else 0)
  }

  lemma {:induction false} BitOrZero(b: nat)
    ensures BitOr(0, b) == b
    decreases b
  {
    if b > 0 {
      BitOrZero(b / 2);
    }
  }

  /** `result or (g shl n)` adds `g * 2^n` when `result` has no bit at or
      above `n`: the OR the source writes is the sum the model computes. */
  lemma {:induction false} BitOrDisjoint(a: nat, g: nat, n: nat)
    requires a < Pow2(n)
    ensures BitOr(a, Shl(g, n)) == a + g * Pow2(n)
    decreases n
  {
    if n == 0 {
      BitOrZero(g);
    } else {
      var p := Pow2(n - 1);
      var b := g * Pow2(n);
      assert b == 2 * (g * p);
      assert b / 2 == g * p && b % 2 == 0;
      BitOrDisjoint(a / 2, g, n - 1);
      if a != 0 || b != 0 {
        assert BitOr(a, b) == 2 * BitOr(a / 2, b / 2) + (if a % 2 == 1 then 1 else 0);
      }
    }
  }

  /** `b = encoded[index].code - 63` (line 228): negative exactly for the
      characters below '?'. */
  function Byte(c: char): (b: int)
    ensures b < 0 <==> c < '?'
  {
    c as int - 63
  }

  /** `b and 0x1f`: the low five bits of the two's-complement `b`, which is
      Euclidean `b % 32` also when `b` is negative (a character below '?'). */
  function Chunk(c: char): (g: nat)
    ensures g < 32 && (Byte(c) - g) % 32 == 0
  {
    Byte(c) % 32
  }

  /** `b >= 0x20`: another group of the same value follows, which is the
      case exactly for the characters from '_' on. */
  predicate More(c: char): (m: bool)
    ensures m <==> c >= '_'
  {
    Byte(c) >= 0x20
  }

  /** The value that groups `cs` spell when the k-th of them is placed at
      bit 5k: the OR of `(b and 0x1f) shl 5k` over the groups. */
  function Bits(cs: seq<char>): nat {
    if cs == [] then 0
    else
      var n := |cs| - 1;
      Bits(cs[..n]) + Chunk(cs[n]) * Pow2(5 * n)
  }

  /** Groups `cs` set no bit at or above bit `5 * |cs|`. */
  lemma {:induction false} BitsBound(cs: seq<char>)
    ensures Bits(cs) < Pow2(5 * |cs|)
    decreases |cs|
  {
    if cs != [] {
      var n := |cs| - 1;
      BitsBound(cs[..n]);
      Pow2Add(5 * n, 5);
      Pow2Five();
      GroupBelow(Bits(cs[..n]), Chunk(cs[n]), Pow2(5 * n));
    }
  }

  /** How many characters the do-while reads from `i`: up to and including
      the first one without the continuation bit, or to the end. */
  function Span(s: string, i: nat): (n: nat)
    requires i <= |s|
    ensures i + n <= |s|
    ensures i < |s| ==> n >= 1
    decreases |s| - i
  {
    if i == |s| then 0
    else if !More(s[i]) then 1
    else 1 + Span(s, i + 1)
  }

  /** One value read from index `i`, group by group; `None` when the string
      ends while the continuation bit is still set. */
  function ScanValue(s: string, i: nat): (r: Option<Read>)
    requires i <= |s|
    ensures r.Some? ==> r.value.next == i + Span(s, i) && i < r.value.next <= |s|
    decreases |s| - i
  {
    if i == |s| then None
    else if !More(s[i]) then Some(Read(Chunk(s[i]), i + 1))
    else
      match ScanValue(s, i + 1)
      case None => None
      case Some(Read(v, j)) => Some(Read(Chunk(s[i]) + 32 * v, j))
  }

  /** Sign step of lines 232 and 242: `result and 1 != 0` selects
      `(result shr 1).inv()`, which is `-(v / 2) - 1`; otherwise `result shr 1`. */
  function SignDecode(v: nat): int {
    if v % 2 != 0 then -(v / 2) - 1 else v / 2
  }

  /** The decoded delta is the one integer whose zig-zag code is `v`: even
      codes are the non-negative deltas doubled, odd codes the negative ones. */
  lemma SignDecodeZigZag(v: nat)
    ensures v % 2 == 0 ==> SignDecode(v) >= 0 && 2 * SignDecode(v) == v
    ensures v % 2 == 1 ==> SignDecode(v) < 0 && -2 * SignDecode(v) - 1 == v
  {
  }

  function Prepend(ps: seq<Point>, r: Result<seq<Point>>): Result<seq<Point>> {
    match r
    case Success(qs) => Success(ps + qs)
    case Failure(e) => Failure(e)
  }

  lemma PrependPrepend(ps: seq<Point>, qs: seq<Point>, r: Result<seq<Point>>)
    ensures Prepend(ps, Prepend(qs, r)) == Prepend(ps + qs, r)
  {
    if r.Success? {
      assert ps + (qs + r.value) == (ps + qs) + r.value;
    }
  }

  /** The outer loop from index `i` with running totals `lat` and `lng`:
      a latitude value, a longitude value, one point, until `i` reaches the end. */
  function DecodeFrom(s: string, i: nat, lat: int, lng: int): (r: Result<seq<Point>>)
    requires i <= |s|
    ensures i == |s| ==> r == Success([])
    ensures r.Success? ==> 2 * |r.value| <= |s| - i
    decreases |s| - i
  {
    if i == |s| then Success([])
    else
      match ScanValue(s, i)
      case None => Failure(ReadPastEnd)
      case Some(Read(v1, j)) =>
        match ScanValue(s, j)
        case None => Failure(ReadPastEnd)
        case Some(Read(v2, k)) =>
          var p := Point(lat + SignDecode(v1), lng + SignDecode(v2));
          Prepend([p], DecodeFrom(s, k, p.lat, p.lng))
  }

  /** `decodePolyline(encoded)`: totals start at 0 (lines 220-221). */
  function Decode(s: string): (r: Result<seq<Point>>)
    ensures s == [] ==> r == Success([])
    ensures r.Success? ==> 2 * |r.value| <= |s|
  {
    DecodeFrom(s, 0, 0, 0)
  }

  /** From index `i` with totals `lat`, `lng`, every value the source reads
      has at most `MaxGroups` groups and every total it forms stays an `Int`. */
  predicate FitsFrom(s: string, i: nat, lat: int, lng: int)
    requires i <= |s|
    decreases |s| - i
  {
    i < |s| ==>
      Span(s, i) <= MaxGroups &&
      match ScanValue(s, i)
      case None => true
      case Some(Read(v1, j)) =>
        InInt32(lat + SignDecode(v1)) && Span(s, j) <= MaxGroups &&
        match ScanValue(s, j)
        case None => true
        case Some(Read(v2, k)) =>
          InInt32(lng + SignDecode(v2)) &&
          FitsFrom(s, k, lat + SignDecode(v1), lng + SignDecode(v2))
  }

  /** The inputs on which the 32-bit `Int`s of the source hold the values the
      model computes: no shift reaches bit 30 and no sum wraps. */
  predicate Fits(s: string) {
    FitsFrom(s, 0, 0, 0)
  }
}
