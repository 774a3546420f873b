/** What one value is: the groups the inner do-while reads, where it stops,
    and the number it accumulates; and how reading a value depends only on
    the characters it covers. */
module PolylineValues {
  import opened Polyline

  lemma ConsStep(first: int, low: int, g: int, p: int)
    ensures first + 32 * low + g * (32 * p) == first + 32 * (low + g * p)
  {
  }

  /** Shifting the value left by one group and putting `c` below it. */
  lemma {:induction false} BitsCons(c: char, cs: seq<char>)
    ensures Bits([c] + cs) == Chunk(c) + 32 * Bits(cs)
    decreases |cs|
  {
    if cs == [] {
      assert ([c] + cs)[..0] == [];
    } else {
      var n := |cs| - 1;
      var t := [c] + cs;
      assert t[..n + 1] == [c] + cs[..n];
      assert t[n + 1] == cs[n];
      BitsCons(c, cs[..n]);
      Pow2Add(5, 5 * n);
      Pow2Five();
      var low, g, p := Bits(cs[..n]), Chunk(cs[n]), Pow2(5 * n);
      assert Pow2(5 * (n + 1)) == 32 * p;
      assert Bits(t) == Chunk(c) + 32 * low + g * (32 * p);
      ConsStep(Chunk(c), low, g, p);
      assert Bits(cs) == low + g * p;
    }
  }

  /** One more group at the top, as the do-while adds it. */
  lemma BitsSnoc(s: string, i: nat, j: nat)
    requires i <= j < |s|
    ensures Bits(s[i..j + 1]) == Bits(s[i..j]) + Chunk(s[j]) * Pow2(5 * (j - i))
  {
    assert s[i..j + 1][..j - i] == s[i..j];
  }

  /** One pass of the do-while body over `s[j]`: OR-ing the group in at
      `shift` extends the value by that group, and with at most `MaxGroups`
      groups it stays below bit 30. */
  lemma GroupStep(s: string, i: nat, j: nat, result: nat, shift: nat)
    requires i <= j < |s| && j + 1 - i <= MaxGroups
    requires result == Bits(s[i..j]) && shift == 5 * (j - i)
    ensures BitOr(result, Shl(Chunk(s[j]), shift)) == Bits(s[i..j + 1])
    ensures Bits(s[i..j + 1]) < 0x4000_0000
  {
    BitsSnoc(s, i, j);
    BitsBound(s[i..j]);
    BitsBound(s[i..j + 1]);
    BitOrDisjoint(result, Chunk(s[j]), shift);
    Pow2Monotone(shift + 5, 30);
    Pow2Thirty();
  }

  /** A value read from `i` ends at `j`: every group before `j - 1` carries
      the continuation bit, the one at `j - 1` does not, and the value is the
      groups' bits placed five apart, lowest first. */
  lemma {:induction false} ScanValueGroups(s: string, i: nat)
    requires i <= |s|
    requires ScanValue(s, i).Some?
    ensures var j := ScanValue(s, i).value.next;
      && (forall k | i <= k < j - 1 :: More(s[k]))
      && !More(s[j - 1])
      && ScanValue(s, i).value.value == Bits(s[i..j])
    decreases |s| - i
  {
    if !More(s[i]) {
      assert s[i..i + 1] == [s[i]] + [];
      BitsCons(s[i], []);
    } else {
      ScanValueGroups(s, i + 1);
      var j := ScanValue(s, i).value.next;
      assert s[i..j] == [s[i]] + s[i + 1..j];
      BitsCons(s[i], s[i + 1..j]);
    }
  }

  /** The converse: groups laid out that way are read as exactly that value,
      ending at exactly that index. */
  lemma {:induction false} ScanValueSome(s: string, i: nat, j: nat)
    requires i < j <= |s|
    requires forall k | i <= k < j - 1 :: More(s[k])
    requires !More(s[j - 1])
    ensures ScanValue(s, i) == Some(Read(Bits(s[i..j]), j))
    decreases j - i
  {
    if j == i + 1 {
      assert s[i..j] == [s[i]] + [];
      BitsCons(s[i], []);
    } else {
      ScanValueSome(s, i + 1, j);
      assert s[i..j] == [s[i]] + s[i + 1..j];
      BitsCons(s[i], s[i + 1..j]);
    }
  }

  /** Reading runs off the end exactly when every character from `i` on
      carries the continuation bit. */
  lemma {:induction false} ScanValueNone(s: string, i: nat)
    requires i <= |s|
    ensures ScanValue(s, i).None? <==> forall k | i <= k < |s| :: More(s[k])
    decreases |s| - i
  {
    if i < |s| {
      ScanValueNone(s, i + 1);
    }
  }

  function Offset(r: Option<Read>, n: nat): Option<Read> {
    match r
    case None => None
    case Some(Read(v, j)) => Some(Read(v, j + n))
  }

  /** Characters in front of index `i` do not change the value read there. */
  lemma {:induction false} ScanValueShift(a: string, b: string, i: nat)
    requires i <= |b|
    ensures ScanValue(a + b, |a| + i) == Offset(ScanValue(b, i), |a|)
    decreases |b| - i
  {
    if i < |b| {
      assert (a + b)[|a| + i] == b[i];
      ScanValueShift(a, b, i + 1);
    }
  }

  /** Characters after a complete value do not change it. */
  lemma {:induction false} ScanValuePrefix(a: string, b: string, i: nat)
    requires i <= |a|
    requires ScanValue(a, i).Some?
    ensures ScanValue(a + b, i) == ScanValue(a, i)
    decreases |a| - i
  {
    assert (a + b)[i] == a[i];
    if More(a[i]) {
      ScanValuePrefix(a, b, i + 1);
    }
  }
}
