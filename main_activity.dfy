/** `decodePolyline` of MainActivity.kt as the loops it is written with: an
    outer `while` over the string and, for each coordinate, two `do-while`
    loops that read one value each. */
module MainActivity {
  import opened Polyline
  import PolylineValues

  /** One of the two do-while loops (lines 224-231 and 235-241): from `start`,
      read groups until one lacks the continuation bit. `None` stands for the
      read of `encoded[index]` at the end of the string, which throws. */
  method ReadValue(encoded: string, start: nat) returns (r: Option<Read>)
    requires start <= |encoded| < 0x8000_0000
    requires Span(encoded, start) <= MaxGroups
    ensures r == ScanValue(encoded, start)
    ensures r.Some? ==> r.value.value < 0x4000_0000
  {
    var index: Int32 := start;
    var shift: Int32 := 0;
    var result: Int32 := 0;
    while true
      invariant start <= index <= |encoded|
      invariant forall k | start <= k < index :: More(encoded[k])
      invariant shift == 5 * (index - start)
      invariant result == Bits(encoded[start..index]) < 0x4000_0000
      invariant Span(encoded, start) == index - start + Span(encoded, index)
      decreases |encoded| - index
    {
      if index == |encoded| {
        PolylineValues.ScanValueNone(encoded, start);
        return None;
      }
      var b := Byte(encoded[index]);
      // `result or (b and 0x1f shl shift)`: the new group lies above every
      // bit of `result`, and `shift` stays at most 25.
      PolylineValues.GroupStep(encoded, start, index, result, shift);
      index := index + 1;
      result := BitOr(result, Shl(b % 0x20, shift));
      shift := shift + 5;
      if b < 0x20 {
        PolylineValues.ScanValueSome(encoded, start, index);
        return Some(Read(result, index));
      }
    }
  }

  /** `decodePolyline(encoded)`. Each iteration of the outer loop reads a
      latitude value, then a longitude value, adds the sign-decoded deltas to
      the running totals and appends one point to `poly`. A Kotlin string's
      length is an `Int`, so `encoded` has fewer than 2^31 characters. */
  method DecodePolyline(encoded: string) returns (r: Result<seq<Point>>)
    requires |encoded| < 0x8000_0000
    requires Fits(encoded)
    ensures r == Decode(encoded)
  {
    var poly: seq<Point> := [];
    var index: Int32 := 0;
    var len: Int32 := |encoded|;
    var lat: Int32 := 0;
    var lng: Int32 := 0;
    assert Prepend(poly, DecodeFrom(encoded, index, lat, lng)) == DecodeFrom(encoded, 0, 0, 0) by {
      assert forall qs: seq<Point> :: [] + qs == qs;
    }
    while index < len
      invariant 0 <= index <= len
      invariant FitsFrom(encoded, index, lat, lng)
      invariant Decode(encoded) == Prepend(poly, DecodeFrom(encoded, index, lat, lng))
      decreases len - index
    {
      ghost var before, at, lat0, lng0 := poly, index, lat, lng;
      var latValue := ReadValue(encoded, index);
      if latValue.None? {
        return Failure(ReadPastEnd);
      }
      index := latValue.value.next;
      lat := lat + SignDecode(latValue.value.value);

      var lngValue := ReadValue(encoded, index);
      if lngValue.None? {
        return Failure(ReadPastEnd);
      }
      index := lngValue.value.next;
      lng := lng + SignDecode(lngValue.value.value);

      poly := poly + [Point(lat, lng)];
      assert DecodeFrom(encoded, at, lat0, lng0) == Prepend([Point(lat, lng)], DecodeFrom(encoded, index, lat, lng));
      PrependPrepend(before, [Point(lat, lng)], DecodeFrom(encoded, index, lat, lng));
    }
    assert poly + [] == poly;
    return Success(poly);
  }
}
