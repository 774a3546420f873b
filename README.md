# decodePolyline, modelled and proved in Dafny

The carpool app turns the route returned by the directions service into map
points with `decodePolyline`. That function reads the Encoded Polyline
Algorithm Format:

- Each character is one five-bit group: its code minus 63.
- Bit `0x20` of a group says that another group of the same value follows.
- A finished value is sign-decoded. For even values this is `v shr 1`; for odd values it is the bitwise inverse of `v shr 1`.
- Values alternate between a latitude delta and a longitude delta.
- The deltas are added to running totals that start at 0.
- One point is appended per pair of values.

The project models this function in two forms:

- **Pure functions** (module `Polyline`): `ScanValue` reads one value, `SignDecode` does the sign step, `DecodeFrom`/`Decode` run the whole outer loop.
- **Loops** (module `MainActivity`): `ReadValue` is the inner `do-while`, with `index`, `shift` and `result` as 32-bit `Int`s; `DecodePolyline` is the outer `while`, with `index`, `len`, `lat` and `lng` as 32-bit `Int`s and `poly` grown by appending.

The loops are proved equal to the functions. The functions are then proved to have these properties:

- **Value reading** (`PolylineValues`): what a value is, where reading stops, and when it runs off the end.
- **Reference decoder** (`PolylineProps`): an independent decoder written as a pipeline. The string is cut into values, the values are sign-decoded, and the deltas are summed per pair.
- **Properties of `Decode`** (`PolylineProps`):
  - exactly when decoding succeeds;
  - the running-total form of every point;
  - the effect of different starting totals;
  - decoding two routes written one after the other.
- **Examples** (`PolylineProps`): concrete strings and the format's published example.

Module `PolylineEncoding` is a verification aid: the application contains no encoder. It writes routes the way the format does, so that `Decode(Encode(ps)) == Success(ps)` can be proved for every route `ps`.

Points are pairs of integers in units of 1e-5 degree. The source divides
these by `1E5` only to build a `LatLng`.

Three behaviours of the code are worth stating outright:

- **Characters below `'?'`.** The code does not reject them. `b` becomes negative, `b and 0x1f` keeps its low five bits, and `b >= 0x20` is false, so the character ends a value (`DecodeBelowQuestionMark`). `Chunk` is Euclidean `b % 32`, which equals the two's-complement mask for negative `b` too.
- **Truncated input.** When the string ends while a value still has its continuation bit set, or after a latitude value with no longitude value, the code reads `encoded[len]`, which throws in Kotlin. The model returns `Failure(ReadPastEnd)` at that point.
- **The format's standard example.** `"_p~iF~ps|U_ulLnnqC_mqNvxq`@"` holds six values, so the code decodes it to three points: (38.5, -120.2), (40.7, -120.95) and (43.252, -126.453) (`DecodeStandardExample`).

Bitwise `or` is modelled as `BitOr`, a bit-by-bit OR on natural numbers.
`BitOrDisjoint` proves that `BitOr` is plain addition when the new group lies
above every bit already set; that is what each `do-while` pass does.

Kotlin's `Int` is 32 bits. `DecodePolyline` requires `Fits(encoded)`. That
predicate holds when every value the loop reads has at most six groups, which
keeps every shift and OR below bit 30, and when every running total stays in
the `Int` range. `DecodePolyline` also requires fewer than 2^31 characters,
since a Kotlin string's `length` is an `Int`. Under these conditions, the
`Int32`-typed locals of `DecodePolyline` and `ReadValue` prove that no step
overflows. So on those inputs the unbounded `int` of the model computes exactly
what the 32-bit code computes. `EncodeFits` shows that every encoded route of
points on the globe satisfies `Fits`, however long it is. The pure functions
are total, and cover every string.

## Model

| member | source | states |
|---|---|---|
| MainActivity.DecodePolyline | app/src/main/java/com/example/mock_carpool/MainActivity.kt:216-253 | The loop (outer `while`, two value reads per pass, totals carried, one point appended per pass) returns exactly `Decode(encoded)`, including failure when an index runs past the end; its 32-bit locals never overflow on inputs that satisfy `Fits` |
| MainActivity.ReadValue | app/src/main/java/com/example/mock_carpool/MainActivity.kt:224-231 | One `do-while` (lines 224-231 and 235-241 are the same loop) returns exactly `ScanValue(encoded, start)`; a value read within `MaxGroups` groups is below 2^30 |
| Polyline.ScanValue | app/src/main/java/com/example/mock_carpool/MainActivity.kt:227-231 | A value that is read completely ends after at least one character and within the string, one index per group: `next = i + Span(s, i)` |
| Polyline.Byte | app/src/main/java/com/example/mock_carpool/MainActivity.kt:228 | `code - 63` is negative exactly for the characters below `'?'` |
| Polyline.Chunk | app/src/main/java/com/example/mock_carpool/MainActivity.kt:229 | `b and 0x1f` is a group below 32 that differs from `b` by a multiple of 32, which makes it the low five bits for negative `b` as well |
| Polyline.More | app/src/main/java/com/example/mock_carpool/MainActivity.kt:231 | `b >= 0x20` holds exactly for the characters from `'_'` on: another group of the same value follows |
| Polyline.Shl | app/src/main/java/com/example/mock_carpool/MainActivity.kt:229 | `x shl n` clears the low `n` bits, and shifting back right by `n` gives `x` |
| Polyline.BitOr | app/src/main/java/com/example/mock_carpool/MainActivity.kt:229 | `a or b` on non-negative numbers is at least `a` and at least `b`, and at most `a + b` |
| Polyline.BitOrDisjoint | app/src/main/java/com/example/mock_carpool/MainActivity.kt:229 | `result or (g shl n)` equals `result + g * 2^n` when `result < 2^n` |
| Polyline.BitsBound | app/src/main/java/com/example/mock_carpool/MainActivity.kt:227-231 | A value spelled by `n` groups is below `2^(5n)` |
| Polyline.SignDecodeZigZag | app/src/main/java/com/example/mock_carpool/MainActivity.kt:232 | An even value `v` decodes to `d >= 0` with `2d = v`; an odd value decodes to `d < 0` with `-2d - 1 = v` (also line 242) |
| Polyline.SignDecode | app/src/main/java/com/example/mock_carpool/MainActivity.kt:232 | The sign step (also line 242); it has no contract of its own and is characterised by `SignDecodeZigZag`, `SignDecodeEncode` and `SignEncodeDecode` |
| Polyline.DecodeFrom | app/src/main/java/com/example/mock_carpool/MainActivity.kt:223-250 | At the end of the string the loop yields no points; a successful run yields at most one point per two characters left |
| Polyline.Decode | app/src/main/java/com/example/mock_carpool/MainActivity.kt:216-252 | The empty string decodes to the empty route; a route decoded from `s` has at most `|s| / 2` points |
| Polyline.FitsFrom | app/src/main/java/com/example/mock_carpool/MainActivity.kt:223-243 | The range of inputs, from index `i` and totals `(lat, lng)`, where every value has at most six groups and every total stays an `Int`; it has no contract of its own and is characterised by `EncodedFitsFrom` and by `MainActivity.DecodePolyline`, whose `Int32` locals rely on it |
| Polyline.Fits | app/src/main/java/com/example/mock_carpool/MainActivity.kt:216-243 | `FitsFrom` from the start, with totals 0 (lines 220-221); it has no contract of its own and is characterised by `EncodeFits` and `FitsExampleValues` |
| PolylineValues.GroupStep | app/src/main/java/com/example/mock_carpool/MainActivity.kt:228-230 | One pass of the `do-while` body ORs group `j` in at shift `5 * (j - i)`, extending the value by that group, and a value of at most `MaxGroups` groups stays below 2^30 |
| PolylineValues.ScanValueGroups | app/src/main/java/com/example/mock_carpool/MainActivity.kt:227-231 | A value read from `i` to `j`: every group before `j - 1` has the continuation bit, group `j - 1` does not, and the value is the groups placed five bits apart, lowest first |
| PolylineValues.ScanValueSome | app/src/main/java/com/example/mock_carpool/MainActivity.kt:227-231 | Conversely, groups laid out that way are read as exactly that value, ending at exactly `j` |
| PolylineValues.ScanValueNone | app/src/main/java/com/example/mock_carpool/MainActivity.kt:228-231 | Reading runs off the end of the string exactly when every character from `i` on has the continuation bit |
| PolylineValues.ScanValueShift | app/src/main/java/com/example/mock_carpool/MainActivity.kt:227-231 | Characters in front of index `i` do not change the value read at `i` (its end index moves with them) |
| PolylineValues.ScanValuePrefix | app/src/main/java/com/example/mock_carpool/MainActivity.kt:227-231 | Characters after a complete value do not change it |
| PolylineProps.TokenizeShape | app/src/main/java/com/example/mock_carpool/MainActivity.kt:223-241 | From `i` the string holds one value per character without the continuation bit, and its last value is complete exactly when the string ends on such a character |
| PolylineProps.DecodeFromStep | app/src/main/java/com/example/mock_carpool/MainActivity.kt:223-249 | Step helper for concrete strings: one pass of the outer loop, with two values read and the point of the updated totals prepended to the rest of the route; this is `DecodeFrom`'s own defining equation |
| PolylineProps.DecodeFromIsReference | app/src/main/java/com/example/mock_carpool/MainActivity.kt:216-253 | The loop-shaped decoder equals the pipeline (cut into values, sign-decode, sum per pair) from every index and every pair of starting totals, failures included |
| PolylineProps.DecodeSucceedsIff | app/src/main/java/com/example/mock_carpool/MainActivity.kt:223-241 | Decoding succeeds if and only if the string is empty or ends on a final group, and it holds an even number of values; otherwise a read goes past the end |
| PolylineProps.DecodeRunningTotals | app/src/main/java/com/example/mock_carpool/MainActivity.kt:220-249 | A decoded route has one point per pair of values (half as many points as values), and point `k` is the sum of the first `k + 1` latitude deltas and of the first `k + 1` longitude deltas |
| PolylineProps.DecodeFromTranslates | app/src/main/java/com/example/mock_carpool/MainActivity.kt:220-243 | Starting from totals `(lat, lng)` moves every point by exactly `(lat, lng)` and does not change whether decoding succeeds |
| PolylineProps.TokenizeShift | app/src/main/java/com/example/mock_carpool/MainActivity.kt:223-231 | The values from index `i` of `b` are the values from index `|a| + i` of `a + b` |
| PolylineProps.DecodeFromShift | app/src/main/java/com/example/mock_carpool/MainActivity.kt:223-250 | Characters in front of index `i` do not change how the rest of the string decodes |
| PolylineProps.TokenizeAppend | app/src/main/java/com/example/mock_carpool/MainActivity.kt:223-241 | After a complete run of values in `a`, `a + b` goes on with the values of `b` |
| PolylineProps.TrackAppend | app/src/main/java/com/example/mock_carpool/MainActivity.kt:233-249 | Summing two runs of deltas gives the route of the first run, then the route of the second started from where the first left the totals |
| PolylineProps.DecodeFromAppend | app/src/main/java/com/example/mock_carpool/MainActivity.kt:223-250 | When `a` decodes from `i`, `a + b` decodes to those points followed by `b` decoded from the totals `a` ends with |
| PolylineProps.DecodeAppend | app/src/main/java/com/example/mock_carpool/MainActivity.kt:216-253 | Order and continuity: two encoded routes written one after the other decode to the first route, then the second moved by the last point of the first |
| PolylineProps.DecodeOneQuestionMark | app/src/main/java/com/example/mock_carpool/MainActivity.kt:228-238 | `"?"` holds one complete latitude value and no longitude value, so the second read goes past the end |
| PolylineProps.DecodeTwoQuestionMarks | app/src/main/java/com/example/mock_carpool/MainActivity.kt:228-249 | `"??"` decodes to the single point (0, 0) |
| PolylineProps.DecodeBelowQuestionMark | app/src/main/java/com/example/mock_carpool/MainActivity.kt:228-232 | A character below `'?'` is not rejected: `" ?"` decodes to the single point (-1, 0) |
| PolylineProps.DecodeExampleValues | app/src/main/java/com/example/mock_carpool/MainActivity.kt:223-250 | 27 characters holding the six values of the published example decode to its three points |
| PolylineProps.FitsExampleValues | app/src/main/java/com/example/mock_carpool/MainActivity.kt:229-243 | The same six values have at most six groups each and keep the totals in the `Int` range |
| PolylineProps.DecodeStandardExample | app/src/main/java/com/example/mock_carpool/MainActivity.kt:216-253 | The published example decodes to (38.5, -120.2), (40.7, -120.95), (43.252, -126.453) and lies inside `Fits`, so `DecodePolyline` applies to it and returns that route |
| PolylineEncoding.SignDecodeEncode | app/src/main/java/com/example/mock_carpool/MainActivity.kt:232 | The sign step undoes the zig-zag code of every delta |
| PolylineEncoding.SignEncodeDecode | app/src/main/java/com/example/mock_carpool/MainActivity.kt:232 | Every value is the zig-zag code of the delta it decodes to |
| PolylineEncoding.ScanEncodedValue | app/src/main/java/com/example/mock_carpool/MainActivity.kt:227-231 | The `do-while` reads an encoded value back whole, wherever it stands and whatever follows it |
| PolylineEncoding.EncodeValueLength | app/src/main/java/com/example/mock_carpool/MainActivity.kt:229-230 | A value below `2^(5n)` takes at most `n` groups, so every value below bit 30 fits within the six groups the 32-bit shifts allow |
| PolylineEncoding.DecodeEncodePoint | app/src/main/java/com/example/mock_carpool/MainActivity.kt:223-249 | One encoded point decodes to that point |
| PolylineEncoding.DecodeEncode | app/src/main/java/com/example/mock_carpool/MainActivity.kt:216-253 | Every route survives encoding and decoding unchanged |
| PolylineEncoding.EncodedFitsFrom | app/src/main/java/com/example/mock_carpool/MainActivity.kt:223-243 | A route of points within 90 degrees of latitude and 180 degrees of longitude, encoded from totals on the globe, lies inside `FitsFrom` from where it starts |
| PolylineEncoding.EncodeFits | app/src/main/java/com/example/mock_carpool/MainActivity.kt:216-243 | Every encoded route of points on the globe satisfies `Fits`, whatever its length, so `DecodePolyline` returns it with no 32-bit overflow |

## Left out

- The Compose UI of `CarpoolApp`, `CarpoolAppPreview` and `MainActivity` (lines 34-168) is left out: it is presentation code over the Android and Maps libraries.
- `searchForRoute` (lines 170-213) is left out: it is an HTTP request through Volley, JSON field access and callbacks, all network I/O and foreign calls.
- The conversion `lat.toDouble() / 1E5` and the `LatLng` built from it (lines 245-248) are left out because they are floating point. Points stay integers in 1e-5 degree.
- MainActivity.DecodePolyline: requires fewer than 2^31 characters, as every Kotlin string has. It also requires `Fits(encoded)` and does not model Kotlin's 32-bit wrap-around or the masking of shift distances, which the code reaches only with values of seven or more groups or with totals beyond the `Int` range. The pure `Decode` is total but describes unbounded integers on those inputs.
- MainActivity.ReadValue: requires at most `MaxGroups` groups from `start`, for the same reason, and fewer than 2^31 characters.
- Kotlin's `Char.code` is a UTF-16 code unit, while a Dafny `char` is a Unicode scalar value. They differ only for characters above U+FFFF, which the format never uses.
- `poly` is an `ArrayList` appended to in place; the model uses a sequence that each pass extends by one point. No other code holds that list during the loop.
- `Encode(Decode(s)) == s` is not stated. It does not hold in general: a value can be written with redundant zero groups, and characters below `'?'` decode without error, so many strings decode to the same route.
- `Fits` is shown for encoded routes of points on the globe (`EncodeFits`) and for the standard example. It is not characterised for arbitrary strings, for example strings with redundant zero groups or characters below `'?'`.
