# UriBeacon URL encoder, modelled in Dafny

This project models the URL compressor of the UriBeacon example advertiser,
`AdvertiseDataUtils`. It turns a URI into the service-data payload of a
UriBeacon / Eddystone-URL frame. The first octet is a scheme code from the
`URI_SCHEMES` table: 0 `http://www.`, 1 `https://www.`, 2 `http://`,
3 `https://`, 4 `urn:uuid:`. For the four network schemes the rest of the URL
follows. At each position the longest of the 14 `URL_CODES` suffixes
(`.com/` … `.gov`) that occurs there is replaced by its code 0..13. Any other
character is copied as its low 8 bits. For `urn:uuid:` the rest is parsed as a
UUID (section 3 of RFC 4122) and written as 16 octets: the 64 most significant
bits, then the 64 least significant bits, each big-endian. Everything is
written into a `ByteBuffer` whose capacity is the length of the URI, and the
written prefix is copied out at the end.

Layout:

- `wrappers.dfy`: `Option`, standing for a Java reference that may be `null`.
- `bytes.dfy`: octets and big-endian numbers, the layout `putLong` uses.
- `uuid.dfy`: the canonical UUID text, its parser and its lower-case rendering.
- `byte_buffer.dfy`: the class `ByteBuffer`, with a fixed-size array and a
  write position.
- `advertise_data_utils.dfy`: the two tables and every method of
  `AdvertiseDataUtils`. Each method is imperative, as in the source, and is
  proved against a specification function (`SchemeOf`, `LongestExpansion`,
  `EncodeTail`, `UuidOctets`, `Encoding`).
- `encoding_properties.dfy`: lemmas about those functions. They cover the
  ordering rule of the scheme table, the longest-match rule, the length bounds,
  the UUID layout and two round trips.

Java strings are Dafny `string`s, indexed as `charAt` indexes them. A Java
`byte` is an octet 0..255, which is its bit pattern. A 64-bit half of a UUID
is a natural number below 2^64, which is the bit pattern of the `long`.
`encodeUri`'s `null` argument and `null` result are both `None`.

Notes on the code's behaviour:

- A `null` or empty URI gives an empty array. It does not give an error.
- `http://` is a prefix of `http://www.`, and `https://` is a prefix of
  `https://www.`. The first-match scan picks the longer prefix only because
  the table lists it first (`SchemeTablePrefixes`, `SchemeOfIsLongest`).
- The code has no decoder. `Expand` and `Uuid.Format` are used only as
  reference inverses in the round-trip lemmas.

## Model

| member | source | states |
|---|---|---|
| `AdvertiseDataUtils.ToLower` | beacons/android/app/src/main/java/org/uribeacon/example/beacon/AdvertiseDataUtils.java:109 | lower-casing keeps the length and maps each character on its own, so the prefix length found in the lower-cased text is also the prefix length in the original text |
| `AdvertiseDataUtils.LowByte` | beacons/android/app/src/main/java/org/uribeacon/example/beacon/AdvertiseDataUtils.java:128 | the `(byte)` cast keeps the low 8 bits, so a character below 256 is copied unchanged |
| `AdvertiseDataUtils.SchemeScan` | beacons/android/app/src/main/java/org/uribeacon/example/beacon/AdvertiseDataUtils.java:110-118 | from table index `i` on, the scan returns the first code whose prefix the text starts with, with no earlier match; it returns none only when no code from `i` on matches |
| `AdvertiseDataUtils.SchemeOf` | beacons/android/app/src/main/java/org/uribeacon/example/beacon/AdvertiseDataUtils.java:108-119 | the scheme code is in 0..4, the lower-cased URI starts with its prefix, and no smaller code's prefix matches; it is `None` exactly when no prefix matches |
| `AdvertiseDataUtils.EncodeUriScheme` | beacons/android/app/src/main/java/org/uribeacon/example/beacon/AdvertiseDataUtils.java:108-119 | the loop with its early return computes exactly `SchemeOf`, which is the first-match rule above |
| `AdvertiseDataUtils.ExpansionScan` | beacons/android/app/src/main/java/org/uribeacon/example/beacon/AdvertiseDataUtils.java:94-104 | after the first `n` entries, `expansion` is -1 (and its length 0) exactly when none of them occurs at `pos`; otherwise it is a matching entry, no matching entry is longer, and an equally long one never has a smaller code (the strict `>`) |
| `AdvertiseDataUtils.LongestExpansion` | beacons/android/app/src/main/java/org/uribeacon/example/beacon/AdvertiseDataUtils.java:93-106 | the result is -1 exactly when no table string occurs at `pos`; otherwise it is a code 0..13 that is a longest match, with ties going to the smaller code |
| `AdvertiseDataUtils.FindLongestExpansion` | beacons/android/app/src/main/java/org/uribeacon/example/beacon/AdvertiseDataUtils.java:93-106 | the loop that keeps `expansion` and `expansionLength` returns exactly `LongestExpansion` |
| `AdvertiseDataUtils.Step` | beacons/android/app/src/main/java/org/uribeacon/example/beacon/AdvertiseDataUtils.java:123-129 | each iteration writes one octet and moves the position forward by at least 1, without passing the end of the string |
| `AdvertiseDataUtils.EncodeTail` | beacons/android/app/src/main/java/org/uribeacon/example/beacon/AdvertiseDataUtils.java:121-132 | the octets of the greedy loop from `pos` on are never more than the characters left, so the loop terminates and fits the buffer |
| `AdvertiseDataUtils.EncodeUrl` | beacons/android/app/src/main/java/org/uribeacon/example/beacon/AdvertiseDataUtils.java:121-132 | if there is room for one octet per remaining character, the loop appends exactly `EncodeTail(url, position)` to the buffer, never overflows it, and returns a fresh array holding everything written |
| `AdvertiseDataUtils.UuidOctets` | beacons/android/app/src/main/java/org/uribeacon/example/beacon/AdvertiseDataUtils.java:143-146 | the UUID form of a parsed UUID is exactly 16 octets |
| `AdvertiseDataUtils.EncodeUrnUuid` | beacons/android/app/src/main/java/org/uribeacon/example/beacon/AdvertiseDataUtils.java:134-148 | the result is `null`, with the buffer unchanged, exactly when the text does not parse; otherwise the two halves are appended big-endian and the whole buffer is returned in a fresh array |
| `AdvertiseDataUtils.EncodeUri` | beacons/android/app/src/main/java/org/uribeacon/example/beacon/AdvertiseDataUtils.java:56-84 | the method returns `null` exactly when `Encoding` is `None`, and otherwise a fresh array holding exactly `Encoding`'s octets; no buffer write overflows the capacity `uri.length()` |
| `ByteBuffers.ByteBuffer.Allocate` | beacons/android/app/src/main/java/org/uribeacon/example/beacon/AdvertiseDataUtils.java:61 | `allocate` gives a fresh, empty buffer of the requested capacity |
| `ByteBuffers.ByteBuffer.Put` | beacons/android/app/src/main/java/org/uribeacon/example/beacon/AdvertiseDataUtils.java:125-128 | with room left, `put` appends exactly one octet and changes nothing already written |
| `ByteBuffers.ByteBuffer.PutLong` | beacons/android/app/src/main/java/org/uribeacon/example/beacon/AdvertiseDataUtils.java:144-146 | with 8 octets of room, `putLong` appends the 8 big-endian octets of the 64-bit value |
| `ByteBuffers.ByteBuffer.ToArray` | beacons/android/app/src/main/java/org/uribeacon/example/beacon/AdvertiseDataUtils.java:150-155 | the copy is a fresh array whose length is the position and whose contents are the octets written, in order |
| `Bytes.BigEndian` | beacons/android/app/src/main/java/org/uribeacon/example/beacon/AdvertiseDataUtils.java:62-63 | a value written in big-endian order takes exactly `n` octets |
| `Bytes.FromBigEndian` | beacons/android/app/src/main/java/org/uribeacon/example/beacon/AdvertiseDataUtils.java:62-63 | `n` octets read most significant first give a number below 256^n |
| `Bytes.FromBigEndianOfBigEndian` | beacons/android/app/src/main/java/org/uribeacon/example/beacon/AdvertiseDataUtils.java:143-146 | a value that fits in `n` octets is read back from its big-endian octets |
| `Bytes.BigEndianOfFromBigEndian` | beacons/android/app/src/main/java/org/uribeacon/example/beacon/AdvertiseDataUtils.java:143-146 | any octet sequence is the big-endian form of the number it denotes, so that form is unique |
| `Uuid.HexValue` | beacons/android/app/src/main/java/org/uribeacon/example/beacon/AdvertiseDataUtils.java:138 | `n` hexadecimal digits denote a number below 16^n, so 16 digits fit a `long` |
| `Uuid.HexValueOfHexDigits` | beacons/android/app/src/main/java/org/uribeacon/example/beacon/AdvertiseDataUtils.java:138 | writing a number with `n` hexadecimal digits and reading them back gives the number |
| `Uuid.Parse` | beacons/android/app/src/main/java/org/uribeacon/example/beacon/AdvertiseDataUtils.java:135-142 | a successful parse needs the 36-character form, and gives two halves below 2^64 |
| `Uuid.ParseFormat` | beacons/android/app/src/main/java/org/uribeacon/example/beacon/AdvertiseDataUtils.java:135-142 | every pair of 64-bit halves is parsed back from its canonical lower-case text, so the parser covers every UUID |
| `EncodingProperties.SchemeTablePrefixes` | beacons/android/app/src/main/java/org/uribeacon/example/beacon/AdvertiseDataUtils.java:20-26 | the only table prefix that starts another one is "http://" (of "http://www.") and "https://" (of "https://www."), and the longer one always has the smaller code |
| `EncodingProperties.SchemeOfIsLongest` | beacons/android/app/src/main/java/org/uribeacon/example/beacon/AdvertiseDataUtils.java:108-119 | because of that order, the first matching scheme is also the longest matching one, so "http://www." wins over "http://" |
| `EncodingProperties.UrlCodesDistinct` | beacons/android/app/src/main/java/org/uribeacon/example/beacon/AdvertiseDataUtils.java:32-47 | the 14 expansion strings are pairwise distinct |
| `EncodingProperties.SameLengthMatchesAreEqual` | beacons/android/app/src/main/java/org/uribeacon/example/beacon/AdvertiseDataUtils.java:96-104 | at most one expansion of a given length occurs at a position, so the tie-break never has to choose |
| `EncodingProperties.LongestMatchIsPicked` | beacons/android/app/src/main/java/org/uribeacon/example/beacon/AdvertiseDataUtils.java:93-106 | any longest match at a position is the code `findLongestExpansion` returns, so the result is uniquely determined |
| `EncodingProperties.UrlCodesAtMostSix` | beacons/android/app/src/main/java/org/uribeacon/example/beacon/AdvertiseDataUtils.java:32-47 | every expansion has 1 to 6 characters |
| `EncodingProperties.EncodeTailLength` | beacons/android/app/src/main/java/org/uribeacon/example/beacon/AdvertiseDataUtils.java:121-132 | the body has at most one octet per character left and at least one octet per six characters |
| `EncodingProperties.UrlCodesStartWithDot` | beacons/android/app/src/main/java/org/uribeacon/example/beacon/AdvertiseDataUtils.java:32-47 | every expansion starts with '.' |
| `EncodingProperties.LiteralStep` | beacons/android/app/src/main/java/org/uribeacon/example/beacon/AdvertiseDataUtils.java:123-129 | at a character other than '.', no expansion occurs, the low 8 bits of the character are written and the position moves by one |
| `EncodingProperties.Piece` | beacons/android/app/src/main/java/org/uribeacon/example/beacon/AdvertiseDataUtils.java:28-47 | an octet of a URL body stands for at least one character |
| `EncodingProperties.Expand` | beacons/android/app/src/main/java/org/uribeacon/example/beacon/AdvertiseDataUtils.java:28-47 | a URL body stands for at least as many characters as it has octets |
| `EncodingProperties.StepPiece` | beacons/android/app/src/main/java/org/uribeacon/example/beacon/AdvertiseDataUtils.java:123-129 | at a literal character, the octet an iteration writes stands for exactly the text between the old and the new position |
| `EncodingProperties.ExpandEncodeTail` | beacons/android/app/src/main/java/org/uribeacon/example/beacon/AdvertiseDataUtils.java:121-132 | if every remaining character is outside 0..13 and below 256, expanding the body gives back exactly the remaining text |
| `EncodingProperties.EncodingOfEmpty` | beacons/android/app/src/main/java/org/uribeacon/example/beacon/AdvertiseDataUtils.java:57-60 | a `null` or empty URI gives the empty array |
| `EncodingProperties.EncodingIsNull` | beacons/android/app/src/main/java/org/uribeacon/example/beacon/AdvertiseDataUtils.java:56-83 | the result is `null` exactly for a non-empty URI with no known scheme, or with scheme `urn:uuid:` and a tail that does not parse |
| `EncodingProperties.EncodingLayout` | beacons/android/app/src/main/java/org/uribeacon/example/beacon/AdvertiseDataUtils.java:61-78 | the first octet is the scheme code; a network URL's body is encoded from the original, unlowered text after the prefix and is at least 6 octets shorter than the URI; no result is longer than the buffer of `uri.length()` octets |
| `EncodingProperties.UuidOctetsLayout` | beacons/android/app/src/main/java/org/uribeacon/example/beacon/AdvertiseDataUtils.java:143-146 | code 4 followed by the two big-endian halves is 17 octets, and octets 1..8 and 9..16 read back as the two halves |
| `EncodingProperties.UuidLayout` | beacons/android/app/src/main/java/org/uribeacon/example/beacon/AdvertiseDataUtils.java:134-148 | for `urn:uuid:` with a tail that parses, the result is exactly 17 octets: 4, the most significant 64 bits, then the least significant 64 bits |
| `EncodingProperties.ToLowerPrefix` | beacons/android/app/src/main/java/org/uribeacon/example/beacon/AdvertiseDataUtils.java:109 | lower-casing a prefix gives the prefix of the lower-cased string |
| `EncodingProperties.NetworkUrlRoundTrip` | beacons/android/app/src/main/java/org/uribeacon/example/beacon/AdvertiseDataUtils.java:72-78 | for a network URL whose remaining characters are all literal ones, the scheme prefix of the first octet plus the expanded body is the URI with only its prefix lower-cased |
| `EncodingProperties.SchemeOfUrnUuid` | beacons/android/app/src/main/java/org/uribeacon/example/beacon/AdvertiseDataUtils.java:25 | a URI whose lower-cased form starts with "urn:uuid:" gets scheme code 4 |
| `EncodingProperties.UuidRoundTrip` | beacons/android/app/src/main/java/org/uribeacon/example/beacon/AdvertiseDataUtils.java:79-81 | "urn:uuid:" followed by the canonical text of any UUID encodes to 4 and its two big-endian halves |

## Left out

- `UriBeaconAdvertiserActivity` is not part of this model. It holds the Android activity lifecycle, the Bluetooth LE advertiser, dialogs, the timer that changes the URL every minute, and the SHA-1 / Base64 hash of the time. It also prepends the frame header octets 0x10 and 0xBA to the encoder's output.
- `Log.i` calls are logging only.
- `URLUtil.isNetworkUrl(scheme)` is an Android call. It is replaced by "the scheme code is below 4", which is when the prefix is an `http://` or `https://` one. The final `return null` of `encodeUri` is then unreachable.
- Uuid.Parse: accepts only the canonical 8-4-4-4-12 form with ASCII hexadecimal digits. `UUID.fromString` is a library call and is more lenient: it also takes shorter groups such as `1-1-1-1-1`, and its digit test accepts non-ASCII digits. The model returns `None` for those texts, where the code would produce 17 octets.
- AdvertiseDataUtils.ToLower: lower-cases only `A`..`Z`, while `toLowerCase(Locale.ENGLISH)` also maps non-ASCII letters. This does not change the outcome of the prefix test, because no non-ASCII character lower-cases to a string that can complete a match of one of the five prefixes.
- Java strings are sequences of UTF-16 code units, while Dafny characters are Unicode scalar values. A character outside the Basic Multilingual Plane is two code units in Java and gives two literal octets there; in the model it is one character and gives one octet.
- ByteBuffers.ByteBuffer.Put and ByteBuffers.ByteBuffer.PutLong: require room in the buffer, while `java.nio.ByteBuffer` would throw `BufferOverflowException`. `EncodeUri` proves that this never happens, so the exception path is not modelled.
- AdvertiseDataUtils.LowByte: the signed reading of the Java `byte` is not modelled. The model uses the octet's unsigned value, which has the same bit pattern.
- There is no decoder in the code. The round trips use `Expand` and `Uuid.Format` as reference inverses. They hold only for literal characters outside 0..13 and below 256, and the scheme prefix comes back lower-cased.
