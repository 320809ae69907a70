/**
 * The UriBeacon / Eddystone-URL compressor of `AdvertiseDataUtils`: a URI is
 * turned into one scheme octet followed either by the compressed rest of an
 * HTTP(S) URL or by the 16 octets of a UUID.
 */
module AdvertiseDataUtils {
  import opened Wrappers
  import opened Bytes
  import opened ByteBuffers
  import Uuid

  /** `URI_SCHEMES`: the scheme prefix that each code 0..4 stands for. */
  const UriSchemes: seq<string> := ["http://www.", "https://www.", "http://", "https://", "urn:uuid:"]

  /** The code of the `urn:uuid:` scheme; the codes below it are network URLs. */
  const UrnUuidCode: nat := 4

  /** `URL_CODES`: the text that each expansion code 0..13 stands for. */
  const UrlCodes: seq<string> :=
    [".com/", ".org/", ".edu/", ".net/", ".info/", ".biz/", ".gov/",
     ".com", ".org", ".edu", ".net", ".info", ".biz", ".gov"]

  // ---------------------------------------------------------------- text

  /** `String.startsWith(prefix, at)`: false when `prefix` would run past the end. */
  predicate StartsWith(s: string, prefix: string, at: nat)
  {
    at + |prefix| <= |s| && s[at..at + |prefix|] == prefix
  }

  /** Lower-casing of one character, restricted to the ASCII letters. */
  function LowerChar(c: char): char
  {
    if 'A' <= c <= 'Z' then (c as int - 'A' as int + 'a' as int) as char else c
  }

  /** `toLowerCase(Locale.ENGLISH)` on ASCII text: a same-length, letter-by-letter map. */
  function ToLower(s: string): (r: string)
    ensures |r| == |s|
    ensures forall i | 0 <= i < |s| :: r[i] == LowerChar(s[i])
  {
    seq(|s|, i requires 0 <= i < |s| => LowerChar(s[i]))
  }

  /** `(byte) c`: the low 8 bits of a character. */
  function LowByte(c: char): (b: Byte)
    ensures c as int < 256 ==> b == c as int
  {
    (c as int) % 256
  }

  // ---------------------------------------------------------------- scheme

  /** The scan of `encodeUriScheme` from table index `i` on: the first scheme `lower` starts with. */
  function SchemeScan(lower: string, i: nat): (r: Option<nat>)
    requires i <= |UriSchemes|
    decreases |UriSchemes| - i
    ensures r.Some? ==> i <= r.value < |UriSchemes| && StartsWith(lower, UriSchemes[r.value], 0)
    ensures r.Some? ==> forall j | i <= j < r.value :: !StartsWith(lower, UriSchemes[j], 0)
    ensures r.None? ==> forall j | i <= j < |UriSchemes| :: !StartsWith(lower, UriSchemes[j], 0)
  {
    if i == |UriSchemes| then None
    else if StartsWith(lower, UriSchemes[i], 0) then Some(i)
    else SchemeScan(lower, i + 1)
  }

  /**
   * The scheme code of `uri`: the smallest code whose prefix the lower-cased
   * `uri` starts with, or `None` when there is none.
   */
  function SchemeOf(uri: string): (r: Option<nat>)
    ensures r.Some? ==> r.value < |UriSchemes| && StartsWith(ToLower(uri), UriSchemes[r.value], 0)
    ensures r.Some? ==> forall j | 0 <= j < r.value :: !StartsWith(ToLower(uri), UriSchemes[j], 0)
    ensures r.None? ==> forall j | 0 <= j < |UriSchemes| :: !StartsWith(ToLower(uri), UriSchemes[j], 0)
  {
    SchemeScan(ToLower(uri), 0)
  }

  /** `encodeUriScheme`: the scan over `URI_SCHEMES` with an early return. */
  method EncodeUriScheme(uri: string) returns (code: Option<nat>)
    ensures code == SchemeOf(uri)
  {
    var lowerCaseUri := ToLower(uri);
    for i := 0 to |UriSchemes|
      invariant forall j | 0 <= j < i :: !StartsWith(lowerCaseUri, UriSchemes[j], 0)
    {
      if StartsWith(lowerCaseUri, UriSchemes[i], 0) {
        return Some(i);
      }
    }
    return None;
  }

  // ---------------------------------------------------------------- expansion

  /** Expansion `k` occurs in `s` at `pos`. */
  predicate MatchesAt(s: string, pos: nat, k: nat)
  {
    k < |UrlCodes| && StartsWith(s, UrlCodes[k], pos)
  }

  /**
   * `k` is the expansion `findLongestExpansion` must pick at `pos`: it occurs
   * there, no occurring expansion is longer, and no occurring one of the same
   * length has a smaller code.
   */
  ghost predicate IsLongestMatch(s: string, pos: nat, k: nat)
  {
    MatchesAt(s, pos, k) &&
    forall j | 0 <= j < |UrlCodes| && MatchesAt(s, pos, j) ::
      |UrlCodes[j]| < |UrlCodes[k]| || (|UrlCodes[j]| == |UrlCodes[k]| && k <= j)
  }

  /**
   * The state `(expansion, expansionLength)` of `findLongestExpansion` after
   * visiting the first `n` table entries.
   */
  function ExpansionScan(s: string, pos: nat, n: nat): (r: (int, nat))
    requires n <= |UrlCodes|
    ensures r.0 == -1 <==> forall j | 0 <= j < n :: !MatchesAt(s, pos, j)
    ensures r.0 == -1 ==> r.1 == 0
    ensures r.0 != -1 ==> 0 <= r.0 < n && r.1 == |UrlCodes[r.0]| && MatchesAt(s, pos, r.0)
    ensures r.0 != -1 ==> forall j | 0 <= j < n && MatchesAt(s, pos, j) ::
      |UrlCodes[j]| < r.1 || (|UrlCodes[j]| == r.1 && r.0 <= j)
  {
    if n == 0 then (-1, 0)
    else
      var (expansion, expansionLength) := ExpansionScan(s, pos, n - 1);
      if |UrlCodes[n - 1]| > expansionLength && StartsWith(s, UrlCodes[n - 1], pos) then
        assert MatchesAt(s, pos, n - 1);
        (n - 1, |UrlCodes[n - 1]|)
      else
        (expansion, expansionLength)
  }

  /**
   * The code `findLongestExpansion` returns: -1 when no expansion occurs at
   * `pos`. The method's own doc comment says "0 if none", but its code starts
   * from -1 and keeps that value when nothing matches; the model follows the
   * code.
   */
  function LongestExpansion(s: string, pos: nat): (r: int)
    ensures r == -1 <==> forall j | 0 <= j < |UrlCodes| :: !MatchesAt(s, pos, j)
    ensures r != -1 ==> 0 <= r < |UrlCodes| && IsLongestMatch(s, pos, r)
  {
    ExpansionScan(s, pos, |UrlCodes|).0
  }

  /** `findLongestExpansion`: one pass over `URL_CODES` keeping the longest match. */
  method FindLongestExpansion(uriString: string, pos: nat) returns (expansion: int)
    ensures expansion == LongestExpansion(uriString, pos)
  {
    expansion := -1;
    var expansionLength := 0;
    for i := 0 to |UrlCodes|
      invariant (expansion, expansionLength) == ExpansionScan(uriString, pos, i)
    {
      var value := UrlCodes[i];
      if |value| > expansionLength && StartsWith(uriString, value, pos) {
        expansion := i;
        expansionLength := |value|;
      }
    }
  }

  // ---------------------------------------------------------------- URL body

  /**
   * One iteration of the loop of `encodeUrl` at `pos`: the octet it writes (the
   * longest expansion's code, or else the character's low octet) and the
   * position it moves to.
   */
  function Step(s: string, pos: nat): (r: (Byte, nat))
    requires pos < |s|
    ensures pos < r.1 <= |s|
  {
    var e := LongestExpansion(s, pos);
    if e >= 0 then (e as Byte, pos + |UrlCodes[e]|) else (LowByte(s[pos]), pos + 1)
  }

  /** The octets that the loop of `encodeUrl` writes for `s` from `pos` on. */
  function EncodeTail(s: string, pos: nat): (r: seq<Byte>)
    requires pos <= |s|
    ensures |r| <= |s| - pos
    decreases |s| - pos
  {
    if pos == |s| then [] else [Step(s, pos).0] + EncodeTail(s, Step(s, pos).1)
  }

  /** Moving the next octet from the pending tail to the written prefix keeps their concatenation. */
  lemma AppendShift(written: seq<Byte>, rest: seq<Byte>, b: Byte, tail: seq<Byte>)
    requires rest == [b] + tail
    ensures written + rest == (written + [b]) + tail
  {
  }

  /** `encodeUrl`: the greedy loop over the rest of a network URL, writing into `bb`. */
  method EncodeUrl(url: string, position: nat, bb: ByteBuffer) returns (bytes: array<Byte>)
    requires bb.Valid() && position <= |url|
    requires bb.pos + (|url| - position) <= bb.data.Length
    modifies bb, bb.data
    ensures bb.Valid()
    ensures bb.Written() == old(bb.Written()) + EncodeTail(url, position)
    ensures fresh(bytes) && bytes[..] == bb.Written()
  {
    var p := position;
    ghost var goal := bb.Written() + EncodeTail(url, position);
    while p < |url|
      invariant position <= p <= |url| && bb.Valid()
      invariant bb.pos + (|url| - p) <= bb.data.Length
      invariant bb.Written() + EncodeTail(url, p) == goal
      decreases |url| - p
    {
      ghost var written, rest, step := bb.Written(), EncodeTail(url, p), Step(url, p);
      var expansion := FindLongestExpansion(url, p);
      if expansion >= 0 {
        bb.Put(expansion as Byte);
        p := p + |UrlCodes[expansion]|;
      } else {
        bb.Put(LowByte(url[p]));
        p := p + 1;
      }
      assert p == step.1;
      AppendShift(written, rest, step.0, EncodeTail(url, p));
    }
    bytes := bb.ToArray();
  }

  // ---------------------------------------------------------------- UUID body

  /**
   * The 16 octets `encodeUrnUuid` writes for the UUID text `t`: the 64 most
   * significant bits, then the 64 least significant bits, each big-endian;
   * `None` where `t` does not parse.
   */
  function UuidOctets(t: string): (r: Option<seq<Byte>>)
    ensures r.Some? ==> |r.value| == 16
  {
    match Uuid.Parse(t)
    case None => None
    case Some((msb, lsb)) => Some(BigEndian(msb, 8) + BigEndian(lsb, 8))
  }

  /** `encodeUrnUuid`: parses the rest of `urn` as a UUID and writes its 128 bits into `bb`. */
  method EncodeUrnUuid(urn: string, position: nat, bb: ByteBuffer) returns (bytes: array?<Byte>)
    requires bb.Valid() && position <= |urn|
    requires UuidOctets(urn[position..]).Some? ==> bb.pos + 16 <= bb.data.Length
    modifies bb, bb.data
    ensures bb.Valid()
    ensures bytes == null <==> UuidOctets(urn[position..]).None?
    ensures bytes == null ==> bb.Written() == old(bb.Written())
    ensures bytes != null ==>
      bb.Written() == old(bb.Written()) + UuidOctets(urn[position..]).value &&
      fresh(bytes) && bytes[..] == bb.Written()
  {
    var uuidString := urn[position..|urn|];
    assert uuidString == urn[position..];
    var uuid := Uuid.Parse(uuidString);
    if uuid.None? {
      return null;
    }
    var (msb, lsb) := uuid.value;
    bb.PutLong(msb);
    bb.PutLong(lsb);
    bytes := bb.ToArray();
  }

  // ---------------------------------------------------------------- whole URI

  /**
   * What `encodeUri` produces once the scheme `code` is known: the scheme octet,
   * then the compressed rest of a network URL or the 16 octets of the UUID;
   * `None` for a UUID text that does not parse.
   */
  function EncodeAfterScheme(s: string, code: nat): (r: Option<seq<Byte>>)
    requires code < |UriSchemes| && |UriSchemes[code]| <= |s|
  {
    var position := |UriSchemes[code]|;
    if code < UrnUuidCode then
      Some([code as Byte] + EncodeTail(s, position))
    else if UuidOctets(s[position..]).None? then
      None
    else
      Some([code as Byte] + UuidOctets(s[position..]).value)
  }

  /**
   * What `encodeUri` returns for `uri` (`None` stands for a `null` argument):
   * `Some` of the encoded octets, or `None` for the `null` result.
   */
  function Encoding(uri: Option<string>): (r: Option<seq<Byte>>)
  {
    match uri
    case None => Some([])
    case Some(s) =>
      if |s| == 0 then Some([])
      else match SchemeOf(s)
        case None => None
        case Some(code) => EncodeAfterScheme(s, code)
  }

  /**
   * `encodeUri`. `URLUtil.isNetworkUrl(scheme)` holds exactly for the codes
   * below `UrnUuidCode`; the remaining code is `urn:uuid:`, so the final
   * `return null` of the source is never reached.
   */
  method EncodeUri(uri: Option<string>) returns (r: array?<Byte>)
    ensures r == null <==> Encoding(uri).None?
    ensures r != null ==> fresh(r) && r[..] == Encoding(uri).value
  {
    if uri.None? || |uri.value| == 0 {
      return new Byte[0];
    }
    var s := uri.value;
    var bb := new ByteBuffer.Allocate(|s|);
    var schemeCode := EncodeUriScheme(s);
    if schemeCode.None? {
      return null;
    }
    var code := schemeCode.value;
    var scheme := UriSchemes[code];
    bb.Put(code as Byte);
    var position := |scheme|;
    if code < UrnUuidCode {
      r := EncodeUrl(s, position, bb);
    } else {
      assert scheme == "urn:uuid:";
      r := EncodeUrnUuid(s, position, bb);
    }
  }
}
