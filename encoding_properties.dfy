/**
 * Properties of the encoder of `AdvertiseDataUtils`: the ordering rule of the
 * scheme table, the longest-match rule, the length bound that keeps the
 * buffer from overflowing, the layout of the UUID form, and what each octet of
 * a URL body stands for.
 */
module EncodingProperties {
  import opened Wrappers
  import opened Bytes
  import opened AdvertiseDataUtils
  import Uuid

  // ---------------------------------------------------------------- scheme table

  /**
   * The only scheme prefixes that extend another one are "http://www." and
   * "https://www.", and each is listed before the prefix it extends.
   */
  lemma SchemeTablePrefixes(i: nat, j: nat)
    requires i < |UriSchemes| && j < |UriSchemes| && i != j
    ensures StartsWith(UriSchemes[j], UriSchemes[i], 0) <==> (i == 2 && j == 0) || (i == 3 && j == 1)
  {
    var a, b := UriSchemes[i], UriSchemes[j];
    if (i == 2 && j == 0) || (i == 3 && j == 1) {
      assert b[..|a|] == a;
    } else if i == UrnUuidCode || j == UrnUuidCode {
      DifferAt(a, b, 0);
    } else if (i == 0 && j == 2) || (i == 1 && j == 3) {
      assert |a| > |b|;
    } else {
      DifferAt(a, b, 4);
    }
  }

  /** A string that differs from `prefix` at some index does not start with it. */
  lemma DifferAt(prefix: string, s: string, k: nat)
    requires k < |prefix| && k < |s| && prefix[k] != s[k]
    ensures !StartsWith(s, prefix, 0)
  {
    if |prefix| <= |s| {
      assert s[0..|prefix|][k] != prefix[k];
    }
  }

  /**
   * Because of that ordering, the first matching scheme is also the longest
   * matching one, and a longer match is never shadowed by a shorter one.
   */
  lemma {:induction false} SchemeOfIsLongest(uri: string, j: nat)
    requires j < |UriSchemes| && StartsWith(ToLower(uri), UriSchemes[j], 0)
    ensures SchemeOf(uri).Some?
    ensures |UriSchemes[j]| <= |UriSchemes[SchemeOf(uri).value]|
  {
    var lower := ToLower(uri);
    var k := SchemeOf(uri).value;
    var a, b := UriSchemes[k], UriSchemes[j];
    if |b| > |a| {
      assert k < j;
      assert b[..|a|] == lower[..|b|][..|a|] == lower[..|a|] == a;
      SchemeTablePrefixes(k, j);
    }
  }

  // ---------------------------------------------------------------- expansion table

  /** The expansion strings are pairwise distinct. */
  lemma UrlCodesDistinct(i: nat, j: nat)
    requires i < |UrlCodes| && j < |UrlCodes| && i != j
    ensures UrlCodes[i] != UrlCodes[j]
  {
  }

  /**
   * At most one expansion of any given length occurs at a position, so the
   * tie-break on equal lengths never has to choose.
   */
  lemma SameLengthMatchesAreEqual(s: string, pos: nat, i: nat, j: nat)
    requires MatchesAt(s, pos, i) && MatchesAt(s, pos, j)
    requires |UrlCodes[i]| == |UrlCodes[j]|
    ensures i == j
  {
    if i != j {
      UrlCodesDistinct(i, j);
    }
  }

  /** Whatever expansion is a longest match at `pos` is the one that is picked. */
  lemma LongestMatchIsPicked(s: string, pos: nat, k: nat)
    requires IsLongestMatch(s, pos, k)
    ensures LongestExpansion(s, pos) == k
  {
    var e := LongestExpansion(s, pos);
    assert e != -1 by { assert MatchesAt(s, pos, k); }
    SameLengthMatchesAreEqual(s, pos, e, k);
  }

  // ---------------------------------------------------------------- URL body

  /** No expansion is longer than six characters (".info/"). */
  lemma UrlCodesAtMostSix(k: nat)
    requires k < |UrlCodes|
    ensures 1 <= |UrlCodes[k]| <= 6
  {
  }

  /**
   * Each octet stands for one to six characters, so the body is at most as
   * long as the text it encodes and at least a sixth of it.
   */
  lemma {:induction false} EncodeTailLength(s: string, pos: nat)
    requires pos <= |s|
    ensures |s| - pos <= 6 * |EncodeTail(s, pos)|
    ensures |EncodeTail(s, pos)| <= |s| - pos
    decreases |s| - pos
  {
    if pos < |s| {
      var e := LongestExpansion(s, pos);
      if e >= 0 {
        UrlCodesAtMostSix(e);
      }
      EncodeTailLength(s, Step(s, pos).1);
    }
  }

  /** Every expansion starts with a dot. */
  lemma UrlCodesStartWithDot(k: nat)
    requires k < |UrlCodes|
    ensures UrlCodes[k][0] == '.'
  {
  }

  /** Where the character is not a dot, no expansion occurs and the character is copied. */
  lemma LiteralStep(s: string, pos: nat)
    requires pos < |s| && s[pos] != '.'
    ensures Step(s, pos) == (LowByte(s[pos]), pos + 1)
  {
    forall k | 0 <= k < |UrlCodes|
      ensures !MatchesAt(s, pos, k)
    {
      UrlCodesStartWithDot(k);
      if pos + |UrlCodes[k]| <= |s| {
        assert s[pos..pos + |UrlCodes[k]|][0] != UrlCodes[k][0];
      }
    }
  }

  /**
   * The text an octet of a URL body stands for: the expansion for the codes
   * 0..13, and otherwise the character with that value. The source has no
   * decoder; this is the reading the format prescribes.
   */
  function Piece(b: Byte): (t: string)
    ensures 1 <= |t|
  {
    if b < |UrlCodes| then UrlCodes[b] else [b as char]
  }

  /** The text a sequence of body octets stands for. */
  function Expand(b: seq<Byte>): (t: string)
    ensures |b| <= |t|
  {
    if b == [] then [] else Piece(b[0]) + Expand(b[1..])
  }

  /** A character that the body can carry as a literal octet without being read as a code. */
  predicate IsLiteral(c: char)
  {
    |UrlCodes| <= c as int < 256
  }

  /**
   * One loop iteration replaces the text between `pos` and the next position
   * by an octet that stands for exactly that text, provided the character at
   * `pos` is a literal one.
   */
  lemma StepPiece(s: string, pos: nat)
    requires pos < |s| && IsLiteral(s[pos])
    ensures s[pos..Step(s, pos).1] == Piece(Step(s, pos).0)
  {
    var e := LongestExpansion(s, pos);
    if e >= 0 {
      assert MatchesAt(s, pos, e);
    }
  }

  /** A suffix is the piece up to `j` followed by the suffix from `j`. */
  lemma SplitAt(s: string, i: nat, j: nat)
    requires i <= j <= |s|
    ensures s[i..] == s[i..j] + s[j..]
  {
  }

  /**
   * Every octet of the body stands for exactly the text it replaced: an
   * expansion code for the expansion that occurs there, a literal for its own
   * character. This needs each literal character to lie outside 0..13 (those
   * octets are codes) and below 256 (the cast keeps the low 8 bits).
   */
  lemma {:induction false} ExpandEncodeTail(s: string, pos: nat)
    requires pos <= |s|
    requires forall i | pos <= i < |s| :: IsLiteral(s[i])
    ensures Expand(EncodeTail(s, pos)) == s[pos..]
    decreases |s| - pos
  {
    if pos < |s| {
      var (b, next) := Step(s, pos);
      var rest := EncodeTail(s, next);
      ExpandEncodeTail(s, next);
      assert ([b] + rest)[1..] == rest;
      StepPiece(s, pos);
      SplitAt(s, pos, next);
    }
  }

  // ---------------------------------------------------------------- whole URI

  /** A `null` or empty argument gives the empty array. */
  lemma EncodingOfEmpty()
    ensures Encoding(None) == Some([])
    ensures Encoding(Some("")) == Some([])
  {
  }

  /**
   * The result is `null` exactly for a non-empty argument that starts with no
   * known scheme, or whose `urn:uuid:` tail does not parse.
   */
  lemma EncodingIsNull(s: string)
    ensures Encoding(Some(s)).None? <==>
      |s| > 0 && (SchemeOf(s).None? ||
                  (SchemeOf(s) == Some(UrnUuidCode) && Uuid.Parse(s[|UriSchemes[UrnUuidCode]|..]).None?))
  {
  }

  /**
   * The first octet is the scheme code; the rest of a network URL is encoded
   * from the argument as given, so only the scheme prefix is read lower-cased.
   * The result is never longer than the argument, which is the capacity of
   * the buffer `encodeUri` allocates; a network URL loses at least six
   * characters to its one-octet scheme.
   */
  lemma {:induction false} EncodingLayout(s: string)
    requires Encoding(Some(s)).Some? && |s| > 0
    ensures var b := Encoding(Some(s)).value;
      var code := SchemeOf(s).value;
      |b| <= |s| && b[0] == code &&
      (code < UrnUuidCode ==> b[1..] == EncodeTail(s, |UriSchemes[code]|) && |b| <= |s| - 6)
  {
    var b := Encoding(Some(s)).value;
    var code := SchemeOf(s).value;
    var n := |UriSchemes[code]|;
    if code < UrnUuidCode {
      assert b == [code as Byte] + EncodeTail(s, n);
      assert n >= 7;
    }
  }

  /** Code 4 followed by two big-endian halves: 17 octets from which both halves read back. */
  lemma UuidOctetsLayout(msb: nat, lsb: nat)
    requires msb < TWO_64 && lsb < TWO_64
    ensures var b := [UrnUuidCode as Byte] + (BigEndian(msb, 8) + BigEndian(lsb, 8));
      |b| == 17 && b[0] == UrnUuidCode && FromBigEndian(b[1..9]) == msb && FromBigEndian(b[9..17]) == lsb
  {
    var hi, lo := BigEndian(msb, 8), BigEndian(lsb, 8);
    var b := [UrnUuidCode as Byte] + (hi + lo);
    assert b[1..9] == hi && b[9..17] == lo;
    Pow256Of8();
    FromBigEndianOfBigEndian(msb, 8);
    FromBigEndianOfBigEndian(lsb, 8);
  }

  /**
   * The `urn:uuid:` form is exactly 17 octets: code 4, then the 64 most
   * significant bits, then the 64 least significant bits, each big-endian.
   */
  lemma UuidLayout(s: string, msb: nat, lsb: nat)
    requires |s| > 0 && SchemeOf(s) == Some(UrnUuidCode)
    requires Uuid.Parse(s[|UriSchemes[UrnUuidCode]|..]) == Some((msb, lsb))
    ensures Encoding(Some(s)).Some?
    ensures var b := Encoding(Some(s)).value;
      |b| == 17 && b[0] == UrnUuidCode && FromBigEndian(b[1..9]) == msb && FromBigEndian(b[9..17]) == lsb
  {
    var hi, lo := BigEndian(msb, 8), BigEndian(lsb, 8);
    assert Encoding(Some(s)) == Some([UrnUuidCode as Byte] + (hi + lo)) by {
      assert Encoding(Some(s)) == EncodeAfterScheme(s, UrnUuidCode);
    }
    UuidOctetsLayout(msb, lsb);
  }

  /** Lower-casing leaves characters other than 'A'..'Z' alone. */
  lemma ToLowerPrefix(s: string, n: nat)
    requires n <= |s|
    ensures ToLower(s)[..n] == ToLower(s[..n])
  {
  }

  /**
   * Reading the scheme code and then the body octets gives back the argument,
   * with its scheme prefix lower-cased and the rest in its original case,
   * whenever every character after the prefix is a literal one.
   */
  lemma {:induction false} NetworkUrlRoundTrip(s: string)
    requires |s| > 0 && SchemeOf(s).Some? && SchemeOf(s).value < UrnUuidCode
    requires forall i | |UriSchemes[SchemeOf(s).value]| <= i < |s| :: IsLiteral(s[i])
    ensures var b := Encoding(Some(s)).value;
      var n := |UriSchemes[SchemeOf(s).value]|;
      Encoding(Some(s)).Some? && UriSchemes[b[0]] + Expand(b[1..]) == ToLower(s[..n]) + s[n..]
  {
    var code := SchemeOf(s).value;
    var n := |UriSchemes[code]|;
    var b := Encoding(Some(s)).value;
    assert b == [code as Byte] + EncodeTail(s, n);
    assert b[1..] == EncodeTail(s, n);
    ExpandEncodeTail(s, n);
    ToLowerPrefix(s, n);
  }

  /** An argument whose lower-cased form starts with "urn:uuid:" has scheme code 4. */
  lemma SchemeOfUrnUuid(s: string)
    requires StartsWith(ToLower(s), UriSchemes[UrnUuidCode], 0)
    ensures SchemeOf(s) == Some(UrnUuidCode)
  {
    var lower := ToLower(s);
    forall j | 0 <= j < UrnUuidCode
      ensures !StartsWith(lower, UriSchemes[j], 0)
    {
      assert lower[0] == lower[..9][0] == 'u';
      DifferAt(UriSchemes[j], lower, 0);
    }
  }

  /** The canonical text of any UUID, behind `urn:uuid:`, encodes to its 16 octets. */
  lemma UuidRoundTrip(msb: nat, lsb: nat)
    requires msb < TWO_64 && lsb < TWO_64
    ensures Encoding(Some("urn:uuid:" + Uuid.Format(msb, lsb))) ==
      Some([UrnUuidCode as Byte] + BigEndian(msb, 8) + BigEndian(lsb, 8))
  {
    var t := Uuid.Format(msb, lsb);
    var s := "urn:uuid:" + t;
    assert SchemeOf(s) == Some(UrnUuidCode) by {
      assert ToLower(s)[..9] == "urn:uuid:" by {
        forall i | 0 <= i < 9 ensures ToLower(s)[i] == s[i] {}
      }
      SchemeOfUrnUuid(s);
    }
    var a, b := BigEndian(msb, 8), BigEndian(lsb, 8);
    assert UuidOctets(s[|UriSchemes[UrnUuidCode]|..]) == Some(a + b) by {
      assert s[|UriSchemes[UrnUuidCode]|..] == t;
      Uuid.ParseFormat(msb, lsb);
    }
    assert Encoding(Some(s)) == Some([UrnUuidCode as Byte] + (a + b)) by {
      assert Encoding(Some(s)) == EncodeAfterScheme(s, UrnUuidCode);
    }
    assert [UrnUuidCode as Byte] + (a + b) == [UrnUuidCode as Byte] + a + b;
  }
}
