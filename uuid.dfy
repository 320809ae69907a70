/**
 * The textual form of a UUID (section 3 of RFC 4122): 32 hexadecimal digits in
 * groups of 8-4-4-4-12 separated by hyphens. `Parse` stands for the canonical
 * case of `java.util.UUID.fromString`; `Format` is the lower-case rendering that
 * `UUID.toString` produces and serves as its inverse.
 */
module Uuid {
  import opened Wrappers
  import opened Bytes

  predicate IsHexDigit(c: char)
  {
    '0' <= c <= '9' || 'a' <= c <= 'f' || 'A' <= c <= 'F'
  }

  function HexDigitValue(c: char): (d: nat)
    requires IsHexDigit(c)
    ensures d < 16
  {
    if '0' <= c <= '9' then c as int - '0' as int
    else if 'a' <= c <= 'f' then c as int - 'a' as int + 10
    else c as int - 'A' as int + 10
  }

  /** The lower-case hexadecimal digit for `d`. */
  function HexChar(d: nat): (c: char)
    requires d < 16
    ensures IsHexDigit(c) && HexDigitValue(c) == d
  {
    if d < 10 then ('0' as int + d) as char else ('a' as int + d - 10) as char
  }

  function Pow16(n: nat): (p: nat)
    ensures p >= 1
  {
    if n == 0 then 1 else 16 * Pow16(n - 1)
  }

  lemma {:induction false} Pow16Twice(n: nat)
    ensures Pow16(2 * n) == Pow256(n)
  {
    if n > 0 {
      Pow16Twice(n - 1);
      assert Pow16(2 * n) == 16 * 16 * Pow16(2 * (n - 1));
    }
  }

  predicate AllHex(s: string)
  {
    forall i | 0 <= i < |s| :: IsHexDigit(s[i])
  }

  /** The number that a string of hexadecimal digits denotes, most significant first. */
  function HexValue(s: string): (v: nat)
    requires AllHex(s)
    ensures v < Pow16(|s|)
  {
    if s == [] then 0
    else
      var w := HexValue(s[..|s| - 1]);
      assert w * 16 + HexDigitValue(s[|s| - 1]) < Pow16(|s|) by {
        assert w * 16 <= (Pow16(|s| - 1) - 1) * 16;
      }
      w * 16 + HexDigitValue(s[|s| - 1])
  }

  /** `v` written with exactly `n` lower-case hexadecimal digits. */
  function HexDigits(v: nat, n: nat): (s: string)
    ensures |s| == n && AllHex(s)
  {
    if n == 0 then [] else HexDigits(v / 16, n - 1) + [HexChar(v % 16)]
  }

  lemma {:induction false} HexValueOfHexDigits(v: nat, n: nat)
    requires v < Pow16(n)
    ensures HexValue(HexDigits(v, n)) == v
  {
    if n > 0 {
      var s := HexDigits(v, n);
      assert s[..n - 1] == HexDigits(v / 16, n - 1);
      HexValueOfHexDigits(v / 16, n - 1);
    }
  }

  /** The positions of the four hyphens in the canonical form. */
  predicate IsHyphenPosition(i: int)
  {
    i == 8 || i == 13 || i == 18 || i == 23
  }

  /** The canonical 8-4-4-4-12 form, hexadecimal digits in either case. */
  predicate IsCanonical(t: string)
  {
    |t| == 36 &&
    forall i | 0 <= i < 36 :: if IsHyphenPosition(i) then t[i] == '-' else IsHexDigit(t[i])
  }

  /** The 32 digits of a canonical UUID string, hyphens removed. */
  function Digits(t: string): (d: string)
    requires IsCanonical(t)
    ensures |d| == 32 && AllHex(d)
  {
    var d := t[0..8] + t[9..13] + t[14..18] + t[19..23] + t[24..36];
    assert forall i | 0 <= i < 32 :: d[i] == t[if i < 8 then i else if i < 12 then i + 1 else if i < 16 then i + 2 else if i < 20 then i + 3 else i + 4];
    d
  }

  /**
   * The 64 most significant and the 64 least significant bits of the UUID that
   * `t` denotes, as unsigned numbers; `None` where the parser refuses `t`.
   */
  function Parse(t: string): (r: Option<(nat, nat)>)
    ensures r.Some? ==> |t| == 36 && r.value.0 < TWO_64 && r.value.1 < TWO_64
  {
    if IsCanonical(t) then
      var d := Digits(t);
      Pow16Twice(8);
      Pow256Of8();
      Some((HexValue(d[..16]), HexValue(d[16..])))
    else None
  }

  /** The canonical lower-case text of the UUID whose halves are `msb` and `lsb`. */
  function Format(msb: nat, lsb: nat): (t: string)
    ensures |t| == 36
  {
    var d := HexDigits(msb, 16) + HexDigits(lsb, 16);
    d[0..8] + "-" + d[8..12] + "-" + d[12..16] + "-" + d[16..20] + "-" + d[20..32]
  }

  /** Every pair of 64-bit halves is parsed back from its canonical text. */
  lemma ParseFormat(msb: nat, lsb: nat)
    requires msb < TWO_64 && lsb < TWO_64
    ensures Parse(Format(msb, lsb)) == Some((msb, lsb))
  {
    var hm, hl := HexDigits(msb, 16), HexDigits(lsb, 16);
    var d := hm + hl;
    var t := Format(msb, lsb);
    assert forall i | 0 <= i < 32 :: t[if i < 8 then i else if i < 12 then i + 1 else if i < 16 then i + 2 else if i < 20 then i + 3 else i + 4] == d[i];
    assert IsCanonical(t);
    assert Digits(t) == d;
    assert d[..16] == hm && d[16..] == hl;
    Pow16Twice(8);
    Pow256Of8();
    HexValueOfHexDigits(msb, 16);
    HexValueOfHexDigits(lsb, 16);
  }
}
