/**
 * `System.Guid` as far as the refresh tokens need it: the 32 hexadecimal
 * digits, `ToString()` (the "D" layout, lower case) and `Guid.TryParse`.
 */
module Guids {
  import opened Wrappers
  import opened Text

  type Nibble = x: int | 0 <= x < 16

  /** A GUID as its 32 hexadecimal digits, most significant first. */
  type Guid = ds: seq<Nibble> | |ds| == 32 witness seq(32, i => 0)

  /** The lower-case hexadecimal digit `ToString` writes. */
  function HexChar(d: Nibble): char {
    if d < 10 then ('0' as int + d) as char else ('a' as int + d - 10) as char
  }

  /** A hexadecimal digit in either case, as `TryParse` accepts them. */
  predicate IsHexChar(c: char) {
    '0' <= c <= '9' || 'a' <= c <= 'f' || 'A' <= c <= 'F'
  }

  function HexValue(c: char): Nibble
    requires IsHexChar(c)
  {
    if c <= '9' then c as int - '0' as int
    else if c <= 'F' then c as int - 'A' as int + 10
    else c as int - 'a' as int + 10
  }

  lemma HexValueOfHexChar(d: Nibble)
    ensures IsHexChar(HexChar(d)) && HexValue(HexChar(d)) == d
    ensures !IsWhiteSpace(HexChar(d))
  {
  }

  /** The digits written as lower-case hexadecimal. */
  function FormatHex(ds: seq<Nibble>): (s: string)
    ensures |s| == |ds|
  {
    seq(|ds|, i requires 0 <= i < |ds| => HexChar(ds[i]))
  }

  /** The digits `s` spells, if every character of `s` is one. */
  function ParseHex(s: string): Option<seq<Nibble>> {
    if forall i | 0 <= i < |s| :: IsHexChar(s[i])
    then Some(seq(|s|, i requires 0 <= i < |s| => HexValue(s[i])))
    else None
  }

  lemma ParseFormatHex(ds: seq<Nibble>)
    ensures ParseHex(FormatHex(ds)) == Some(ds)
  {
    var s := FormatHex(ds);
    forall i | 0 <= i < |s| ensures IsHexChar(s[i]) && HexValue(s[i]) == ds[i] {
      HexValueOfHexChar(ds[i]);
    }
    assert seq(|s|, i requires 0 <= i < |s| => HexValue(s[i])) == ds;
  }

  /** The positions of the dashes in the 36-character "D" layout 8-4-4-4-12. */
  predicate IsDashPosition(p: int) {
    p == 8 || p == 13 || p == 18 || p == 23
  }

  /** Where the `k`-th digit stands in the "D" layout. */
  function DigitPosition(k: nat): nat {
    if k < 8 then k else if k < 12 then k + 1 else if k < 16 then k + 2 else if k < 20 then k + 3 else k + 4
  }

  /** Which digit stands at position `p` of the "D" layout. */
  function DigitIndex(p: nat): nat
    requires !IsDashPosition(p)
  {
    if p < 8 then p else if p < 13 then p - 1 else if p < 18 then p - 2 else if p < 23 then p - 3 else p - 4
  }

  /** `Guid.ToString()`: the "D" layout, e.g. `0f8fad5b-d9cb-469f-a165-70867728950e`. */
  function ToString(g: Guid): (s: string)
    ensures |s| == 36
    ensures forall p | 0 <= p < 36 :: IsDashPosition(p) <==> s[p] == '-'
  {
    var s := seq(36, p requires 0 <= p < 36 => if IsDashPosition(p) then '-' else HexChar(g[DigitIndex(p)]));
    assert forall p | 0 <= p < 36 && !IsDashPosition(p) :: s[p] != '-';
    s
  }

  /** The "D" layout: dashes in place and hexadecimal digits elsewhere. */
  function ParseDashed(t: string): Option<Guid>
    requires |t| == 36
  {
    if forall p | 0 <= p < 36 && IsDashPosition(p) :: t[p] == '-' then
      match ParseHex(seq(32, k requires 0 <= k < 32 => t[DigitPosition(k)]))
      case Some(ds) => Some(ds)
      case None => None
    else None
  }

  /**
   * `Guid.TryParse`: after trimming white space, the "N" layout (32
   * digits), the "D" layout, or the "D" layout inside braces ("B") or
   * parentheses ("P"); digits in either case.
   */
  function TryParse(s: string): Option<Guid> {
    var t := Trim(s);
    if |t| == 32 then
      match ParseHex(t)
      case Some(ds) => Some(ds)
      case None => None
    else if |t| == 36 then ParseDashed(t)
    else if |t| == 38 && ((t[0] == '{' && t[37] == '}') || (t[0] == '(' && t[37] == ')')) then ParseDashed(t[1..37])
    else None
  }

  /** The string a refresh token is handed out as parses back to the same token id. */
  lemma TryParseToString(g: Guid)
    ensures TryParse(ToString(g)) == Some(g)
  {
    var s := ToString(g);
    HexValueOfHexChar(g[0]);
    HexValueOfHexChar(g[31]);
    TrimTrimmed(s);
    var digits := seq(32, k requires 0 <= k < 32 => s[DigitPosition(k)]);
    assert digits == FormatHex(g);
    ParseFormatHex(g);
  }

  /** The 32-digit "N" layout parses to the same GUID. */
  lemma TryParseFormatHex(g: Guid)
    ensures TryParse(FormatHex(g)) == Some(g)
  {
    HexValueOfHexChar(g[0]);
    HexValueOfHexChar(g[31]);
    TrimTrimmed(FormatHex(g));
    ParseFormatHex(g);
  }
}
