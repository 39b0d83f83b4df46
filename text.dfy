/**
 * The .NET string operations the core relies on: `char.IsWhiteSpace`,
 * `string.IsNullOrWhiteSpace`, `Trim`, `ToLower`/`ToLowerInvariant`,
 * `Contains` and ordinal comparison.
 */
module Text {
  import opened Wrappers

  /** `char.IsWhiteSpace`: U+0009..U+000D, U+0085 and the Unicode space, line and paragraph separators. */
  predicate IsWhiteSpace(c: char) {
    || ('\t' <= c <= '\r')
    || c == ' ' || c == '\U{0085}' || c == '\U{00A0}' || c == '\U{1680}'
    || ('\U{2000}' <= c <= '\U{200A}')
    || c == '\U{2028}' || c == '\U{2029}' || c == '\U{202F}' || c == '\U{205F}' || c == '\U{3000}'
  }

  predicate AllWhiteSpace(s: string) {
    forall i | 0 <= i < |s| :: IsWhiteSpace(s[i])
  }

  /** `string.IsNullOrWhiteSpace`; `None` is the null reference. */
  predicate IsNullOrWhiteSpace(s: Option<string>) {
    s.None? || AllWhiteSpace(s.value)
  }

  /** `TrimStart()`: drops the white space at the front. */
  function TrimStart(s: string): string {
    if s != [] && IsWhiteSpace(s[0]) then TrimStart(s[1..]) else s
  }

  /** `TrimEnd()`: drops the white space at the back. */
  function TrimEnd(s: string): string {
    if s != [] && IsWhiteSpace(s[|s| - 1]) then TrimEnd(s[..|s| - 1]) else s
  }

  /** What `TrimStart` keeps is a suffix of `s` that does not start with white space. */
  lemma {:induction false} TrimStartSuffix(s: string)
    ensures |TrimStart(s)| <= |s| && TrimStart(s) == s[|s| - |TrimStart(s)|..]
    ensures TrimStart(s) != [] ==> !IsWhiteSpace(TrimStart(s)[0])
  {
    if s != [] && IsWhiteSpace(s[0]) {
      TrimStartSuffix(s[1..]);
    }
  }

  /** What `TrimEnd` keeps is a prefix of `s` that does not end with white space. */
  lemma {:induction false} TrimEndPrefix(s: string)
    ensures |TrimEnd(s)| <= |s| && TrimEnd(s) == s[..|TrimEnd(s)|]
    ensures TrimEnd(s) != [] ==> !IsWhiteSpace(TrimEnd(s)[|TrimEnd(s)| - 1])
  {
    if s != [] && IsWhiteSpace(s[|s| - 1]) {
      TrimEndPrefix(s[..|s| - 1]);
    }
  }

  /** What `TrimStart` drops is white space. */
  lemma {:induction false} TrimStartDropsWhiteSpace(s: string)
    ensures |TrimStart(s)| <= |s| && AllWhiteSpace(s[..|s| - |TrimStart(s)|])
  {
    if s != [] && IsWhiteSpace(s[0]) {
      TrimStartDropsWhiteSpace(s[1..]);
      assert s[..|s| - |TrimStart(s)|] == [s[0]] + s[1..][..|s[1..]| - |TrimStart(s[1..])|];
    }
  }

  /** What `TrimEnd` drops is white space. */
  lemma {:induction false} TrimEndDropsWhiteSpace(s: string)
    ensures |TrimEnd(s)| <= |s| && AllWhiteSpace(s[|TrimEnd(s)|..])
  {
    if s != [] && IsWhiteSpace(s[|s| - 1]) {
      var init := s[..|s| - 1];
      TrimEndDropsWhiteSpace(init);
      assert s[|TrimEnd(s)|..] == init[|TrimEnd(init)|..] + [s[|s| - 1]];
    }
  }

  /** `TrimEnd` keeps a first character that is not white space. */
  lemma {:induction false} TrimEndKeepsFirst(s: string)
    requires s != [] && !IsWhiteSpace(s[0])
    ensures TrimEnd(s) != [] && TrimEnd(s)[0] == s[0]
  {
    if |s| > 1 && IsWhiteSpace(s[|s| - 1]) {
      TrimEndKeepsFirst(s[..|s| - 1]);
    }
  }

  /** An all-white-space string trims to nothing at the front. */
  lemma {:induction false} TrimStartOfWhiteSpace(s: string)
    requires AllWhiteSpace(s)
    ensures TrimStart(s) == []
  {
    if s != [] { TrimStartOfWhiteSpace(s[1..]); }
  }

  /** `string.Trim()`: white space removed at both ends. */
  function Trim(s: string): string {
    TrimEnd(TrimStart(s))
  }

  /**
   * What `Trim` leaves is no longer than `s`; it is empty exactly when `s`
   * is all white space, and otherwise neither starts nor ends with white
   * space.
   */
  lemma TrimShape(s: string)
    ensures |Trim(s)| <= |s|
    ensures Trim(s) != [] ==> !IsWhiteSpace(Trim(s)[0]) && !IsWhiteSpace(Trim(s)[|Trim(s)| - 1])
    ensures Trim(s) == [] <==> AllWhiteSpace(s)
  {
    var front := TrimStart(s);
    TrimStartSuffix(s);
    TrimEndPrefix(front);
    if front != [] { TrimEndKeepsFirst(front); }
    if AllWhiteSpace(s) { TrimStartOfWhiteSpace(s); }
    if front == [] { TrimStartDropsWhiteSpace(s); assert s[..|s|] == s; }
  }

  /** `s` is white space, then `Trim(s)`, then white space: `Trim` removes nothing else. */
  lemma TrimSplits(s: string)
    ensures exists a: nat ::
              && a + |Trim(s)| <= |s|
              && s[a..a + |Trim(s)|] == Trim(s)
              && AllWhiteSpace(s[..a])
              && AllWhiteSpace(s[a + |Trim(s)|..])
  {
    var front, r := TrimStart(s), Trim(s);
    var a := |s| - |front|;
    TrimStartSuffix(s);
    TrimEndPrefix(front);
    TrimStartDropsWhiteSpace(s);
    TrimEndDropsWhiteSpace(front);
    assert s[a..a + |r|] == front[..|r|] == r;
    assert s[a + |r|..] == front[|r|..];
  }

  /** A string with no white space at either end is its own trim. */
  lemma TrimTrimmed(s: string)
    requires s != [] ==> !IsWhiteSpace(s[0]) && !IsWhiteSpace(s[|s| - 1])
    ensures Trim(s) == s
  {
  }

  /** Trimming twice is trimming once. */
  lemma TrimIdempotent(s: string)
    ensures Trim(Trim(s)) == Trim(s)
  {
    TrimShape(s);
    TrimTrimmed(Trim(s));
  }

  /** `ToLower`/`ToLowerInvariant` on one character (ASCII letters only). */
  function ToLowerChar(c: char): char {
    if 'A' <= c <= 'Z' then (c as int - 'A' as int + 'a' as int) as char else c
  }

  /** `ToLower`/`ToLowerInvariant`: lowers every character and keeps the length. */
  function ToLower(s: string): (r: string)
    ensures |r| == |s|
  {
    if s == [] then [] else [ToLowerChar(s[0])] + ToLower(s[1..])
  }

  /** Each character of the lowered string is the lowered character at the same position. */
  lemma {:induction false} ToLowerAt(s: string)
    ensures forall i | 0 <= i < |s| :: ToLower(s)[i] == ToLowerChar(s[i])
  {
    if s != [] {
      ToLowerAt(s[1..]);
    }
  }

  /** A lowered string has no upper-case ASCII letter left. */
  lemma ToLowerHasNoCapitals(s: string)
    ensures forall i | 0 <= i < |s| :: !('A' <= ToLower(s)[i] <= 'Z')
  {
    ToLowerAt(s);
  }

  /** Lowering twice is lowering once. */
  lemma ToLowerIdempotent(s: string)
    ensures ToLower(ToLower(s)) == ToLower(s)
  {
    ToLowerAt(s);
    ToLowerAt(ToLower(s));
  }

  /** Lowering all but the last character is the lowered string without its last character. */
  lemma {:induction false} ToLowerInit(s: string)
    requires s != []
    ensures ToLower(s[..|s| - 1]) == ToLower(s)[..|s| - 1]
  {
    if |s| > 1 {
      ToLowerInit(s[1..]);
      assert s[..|s| - 1][1..] == s[1..][..|s| - 2];
    }
  }

  /** Lowering a character never turns white space into non-white space or back. */
  lemma ToLowerCharKeepsWhiteSpace(c: char)
    ensures IsWhiteSpace(ToLowerChar(c)) == IsWhiteSpace(c)
  {
  }

  lemma {:induction false} TrimStartToLowerCommute(s: string)
    ensures TrimStart(ToLower(s)) == ToLower(TrimStart(s))
  {
    if s != [] {
      ToLowerCharKeepsWhiteSpace(s[0]);
      assert ToLower(s)[1..] == ToLower(s[1..]);
      if IsWhiteSpace(s[0]) { TrimStartToLowerCommute(s[1..]); }
    }
  }

  lemma {:induction false} TrimEndToLowerCommute(s: string)
    ensures TrimEnd(ToLower(s)) == ToLower(TrimEnd(s))
  {
    if s != [] {
      ToLowerCharKeepsWhiteSpace(s[|s| - 1]);
      ToLowerAt(s);
      ToLowerInit(s);
      if IsWhiteSpace(s[|s| - 1]) { TrimEndToLowerCommute(s[..|s| - 1]); }
    }
  }

  /** Lowering keeps white space and non-white space apart, so it commutes with `Trim`. */
  lemma TrimToLowerCommute(s: string)
    ensures Trim(ToLower(s)) == ToLower(Trim(s))
  {
    TrimStartToLowerCommute(s);
    TrimEndToLowerCommute(TrimStart(s));
  }

  /** The UTF-16 code units a character takes in a .NET string: a character above U+FFFF is a surrogate pair. */
  function Utf16Units(c: char): nat {
    if c as int < 0x1_0000 then 1 else 2
  }

  /**
   * `string.Length`, and the length `[StringLength]`, `[MinLength]` and an
   * `nvarchar(n)` column measure: UTF-16 code units, not characters.
   */
  function Utf16Length(s: string): nat {
    if s == [] then 0 else Utf16Units(s[0]) + Utf16Length(s[1..])
  }

  /** Every character takes one or two code units. */
  lemma {:induction false} Utf16LengthBounds(s: string)
    ensures |s| <= Utf16Length(s) <= 2 * |s|
  {
    if s != [] { Utf16LengthBounds(s[1..]); }
  }

  /** A string of Basic Multilingual Plane characters has one code unit per character. */
  lemma {:induction false} Utf16LengthOfBmp(s: string)
    requires forall i | 0 <= i < |s| :: s[i] as int < 0x1_0000
    ensures Utf16Length(s) == |s|
  {
    if s != [] {
      assert forall i | 0 <= i < |s[1..]| :: s[1..][i] == s[i + 1];
      Utf16LengthOfBmp(s[1..]);
    }
  }

  /** A character outside the Basic Multilingual Plane has length 2. */
  lemma Utf16LengthOfAstral()
    ensures |"\U{1F600}"| == 1 && Utf16Length("\U{1F600}") == 2
  {
    assert "\U{1F600}"[1..] == [];
  }

  /** The code units of a concatenation add up. */
  lemma {:induction false} Utf16LengthAppend(a: string, b: string)
    ensures Utf16Length(a + b) == Utf16Length(a) + Utf16Length(b)
  {
    if a == [] {
      assert a + b == b;
    } else {
      assert (a + b)[1..] == a[1..] + b;
      Utf16LengthAppend(a[1..], b);
    }
  }

  /** `TrimStart` never lengthens a string. */
  lemma {:induction false} Utf16LengthTrimStart(s: string)
    ensures Utf16Length(TrimStart(s)) <= Utf16Length(s)
  {
    if s != [] && IsWhiteSpace(s[0]) { Utf16LengthTrimStart(s[1..]); }
  }

  /** `TrimEnd` never lengthens a string. */
  lemma {:induction false} Utf16LengthTrimEnd(s: string)
    ensures Utf16Length(TrimEnd(s)) <= Utf16Length(s)
  {
    if s != [] && IsWhiteSpace(s[|s| - 1]) {
      assert s == s[..|s| - 1] + [s[|s| - 1]];
      Utf16LengthAppend(s[..|s| - 1], [s[|s| - 1]]);
      Utf16LengthTrimEnd(s[..|s| - 1]);
    }
  }

  /** `Trim` never lengthens a string, in code units. */
  lemma Utf16LengthTrim(s: string)
    ensures Utf16Length(Trim(s)) <= Utf16Length(s)
  {
    Utf16LengthTrimStart(s);
    Utf16LengthTrimEnd(TrimStart(s));
  }

  /** Lowering maps letters to letters of the same width, so it keeps the length in code units. */
  lemma {:induction false} Utf16LengthToLower(s: string)
    ensures Utf16Length(ToLower(s)) == Utf16Length(s)
  {
    if s != [] {
      assert ToLower(s)[1..] == ToLower(s[1..]);
      Utf16LengthToLower(s[1..]);
    }
  }

  /** `needle` occurs in `s` starting at position `i`. */
  predicate OccursAt(s: string, needle: string, i: nat) {
    i + |needle| <= |s| && s[i..i + |needle|] == needle
  }

  /** An occurrence after the first position is an occurrence in the tail. */
  lemma OccursInTail(s: string, needle: string, i: nat)
    requires s != []
    ensures OccursAt(s, needle, i + 1) <==> OccursAt(s[1..], needle, i)
  {
    if i + 1 + |needle| <= |s| {
      assert s[i + 1..i + 1 + |needle|] == s[1..][i..i + |needle|];
    }
  }

  /** `string.Contains`: `needle` occurs in `s` at some position. */
  function Contains(s: string, needle: string): (b: bool)
    ensures b <==> exists i: nat :: OccursAt(s, needle, i)
    decreases |s|
  {
    if |needle| > |s| then false
    else if needle <= s then
      assert OccursAt(s, needle, 0);
      true
    else if s == [] then false
    else
      var b := Contains(s[1..], needle);
      assert b ==> exists i: nat :: OccursAt(s, needle, i) by {
        if b {
          var i: nat :| OccursAt(s[1..], needle, i);
          OccursInTail(s, needle, i);
        }
      }
      assert !b ==> forall i: nat :: !OccursAt(s, needle, i) by {
        if !b {
          forall i: nat ensures !OccursAt(s, needle, i) {
            if i > 0 { OccursInTail(s, needle, i - 1); }
          }
        }
      }
      b
  }

  /** Ordinal (code-point) lexicographic order on strings. */
  predicate Less(a: string, b: string) {
    if a == [] then b != []
    else if b == [] then false
    else if a[0] != b[0] then a[0] < b[0]
    else Less(a[1..], b[1..])
  }

  lemma {:induction false} LessIrreflexive(a: string)
    ensures !Less(a, a)
  {
    if a != [] { LessIrreflexive(a[1..]); }
  }

  lemma {:induction false} LessTransitive(a: string, b: string, c: string)
    requires Less(a, b) && Less(b, c)
    ensures Less(a, c)
  {
    if a != [] && b != [] && c != [] && a[0] == b[0] && b[0] == c[0] {
      LessTransitive(a[1..], b[1..], c[1..]);
    }
  }

  lemma {:induction false} LessTotal(a: string, b: string)
    ensures a == b || Less(a, b) || Less(b, a)
  {
    if a != [] && b != [] && a[0] == b[0] {
      LessTotal(a[1..], b[1..]);
      if a[1..] == b[1..] { assert a == [a[0]] + a[1..] && b == [b[0]] + b[1..]; }
    }
  }
}
