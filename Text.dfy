/**
 * Character classes and the string primitives the normalisation pipeline is
 * built from: ASCII case mapping (`String.toUpperCase`/`toLowerCase`),
 * `String.trim()`, `replaceAll("\\s+", " ")` and `substring(0, n)`.
 */
module Text {

  /** The regular-expression class `\s`: space, tab, line feed, vertical tab, form feed, carriage return. */
  predicate IsWhitespace(c: char) {
    c == ' ' || c == '\t' || c == '\n' || c == '\U{000B}' || c == '\U{000C}' || c == '\r'
  }

  /** The characters `String.trim()` removes from either end: every code point up to U+0020. */
  predicate IsTrimmable(c: char) {
    c <= ' '
  }

  predicate IsAsciiChar(c: char) {
    c < '\U{0080}'
  }

  predicate IsAscii(s: string) {
    forall i :: 0 <= i < |s| ==> IsAsciiChar(s[i])
  }

  /** `Character.isLetter` restricted to ASCII. */
  predicate IsLetter(c: char) {
    'a' <= c <= 'z' || 'A' <= c <= 'Z'
  }

  predicate AllWhitespace(s: string) {
    forall i :: 0 <= i < |s| ==> IsWhitespace(s[i])
  }

  /** No character of `s` is a control character outside `\s`, so `trim()` and `\s` agree on `s`. */
  predicate NoControl(s: string) {
    forall i :: 0 <= i < |s| ==> IsWhitespace(s[i]) || !IsTrimmable(s[i])
  }

  /** Neither end of `s` is a character `trim()` would remove. */
  predicate Trimmed(s: string) {
    s == [] || (!IsTrimmable(s[0]) && !IsTrimmable(s[|s| - 1]))
  }

  /** Positions `i` and `i + 1` of `s` both hold whitespace. */
  predicate WhitespacePair(s: string, i: int)
    requires 0 <= i < |s| - 1
  {
    IsWhitespace(s[i]) && IsWhitespace(s[i + 1])
  }

  /** Every whitespace character is a plain space and no two whitespace characters are adjacent. */
  predicate Collapsed(s: string) {
    && (forall i :: 0 <= i < |s| && IsWhitespace(s[i]) ==> s[i] == ' ')
    && (forall i :: 0 <= i < |s| - 1 ==> !WhitespacePair(s, i))
  }

  function ToUpperChar(c: char): (r: char)
    requires IsAsciiChar(c)
    ensures IsAsciiChar(r)
    ensures IsLetter(r) == IsLetter(c)
    ensures !('a' <= r <= 'z')
    ensures 'A' <= c <= 'Z' || !IsLetter(c) ==> r == c
  {
    if 'a' <= c <= 'z' then (c as int - 32) as char else c
  }

  function ToLowerChar(c: char): (r: char)
    requires IsAsciiChar(c)
    ensures IsAsciiChar(r)
    ensures IsLetter(r) == IsLetter(c)
    ensures !('A' <= r <= 'Z')
    ensures 'a' <= c <= 'z' || !IsLetter(c) ==> r == c
  {
    if 'A' <= c <= 'Z' then (c as int + 32) as char else c
  }

  /** `String.toUpperCase()` on ASCII text: the same length, each character mapped on its own. */
  function ToUpper(s: string): (r: string)
    requires IsAscii(s)
    ensures |r| == |s|
    ensures forall i :: 0 <= i < |s| ==> r[i] == ToUpperChar(s[i])
  {
    if s == [] then [] else [ToUpperChar(s[0])] + ToUpper(s[1..])
  }

  /** `String.toLowerCase()` on ASCII text. */
  function ToLower(s: string): (r: string)
    requires IsAscii(s)
    ensures |r| == |s|
    ensures forall i :: 0 <= i < |s| ==> r[i] == ToLowerChar(s[i])
  {
    if s == [] then [] else [ToLowerChar(s[0])] + ToLower(s[1..])
  }

  /** Lower-casing leaves text without upper-case letters as it is. */
  lemma ToLowerFixed(s: string)
    requires IsAscii(s) && forall i :: 0 <= i < |s| ==> !('A' <= s[i] <= 'Z')
    ensures ToLower(s) == s
  {
  }

  /** Upper-casing and lower-casing a letter undo each other up to case: each ignores the other's result. */
  lemma CaseRoundTrip(c: char)
    requires IsAsciiChar(c) && IsLetter(c)
    ensures ToLowerChar(ToUpperChar(c)) == ToLowerChar(c)
    ensures ToUpperChar(ToLowerChar(c)) == ToUpperChar(c)
  {
  }

  /** Case mapping keeps a letter's place in the alphabet: 'a' goes to 'A', 'b' to 'B', and so on, both ways. */
  lemma CaseKeepsPosition(c: char)
    requires IsAsciiChar(c)
    ensures 'a' <= c <= 'z' ==> ToUpperChar(c) as int - 'A' as int == c as int - 'a' as int
    ensures 'A' <= c <= 'Z' ==> ToLowerChar(c) as int - 'a' as int == c as int - 'A' as int
  {
  }

  /** Number of trimmable characters at the front of `s` (the start index `trim()` computes). */
  function LeadingTrimmable(s: string): (n: nat)
    ensures n <= |s|
    ensures forall i :: 0 <= i < n ==> IsTrimmable(s[i])
    ensures n < |s| ==> !IsTrimmable(s[n])
  {
    if s != [] && IsTrimmable(s[0]) then 1 + LeadingTrimmable(s[1..]) else 0
  }

  /** Trailing part of `trim()`: the longest prefix that does not end with a trimmable character. */
  function TrimEnd(s: string): (r: string)
    ensures |r| <= |s| && r == s[..|r|]
    ensures forall i :: |r| <= i < |s| ==> IsTrimmable(s[i])
    ensures r == [] || !IsTrimmable(r[|r| - 1])
  {
    if s != [] && IsTrimmable(s[|s| - 1]) then TrimEnd(s[..|s| - 1]) else s
  }

  /**
   * `String.trim()`: the contiguous slice `s[a..a + |r|]` that is left once every
   * trimmable character has been removed from both ends.
   */
  function Trim(s: string): (r: string)
    ensures Trimmed(r)
    ensures var a := LeadingTrimmable(s);
      && a + |r| <= |s|
      && r == s[a..a + |r|]
      && (forall i :: a + |r| <= i < |s| ==> IsTrimmable(s[i]))
  {
    TrimEnd(s[LeadingTrimmable(s)..])
  }

  /** Removes the whitespace run at the front of `s`. */
  function SkipWhitespace(s: string): (r: string)
    ensures |r| <= |s| && r == s[|s| - |r|..]
    ensures forall i :: 0 <= i < |s| - |r| ==> IsWhitespace(s[i])
    ensures r == [] || !IsWhitespace(r[0])
  {
    if s != [] && IsWhitespace(s[0]) then SkipWhitespace(s[1..]) else s
  }

  /** `replaceAll("\\s+", " ")`: every maximal run of whitespace becomes one space. */
  function Collapse(s: string): (r: string)
    decreases |s|
    ensures |r| <= |s|
    ensures (r == []) == (s == [])
    ensures s != [] ==> r[0] == (if IsWhitespace(s[0]) then ' ' else s[0])
    ensures s != [] ==> r[|r| - 1] == (if IsWhitespace(s[|s| - 1]) then ' ' else s[|s| - 1])
  {
    if s == [] then []
    else if IsWhitespace(s[0]) then [' '] + Collapse(SkipWhitespace(s))
    else [s[0]] + Collapse(s[1..])
  }

  /** What `replaceAll("\\s+", " ")` produces has only single spaces as whitespace. */
  lemma {:induction false} CollapseIsCollapsed(s: string)
    decreases |s|
    ensures Collapsed(Collapse(s))
  {
    if s == [] {
    } else if IsWhitespace(s[0]) {
      var rest := SkipWhitespace(s);
      CollapseIsCollapsed(rest);
      CollapsedCons(' ', Collapse(rest));
    } else {
      CollapseIsCollapsed(s[1..]);
      CollapsedCons(s[0], Collapse(s[1..]));
    }
  }

  lemma CollapsedCons(c: char, t: string)
    requires Collapsed(t)
    requires IsWhitespace(c) ==> c == ' ' && (t == [] || !IsWhitespace(t[0]))
    ensures Collapsed([c] + t)
  {
    var r := [c] + t;
    forall i | 0 <= i < |r| - 1
      ensures !WhitespacePair(r, i)
    {
      if i > 0 {
        assert !WhitespacePair(t, i - 1);
      }
    }
  }

  lemma CollapsedTail(s: string)
    requires s != [] && Collapsed(s)
    ensures Collapsed(s[1..])
  {
    var t := s[1..];
    forall i | 0 <= i < |t| - 1
      ensures !WhitespacePair(t, i)
    {
      assert !WhitespacePair(s, i + 1);
    }
  }

  /** A string that is already collapsed is a fixed point of `replaceAll("\\s+", " ")`. */
  lemma {:induction false} CollapseFixpoint(s: string)
    decreases |s|
    requires Collapsed(s)
    ensures Collapse(s) == s
  {
    if s != [] {
      var t := s[1..];
      assert s == [s[0]] + t;
      CollapsedTail(s);
      CollapseFixpoint(t);
      if IsWhitespace(s[0]) {
        SkipSingleSpace(s);
      }
    }
  }

  lemma SkipSingleSpace(s: string)
    requires s != [] && Collapsed(s) && IsWhitespace(s[0])
    ensures s[0] == ' ' && SkipWhitespace(s) == s[1..]
  {
    assert |s| > 1 ==> !WhitespacePair(s, 0);
  }

  /** Collapsing only ever introduces plain spaces: every other character comes from the input. */
  lemma {:induction false} CollapseChars(s: string)
    decreases |s|
    ensures forall i :: 0 <= i < |Collapse(s)| ==> Collapse(s)[i] == ' ' || Collapse(s)[i] in s
  {
    if s == [] {
    } else if IsWhitespace(s[0]) {
      var rest := SkipWhitespace(s);
      CollapseChars(rest);
      assert forall c :: c in rest ==> c in s;
      assert Collapse(s) == [' '] + Collapse(rest);
    } else {
      CollapseChars(s[1..]);
      assert Collapse(s) == [s[0]] + Collapse(s[1..]);
    }
  }

  /** The characters of `s` that are not in `\s`, in order. */
  function NonWhitespace(s: string): string
  {
    if s == [] then [] else (if IsWhitespace(s[0]) then [] else [s[0]]) + NonWhitespace(s[1..])
  }

  lemma {:induction false} NonWhitespaceSkip(s: string)
    decreases |s|
    ensures NonWhitespace(SkipWhitespace(s)) == NonWhitespace(s)
  {
    if s != [] && IsWhitespace(s[0]) {
      NonWhitespaceSkip(s[1..]);
    }
  }

  /** Collapsing whitespace runs keeps every other character of the input, in order. */
  lemma {:induction false} CollapseKeepsText(s: string)
    decreases |s|
    ensures NonWhitespace(Collapse(s)) == NonWhitespace(s)
  {
    if s == [] {
    } else if IsWhitespace(s[0]) {
      var rest := SkipWhitespace(s);
      CollapseKeepsText(rest);
      NonWhitespaceSkip(s);
      assert ([' '] + Collapse(rest))[1..] == Collapse(rest);
    } else {
      CollapseKeepsText(s[1..]);
      assert ([s[0]] + Collapse(s[1..]))[1..] == Collapse(s[1..]);
    }
  }

  /*
   * ---------------------------------------------------------------------------
   * Case mapping commutes with the whitespace steps
   * ---------------------------------------------------------------------------
   */

  function MapChar(c: char, upper: bool): char
    requires IsAsciiChar(c)
  {
    if upper then ToUpperChar(c) else ToLowerChar(c)
  }

  /** `t` is `s` with every character case-mapped (upper-cased when `upper`, lower-cased otherwise). */
  predicate CaseMapped(s: string, t: string, upper: bool) {
    IsAscii(s) && |s| == |t| && forall i :: 0 <= i < |s| ==> t[i] == MapChar(s[i], upper)
  }

  /** Case mapping changes only letters, so it keeps whitespace and trimmable characters where they are. */
  lemma MapCharKeepsShape(c: char, upper: bool)
    requires IsAsciiChar(c)
    ensures IsWhitespace(MapChar(c, upper)) == IsWhitespace(c)
    ensures IsTrimmable(MapChar(c, upper)) == IsTrimmable(c)
    ensures IsWhitespace(c) ==> MapChar(c, upper) == c
  {
  }

  lemma CaseMappedCase(s: string, t: string, upper: bool)
    requires CaseMapped(s, t, upper)
    ensures t == if upper then ToUpper(s) else ToLower(s)
  {
  }

  lemma CaseMappedSlice(s: string, t: string, upper: bool, i: int, j: int)
    requires CaseMapped(s, t, upper) && 0 <= i <= j <= |s|
    ensures CaseMapped(s[i..j], t[i..j], upper)
  {
    assert IsAscii(s[i..j]) by {
      forall k | 0 <= k < j - i ensures IsAsciiChar(s[i..j][k]) {
        assert s[i..j][k] == s[i + k];
      }
    }
    forall k | 0 <= k < j - i ensures t[i..j][k] == MapChar(s[i..j][k], upper) {
      assert t[i..j][k] == t[i + k] && s[i..j][k] == s[i + k];
    }
  }

  lemma CaseMappedCons(c: char, d: char, s: string, t: string, upper: bool)
    requires IsAsciiChar(c) && d == MapChar(c, upper) && CaseMapped(s, t, upper)
    ensures CaseMapped([c] + s, [d] + t, upper)
  {
    var cs, dt := [c] + s, [d] + t;
    forall k | 0 <= k < |cs| ensures IsAsciiChar(cs[k]) && dt[k] == MapChar(cs[k], upper) {
      if k > 0 {
        assert cs[k] == s[k - 1] && dt[k] == t[k - 1];
      }
    }
  }

  lemma CaseMappedTruncate(s: string, t: string, upper: bool, maxLength: int)
    requires CaseMapped(s, t, upper)
    ensures CaseMapped(Truncate(s, maxLength), Truncate(t, maxLength), upper)
  {
    if maxLength > 0 && |s| > maxLength {
      CaseMappedSlice(s, t, upper, 0, maxLength);
      assert s[..maxLength] == s[0..maxLength] && t[..maxLength] == t[0..maxLength];
    }
  }

  /** Case mapping keeps the trimmable characters in place, so `trim()` cuts both texts at the same positions. */
  lemma CaseMappedTrim(s: string, t: string, upper: bool)
    requires CaseMapped(s, t, upper)
    ensures CaseMapped(Trim(s), Trim(t), upper)
  {
    forall i | 0 <= i < |s| ensures IsTrimmable(t[i]) == IsTrimmable(s[i]) {
      MapCharKeepsShape(s[i], upper);
    }
    var a, b := LeadingTrimmable(s), LeadingTrimmable(t);
    assert a == b;
    var rs, rt := Trim(s), Trim(t);
    assert |rs| == |rt|;
    CaseMappedSlice(s, t, upper, a, a + |rs|);
  }

  lemma {:induction false} CaseMappedSkip(s: string, t: string, upper: bool)
    decreases |s|
    requires CaseMapped(s, t, upper)
    ensures CaseMapped(SkipWhitespace(s), SkipWhitespace(t), upper)
  {
    if s != [] {
      MapCharKeepsShape(s[0], upper);
      if IsWhitespace(s[0]) {
        CaseMappedSlice(s, t, upper, 1, |s|);
        CaseMappedSkip(s[1..], t[1..], upper);
      }
    }
  }

  /** Case mapping commutes with `replaceAll("\\s+", " ")`: whitespace is not a letter, and the spaces it writes are kept. */
  lemma {:induction false} CaseMappedCollapse(s: string, t: string, upper: bool)
    decreases |s|
    requires CaseMapped(s, t, upper)
    ensures CaseMapped(Collapse(s), Collapse(t), upper)
  {
    if s != [] {
      MapCharKeepsShape(s[0], upper);
      if IsWhitespace(s[0]) {
        CaseMappedSkip(s, t, upper);
        CaseMappedCollapse(SkipWhitespace(s), SkipWhitespace(t), upper);
        MapCharKeepsShape(' ', upper);
        CaseMappedCons(' ', ' ', Collapse(SkipWhitespace(s)), Collapse(SkipWhitespace(t)), upper);
      } else {
        CaseMappedSlice(s, t, upper, 1, |s|);
        CaseMappedCollapse(s[1..], t[1..], upper);
        CaseMappedCons(s[0], t[0], Collapse(s[1..]), Collapse(t[1..]), upper);
      }
    }
  }

  /** `substring(0, maxLength)` applied only when `maxLength` is positive and the text is longer than it. */
  function Truncate(s: string, maxLength: int): (r: string)
    ensures r <= s
    ensures maxLength > 0 ==> |r| == if |s| <= maxLength then |s| else maxLength
    ensures maxLength <= 0 ==> r == s
  {
    if maxLength > 0 && |s| > maxLength then s[..maxLength] else s
  }

  /** `trim()` leaves a string whose ends are already untrimmable as it is. */
  lemma TrimIdentity(s: string)
    requires Trimmed(s)
    ensures Trim(s) == s
  {
    assert s != [] ==> !IsTrimmable(s[0]) && !IsTrimmable(s[|s| - 1]);
  }
}
