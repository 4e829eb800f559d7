/**
 * The two hand-written transformations of the string processor:
 * sentence capitalisation (a character scan with a "capitalise the next letter"
 * flag) and word capitalisation (split on whitespace runs, capitalise each
 * piece, rejoin with spaces, trim). Each is given as a specification function
 * and as the loop the aspect runs, proved equal to it.
 */
module Transforms {
  import opened Text

  /** The characters after which the next letter starts a new sentence. */
  predicate IsSentenceEnd(c: char) {
    c == '.' || c == '?' || c == '!'
  }

  /*
   * ---------------------------------------------------------------------------
   * Sentence capitalisation
   * ---------------------------------------------------------------------------
   */

  /**
   * The output of the sentence scan over `s` when its flag starts as
   * `capitalizeNext`: a letter met while the flag is set is upper-cased and
   * clears the flag; any other character is copied, and a sentence end sets it.
   */
  function SentenceCase(s: string, capitalizeNext: bool): (r: string)
    requires IsAscii(s)
    ensures |r| == |s|
  {
    if s == [] then []
    else if capitalizeNext && IsLetter(s[0]) then [ToUpperChar(s[0])] + SentenceCase(s[1..], false)
    else [s[0]] + SentenceCase(s[1..], capitalizeNext || IsSentenceEnd(s[0]))
  }

  /**
   * Position `i` of `s` is where a sentence's first letter would stand: every
   * letter before `i` is followed, still before `i`, by a sentence end.
   */
  ghost predicate SentenceStart(s: string, i: int)
    requires 0 <= i <= |s|
  {
    forall j :: 0 <= j < i && IsLetter(s[j]) ==> exists k :: j < k < i && IsSentenceEnd(s[k])
  }

  /** Some sentence end occurs before position `i`. */
  ghost predicate EndBefore(s: string, i: int)
    requires 0 <= i <= |s|
  {
    exists k :: 0 <= k < i && IsSentenceEnd(s[k])
  }

  /** The flag the scan holds on reaching position `i`, stated without running the scan. */
  ghost predicate FlagAt(s: string, capitalizeNext: bool, i: int)
    requires 0 <= i <= |s|
  {
    SentenceStart(s, i) && (capitalizeNext || EndBefore(s, i))
  }

  lemma FlagAtShift(s: string, f: bool, i: int)
    requires s != [] && 0 < i <= |s|
    ensures FlagAt(s, f, i) ==
      FlagAt(s[1..], if f && IsLetter(s[0]) then false else f || IsSentenceEnd(s[0]), i - 1)
  {
    var t := s[1..];
    var f' := if f && IsLetter(s[0]) then false else f || IsSentenceEnd(s[0]);
    // The tail's clauses, shifted back to indices of `s`.
    assert EndBefore(t, i - 1) <==> exists k :: 1 <= k < i && IsSentenceEnd(s[k]) by {
      if EndBefore(t, i - 1) {
        var k :| 0 <= k < i - 1 && IsSentenceEnd(t[k]);
        assert IsSentenceEnd(s[k + 1]);
      }
      if exists k :: 1 <= k < i && IsSentenceEnd(s[k]) {
        var k :| 1 <= k < i && IsSentenceEnd(s[k]);
        assert IsSentenceEnd(t[k - 1]);
      }
    }
    var tailStart := forall j :: 1 <= j < i && IsLetter(s[j]) ==> exists k :: j < k < i && IsSentenceEnd(s[k]);
    assert SentenceStart(t, i - 1) == tailStart by {
      if SentenceStart(t, i - 1) {
        forall j | 1 <= j < i && IsLetter(s[j])
          ensures exists k :: j < k < i && IsSentenceEnd(s[k])
        {
          assert IsLetter(t[j - 1]);
          var k :| j - 1 < k < i - 1 && IsSentenceEnd(t[k]);
          assert IsSentenceEnd(s[k + 1]);
        }
      }
      if tailStart {
        forall j | 0 <= j < i - 1 && IsLetter(t[j])
          ensures exists k :: j < k < i - 1 && IsSentenceEnd(t[k])
        {
          assert IsLetter(s[j + 1]);
          var k :| j + 1 < k < i && IsSentenceEnd(s[k]);
          assert IsSentenceEnd(t[k - 1]);
        }
      }
    }
    // The clauses of `s` itself, split into position 0 and the rest.
    assert EndBefore(s, i) <==> IsSentenceEnd(s[0]) || exists k :: 1 <= k < i && IsSentenceEnd(s[k]);
    assert SentenceStart(s, i) <==>
      tailStart && (IsLetter(s[0]) ==> exists k :: 0 < k < i && IsSentenceEnd(s[k]));
  }

  /**
   * Pointwise meaning of the scan: the character at `i` is upper-cased exactly
   * when it is a letter and the flag is set on reaching it.
   */
  lemma {:induction false} SentenceCaseAt(s: string, f: bool, i: int)
    requires IsAscii(s) && 0 <= i < |s|
    ensures SentenceCase(s, f)[i] ==
      if IsLetter(s[i]) && FlagAt(s, f, i) then ToUpperChar(s[i]) else s[i]
  {
    var f' := if f && IsLetter(s[0]) then false else f || IsSentenceEnd(s[0]);
    if i == 0 {
      assert SentenceStart(s, 0);
      assert !EndBefore(s, 0);
    } else {
      assert IsAscii(s[1..]) by {
        forall j | 0 <= j < |s[1..]| ensures IsAsciiChar(s[1..][j]) {
          assert s[1..][j] == s[j + 1];
        }
      }
      SentenceCaseAt(s[1..], f', i - 1);
      FlagAtShift(s, f, i);
      assert s[1..][i - 1] == s[i];
    }
  }

  /** `capitalizeSentences`: the scan started with its flag set. */
  function CapitalizedSentences(s: string): (r: string)
    requires IsAscii(s)
    ensures |r| == |s|
  {
    SentenceCase(s, true)
  }

  /**
   * What sentence capitalisation promises: the same length; every character
   * is kept, except that a letter standing at a sentence start (the input's
   * first letter, or the first letter after '.', '?' or '!') is upper-cased.
   */
  lemma CapitalizedSentencesAt(s: string)
    requires IsAscii(s)
    ensures |CapitalizedSentences(s)| == |s|
    ensures forall i :: 0 <= i < |s| ==>
      CapitalizedSentences(s)[i] ==
        if IsLetter(s[i]) && SentenceStart(s, i) then ToUpperChar(s[i]) else s[i]
  {
    forall i | 0 <= i < |s|
      ensures CapitalizedSentences(s)[i] ==
        if IsLetter(s[i]) && SentenceStart(s, i) then ToUpperChar(s[i]) else s[i]
    {
      SentenceCaseAt(s, true, i);
    }
  }

  lemma AsciiSuffix(s: string, i: int)
    requires IsAscii(s) && 0 <= i <= |s|
    ensures IsAscii(s[i..])
  {
    forall j | 0 <= j < |s[i..]| ensures IsAsciiChar(s[i..][j]) {
      assert s[i..][j] == s[i + j];
    }
  }

  /** The flag the scan holds once it has read all of `s`. */
  function FlagAfter(s: string, capitalizeNext: bool): bool
  {
    if s == [] then capitalizeNext
    else FlagAfter(s[1..], if capitalizeNext && IsLetter(s[0]) then false else capitalizeNext || IsSentenceEnd(s[0]))
  }

  /** The scan over `a + b` is the scan over `a` followed by the scan over `b`, resumed with the flag `a` left. */
  lemma {:induction false} SentenceCaseAppend(a: string, b: string, f: bool)
    requires IsAscii(a) && IsAscii(b)
    ensures IsAscii(a + b)
    ensures SentenceCase(a + b, f) == SentenceCase(a, f) + SentenceCase(b, FlagAfter(a, f))
    ensures FlagAfter(a + b, f) == FlagAfter(b, FlagAfter(a, f))
  {
    assert IsAscii(a + b) by {
      forall i | 0 <= i < |a + b| ensures IsAsciiChar((a + b)[i]) {
        if i >= |a| {
          assert (a + b)[i] == b[i - |a|];
        }
      }
    }
    if a == [] {
      assert a + b == b;
    } else {
      assert (a + b)[0] == a[0] && (a + b)[1..] == a[1..] + b;
      AsciiSuffix(a, 1);
      var f' := if f && IsLetter(a[0]) then false else f || IsSentenceEnd(a[0]);
      var x := if f && IsLetter(a[0]) then ToUpperChar(a[0]) else a[0];
      assert SentenceCase(a, f) == [x] + SentenceCase(a[1..], f');
      assert SentenceCase(a + b, f) == [x] + SentenceCase(a[1..] + b, f');
      SentenceCaseAppend(a[1..], b, f');
    }
  }

  /** With the flag clear, text without sentence ends is copied unchanged and leaves the flag clear. */
  lemma {:induction false} SentenceCaseInert(s: string)
    requires IsAscii(s)
    requires forall i :: 0 <= i < |s| ==> !IsSentenceEnd(s[i])
    ensures SentenceCase(s, false) == s && !FlagAfter(s, false)
  {
    if s != [] {
      AsciiSuffix(s, 1);
      SentenceCaseInert(s[1..]);
      assert s == [s[0]] + s[1..];
    }
  }

  /** A first letter followed by text without sentence ends: only the first letter is upper-cased. */
  lemma SentenceCaseLead(c: char, w: string)
    requires IsAsciiChar(c) && IsLetter(c) && IsAscii(w)
    requires forall i :: 0 <= i < |w| ==> !IsSentenceEnd(w[i])
    ensures IsAscii([c] + w)
    ensures SentenceCase([c] + w, true) == [ToUpperChar(c)] + w && !FlagAfter([c] + w, true)
  {
    var s := [c] + w;
    assert s[0] == c && s[1..] == w;
    SentenceCaseInert(w);
  }

  /** One whole sentence: its first letter is upper-cased and the scan is ready for the next sentence. */
  lemma SentenceCaseSentence(c: char, w: string, e: char)
    requires IsAsciiChar(c) && IsLetter(c) && IsAscii(w) && IsSentenceEnd(e)
    requires forall i :: 0 <= i < |w| ==> !IsSentenceEnd(w[i])
    ensures IsAscii([c] + w + [e])
    ensures SentenceCase([c] + w + [e], true) == [ToUpperChar(c)] + w + [e] && FlagAfter([c] + w + [e], true)
  {
    SentenceCaseLead(c, w);
    assert IsAscii([e]);
    SentenceCaseAppend([c] + w, [e], true);
    assert SentenceCase([e], false) == [e] && FlagAfter([e], false);
  }

  /** The loop of `capitalizeSentences`, with its `capitalizeNext` flag. */
  method CapitalizeSentences(input: string) returns (result: string)
    requires IsAscii(input)
    ensures result == CapitalizedSentences(input)
  {
    result := "";
    var capitalizeNext := true;
    for i := 0 to |input|
      invariant IsAscii(input[i..])
      invariant result + SentenceCase(input[i..], capitalizeNext) == SentenceCase(input, true)
    {
      var c := input[i];
      assert input[i..] == [c] + input[i + 1..];
      AsciiSuffix(input, i + 1);
      if capitalizeNext && IsLetter(c) {
        result := result + [ToUpperChar(c)];
        capitalizeNext := false;
      } else {
        result := result + [c];
        if IsSentenceEnd(c) {
          capitalizeNext := true;
        }
      }
    }
  }

  /*
   * ---------------------------------------------------------------------------
   * Word capitalisation
   * ---------------------------------------------------------------------------
   */

  predicate NoWhitespace(s: string) {
    forall i :: 0 <= i < |s| ==> !IsWhitespace(s[i])
  }

  /** The run of non-whitespace characters at the front of `s`. */
  function Word(s: string): (w: string)
    ensures w <= s && NoWhitespace(w)
    ensures |w| < |s| ==> IsWhitespace(s[|w|])
  {
    if s == [] || IsWhitespace(s[0]) then [] else [s[0]] + Word(s[1..])
  }

  /** Every piece is a non-empty run of non-whitespace characters. */
  predicate AllWords(ts: seq<string>) {
    forall k :: 0 <= k < |ts| ==> ts[k] != [] && NoWhitespace(ts[k])
  }

  lemma AllWordsCons(w: string, ts: seq<string>)
    requires w != [] && NoWhitespace(w) && AllWords(ts)
    ensures AllWords([w] + ts)
  {
    var r := [w] + ts;
    forall k | 0 <= k < |r| ensures r[k] != [] && NoWhitespace(r[k]) {
      if k > 0 {
        assert r[k] == ts[k - 1];
      }
    }
  }

  /** The maximal runs of non-whitespace characters of `s`, in order. */
  function Tokens(s: string): (ts: seq<string>)
    decreases |s|
    ensures AllWords(ts)
  {
    var t := SkipWhitespace(s);
    if t == [] then []
    else
      var w := Word(t);
      var rest := Tokens(t[|w|..]);
      AllWordsCons(w, rest);
      [w] + rest
  }

  /**
   * `input.split("\\s+")`: the pieces between whitespace runs, with an empty
   * first piece when the input starts with whitespace, trailing empty pieces
   * dropped, and `[""]` for the empty input.
   */
  function Split(s: string): (parts: seq<string>)
  {
    if s == [] then [""]
    else if IsWhitespace(s[0]) && Tokens(s) != [] then [""] + Tokens(s)
    else Tokens(s)
  }

  /**
   * The pieces of `Split(s)` hold no whitespace and only the first may be
   * empty; without a leading empty piece they are the tokens of `s`.
   */
  lemma SplitPieces(s: string)
    ensures var parts := Split(s);
      && (forall k :: 0 <= k < |parts| ==> NoWhitespace(parts[k]))
      && (forall k :: 0 < k < |parts| ==> parts[k] != [])
      && (if parts != [] && parts[0] == [] then parts[1..] else parts) == Tokens(s)
  {
    var ts := Tokens(s);
    if s == [] {
      assert Split(s) == [""] && ts == [];
    } else if IsWhitespace(s[0]) && ts != [] {
      var parts := [""] + ts;
      assert Split(s) == parts;
      assert parts[1..] == ts;
      assert forall k :: 0 < k < |parts| ==> parts[k] == ts[k - 1];
    } else {
      assert Split(s) == ts;
      assert ts != [] ==> ts[0] != [];
    }
  }

  /**
   * `Split(s)` starts with an empty piece exactly for the empty input and for
   * input that starts with whitespace and is not all whitespace; it has no
   * pieces at all exactly for non-empty all-whitespace input.
   */
  lemma SplitLeadingEmpty(s: string)
    ensures var parts := Split(s);
      && (parts == [] <==> s != [] && AllWhitespace(s))
      && ((parts != [] && parts[0] == []) <==> s == [] || (IsWhitespace(s[0]) && !AllWhitespace(s)))
  {
    var ts := Tokens(s);
    TokensBlank(s);
    if s != [] && !(IsWhitespace(s[0]) && ts != []) {
      assert Split(s) == ts;
      assert ts != [] ==> ts[0] != [];
    }
  }

  /** There are no tokens exactly when the text is all whitespace. */
  lemma TokensBlank(s: string)
    ensures Tokens(s) == [] <==> AllWhitespace(s)
  {
  }

  /** A piece with its first character upper-cased and the rest lower-cased. */
  function CapitalizeToken(w: string): (r: string)
    requires w != [] && IsAscii(w)
    ensures |r| == |w| && r[0] == ToUpperChar(w[0])
    ensures forall i :: 1 <= i < |w| ==> r[i] == ToLowerChar(w[i])
  {
    [ToUpperChar(w[0])] + ToLower(w[1..])
  }

  predicate AllAscii(parts: seq<string>) {
    forall k :: 0 <= k < |parts| ==> IsAscii(parts[k])
  }

  /** What the builder holds after the loop over `parts`: each non-empty piece capitalised and followed by a space. */
  function AppendCapitalized(parts: seq<string>): string
    requires AllAscii(parts)
  {
    if parts == [] then ""
    else (if parts[0] == [] then "" else CapitalizeToken(parts[0]) + " ") + AppendCapitalized(parts[1..])
  }

  /** `capitalizeFirstLetters`: split, capitalise every non-empty piece, rejoin, trim. */
  function CapitalizedWords(s: string): (r: string)
    requires IsAscii(s)
    ensures Trimmed(r)
    ensures AllWhitespace(s) ==> r == ""
  {
    TokensAscii(s);
    SplitAscii(s);
    var parts := Split(s);
    assert AllWhitespace(s) ==> AppendCapitalized(parts) == "" by {
      if AllWhitespace(s) {
        SkipAllWhitespace(s);
        assert Tokens(s) == [];
      }
    }
    Trim(AppendCapitalized(parts))
  }

  lemma {:induction false} TokensAscii(s: string)
    decreases |s|
    requires IsAscii(s)
    ensures AllAscii(Tokens(s))
  {
    var t := SkipWhitespace(s);
    if t != [] {
      var w := Word(t);
      AsciiSuffix(s, |s| - |t|);
      AsciiSuffix(t, |w|);
      TokensAscii(t[|w|..]);
    }
  }

  lemma SplitAscii(s: string)
    requires IsAscii(s)
    ensures AllAscii(Split(s))
  {
    TokensAscii(s);
  }

  lemma AllAsciiSuffix(parts: seq<string>, i: int)
    requires AllAscii(parts) && 0 <= i <= |parts|
    ensures AllAscii(parts[i..])
  {
    forall k | 0 <= k < |parts| - i ensures IsAscii(parts[i..][k]) {
      assert parts[i..][k] == parts[i + k];
    }
  }

  lemma AppendCapitalizedStep(parts: seq<string>, i: int)
    requires AllAscii(parts) && 0 <= i < |parts|
    ensures AllAscii(parts[i..]) && AllAscii(parts[i + 1..])
    ensures AppendCapitalized(parts[i..]) ==
      (if parts[i] == [] then "" else CapitalizeToken(parts[i]) + " ") + AppendCapitalized(parts[i + 1..])
  {
    AllAsciiSuffix(parts, i);
    AllAsciiSuffix(parts, i + 1);
    assert parts[i..][0] == parts[i] && parts[i..][1..] == parts[i + 1..];
  }

  /** The loop of `capitalizeFirstLetters` over the pieces of the split. */
  method CapitalizeFirstLetters(input: string) returns (result: string)
    requires IsAscii(input)
    ensures result == CapitalizedWords(input)
  {
    SplitAscii(input);
    var parts := Split(input);
    var builder := "";
    for i := 0 to |parts|
      invariant AllAscii(parts[i..])
      invariant builder + AppendCapitalized(parts[i..]) == AppendCapitalized(parts)
    {
      var part := parts[i];
      AppendCapitalizedStep(parts, i);
      if part != [] {
        var capitalized := [ToUpperChar(part[0])] + ToLower(part[1..]);
        assert capitalized == CapitalizeToken(part);
        builder := builder + (capitalized + " ");
      }
    }
    assert parts[|parts|..] == [];
    assert builder == AppendCapitalized(parts);
    result := Trim(builder);
  }

  /** Pieces joined with one space between neighbours. */
  function JoinWords(words: seq<string>): string
  {
    if |words| == 0 then ""
    else if |words| == 1 then words[0]
    else words[0] + " " + JoinWords(words[1..])
  }

  predicate Untrimmable(s: string) {
    forall i :: 0 <= i < |s| ==> !IsTrimmable(s[i])
  }

  predicate AllUntrimmable(parts: seq<string>) {
    forall k :: 0 <= k < |parts| ==> Untrimmable(parts[k])
  }

  function CapitalizeEach(ts: seq<string>): (r: seq<string>)
    requires AllAscii(ts)
    requires forall k :: 0 <= k < |ts| ==> ts[k] != []
    ensures |r| == |ts| && forall k :: 0 <= k < |ts| ==> r[k] == CapitalizeToken(ts[k])
  {
    if ts == [] then [] else [CapitalizeToken(ts[0])] + CapitalizeEach(ts[1..])
  }

  lemma {:induction false} SkipAllWhitespace(s: string)
    requires AllWhitespace(s)
    ensures SkipWhitespace(s) == []
  {
    if s != [] {
      assert AllWhitespace(s[1..]) by {
        forall i | 0 <= i < |s| - 1 ensures IsWhitespace(s[1..][i]) {
          assert s[1..][i] == s[i + 1];
        }
      }
      SkipAllWhitespace(s[1..]);
    }
  }

  /** Empty or all-whitespace input leaves nothing after word capitalisation. */
  lemma CapitalizedWordsBlank(s: string)
    requires IsAscii(s) && AllWhitespace(s)
    ensures CapitalizedWords(s) == ""
  {
    SkipAllWhitespace(s);
    assert Tokens(s) == [];
    SplitAscii(s);
    assert AppendCapitalized(Split(s)) == "";
  }

  /** Empty pieces of the split contribute nothing: the builder sees only the tokens. */
  lemma AppendSplit(s: string)
    requires IsAscii(s)
    ensures AllAscii(Split(s)) && AllAscii(Tokens(s))
    ensures AppendCapitalized(Split(s)) == AppendCapitalized(Tokens(s))
  {
    SplitAscii(s);
    TokensAscii(s);
    if s == [] {
      assert SkipWhitespace(s) == [];
    } else if IsWhitespace(s[0]) && Tokens(s) != [] {
      var ts := Tokens(s);
      assert ([""] + ts)[1..] == ts;
    }
  }

  /** The builder holds the capitalised tokens joined by spaces, plus one trailing space. */
  lemma {:induction false} AppendCapitalizedJoin(ts: seq<string>)
    requires AllAscii(ts) && ts != []
    requires forall k :: 0 <= k < |ts| ==> ts[k] != []
    ensures AppendCapitalized(ts) == JoinWords(CapitalizeEach(ts)) + " "
  {
    AllAsciiSuffix(ts, 1);
    var caps := CapitalizeEach(ts);
    if |ts| == 1 {
      assert ts[1..] == [];
    } else {
      AppendCapitalizedJoin(ts[1..]);
      assert caps[1..] == CapitalizeEach(ts[1..]);
    }
  }

  lemma CapitalizeTokenUntrimmable(w: string)
    requires w != [] && IsAscii(w) && Untrimmable(w)
    ensures Untrimmable(CapitalizeToken(w))
  {
  }

  /** The first and last characters of a join are those of its first and last pieces. */
  lemma {:induction false} JoinWordsEnds(words: seq<string>)
    requires words != [] && forall k :: 0 <= k < |words| ==> words[k] != []
    ensures var j := JoinWords(words);
      && j != []
      && j[0] == words[0][0]
      && j[|j| - 1] == words[|words| - 1][|words[|words| - 1]| - 1]
  {
    if |words| > 1 {
      JoinWordsEnds(words[1..]);
    }
  }

  lemma CapitalizeEachUntrimmable(ts: seq<string>)
    requires AllAscii(ts) && AllUntrimmable(ts)
    requires forall k :: 0 <= k < |ts| ==> ts[k] != []
    ensures AllUntrimmable(CapitalizeEach(ts))
  {
    var caps := CapitalizeEach(ts);
    forall k | 0 <= k < |ts| ensures Untrimmable(caps[k]) {
      CapitalizeTokenUntrimmable(ts[k]);
    }
  }

  lemma JoinWordsTrimmed(words: seq<string>)
    requires words != [] && AllUntrimmable(words)
    requires forall k :: 0 <= k < |words| ==> words[k] != []
    ensures JoinWords(words) != [] && Trimmed(JoinWords(words))
  {
    JoinWordsEnds(words);
    assert Untrimmable(words[0]) && Untrimmable(words[|words| - 1]);
  }

  /** Trimming a string whose last character survives `trim()` removes an appended space and nothing else. */
  lemma TrimTrailingSpace(j: string)
    requires j != [] && Trimmed(j)
    ensures Trim(j + " ") == j
  {
    var s := j + " ";
    assert s[0] == j[0];
    assert LeadingTrimmable(s) == 0;
    assert s[LeadingTrimmable(s)..] == s;
    var r := TrimEnd(s);
    assert s[|j| - 1] == j[|j| - 1];
    assert |r| == |j|;
  }

  lemma NoControlSuffix(s: string, i: int)
    requires NoControl(s) && 0 <= i <= |s|
    ensures NoControl(s[i..])
  {
    forall j | 0 <= j < |s| - i ensures IsWhitespace(s[i..][j]) || !IsTrimmable(s[i..][j]) {
      assert s[i..][j] == s[i + j];
    }
  }

  lemma WordUntrimmable(t: string)
    requires NoControl(t)
    ensures Untrimmable(Word(t))
  {
    var w := Word(t);
    forall i | 0 <= i < |w| ensures !IsTrimmable(w[i]) {
      assert w[i] == t[i];
    }
  }

  lemma AllUntrimmableCons(w: string, ts: seq<string>)
    requires Untrimmable(w) && AllUntrimmable(ts)
    ensures AllUntrimmable([w] + ts)
  {
    var r := [w] + ts;
    forall k | 0 <= k < |r| ensures Untrimmable(r[k]) {
      if k > 0 {
        assert r[k] == ts[k - 1];
      }
    }
  }

  /** Without stray control characters, no token holds a character `trim()` would remove. */
  lemma {:induction false} TokensUntrimmable(s: string)
    decreases |s|
    requires NoControl(s)
    ensures AllUntrimmable(Tokens(s))
  {
    var t := SkipWhitespace(s);
    if t != [] {
      var w := Word(t);
      NoControlSuffix(s, |s| - |t|);
      NoControlSuffix(t, |w|);
      TokensUntrimmable(t[|w|..]);
      WordUntrimmable(t);
      AllUntrimmableCons(w, Tokens(t[|w|..]));
    }
  }

  /**
   * Word capitalisation on text without stray control characters: the
   * whitespace-separated tokens of the input, in order, each with its first
   * character upper-cased and the rest lower-cased, joined by single spaces.
   */
  lemma CapitalizedWordsJoin(s: string)
    requires IsAscii(s) && NoControl(s)
    ensures AllAscii(Tokens(s))
    ensures CapitalizedWords(s) == JoinWords(CapitalizeEach(Tokens(s)))
  {
    AppendSplit(s);
    var ts := Tokens(s);
    if ts != [] {
      AppendCapitalizedJoin(ts);
      var caps := CapitalizeEach(ts);
      TokensUntrimmable(s);
      CapitalizeEachUntrimmable(ts);
      JoinWordsTrimmed(caps);
      TrimTrailingSpace(JoinWords(caps));
    }
  }

  /** A piece that starts with no lower-case letter and continues with no upper-case one is already capitalised. */
  lemma CapitalizeTokenFixed(w: string)
    requires w != [] && IsAscii(w) && !('a' <= w[0] <= 'z')
    requires forall i :: 1 <= i < |w| ==> !('A' <= w[i] <= 'Z')
    ensures CapitalizeToken(w) == w
  {
    var r := CapitalizeToken(w);
    assert forall i :: 0 <= i < |w| ==> r[i] == w[i];
  }

  /*
   * ---------------------------------------------------------------------------
   * Tokens of assembled text
   * ---------------------------------------------------------------------------
   */

  lemma {:induction false} SkipGap(gap: string, rest: string)
    requires AllWhitespace(gap)
    ensures SkipWhitespace(gap + rest) == SkipWhitespace(rest)
  {
    if gap != [] {
      var s := gap + rest;
      assert s[0] == gap[0] && s[1..] == gap[1..] + rest;
      assert SkipWhitespace(s) == SkipWhitespace(s[1..]);
      assert AllWhitespace(gap[1..]) by {
        forall i | 0 <= i < |gap| - 1 ensures IsWhitespace(gap[1..][i]) {
          assert gap[1..][i] == gap[i + 1];
        }
      }
      SkipGap(gap[1..], rest);
    } else {
      assert gap + rest == rest;
    }
  }

  /** Whitespace in front of a text adds no token. */
  lemma TokensGap(gap: string, rest: string)
    requires AllWhitespace(gap)
    ensures Tokens(gap + rest) == Tokens(rest)
  {
    SkipGap(gap, rest);
  }

  lemma {:induction false} WordOf(w: string, rest: string)
    requires NoWhitespace(w)
    requires rest == [] || IsWhitespace(rest[0])
    ensures Word(w + rest) == w
  {
    if w != [] {
      assert (w + rest)[1..] == w[1..] + rest;
      assert NoWhitespace(w[1..]) by {
        forall i | 0 <= i < |w| - 1 ensures !IsWhitespace(w[1..][i]) {
          assert w[1..][i] == w[i + 1];
        }
      }
      WordOf(w[1..], rest);
    }
  }

  /** A whitespace-free run followed by whitespace (or by nothing) is the first token. */
  lemma TokensWord(w: string, rest: string)
    requires w != [] && NoWhitespace(w)
    requires rest == [] || IsWhitespace(rest[0])
    ensures Tokens(w + rest) == [w] + Tokens(rest)
  {
    var s := w + rest;
    assert SkipWhitespace(s) == s;
    WordOf(w, rest);
    assert s[|w|..] == rest;
  }

  /**
   * Splitting a single-space join of whitespace-free words gives the words
   * back: tokenising is the inverse of joining.
   */
  lemma {:induction false} TokensOfJoin(words: seq<string>)
    requires AllWords(words)
    ensures Tokens(JoinWords(words)) == words
  {
    if |words| == 1 {
      TokensWord(words[0], []);
      assert words[0] + [] == words[0];
    } else if |words| > 1 {
      var rest := words[1..];
      assert words == [words[0]] + rest;
      assert JoinWords(words) == words[0] + " " + JoinWords(rest);
      TokensOfJoin(rest);
      TokensSpaced(words[0], JoinWords(rest));
    }
  }

  lemma TokensSpaced(w: string, rest: string)
    requires w != [] && NoWhitespace(w)
    ensures Tokens(w + " " + rest) == [w] + Tokens(rest)
  {
    assert w + " " + rest == w + (" " + rest);
    TokensWord(w, " " + rest);
    TokensGap(" ", rest);
  }

  /**
   * A word at the front of `s`, followed by whitespace or by nothing, passes
   * through `replaceAll("\\s+", " ")` unchanged.
   */
  lemma {:induction false} CollapseWord(s: string, k: nat)
    requires k <= |s| && NoWhitespace(s[..k])
    requires k == |s| || IsWhitespace(s[k])
    ensures Collapse(s) == s[..k] + Collapse(s[k..])
  {
    if k > 0 {
      var t := s[1..];
      SliceRegroup(s, k, Collapse(s[k..]));
      NoWhitespaceTail(s[..k]);
      CollapseHead(s);
      CollapseWord(t, k - 1);
    }
  }

  lemma CollapseHead(s: string)
    requires s != [] && !IsWhitespace(s[0])
    ensures Collapse(s) == [s[0]] + Collapse(s[1..])
  {
  }

  lemma SliceRegroup(s: string, k: nat, c: string)
    requires 0 < k <= |s|
    ensures s[..k][0] == s[0] && s[..k][1..] == s[1..][..k - 1] && s[1..][k - 1..] == s[k..]
    ensures [s[0]] + (s[1..][..k - 1] + c) == s[..k] + c
  {
    assert s[..k] == [s[0]] + s[1..][..k - 1];
  }

  lemma NoWhitespaceTail(w: string)
    requires w != [] && NoWhitespace(w)
    ensures NoWhitespace(w[1..])
  {
    forall i | 0 <= i < |w| - 1 ensures !IsWhitespace(w[1..][i]) {
      assert w[1..][i] == w[i + 1];
    }
  }

  /**
   * `replaceAll("\\s+", " ")` keeps the words: collapsed text has the same
   * tokens as the input, so a whitespace run between two words becomes one
   * space rather than disappearing.
   */
  lemma {:induction false} CollapseTokens(s: string)
    decreases |s|
    ensures Tokens(Collapse(s)) == Tokens(s)
  {
    if s == [] {
    } else if IsWhitespace(s[0]) {
      CollapseTokensGap(s);
    } else {
      CollapseTokensWord(s);
    }
  }

  lemma {:induction false} CollapseTokensGap(s: string)
    requires s != [] && IsWhitespace(s[0])
    decreases |s|, 0
    ensures Tokens(Collapse(s)) == Tokens(s)
  {
    var rest := SkipWhitespace(s);
    assert Collapse(s) == [' '] + Collapse(rest);
    TokensGap([' '], Collapse(rest));
    assert SkipWhitespace(rest) == rest;
    assert Tokens(s) == Tokens(rest);
    CollapseTokens(rest);
  }

  lemma {:induction false} CollapseTokensWord(s: string)
    requires s != [] && !IsWhitespace(s[0])
    decreases |s|, 0
    ensures Tokens(Collapse(s)) == Tokens(s)
  {
    var w := Word(s);
    var tail := s[|w|..];
    assert s == w + tail;
    assert w != [] by {
      assert [s[0]] + Word(s[1..]) == w;
    }
    TokensWord(w, tail);
    assert s[..|w|] == w;
    CollapseWord(s, |w|);
    TokensWord(w, Collapse(tail));
    CollapseTokens(tail);
  }

  /**
   * Word capitalisation acts on each word of a single-space join of words on
   * its own: the result is the join of the capitalised words.
   */
  lemma CapitalizedWordsOfJoin(words: seq<string>)
    requires AllWords(words)
    requires IsAscii(JoinWords(words)) && NoControl(JoinWords(words))
    ensures AllAscii(words)
    ensures CapitalizedWords(JoinWords(words)) == JoinWords(CapitalizeEach(words))
  {
    TokensOfJoin(words);
    CapitalizedWordsJoin(JoinWords(words));
  }
}
