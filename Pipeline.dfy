/**
 * The per-value pipeline of the string processor: a `@StringProcessor` policy
 * and the ordered steps applied to a value under it (transform, length cap,
 * trim of the ends, collapse of whitespace runs).
 */
module Pipeline {
  import opened Text
  import opened Transforms

  /** The five transformations a policy can ask for. */
  datatype TransformType = NONE | UPPERCASE | LOWERCASE | CAPITALIZE_WORDS | CAPITALIZE_SENTENCES

  /**
   * The settings of one `@StringProcessor` annotation. `maxLength` is a Java
   * `int`: zero or a negative value means "no cap".
   */
  datatype Policy = Policy(
    transform: TransformType,
    maxLength: int,
    trimSpaces: bool,
    trimMultipleSpaces: bool,
    defaultValue: string)

  /**
   * The annotation's defaults, taken as given (its declaration is not part of
   * this model): no transform, no cap, both trims on, empty default text.
   */
  const DefaultPolicy := Policy(NONE, 0, true, true, "")

  /** Characters a transform may produce: each is one of the input's characters, case-mapped, or a space. */
  lemma SentenceCaseAscii(s: string)
    requires IsAscii(s)
    ensures IsAscii(CapitalizedSentences(s))
  {
    CapitalizedSentencesAt(s);
  }

  lemma {:induction false} AppendCapitalizedAscii(parts: seq<string>)
    requires AllAscii(parts)
    ensures IsAscii(AppendCapitalized(parts))
  {
    if parts != [] {
      AllAsciiSuffix(parts, 1);
      AppendCapitalizedAscii(parts[1..]);
    }
  }

  lemma TrimAscii(s: string)
    requires IsAscii(s)
    ensures IsAscii(Trim(s))
  {
    var r := Trim(s);
    var a := LeadingTrimmable(s);
    forall i | 0 <= i < |r| ensures IsAsciiChar(r[i]) {
      assert r[i] == s[a + i];
    }
  }

  lemma CollapseAscii(s: string)
    requires IsAscii(s)
    ensures IsAscii(Collapse(s))
  {
    CollapseChars(s);
  }

  /** `applyTextTransformation`: the transform named by the policy; anything else leaves the value as it is. */
  function ApplyTransform(value: string, t: TransformType): (r: string)
    requires IsAscii(value)
    ensures IsAscii(r)
  {
    match t
    case UPPERCASE => ToUpper(value)
    case LOWERCASE => ToLower(value)
    case CAPITALIZE_WORDS =>
      AppendSplit(value);
      AppendCapitalizedAscii(Split(value));
      TrimAscii(AppendCapitalized(Split(value)));
      CapitalizedWords(value)
    case CAPITALIZE_SENTENCES =>
      SentenceCaseAscii(value);
      CapitalizedSentences(value)
    case NONE => value
  }

  /**
   * `processValue`: transform, then cap the length, then trim the ends, then
   * collapse whitespace runs, each step only when the policy asks for it.
   * The result meets every bound the policy states.
   */
  function ProcessValue(value: string, p: Policy): (r: string)
    requires IsAscii(value)
    ensures IsAscii(r)
    ensures p.maxLength > 0 ==> |r| <= p.maxLength
    ensures p.trimSpaces ==> Trimmed(r)
    ensures p.trimMultipleSpaces ==> Collapsed(r)
  {
    var transformed := ApplyTransform(value, p.transform);
    var capped := Truncate(transformed, p.maxLength);
    assert IsAscii(capped) by {
      forall i | 0 <= i < |capped| ensures IsAsciiChar(capped[i]) {
        assert capped[i] == transformed[i];
      }
    }
    var trimmed := if p.trimSpaces then Trim(capped) else capped;
    TrimAscii(capped);
    if p.trimMultipleSpaces then
      CollapseAscii(trimmed);
      CollapseIsCollapsed(trimmed);
      Collapse(trimmed)
    else
      trimmed
  }

  /**
   * When the transform already yields text `t` within every bound of the
   * policy, the later steps keep it: the processed value is `t`.
   */
  lemma ProcessValueOf(value: string, p: Policy, t: string)
    requires IsAscii(value) && ApplyTransform(value, p.transform) == t
    requires p.maxLength <= 0 || |t| <= p.maxLength
    requires p.trimSpaces ==> Trimmed(t)
    requires p.trimMultipleSpaces ==> Collapsed(t)
    ensures ProcessValue(value, p) == t
  {
    assert Truncate(t, p.maxLength) == t;
    if p.trimSpaces {
      TrimIdentity(t);
    }
    if p.trimMultipleSpaces {
      CollapseFixpoint(t);
    }
  }

  /**
   * `ProcessValueOf` for a policy that capitalises sentences. It is stated
   * separately only so that proofs about literal text stay cheap: the
   * verifier never has to expand `ApplyTransform` on a literal.
   */
  lemma SentencesProcessed(value: string, p: Policy, t: string)
    requires IsAscii(value) && p.transform == CAPITALIZE_SENTENCES && CapitalizedSentences(value) == t
    requires p.maxLength <= 0 || |t| <= p.maxLength
    requires p.trimSpaces ==> Trimmed(t)
    requires p.trimMultipleSpaces ==> Collapsed(t)
    ensures ProcessValue(value, p) == t
  {
    ProcessValueOf(value, p, t);
  }

  /** `ProcessValueOf` for a policy that capitalises words; kept separate for the same reason. */
  lemma WordsProcessed(value: string, p: Policy, t: string)
    requires IsAscii(value) && p.transform == CAPITALIZE_WORDS && CapitalizedWords(value) == t
    requires p.maxLength <= 0 || |t| <= p.maxLength
    requires p.trimSpaces ==> Trimmed(t)
    requires p.trimMultipleSpaces ==> Collapsed(t)
    ensures ProcessValue(value, p) == t
  {
    ProcessValueOf(value, p, t);
  }

  /** The steps after the transform never lengthen the value. */
  lemma ProcessValueShorter(value: string, p: Policy)
    requires IsAscii(value)
    ensures |ProcessValue(value, p)| <= |ApplyTransform(value, p.transform)|
  {
  }

  /**
   * After upper-casing no lower-case letter is left, and after lower-casing no
   * upper-case letter: the later steps only remove characters or turn
   * whitespace into spaces.
   */
  lemma CaseMappedResult(value: string, p: Policy)
    requires IsAscii(value)
    ensures p.transform == UPPERCASE ==>
      forall i :: 0 <= i < |ProcessValue(value, p)| ==> !('a' <= ProcessValue(value, p)[i] <= 'z')
    ensures p.transform == LOWERCASE ==>
      forall i :: 0 <= i < |ProcessValue(value, p)| ==> !('A' <= ProcessValue(value, p)[i] <= 'Z')
  {
    var r := ProcessValue(value, p);
    var mapped := ApplyTransform(value, p.transform);
    ProcessValueChars(value, p);
    forall i | 0 <= i < |r| && r[i] != ' '
      ensures exists j :: 0 <= j < |mapped| && mapped[j] == r[i]
    {
      assert r[i] in mapped;
    }
  }

  /**
   * UPPERCASE and LOWERCASE only case-map the value: processing under them
   * is processing with no transform, then case-mapping the result, because
   * case mapping changes neither the length, nor where the whitespace and
   * the trimmable characters stand.
   */
  lemma CaseMappingCommutes(value: string, p: Policy)
    requires IsAscii(value) && p.transform in {UPPERCASE, LOWERCASE}
    ensures var plain := ProcessValue(value, p.(transform := NONE));
      ProcessValue(value, p) == if p.transform == UPPERCASE then ToUpper(plain) else ToLower(plain)
  {
    var upper := p.transform == UPPERCASE;
    var q := p.(transform := NONE);
    var mapped := ApplyTransform(value, p.transform);
    assert CaseMapped(value, mapped, upper);
    var plainCapped, capped := Truncate(value, p.maxLength), Truncate(mapped, p.maxLength);
    CaseMappedTruncate(value, mapped, upper, p.maxLength);
    var plainTrimmed := if p.trimSpaces then Trim(plainCapped) else plainCapped;
    var trimmed := if p.trimSpaces then Trim(capped) else capped;
    if p.trimSpaces {
      CaseMappedTrim(plainCapped, capped, upper);
    }
    var plainOut := if p.trimMultipleSpaces then Collapse(plainTrimmed) else plainTrimmed;
    var out := if p.trimMultipleSpaces then Collapse(trimmed) else trimmed;
    if p.trimMultipleSpaces {
      CaseMappedCollapse(plainTrimmed, trimmed, upper);
    }
    assert ProcessValue(value, q) == plainOut;
    assert ProcessValue(value, p) == out;
    CaseMappedCase(plainOut, out, upper);
  }

  /*
   * ---------------------------------------------------------------------------
   * Idempotence for the case-mapping transforms
   * ---------------------------------------------------------------------------
   */

  /** `c` is left as it is by the case mapping of transform `t`. */
  predicate FixedBy(c: char, t: TransformType)
    requires IsAsciiChar(c)
  {
    match t
    case UPPERCASE => ToUpperChar(c) == c
    case LOWERCASE => ToLowerChar(c) == c
    case _ => true
  }

  predicate AllFixedBy(s: string, t: TransformType)
    requires IsAscii(s)
  {
    forall i :: 0 <= i < |s| ==> FixedBy(s[i], t)
  }

  /** Upper-casing, lower-casing and no transform each leave nothing further to change in their own output. */
  lemma TransformOutputFixed(s: string, t: TransformType)
    requires IsAscii(s) && t in {NONE, UPPERCASE, LOWERCASE}
    ensures AllFixedBy(ApplyTransform(s, t), t)
  {
  }

  /** A value none of whose characters the case mapping would change is a fixed point of the transform. */
  lemma TransformFixpoint(s: string, t: TransformType)
    requires IsAscii(s) && t in {NONE, UPPERCASE, LOWERCASE} && AllFixedBy(s, t)
    ensures ApplyTransform(s, t) == s
  {
  }

  /** Every character of the processed value is a character of the transformed value, or a space. */
  lemma ProcessValueChars(value: string, p: Policy)
    requires IsAscii(value)
    ensures forall i :: 0 <= i < |ProcessValue(value, p)| ==>
      ProcessValue(value, p)[i] == ' ' || ProcessValue(value, p)[i] in ApplyTransform(value, p.transform)
  {
    var transformed := ApplyTransform(value, p.transform);
    var capped := Truncate(transformed, p.maxLength);
    var trimmed := if p.trimSpaces then Trim(capped) else capped;
    assert forall c :: c in capped ==> c in transformed by {
      forall c | c in capped ensures c in transformed {
        var i :| 0 <= i < |capped| && capped[i] == c;
        assert transformed[i] == c;
      }
    }
    assert forall c :: c in trimmed ==> c in capped by {
      if p.trimSpaces {
        var a := LeadingTrimmable(capped);
        forall c | c in trimmed ensures c in capped {
          var i :| 0 <= i < |trimmed| && trimmed[i] == c;
          assert capped[a + i] == c;
        }
      }
    }
    if p.trimMultipleSpaces {
      CollapseChars(trimmed);
    }
  }

  /**
   * Processing is idempotent for the transforms NONE, UPPERCASE and
   * LOWERCASE: a second pass under the same policy changes nothing.
   */
  lemma ProcessValueIdempotent(value: string, p: Policy)
    requires IsAscii(value) && p.transform in {NONE, UPPERCASE, LOWERCASE}
    ensures ProcessValue(ProcessValue(value, p), p) == ProcessValue(value, p)
  {
    var t := p.transform;
    var once := ProcessValue(value, p);
    var transformed := ApplyTransform(value, t);
    ProcessValueChars(value, p);
    TransformOutputFixed(value, t);
    assert AllFixedBy(once, t) by {
      forall i | 0 <= i < |once| ensures FixedBy(once[i], t) {
        if once[i] != ' ' {
          var j :| 0 <= j < |transformed| && transformed[j] == once[i];
        }
      }
    }
    TransformFixpoint(once, t);
    assert Truncate(once, p.maxLength) == once;
    if p.trimSpaces {
      TrimIdentity(once);
    }
    if p.trimMultipleSpaces {
      var trimmed := if p.trimSpaces then Trim(once) else once;
      CollapseFixpoint(trimmed);
    }
  }

  /*
   * ---------------------------------------------------------------------------
   * Whitespace-only values
   * ---------------------------------------------------------------------------
   */

  lemma {:induction false} SentenceCaseBlank(s: string, f: bool)
    requires IsAscii(s) && AllWhitespace(s)
    ensures SentenceCase(s, f) == s
  {
    if s != [] {
      assert AllWhitespace(s[1..]) by {
        forall i | 0 <= i < |s| - 1 ensures IsWhitespace(s[1..][i]) {
          assert s[1..][i] == s[i + 1];
        }
      }
      AsciiSuffix(s, 1);
      SentenceCaseBlank(s[1..], f || IsSentenceEnd(s[0]));
    }
  }

  /** Every transform keeps a whitespace-only value whitespace-only (word capitalisation empties it). */
  lemma TransformBlank(s: string, t: TransformType)
    requires IsAscii(s) && AllWhitespace(s)
    ensures AllWhitespace(ApplyTransform(s, t))
  {
    match t
    case CAPITALIZE_WORDS => CapitalizedWordsBlank(s);
    case CAPITALIZE_SENTENCES => SentenceCaseBlank(s, true);
    case _ =>
  }

  /**
   * A whitespace-only value processed under a policy that trims its ends
   * comes out empty, whatever the transform and the cap.
   */
  lemma ProcessValueBlank(value: string, p: Policy)
    requires IsAscii(value) && AllWhitespace(value) && p.trimSpaces
    ensures ProcessValue(value, p) == ""
  {
    var transformed := ApplyTransform(value, p.transform);
    TransformBlank(value, p.transform);
    var capped := Truncate(transformed, p.maxLength);
    assert AllWhitespace(capped) by {
      forall i | 0 <= i < |capped| ensures IsWhitespace(capped[i]) {
        assert capped[i] == transformed[i];
      }
    }
    assert LeadingTrimmable(capped) == |capped|;
    assert Trim(capped) == [];
  }
}
