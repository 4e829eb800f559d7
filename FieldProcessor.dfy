/**
 * The object pass of the string processor: every declared field that carries
 * a `@StringProcessor` policy and is declared as `String` gets its default
 * text when it is null or empty, is run through the per-value pipeline and is
 * written back into the same object. Reflection over declared fields is
 * replaced by an explicit table of field declarations.
 */
module FieldProcessor {
  import opened Text
  import opened Pipeline

  datatype Option<T> = None | Some(value: T)

  /** A Java `String` reference: `null` or some text. */
  datatype NullableString = Null | Str(text: string)

  /** The declared type of a field: `String`, or any other type. */
  datatype FieldType = StringType | OtherType

  /** One declared field: its name, its declared type and its `@StringProcessor` annotation, if any. */
  datatype FieldDecl = FieldDecl(name: string, fieldType: FieldType, policy: Option<Policy>)

  /** What a field holds: a `String` reference, or a value of some other type (kept abstract). */
  datatype FieldValue = StringValue(s: NullableString) | OtherValue(other: int)

  /** The pass rewrites a field exactly when it is annotated and declared as `String`. */
  predicate IsProcessed(d: FieldDecl) {
    d.policy.Some? && d.fieldType == StringType
  }

  /** The values agree with the declarations: one per field, and a `String` field holds a `String` reference. */
  predicate WellTyped(decls: seq<FieldDecl>, values: seq<FieldValue>) {
    && |decls| == |values|
    && forall k :: 0 <= k < |decls| ==> (decls[k].fieldType == StringType <==> values[k].StringValue?)
  }

  predicate TextAscii(v: NullableString) {
    v.Str? ==> IsAscii(v.text)
  }

  /** Every processed field holds ASCII text (or null), and the default text of its policy is ASCII. */
  predicate AsciiReady(decls: seq<FieldDecl>, values: seq<FieldValue>)
    requires WellTyped(decls, values)
  {
    forall k :: 0 <= k < |decls| && IsProcessed(decls[k]) ==>
      TextAscii(values[k].s) && IsAscii(decls[k].policy.value.defaultValue)
  }

  /** The bounds a processed value meets under policy `p`. */
  predicate MeetsPolicy(r: string, p: Policy) {
    && IsAscii(r)
    && (p.maxLength > 0 ==> |r| <= p.maxLength)
    && (p.trimSpaces ==> Trimmed(r))
    && (p.trimMultipleSpaces ==> Collapsed(r))
  }

  /** `value == null || value.isEmpty()`. */
  predicate IsNullOrEmpty(v: NullableString) {
    v.Null? || |v.text| == 0
  }

  /**
   * The text one processed field ends up with: a null or empty value is
   * replaced by the policy's default text, and the result goes through
   * `processValue`. The default text of an annotation is never null, so the
   * value is always processed and written back.
   */
  function NormalizeField(current: NullableString, p: Policy): (r: string)
    requires TextAscii(current) && (IsNullOrEmpty(current) ==> IsAscii(p.defaultValue))
    ensures MeetsPolicy(r, p)
  {
    var value := if IsNullOrEmpty(current) then p.defaultValue else current.text;
    ProcessValue(value, p)
  }

  /** The value a field holds after the pass. */
  function ProcessField(d: FieldDecl, v: FieldValue): (r: FieldValue)
    requires IsProcessed(d) ==> v.StringValue? && TextAscii(v.s) && IsAscii(d.policy.value.defaultValue)
    ensures !IsProcessed(d) ==> r == v
    ensures IsProcessed(d) ==> r.StringValue? && r.s.Str? && MeetsPolicy(r.s.text, d.policy.value)
  {
    if IsProcessed(d) then StringValue(Str(NormalizeField(v.s, d.policy.value))) else v
  }

  /**
   * The values of all fields after the pass. Fields without a policy, and
   * fields not declared as `String`, keep their values; every processed field
   * holds a non-null string that meets its policy.
   */
  function ProcessedValues(decls: seq<FieldDecl>, values: seq<FieldValue>): (r: seq<FieldValue>)
    requires WellTyped(decls, values) && AsciiReady(decls, values)
    ensures WellTyped(decls, r)
    ensures forall k :: 0 <= k < |decls| && !IsProcessed(decls[k]) ==> r[k] == values[k]
    ensures forall k :: 0 <= k < |decls| && IsProcessed(decls[k]) ==>
      && r[k].StringValue? && r[k].s.Str?
      && r[k].s.text == NormalizeField(values[k].s, decls[k].policy.value)
      && MeetsPolicy(r[k].s.text, decls[k].policy.value)
  {
    seq(|values|, k requires 0 <= k < |values| => ProcessField(decls[k], values[k]))
  }

  /** An object as the pass sees it: its declared fields (fixed by its class) and their current values. */
  class Instance {
    const decls: seq<FieldDecl>
    var values: seq<FieldValue>

    constructor (decls: seq<FieldDecl>, values: seq<FieldValue>)
      requires WellTyped(decls, values)
      ensures this.decls == decls && this.values == values
    {
      this.decls := decls;
      this.values := values;
    }
  }

  /**
   * `processFields`: a null object is left alone; otherwise the fields are
   * visited in declaration order and each processed field is overwritten
   * with its normalised text.
   */
  method ProcessFields(obj: Instance?)
    requires obj != null ==> WellTyped(obj.decls, obj.values) && AsciiReady(obj.decls, obj.values)
    modifies obj
    ensures obj != null ==> obj.values == ProcessedValues(obj.decls, old(obj.values))
  {
    if obj == null {
      return;
    }
    ghost var initial := obj.values;
    ghost var target := ProcessedValues(obj.decls, initial);
    for i := 0 to |obj.decls|
      invariant |obj.values| == |initial|
      invariant forall k :: 0 <= k < i ==> obj.values[k] == target[k]
      invariant forall k :: i <= k < |initial| ==> obj.values[k] == initial[k]
    {
      var field := obj.decls[i];
      if IsProcessed(field) {
        var policy := field.policy.value;
        var value := obj.values[i].s;
        if value.Null? || |value.text| == 0 {
          value := Str(policy.defaultValue);
        }
        // The default text is never null, so the value is always processed and stored.
        var processed := ProcessValue(value.text, policy);
        obj.values := obj.values[i := StringValue(Str(processed))];
      }
    }
    assert obj.values == target;
  }

  /*
   * ---------------------------------------------------------------------------
   * Default substitution and whitespace-only values
   * ---------------------------------------------------------------------------
   */

  /**
   * A null or empty field is replaced by its default text and the default is
   * then processed like any other value: under an upper-casing policy with
   * default "n/a" the stored text is "N/A", not the raw default.
   */
  lemma DefaultIsProcessed()
    ensures var p := DefaultPolicy.(transform := UPPERCASE, defaultValue := "n/a");
      NormalizeField(Null, p) == "N/A" && NormalizeField(Str(""), p) == "N/A"
  {
    var p := DefaultPolicy.(transform := UPPERCASE, defaultValue := "n/a");
    UpperNotAvailable();
    DefaultStored(Null, p, "N/A");
    DefaultStored(Str(""), p, "N/A");
  }

  lemma UpperNotAvailable()
    ensures IsAscii("n/a") && ToUpper("n/a") == "N/A"
    ensures Trimmed("N/A") && Collapsed("N/A")
  {
    var up := ToUpper("n/a");
    assert up[0] == 'N' && up[1] == '/' && up[2] == 'A';
  }

  /**
   * A null or empty field stores its transformed default text, as long as
   * that text already meets the policy's bounds.
   */
  lemma DefaultStored(v: NullableString, p: Policy, t: string)
    requires IsNullOrEmpty(v)
    requires IsAscii(p.defaultValue) && ApplyTransform(p.defaultValue, p.transform) == t
    requires p.maxLength <= 0 || |t| <= p.maxLength
    requires p.trimSpaces ==> Trimmed(t)
    requires p.trimMultipleSpaces ==> Collapsed(t)
    ensures NormalizeField(v, p) == t
  {
    ProcessValueOf(p.defaultValue, p, t);
  }

  /** A field holding non-empty text keeps no trace of the default: it stores the processed text. */
  lemma TextProcessed(s: string, p: Policy)
    requires |s| > 0 && IsAscii(s)
    ensures NormalizeField(Str(s), p) == ProcessValue(s, p)
  {
  }

  /**
   * `TextProcessed`, for a processed text already known. It is stated
   * separately only so that proofs about literal text stay cheap.
   */
  lemma TextStored(s: string, p: Policy, t: string)
    requires |s| > 0 && IsAscii(s) && ProcessValue(s, p) == t
    ensures NormalizeField(Str(s), p) == t
  {
  }

  /**
   * A whitespace-only value is not empty, so it gets no default; a policy that
   * trims the ends then leaves it as the empty string, whatever the default.
   */
  lemma BlankIsEmptied(v: NullableString, p: Policy)
    requires v.Str? && v.text != [] && AllWhitespace(v.text) && IsAscii(v.text)
    requires p.trimSpaces
    ensures NormalizeField(v, p) == ""
  {
    ProcessValueBlank(v.text, p);
  }

  /*
   * ---------------------------------------------------------------------------
   * Running the pass twice
   * ---------------------------------------------------------------------------
   */

  /**
   * For NONE, UPPERCASE and LOWERCASE, a second pass over a field changes
   * nothing, unless the first pass left "" and the processed default is not
   * "" (the second pass then sees an empty field and substitutes it).
   */
  lemma NormalizeFieldIdempotent(v: NullableString, p: Policy)
    requires TextAscii(v) && IsAscii(p.defaultValue)
    requires p.transform in {NONE, UPPERCASE, LOWERCASE}
    requires NormalizeField(v, p) != "" || ProcessValue(p.defaultValue, p) == ""
    ensures NormalizeField(Str(NormalizeField(v, p)), p) == NormalizeField(v, p)
  {
    var value := if IsNullOrEmpty(v) then p.defaultValue else v.text;
    if NormalizeField(v, p) != "" {
      ProcessValueIdempotent(value, p);
    }
  }

  /**
   * The non-empty condition above cannot be dropped: a blank value becomes
   * "" on the first pass, and the second pass then sees an empty field and
   * substitutes the default.
   */
  lemma SecondPassSubstitutesDefault()
    ensures var p := DefaultPolicy.(defaultValue := "x");
      && NormalizeField(Str(" "), p) == ""
      && NormalizeField(Str(NormalizeField(Str(" "), p)), p) == "x"
  {
    var p := DefaultPolicy.(defaultValue := "x");
    BlankIsEmptied(Str(" "), p);
    ProcessValueOf("x", p, "x");
  }

  /**
   * Object-level idempotence: when every processed field uses NONE, UPPERCASE
   * or LOWERCASE and comes out of the first pass non-empty, or has a default
   * that processes to "", the second pass leaves every field as it is.
   */
  lemma ProcessedValuesIdempotent(decls: seq<FieldDecl>, values: seq<FieldValue>)
    requires WellTyped(decls, values) && AsciiReady(decls, values)
    requires forall k :: 0 <= k < |decls| && IsProcessed(decls[k]) ==>
      decls[k].policy.value.transform in {NONE, UPPERCASE, LOWERCASE}
    requires forall k :: 0 <= k < |decls| && IsProcessed(decls[k]) ==>
      || NormalizeField(values[k].s, decls[k].policy.value) != ""
      || ProcessValue(decls[k].policy.value.defaultValue, decls[k].policy.value) == ""
    ensures var once := ProcessedValues(decls, values);
      AsciiReady(decls, once) && ProcessedValues(decls, once) == once
  {
    var once := ProcessedValues(decls, values);
    assert AsciiReady(decls, once);
    var twice := ProcessedValues(decls, once);
    forall k | 0 <= k < |decls|
      ensures twice[k] == once[k]
    {
      if IsProcessed(decls[k]) {
        NormalizeFieldIdempotent(values[k].s, decls[k].policy.value);
      }
    }
  }
}
