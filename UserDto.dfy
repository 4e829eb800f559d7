/**
 * `UserDTO`: five `String` fields, each with its own `@StringProcessor`
 * policy, and the `toString` that lists them. The class's declared fields are
 * the table `Fields`; an object of the class is a `FieldProcessor.Instance`
 * whose declarations are that table.
 */
module UserDto {
  import opened Text
  import opened Pipeline
  import opened FieldProcessor

  /*
   * ---------------------------------------------------------------------------
   * The policy table
   * ---------------------------------------------------------------------------
   */

  const FullNamePolicy := DefaultPolicy.(transform := CAPITALIZE_WORDS, defaultValue := "Unknown User")
  const UniqueIdPolicy := DefaultPolicy.(transform := UPPERCASE)
  const EmailAddressPolicy := DefaultPolicy.(transform := LOWERCASE, defaultValue := "noemail@example.com")
  const AddressPolicy := DefaultPolicy.(transform := CAPITALIZE_SENTENCES, defaultValue := "Unknown Address")
  const UserDetailsPolicy := DefaultPolicy.(maxLength := 250, trimMultipleSpaces := false, defaultValue := "N/A")

  /** The declared fields of `UserDTO`, in declaration order. */
  const Fields: seq<FieldDecl> := [
    FieldDecl("fullName", StringType, Some(FullNamePolicy)),
    FieldDecl("uniqueId", StringType, Some(UniqueIdPolicy)),
    FieldDecl("emailAddress", StringType, Some(EmailAddressPolicy)),
    FieldDecl("address", StringType, Some(AddressPolicy)),
    FieldDecl("userDetails", StringType, Some(UserDetailsPolicy))
  ]

  /** Values that a `UserDTO` object can hold: five `String` references, ASCII where not null. */
  predicate IsUserValues(values: seq<FieldValue>) {
    |values| == 5 && forall k :: 0 <= k < 5 ==> values[k].StringValue? && TextAscii(values[k].s)
  }

  /** Every field of `UserDTO` is processed, and every default text is ASCII. */
  lemma UserFieldsReady(values: seq<FieldValue>)
    requires IsUserValues(values)
    ensures WellTyped(Fields, values) && AsciiReady(Fields, values)
    ensures forall k :: 0 <= k < 5 ==> IsProcessed(Fields[k])
  {
    DefaultTextsAscii();
    assert Fields[0].policy.value == FullNamePolicy;
    assert Fields[1].policy.value == UniqueIdPolicy;
    assert Fields[2].policy.value == EmailAddressPolicy;
    assert Fields[3].policy.value == AddressPolicy;
    assert Fields[4].policy.value == UserDetailsPolicy;
  }

  /**
   * The table in full: the five fields in declaration order, all of type
   * `String`, each with its annotation's settings, every setting the
   * annotation leaves out taking its default (no transform, no length limit,
   * trimming and collapsing on, empty default text).
   */
  lemma PolicyTable()
    ensures |Fields| == 5
    ensures Fields[0] == FieldDecl("fullName", StringType, Some(Policy(CAPITALIZE_WORDS, 0, true, true, "Unknown User")))
    ensures Fields[1] == FieldDecl("uniqueId", StringType, Some(Policy(UPPERCASE, 0, true, true, "")))
    ensures Fields[2] == FieldDecl("emailAddress", StringType, Some(Policy(LOWERCASE, 0, true, true, "noemail@example.com")))
    ensures Fields[3] == FieldDecl("address", StringType, Some(Policy(CAPITALIZE_SENTENCES, 0, true, true, "Unknown Address")))
    ensures Fields[4] == FieldDecl("userDetails", StringType, Some(Policy(NONE, 250, true, false, "N/A")))
  {
  }

  lemma DefaultTextsAscii()
    ensures IsAscii(FullNamePolicy.defaultValue) && IsAscii(UniqueIdPolicy.defaultValue)
    ensures IsAscii(EmailAddressPolicy.defaultValue) && IsAscii(AddressPolicy.defaultValue)
    ensures IsAscii(UserDetailsPolicy.defaultValue)
  {
    assert IsAscii("Unknown User") && IsAscii("noemail@example.com");
    assert IsAscii("Unknown Address") && IsAscii("N/A");
  }

  /*
   * ---------------------------------------------------------------------------
   * toString
   * ---------------------------------------------------------------------------
   */

  /** How `toString` shows one field: the text itself, or "null" for a null reference. */
  function Render(v: NullableString): string {
    if v.Null? then "null" else v.text
  }

  function Rendered(values: seq<FieldValue>): seq<string>
    requires IsUserValues(values)
  {
    [Render(values[0].s), Render(values[1].s), Render(values[2].s), Render(values[3].s), Render(values[4].s)]
  }

  /**
   * `UserDTO.toString`: the class name and the first label, the five rendered
   * fields separated by their labels, and a closing ']'; only the field texts
   * vary in length (the four labels and the bracket are 51 characters).
   */
  function ToString(values: seq<FieldValue>): (r: string)
    requires IsUserValues(values)
    ensures |Opening| < |r| && r[..|Opening|] == Opening && r[|r| - 1] == ']'
  {
    var fields := Render(values[0].s)
      + ", uniqueId=" + Render(values[1].s)
      + ", emailAddress=" + Render(values[2].s)
      + ", address=" + Render(values[3].s)
      + ", userDetails=" + Render(values[4].s);
    var r := Opening + fields + "]";
    assert r[..|Opening|] == Opening;
    r
  }

  /** The text between the first and the last field, one label per gap. */
  const Labels: seq<string> := [", uniqueId=", ", emailAddress=", ", address=", ", userDetails="]
  const Opening := "UserDTO [fullName="

  /** The longest prefix of `s` that does not contain `c`. */
  function UpTo(s: string, c: char): (r: string)
    ensures r <= s && c !in r
    ensures |r| < |s| ==> s[|r|] == c
  {
    if s == [] || s[0] == c then [] else [s[0]] + UpTo(s[1..], c)
  }

  /** `texts[0] + labels[0] + texts[1] + … + texts[|labels|]`. */
  function Interleave(texts: seq<string>, labels: seq<string>): string
    requires |texts| == |labels| + 1
  {
    if labels == [] then texts[0] else texts[0] + labels[0] + Interleave(texts[1..], labels[1..])
  }

  /** Reads the texts back from an interleaving, taking each text up to the next ','. */
  function ParseFields(s: string, labels: seq<string>): Option<seq<string>>
  {
    if labels == [] then Some([s])
    else
      var t := UpTo(s, ',');
      var rest := s[|t|..];
      if labels[0] <= rest then
        match ParseFields(rest[|labels[0]|..], labels[1..])
        case Some(ts) => Some([t] + ts)
        case None => None
      else None
  }

  /** Reads the five rendered field texts back from the output of `toString`. */
  function Parse(s: string): Option<seq<string>>
  {
    if |s| >= |Opening| + 1 && s[..|Opening|] == Opening && s[|s| - 1] == ']' then
      ParseFields(s[|Opening|..|s| - 1], Labels)
    else None
  }

  lemma {:induction false} UpToAppend(a: string, b: string, c: char)
    requires c !in a && b != [] && b[0] == c
    ensures UpTo(a + b, c) == a
  {
    if a != [] {
      assert (a + b)[0] == a[0] && (a + b)[1..] == a[1..] + b;
      UpToAppend(a[1..], b, c);
    } else {
      assert a + b == b;
    }
  }

  /** Each label starts with ',', and no text but the last contains one: the texts are read back in order. */
  lemma {:induction false} ParseInterleave(texts: seq<string>, labels: seq<string>)
    requires |texts| == |labels| + 1
    requires forall k :: 0 <= k < |labels| ==> labels[k] != [] && labels[k][0] == ','
    requires forall k :: 0 <= k < |labels| ==> ',' !in texts[k]
    ensures ParseFields(Interleave(texts, labels), labels) == Some(texts)
  {
    if labels != [] {
      assert texts == [texts[0]] + texts[1..];
      var rest := Interleave(texts[1..], labels[1..]);
      var s := texts[0] + labels[0] + rest;
      assert s == texts[0] + (labels[0] + rest);
      UpToAppend(texts[0], labels[0] + rest, ',');
      assert s[|texts[0]|..] == labels[0] + rest;
      assert (labels[0] + rest)[|labels[0]|..] == rest;
      ParseInterleave(texts[1..], labels[1..]);
    } else {
      assert texts == [texts[0]];
    }
  }

  /** Five texts and four labels interleave left to right. */
  lemma InterleaveFive(t: seq<string>, l: seq<string>)
    requires |t| == 5 && |l| == 4
    ensures Interleave(t, l) == t[0] + l[0] + t[1] + l[1] + t[2] + l[2] + t[3] + l[3] + t[4]
  {
    var x3 := t[3] + l[3] + t[4];
    assert Interleave(t[3..], l[3..]) == x3 by {
      assert t[3..][1..] == t[4..] && l[3..][1..] == l[4..];
    }
    var x2 := t[2] + l[2] + t[3] + l[3] + t[4];
    assert Interleave(t[2..], l[2..]) == x2 by {
      assert t[2..][1..] == t[3..] && l[2..][1..] == l[3..];
      Associate(t[2] + l[2], t[3] + l[3], t[4]);
      Associate(t[2] + l[2], t[3], l[3]);
    }
    var x1 := t[1] + l[1] + t[2] + l[2] + t[3] + l[3] + t[4];
    assert Interleave(t[1..], l[1..]) == x1 by {
      assert t[1..][1..] == t[2..] && l[1..][1..] == l[2..];
      Associate(t[1] + l[1], t[2] + l[2] + t[3] + l[3], t[4]);
      Associate(t[1] + l[1], t[2] + l[2] + t[3], l[3]);
      Associate(t[1] + l[1], t[2] + l[2], t[3]);
      Associate(t[1] + l[1], t[2], l[2]);
    }
    assert Interleave(t, l) == t[0] + l[0] + x1;
    Associate(t[0] + l[0], t[1] + l[1] + t[2] + l[2] + t[3] + l[3], t[4]);
    Associate(t[0] + l[0], t[1] + l[1] + t[2] + l[2] + t[3], l[3]);
    Associate(t[0] + l[0], t[1] + l[1] + t[2] + l[2], t[3]);
    Associate(t[0] + l[0], t[1] + l[1] + t[2], l[2]);
    Associate(t[0] + l[0], t[1] + l[1], t[2]);
    Associate(t[0] + l[0], t[1], l[1]);
  }

  lemma Associate(a: string, b: string, c: string)
    ensures a + (b + c) == a + b + c
  {
  }

  lemma ToStringInterleave(values: seq<FieldValue>)
    requires IsUserValues(values)
    ensures ToString(values) == Opening + Interleave(Rendered(values), Labels) + "]"
  {
    var t := Rendered(values);
    InterleaveFive(t, Labels);
  }

  /**
   * `toString` lists the five fields in declaration order, each as its text or
   * as "null": as long as none of the first four contains ',', the rendered
   * texts can be read back from it, in order.
   */
  lemma ToStringParse(values: seq<FieldValue>)
    requires IsUserValues(values)
    requires forall k :: 0 <= k < 4 ==> ',' !in Render(values[k].s)
    ensures Parse(ToString(values)) == Some(Rendered(values))
  {
    var body := Interleave(Rendered(values), Labels);
    ToStringInterleave(values);
    var s := ToString(values);
    assert s[..|Opening|] == Opening;
    assert s[|Opening|..|s| - 1] == body;
    ParseInterleave(Rendered(values), Labels);
  }

  /** A null field and a field holding the text "null" print alike. */
  lemma ToStringNullAmbiguous(a: string, b: string, c: string, d: string)
    requires IsAscii(a) && IsAscii(b) && IsAscii(c) && IsAscii(d)
    ensures var withNull := [StringValue(Null), StringValue(Str(a)), StringValue(Str(b)), StringValue(Str(c)), StringValue(Str(d))];
      var withText := [StringValue(Str("null")), StringValue(Str(a)), StringValue(Str(b)), StringValue(Str(c)), StringValue(Str(d))];
      IsUserValues(withNull) && IsUserValues(withText)
      && withNull != withText && ToString(withNull) == ToString(withText)
  {
    assert IsAscii("null");
  }
}
