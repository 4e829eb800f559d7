/**
 * What the `UserDTO` policy table does to concrete values: each field's
 * default, and the examples its policies are meant for, worked through the
 * pipeline. Kept apart from the table itself so that the policies are seen
 * here as named constants.
 */
module UserDtoExamples {
  import opened Text
  import opened Transforms
  import opened Pipeline
  import opened FieldProcessor
  import opened UserDto

  /*
   * ---------------------------------------------------------------------------
   * fullName: CAPITALIZE_WORDS, default "Unknown User"
   * ---------------------------------------------------------------------------
   */

  lemma UnknownUserAscii()
    ensures IsAscii("Unknown User") && NoControl("Unknown User")
  {
  }

  lemma UnknownUserShape()
    ensures Trimmed("Unknown User") && Collapsed("Unknown User")
  {
  }

  lemma UnknownUserPieces()
    ensures NoWhitespace("Unknown") && NoWhitespace("User")
    ensures IsAscii("Unknown") && IsAscii("User")
    ensures forall i :: 1 <= i < |"Unknown"| ==> !('A' <= "Unknown"[i] <= 'Z')
    ensures forall i :: 1 <= i < |"User"| ==> !('A' <= "User"[i] <= 'Z')
  {
  }

  lemma UnknownUserJoins()
    ensures "Unknown" + " User" == "Unknown User"
    ensures " " + "User" == " User"
    ensures "User" + "" == "User"
    ensures AllWhitespace(" ")
  {
  }

  lemma UnknownUserTokens()
    ensures Tokens("Unknown User") == ["Unknown", "User"]
  {
    assert ["Unknown"] + ["User"] == ["Unknown", "User"];
    UnknownUserPieces();
    UnknownUserJoins();
    assert Tokens("") == [];
    TokensWord("User", "");
    assert Tokens("User") == ["User"];
    TokensGap(" ", "User");
    assert Tokens(" User") == ["User"];
    TokensWord("Unknown", " User");
    assert Tokens("Unknown User") == ["Unknown"] + ["User"];
  }

  lemma UnknownUserWords()
    ensures AllAscii(["Unknown", "User"])
    ensures CapitalizeEach(["Unknown", "User"]) == ["Unknown", "User"]
    ensures JoinWords(["Unknown", "User"]) == "Unknown User"
  {
    assert ["Unknown", "User"][1..] == ["User"];
    UnknownUserPieces();
    UnknownUserJoins();
    var caps := CapitalizeEach(["Unknown", "User"]);
    assert caps[0] == "Unknown" by {
      CapitalizeTokenFixed("Unknown");
    }
    assert caps[1] == "User" by {
      CapitalizeTokenFixed("User");
    }
  }

  /** Word capitalisation keeps "Unknown User" as it is. */
  lemma UnknownUserCapitalized()
    ensures IsAscii("Unknown User")
    ensures CapitalizedWords("Unknown User") == "Unknown User"
  {
    UnknownUserAscii();
    UnknownUserTokens();
    UnknownUserWords();
    CapitalizedWordsJoin("Unknown User");
  }

  /** A null or empty `fullName` becomes "Unknown User". */
  lemma FullNameDefault(v: NullableString)
    requires IsNullOrEmpty(v)
    ensures IsAscii(FullNamePolicy.defaultValue)
    ensures NormalizeField(v, FullNamePolicy) == "Unknown User"
  {
    UnknownUserShape();
    UnknownUserCapitalized();
    DefaultStored(v, FullNamePolicy, "Unknown User");
  }

  lemma NameAscii()
    ensures IsAscii("  john   DOE ") && NoControl("  john   DOE ")
  {
  }

  lemma NamePieces()
    ensures NoWhitespace("john") && NoWhitespace("DOE")
    ensures IsAscii("john") && IsAscii("DOE")
    ensures AllWhitespace("  ") && AllWhitespace("   ") && AllWhitespace(" ")
  {
  }

  lemma NameJoins()
    ensures "  " + "john   DOE " == "  john   DOE "
    ensures "john" + "   DOE " == "john   DOE "
    ensures "   " + "DOE " == "   DOE "
    ensures "DOE" + " " == "DOE "
    ensures " " + "" == " "
  {
  }

  lemma NameResult()
    ensures "John" + " " + "Doe" == "John Doe"
    ensures Trimmed("John Doe") && Collapsed("John Doe")
  {
  }

  lemma NameTailTokens()
    ensures Tokens("   DOE ") == ["DOE"]
  {
    assert ["DOE"] + [] == ["DOE"];
    NamePieces();
    NameJoins();
    assert Tokens("") == [];
    TokensGap(" ", "");
    TokensWord("DOE", " ");
    TokensGap("   ", "DOE ");
  }

  /** The tokens of "  john   DOE " are "john" and "DOE". */
  lemma NameTokens()
    ensures Tokens("  john   DOE ") == ["john", "DOE"]
  {
    assert ["john"] + ["DOE"] == ["john", "DOE"];
    NamePieces();
    NameJoins();
    NameTailTokens();
    TokensWord("john", "   DOE ");
    TokensGap("  ", "john   DOE ");
  }

  lemma NameWords()
    ensures AllAscii(["john", "DOE"])
    ensures JoinWords(CapitalizeEach(["john", "DOE"])) == "John Doe"
  {
    NamePieces();
    NameResult();
    var caps := CapitalizeEach(["john", "DOE"]);
    assert caps[0] == "John";
    assert caps[1] == "Doe";
    assert caps[1..] == ["Doe"];
  }

  lemma NameCapitalized()
    ensures IsAscii("  john   DOE ")
    ensures CapitalizedWords("  john   DOE ") == "John Doe"
  {
    NameAscii();
    NameTokens();
    NameWords();
    CapitalizedWordsJoin("  john   DOE ");
  }

  lemma NameProcessed()
    ensures IsAscii("  john   DOE ")
    ensures ProcessValue("  john   DOE ", FullNamePolicy) == "John Doe"
  {
    NameResult();
    NameCapitalized();
    WordsProcessed("  john   DOE ", FullNamePolicy, "John Doe");
  }

  /** "  john   DOE " is stored as "John Doe". */
  lemma FullNameExample()
    ensures IsAscii("  john   DOE ")
    ensures NormalizeField(Str("  john   DOE "), FullNamePolicy) == "John Doe"
  {
    NameProcessed();
    TextStored("  john   DOE ", FullNamePolicy, "John Doe");
  }

  /*
   * ---------------------------------------------------------------------------
   * uniqueId: UPPERCASE, no default text of its own
   * ---------------------------------------------------------------------------
   */

  /** A null or empty `uniqueId` is stored as the processed empty default, "" — it does not stay null. */
  lemma UniqueIdDefault(v: NullableString)
    requires IsNullOrEmpty(v)
    ensures NormalizeField(v, UniqueIdPolicy) == ""
  {
    DefaultStored(v, UniqueIdPolicy, "");
  }

  /**
   * A non-empty `uniqueId` is stored upper-cased: it is the text the same
   * value would get with no transform (trimmed, whitespace runs collapsed),
   * upper-cased. No lower-case letter is left, and nothing gets longer.
   */
  lemma UniqueIdUpper(s: string)
    requires s != [] && IsAscii(s)
    ensures NormalizeField(Str(s), UniqueIdPolicy) == ToUpper(NormalizeField(Str(s), DefaultPolicy))
    ensures var r := NormalizeField(Str(s), UniqueIdPolicy);
      |r| <= |s| && forall i :: 0 <= i < |r| ==> !('a' <= r[i] <= 'z')
  {
    TextProcessed(s, UniqueIdPolicy);
    TextProcessed(s, DefaultPolicy);
    assert UniqueIdPolicy.(transform := NONE) == DefaultPolicy;
    CaseMappingCommutes(s, UniqueIdPolicy);
    CaseMappedResult(s, UniqueIdPolicy);
    ProcessValueShorter(s, UniqueIdPolicy);
  }

  /*
   * ---------------------------------------------------------------------------
   * emailAddress: LOWERCASE, default "noemail@example.com"
   * ---------------------------------------------------------------------------
   */

  lemma EmailAscii()
    ensures IsAscii("noemail@example.com")
    ensures forall i :: 0 <= i < |"noemail@example.com"| ==> !('A' <= "noemail@example.com"[i] <= 'Z')
  {
  }

  lemma EmailShape()
    ensures Trimmed("noemail@example.com") && Collapsed("noemail@example.com")
  {
  }

  /** A null or empty `emailAddress` becomes "noemail@example.com". */
  lemma EmailAddressDefault(v: NullableString)
    requires IsNullOrEmpty(v)
    ensures IsAscii(EmailAddressPolicy.defaultValue)
    ensures NormalizeField(v, EmailAddressPolicy) == "noemail@example.com"
  {
    EmailAscii();
    EmailShape();
    ToLowerFixed("noemail@example.com");
    DefaultStored(v, EmailAddressPolicy, "noemail@example.com");
  }

  /**
   * A non-empty `emailAddress` is stored lower-cased: it is the text the same
   * value would get with no transform, lower-cased. No upper-case letter is
   * left, and nothing gets longer.
   */
  lemma EmailAddressLower(s: string)
    requires s != [] && IsAscii(s)
    ensures NormalizeField(Str(s), EmailAddressPolicy) == ToLower(NormalizeField(Str(s), DefaultPolicy))
    ensures var r := NormalizeField(Str(s), EmailAddressPolicy);
      |r| <= |s| && forall i :: 0 <= i < |r| ==> !('A' <= r[i] <= 'Z')
  {
    TextProcessed(s, EmailAddressPolicy);
    TextProcessed(s, DefaultPolicy);
    var plain := EmailAddressPolicy.(transform := NONE);
    assert plain == DefaultPolicy.(defaultValue := "noemail@example.com");
    assert ProcessValue(s, plain) == ProcessValue(s, DefaultPolicy);
    CaseMappingCommutes(s, EmailAddressPolicy);
    CaseMappedResult(s, EmailAddressPolicy);
    ProcessValueShorter(s, EmailAddressPolicy);
  }

  /*
   * ---------------------------------------------------------------------------
   * address: CAPITALIZE_SENTENCES, default "Unknown Address"
   * ---------------------------------------------------------------------------
   */

  lemma UnknownAddressAscii()
    ensures IsAscii("nknown Address") && IsAscii("Unknown Address")
    ensures ['U'] + "nknown Address" == "Unknown Address"
  {
  }

  lemma UnknownAddressNoEnds()
    ensures forall i :: 0 <= i < |"nknown Address"| ==> !IsSentenceEnd("nknown Address"[i])
  {
  }

  lemma UnknownAddressShape()
    ensures Trimmed("Unknown Address") && Collapsed("Unknown Address")
  {
  }

  /** A null or empty `address` becomes "Unknown Address". */
  lemma AddressDefault(v: NullableString)
    requires IsNullOrEmpty(v)
    ensures IsAscii(AddressPolicy.defaultValue)
    ensures NormalizeField(v, AddressPolicy) == "Unknown Address"
  {
    UnknownAddressAscii();
    UnknownAddressNoEnds();
    UnknownAddressShape();
    SentenceCaseLead('U', "nknown Address");
    DefaultStored(v, AddressPolicy, "Unknown Address");
  }

  lemma AddressPieces()
    ensures IsAscii("ello world") && IsAscii("his is fine") && IsAscii(" ")
    ensures forall i :: 0 <= i < |"ello world"| ==> !IsSentenceEnd("ello world"[i])
    ensures forall i :: 0 <= i < |"his is fine"| ==> !IsSentenceEnd("his is fine"[i])
  {
  }

  lemma AddressSentences()
    ensures ['h'] + "ello world" + ['.'] == "hello world."
    ensures ['t'] + "his is fine" + ['!'] == "this is fine!"
    ensures ['H'] + "ello world" + ['.'] == "Hello world."
    ensures ['T'] + "his is fine" + ['!'] == "This is fine!"
  {
  }

  lemma AddressWhole()
    ensures "hello world." + (" " + "this is fine!") == "hello world. this is fine!"
    ensures "Hello world." + (" " + "This is fine!") == "Hello world. This is fine!"
    ensures IsAscii("hello world. this is fine!")
  {
  }

  lemma AddressResultShape()
    ensures Trimmed("Hello world. This is fine!") && Collapsed("Hello world. This is fine!")
  {
  }

  /** Sentence capitalisation of the two-sentence example. */
  lemma AddressCapitalized()
    ensures IsAscii("hello world. this is fine!")
    ensures CapitalizedSentences("hello world. this is fine!") == "Hello world. This is fine!"
  {
    AddressPieces();
    AddressSentences();
    AddressWhole();
    SentenceCaseSentence('h', "ello world", '.');
    SentenceCaseSentence('t', "his is fine", '!');
    assert SentenceCase(" ", true) == " " && FlagAfter(" ", true);
    SentenceCaseAppend(" ", "this is fine!", true);
    SentenceCaseAppend("hello world.", " " + "this is fine!", true);
  }

  lemma AddressProcessed()
    ensures IsAscii("hello world. this is fine!")
    ensures ProcessValue("hello world. this is fine!", AddressPolicy) == "Hello world. This is fine!"
  {
    AddressResultShape();
    AddressCapitalized();
    SentencesProcessed("hello world. this is fine!", AddressPolicy, "Hello world. This is fine!");
  }

  /** "hello world. this is fine!" is stored as "Hello world. This is fine!". */
  lemma AddressExample()
    ensures IsAscii("hello world. this is fine!")
    ensures NormalizeField(Str("hello world. this is fine!"), AddressPolicy) == "Hello world. This is fine!"
  {
    AddressProcessed();
    TextStored("hello world. this is fine!", AddressPolicy, "Hello world. This is fine!");
  }

  /*
   * ---------------------------------------------------------------------------
   * userDetails: at most 250 characters, whitespace runs kept, default "N/A"
   * ---------------------------------------------------------------------------
   */

  /** A null or empty `userDetails` becomes "N/A". */
  lemma UserDetailsDefault(v: NullableString)
    requires IsNullOrEmpty(v)
    ensures IsAscii(UserDetailsPolicy.defaultValue)
    ensures NormalizeField(v, UserDetailsPolicy) == "N/A"
  {
    assert IsAscii("N/A") && Trimmed("N/A") && Collapsed("N/A");
    DefaultStored(v, UserDetailsPolicy, "N/A");
  }

  /**
   * A non-empty `userDetails` is cut to its first 250 characters and then
   * trimmed; whitespace runs inside it are not collapsed.
   */
  lemma UserDetailsShape(s: string)
    requires s != [] && IsAscii(s)
    ensures var r := NormalizeField(Str(s), UserDetailsPolicy);
      |r| <= 250 && Trimmed(r) && r == Trim(Truncate(s, 250))
  {
    TextProcessed(s, UserDetailsPolicy);
  }

  lemma RunsText()
    ensures IsAscii("a \t b") && Trimmed("a \t b") && !Collapsed("a \t b")
  {
    assert WhitespacePair("a \t b", 1);
  }

  /** Interior whitespace survives: "a \t b" is stored as it is, although it is not collapsed. */
  lemma UserDetailsKeepsRuns()
    ensures IsAscii("a \t b") && !Collapsed("a \t b")
    ensures NormalizeField(Str("a \t b"), UserDetailsPolicy) == "a \t b"
  {
    RunsText();
    ProcessValueOf("a \t b", UserDetailsPolicy, "a \t b");
    TextStored("a \t b", UserDetailsPolicy, "a \t b");
  }

  /**
   * The stored text is exactly 250 characters long only when the first 250
   * characters neither start nor end with a character that `trim()` removes.
   */
  lemma UserDetailsFullLength(s: string)
    requires |s| >= 250 && IsAscii(s)
    requires !IsTrimmable(s[0]) && !IsTrimmable(s[249])
    ensures NormalizeField(Str(s), UserDetailsPolicy) == s[..250]
  {
    var cut := s[..250];
    assert Trimmed(cut);
    TrimIdentity(cut);
    TextProcessed(s, UserDetailsPolicy);
  }

  /*
   * ---------------------------------------------------------------------------
   * A whole object
   * ---------------------------------------------------------------------------
   */

  /** A `UserDTO` whose fields are all null or empty, as the pass sees it. */
  predicate EmptyUserValues(values: seq<FieldValue>) {
    IsUserValues(values) && forall k :: 0 <= k < 5 ==> IsNullOrEmpty(values[k].s)
  }

  lemma EmptyFullName(values: seq<FieldValue>)
    requires EmptyUserValues(values)
    ensures WellTyped(Fields, values) && AsciiReady(Fields, values)
    ensures ProcessedValues(Fields, values)[0] == StringValue(Str("Unknown User"))
  {
    UserFieldsReady(values);
    var r := ProcessedValues(Fields, values);
    assert Fields[0].policy.value == FullNamePolicy;
    assert r[0].s.text == NormalizeField(values[0].s, FullNamePolicy);
    FullNameDefault(values[0].s);
  }

  lemma EmptyUniqueId(values: seq<FieldValue>)
    requires EmptyUserValues(values)
    ensures WellTyped(Fields, values) && AsciiReady(Fields, values)
    ensures ProcessedValues(Fields, values)[1] == StringValue(Str(""))
  {
    UserFieldsReady(values);
    var r := ProcessedValues(Fields, values);
    assert Fields[1].policy.value == UniqueIdPolicy;
    assert r[1].s.text == NormalizeField(values[1].s, UniqueIdPolicy);
    UniqueIdDefault(values[1].s);
  }

  lemma EmptyEmailAddress(values: seq<FieldValue>)
    requires EmptyUserValues(values)
    ensures WellTyped(Fields, values) && AsciiReady(Fields, values)
    ensures ProcessedValues(Fields, values)[2] == StringValue(Str("noemail@example.com"))
  {
    UserFieldsReady(values);
    var r := ProcessedValues(Fields, values);
    assert Fields[2].policy.value == EmailAddressPolicy;
    assert r[2].s.text == NormalizeField(values[2].s, EmailAddressPolicy);
    EmailAddressDefault(values[2].s);
  }

  lemma EmptyAddress(values: seq<FieldValue>)
    requires EmptyUserValues(values)
    ensures WellTyped(Fields, values) && AsciiReady(Fields, values)
    ensures ProcessedValues(Fields, values)[3] == StringValue(Str("Unknown Address"))
  {
    UserFieldsReady(values);
    var r := ProcessedValues(Fields, values);
    assert Fields[3].policy.value == AddressPolicy;
    assert r[3].s.text == NormalizeField(values[3].s, AddressPolicy);
    AddressDefault(values[3].s);
  }

  lemma EmptyUserDetails(values: seq<FieldValue>)
    requires EmptyUserValues(values)
    ensures WellTyped(Fields, values) && AsciiReady(Fields, values)
    ensures ProcessedValues(Fields, values)[4] == StringValue(Str("N/A"))
  {
    UserFieldsReady(values);
    var r := ProcessedValues(Fields, values);
    assert Fields[4].policy.value == UserDetailsPolicy;
    assert r[4].s.text == NormalizeField(values[4].s, UserDetailsPolicy);
    UserDetailsDefault(values[4].s);
  }

  /**
   * After the pass, a `UserDTO` whose fields are all null or empty holds
   * "Unknown User", "", "noemail@example.com", "Unknown Address" and "N/A".
   */
  lemma EmptyUser(values: seq<FieldValue>)
    requires EmptyUserValues(values)
    ensures WellTyped(Fields, values) && AsciiReady(Fields, values)
    ensures var r := ProcessedValues(Fields, values);
      && |r| == 5
      && r[0] == StringValue(Str("Unknown User"))
      && r[1] == StringValue(Str(""))
      && r[2] == StringValue(Str("noemail@example.com"))
      && r[3] == StringValue(Str("Unknown Address"))
      && r[4] == StringValue(Str("N/A"))
  {
    EmptyFullName(values);
    EmptyUniqueId(values);
    EmptyEmailAddress(values);
    EmptyAddress(values);
    EmptyUserDetails(values);
  }
}
