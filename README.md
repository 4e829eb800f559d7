# String processor: a Dafny model

This project models the field normalisation engine of `springboot-innovations`.
An aspect looks at every argument of an intercepted call. Each `String` field
of that argument that carries a `@StringProcessor` policy is normalised in
place:

1. a null or empty value is replaced by the policy's `defaultValue`;
2. the value is transformed (NONE, UPPERCASE, LOWERCASE, CAPITALIZE_WORDS or
   CAPITALIZE_SENTENCES);
3. it is cut to `maxLength` characters when `maxLength` is positive;
4. its ends are trimmed when `trimSpaces` is set;
5. every whitespace run is replaced by one space when `trimMultipleSpaces` is set;
6. the result is written back into the field.

`UserDTO` is the concrete target: five policy-annotated fields and a
`toString`.

Modules:

- `Text` holds the string primitives the pipeline uses:
  - ASCII case mapping;
  - Java `trim()`, which strips every character up to U+0020;
  - the regular-expression class `\s` (six ASCII characters) and `replaceAll("\\s+", " ")`;
  - `substring(0, n)`.
- `Transforms` covers `capitalizeSentences` and `capitalizeFirstLetters`:
  - each is a specification function plus the loop the aspect runs (a method proved equal to the function);
  - the lemmas state what the transforms mean.
- `Pipeline` holds the `Policy` datatype, `applyTextTransformation` and `processValue`.
- `FieldProcessor` is the object pass:
  - reflection is replaced by a table of field declarations (name, declared type, optional policy);
  - an object is an `Instance` whose `values` field the method `ProcessFields` overwrites;
  - the resulting values are specified by the function `ProcessedValues`.
- `UserDto` holds the policy table of `UserDTO` (`Fields`) and `toString`. A `UserDTO` object is an `Instance` whose declarations are `Fields`.
- `UserDtoExamples` works concrete values of each `UserDTO` field through the pipeline.

Text is restricted to ASCII, and a null `String` is the constructor `Null` of
`NullableString`.

The annotation type `StringProcessor.java` is not part of this model. Its
default member values are taken as `DefaultPolicy`:

- transform NONE;
- `maxLength` 0, meaning no cap;
- both trims on;
- `defaultValue` "".

Three behaviours of the code that may be unexpected:

- A null `uniqueId` does not stay null. An annotation member is never null, so
  the empty default is substituted. The guard `value != null` at
  `StringProcessorAspect.java:64` is then always true, and the field is stored
  as "" (`UserDtoExamples.UniqueIdDefault`).
- A 300-character `userDetails` is not always exactly 250 characters long.
  The cut text is trimmed after the cut, so it is 250 long only when neither
  end of the first 250 characters is trimmable
  (`UserDtoExamples.UserDetailsShape`, `UserDtoExamples.UserDetailsFullLength`).
- Running the pass twice is not idempotent for every value.
  - A whitespace-only value is not empty, so it gets no default, and trimming
    turns it into "".
  - On a second pass that "" is empty, so the default is substituted
    (`FieldProcessor.SecondPassSubstitutesDefault`).
  - Idempotence holds for NONE, UPPERCASE and LOWERCASE when the first pass
    leaves non-empty text, or when the default itself processes to ""
    (`FieldProcessor.NormalizeFieldIdempotent`).

## Model

| member | source | states |
|---|---|---|
| Text.ToUpper | src/main/java/com/parthbt143/springboot/innovations/aspects/StringProcessorAspect.java:112 | `toUpperCase` on ASCII keeps the length and maps each character on its own; no lower-case letter is left, other characters are kept |
| Text.ToLower | src/main/java/com/parthbt143/springboot/innovations/aspects/StringProcessorAspect.java:113 | `toLowerCase` on ASCII keeps the length and maps each character on its own; no upper-case letter is left |
| Text.ToLowerFixed | src/main/java/com/parthbt143/springboot/innovations/aspects/StringProcessorAspect.java:113 | lower-casing leaves text without upper-case letters unchanged |
| Text.CaseRoundTrip | src/main/java/com/parthbt143/springboot/innovations/aspects/StringProcessorAspect.java:112-113 | for a letter, upper-casing then lower-casing gives its lower-case form, and lower-casing then upper-casing gives its upper-case form: each letter has one partner of the other case |
| Text.CaseKeepsPosition | src/main/java/com/parthbt143/springboot/innovations/aspects/StringProcessorAspect.java:112-113 | upper-casing a lower-case letter and lower-casing an upper-case letter keep its place in the alphabet ('a' to 'A', 'b' to 'B', …) |
| Text.Trim | src/main/java/com/parthbt143/springboot/innovations/aspects/StringProcessorAspect.java:92 | `trim()` returns the contiguous slice after the leading run of characters up to U+0020; everything after the slice is such a character, and neither end of the result is one |
| Text.TrimIdentity | src/main/java/com/parthbt143/springboot/innovations/aspects/StringProcessorAspect.java:92 | `trim()` leaves text whose ends are not trimmable unchanged |
| Text.Collapse | src/main/java/com/parthbt143/springboot/innovations/aspects/StringProcessorAspect.java:97 | `replaceAll("\\s+", " ")` never lengthens the text, is empty exactly when the input is, and starts and ends with the input's end characters, or a space in place of whitespace |
| Text.CollapseIsCollapsed | src/main/java/com/parthbt143/springboot/innovations/aspects/StringProcessorAspect.java:97 | after collapsing, every whitespace character is a plain space and no two whitespace characters are adjacent |
| Text.CollapseFixpoint | src/main/java/com/parthbt143/springboot/innovations/aspects/StringProcessorAspect.java:97 | already-collapsed text is left unchanged by collapsing |
| Text.CollapseChars | src/main/java/com/parthbt143/springboot/innovations/aspects/StringProcessorAspect.java:97 | every character of the collapsed text is a space or a character of the input |
| Text.CollapseKeepsText | src/main/java/com/parthbt143/springboot/innovations/aspects/StringProcessorAspect.java:97 | collapsing keeps every non-whitespace character, in order: dropping the whitespace from the output and from the input gives the same text |
| Transforms.CollapseTokens | src/main/java/com/parthbt143/springboot/innovations/aspects/StringProcessorAspect.java:95-97 | collapsing keeps the words: the collapsed text has the same whitespace-separated tokens as the input, so a whitespace run between two words becomes one space rather than vanishing |
| Text.CaseMappedTrim | src/main/java/com/parthbt143/springboot/innovations/aspects/StringProcessorAspect.java:92 | trimming a case-mapped text is case-mapping the trimmed text: the case mappings and `trim()` commute |
| Text.CaseMappedCollapse | src/main/java/com/parthbt143/springboot/innovations/aspects/StringProcessorAspect.java:97 | collapsing a case-mapped text is case-mapping the collapsed text |
| Text.Truncate | src/main/java/com/parthbt143/springboot/innovations/aspects/StringProcessorAspect.java:85-88 | the capped text is a prefix of the input, of length min(length, maxLength) when maxLength is positive, and the input itself otherwise |
| Transforms.SentenceCaseAt | src/main/java/com/parthbt143/springboot/innovations/aspects/StringProcessorAspect.java:130-140 | for any starting flag, position i of the scan's output is upper-cased exactly when it holds a letter and the flag is set on reaching i (no earlier letter since the last sentence end, or the flag started set) |
| Transforms.CapitalizedSentencesAt | src/main/java/com/parthbt143/springboot/innovations/aspects/StringProcessorAspect.java:126-143 | `capitalizeSentences` keeps the length; a character changes only if it is a letter at a sentence start (the first letter of the input, or the first letter after '.', '?' or '!'), and such a letter is upper-cased |
| Transforms.CapitalizeSentences | src/main/java/com/parthbt143/springboot/innovations/aspects/StringProcessorAspect.java:126-143 | the builder loop with its `capitalizeNext` flag returns exactly `CapitalizedSentences(input)` |
| Transforms.SentenceCaseAppend | src/main/java/com/parthbt143/springboot/innovations/aspects/StringProcessorAspect.java:130-140 | scanning `a + b` is scanning `a`, then scanning `b` resumed with the flag that `a` left |
| Transforms.SentenceCaseInert | src/main/java/com/parthbt143/springboot/innovations/aspects/StringProcessorAspect.java:130-140 | with the flag clear, text without sentence ends is copied unchanged and leaves the flag clear |
| Transforms.SentenceCaseLead | src/main/java/com/parthbt143/springboot/innovations/aspects/StringProcessorAspect.java:131-133 | a leading letter with the flag set is upper-cased, the rest of a sentence without ends is copied, and the flag is then clear |
| Transforms.SentenceCaseSentence | src/main/java/com/parthbt143/springboot/innovations/aspects/StringProcessorAspect.java:130-140 | one whole sentence has its first letter upper-cased, and its end sets the flag for the next one |
| Transforms.SentenceCase | src/main/java/com/parthbt143/springboot/innovations/aspects/StringProcessorAspect.java:130-140 | the scan with the `capitalizeNext` flag keeps the length (position by position, `SentenceCaseAt`) |
| Transforms.CapitalizedSentences | src/main/java/com/parthbt143/springboot/innovations/aspects/StringProcessorAspect.java:126-143 | `capitalizeSentences` keeps the length of its input (which letters change is `CapitalizedSentencesAt`) |
| Transforms.Tokens | src/main/java/com/parthbt143/springboot/innovations/aspects/StringProcessorAspect.java:152 | the tokens of the split are non-empty and contain no whitespace |
| Transforms.TokensBlank | src/main/java/com/parthbt143/springboot/innovations/aspects/StringProcessorAspect.java:152 | there are no tokens exactly when the input is all whitespace |
| Transforms.Split | src/main/java/com/parthbt143/springboot/innovations/aspects/StringProcessorAspect.java:152 | `split("\\s+")`: the pieces are the tokens, behind a leading empty piece for the empty input and for input that starts with whitespace and is not all whitespace (stated by `SplitPieces` and `SplitLeadingEmpty`) |
| Transforms.SplitPieces | src/main/java/com/parthbt143/springboot/innovations/aspects/StringProcessorAspect.java:152 | no piece of `split("\\s+")` holds whitespace and only the first may be empty; with a leading empty piece removed, the pieces are exactly the tokens |
| Transforms.SplitLeadingEmpty | src/main/java/com/parthbt143/springboot/innovations/aspects/StringProcessorAspect.java:152 | `split` yields a leading empty piece exactly for the empty input and for input that starts with whitespace and is not all whitespace, and no pieces at all exactly for non-empty all-whitespace input |
| Transforms.CapitalizeToken | src/main/java/com/parthbt143/springboot/innovations/aspects/StringProcessorAspect.java:157-158 | a piece keeps its length; its first character is upper-cased and every other one lower-cased |
| Transforms.CapitalizedWords | src/main/java/com/parthbt143/springboot/innovations/aspects/StringProcessorAspect.java:151-164 | `capitalizeFirstLetters` returns text with no trimmable end, and "" for empty or all-whitespace input (its token form is `CapitalizedWordsJoin`) |
| Transforms.CapitalizeFirstLetters | src/main/java/com/parthbt143/springboot/innovations/aspects/StringProcessorAspect.java:151-164 | the split-and-append loop returns exactly `CapitalizedWords(input)` |
| Transforms.AppendSplit | src/main/java/com/parthbt143/springboot/innovations/aspects/StringProcessorAspect.java:152-161 | the empty first piece that `split` yields for leading whitespace contributes nothing: the builder sees only the tokens |
| Transforms.AppendCapitalizedJoin | src/main/java/com/parthbt143/springboot/innovations/aspects/StringProcessorAspect.java:155-161 | for non-empty tokens the builder holds the capitalised tokens joined by single spaces, plus one trailing space |
| Transforms.CapitalizedWordsJoin | src/main/java/com/parthbt143/springboot/innovations/aspects/StringProcessorAspect.java:151-164 | `capitalizeFirstLetters` returns the input's whitespace-separated tokens, in order, each capitalised, joined by single spaces |
| Transforms.CapitalizedWordsBlank | src/main/java/com/parthbt143/springboot/innovations/aspects/StringProcessorAspect.java:151-164 | empty or all-whitespace input gives "" |
| Transforms.TokensOfJoin | src/main/java/com/parthbt143/springboot/innovations/aspects/StringProcessorAspect.java:152 | splitting a single-space join of whitespace-free words gives the words back |
| Transforms.TokensGap | src/main/java/com/parthbt143/springboot/innovations/aspects/StringProcessorAspect.java:152 | leading whitespace adds no token |
| Transforms.TokensWord | src/main/java/com/parthbt143/springboot/innovations/aspects/StringProcessorAspect.java:152 | a whitespace-free run followed by whitespace, or by nothing, is the first token |
| Transforms.CapitalizedWordsOfJoin | src/main/java/com/parthbt143/springboot/innovations/aspects/StringProcessorAspect.java:151-164 | capitalising a single-space join of words is the join of the capitalised words |
| Pipeline.ApplyTransform | src/main/java/com/parthbt143/springboot/innovations/aspects/StringProcessorAspect.java:110-118 | every transform keeps ASCII text ASCII (what each one does is stated by the lemmas below) |
| Pipeline.ProcessValue | src/main/java/com/parthbt143/springboot/innovations/aspects/StringProcessorAspect.java:80-101 | the result is at most `maxLength` long when that is positive; with `trimSpaces` neither end is trimmable; with `trimMultipleSpaces` every whitespace character is a single space |
| Pipeline.ProcessValueShorter | src/main/java/com/parthbt143/springboot/innovations/aspects/StringProcessorAspect.java:85-98 | the cap, the trim and the collapse never lengthen the transformed value |
| Pipeline.ProcessValueChars | src/main/java/com/parthbt143/springboot/innovations/aspects/StringProcessorAspect.java:85-98 | every character of the result is a space or a character of the transformed value |
| Pipeline.ProcessValueOf | src/main/java/com/parthbt143/springboot/innovations/aspects/StringProcessorAspect.java:80-101 | when the transform already yields text within every bound of the policy, that text is the result |
| Pipeline.CaseMappedResult | src/main/java/com/parthbt143/springboot/innovations/aspects/StringProcessorAspect.java:110-113 | after UPPERCASE no lower-case letter is left in the processed value, and after LOWERCASE no upper-case letter |
| Pipeline.CaseMappingCommutes | src/main/java/com/parthbt143/springboot/innovations/aspects/StringProcessorAspect.java:80-101 | UPPERCASE and LOWERCASE commute with the rest of the pipeline: the processed value is the value processed with no transform, then upper- or lower-cased |
| Pipeline.TransformOutputFixed | src/main/java/com/parthbt143/springboot/innovations/aspects/StringProcessorAspect.java:110-116 | the output of NONE, UPPERCASE and LOWERCASE has nothing left for the same case mapping to change |
| Pipeline.TransformFixpoint | src/main/java/com/parthbt143/springboot/innovations/aspects/StringProcessorAspect.java:110-116 | text that the case mapping would not change is a fixed point of NONE, UPPERCASE and LOWERCASE |
| Pipeline.ProcessValueIdempotent | src/main/java/com/parthbt143/springboot/innovations/aspects/StringProcessorAspect.java:80-101 | under NONE, UPPERCASE or LOWERCASE, processing twice with the same policy equals processing once |
| Pipeline.TransformBlank | src/main/java/com/parthbt143/springboot/innovations/aspects/StringProcessorAspect.java:110-118 | every transform keeps a whitespace-only value whitespace-only |
| Pipeline.ProcessValueBlank | src/main/java/com/parthbt143/springboot/innovations/aspects/StringProcessorAspect.java:80-101 | a whitespace-only value processed with `trimSpaces` comes out as "", whatever the transform and the cap |
| FieldProcessor.NormalizeField | src/main/java/com/parthbt143/springboot/innovations/aspects/StringProcessorAspect.java:54-66 | the text a processed field ends up with (default substituted when null or empty, then processed) meets every bound of its policy |
| FieldProcessor.ProcessField | src/main/java/com/parthbt143/springboot/innovations/aspects/StringProcessorAspect.java:52-67 | a field without a policy, or not declared `String`, keeps its value; a processed field holds non-null text meeting its policy |
| FieldProcessor.ProcessedValues | src/main/java/com/parthbt143/springboot/innovations/aspects/StringProcessorAspect.java:51-68 | after the pass the values still match the declared types; unprocessed fields are unchanged; each processed field holds the non-null normalised text, which meets its policy |
| FieldProcessor.ProcessFields | src/main/java/com/parthbt143/springboot/innovations/aspects/StringProcessorAspect.java:48-70 | a null object is left alone; otherwise the loop over the declared fields leaves the object holding exactly `ProcessedValues` of its old values |
| FieldProcessor.DefaultIsProcessed | src/main/java/com/parthbt143/springboot/innovations/aspects/StringProcessorAspect.java:59-66 | the default is processed, not stored raw: with UPPERCASE and default "n/a", a null or empty field stores "N/A" |
| FieldProcessor.DefaultStored | src/main/java/com/parthbt143/springboot/innovations/aspects/StringProcessorAspect.java:59-66 | a null or empty field stores the transformed default when that already meets the policy |
| FieldProcessor.TextProcessed | src/main/java/com/parthbt143/springboot/innovations/aspects/StringProcessorAspect.java:59-65 | a field holding non-empty text stores its processed text; the default plays no part |
| FieldProcessor.BlankIsEmptied | src/main/java/com/parthbt143/springboot/innovations/aspects/StringProcessorAspect.java:59-65 | a whitespace-only field gets no default and, under `trimSpaces`, stores "" |
| FieldProcessor.NormalizeFieldIdempotent | src/main/java/com/parthbt143/springboot/innovations/aspects/StringProcessorAspect.java:59-65 | under NONE, UPPERCASE or LOWERCASE, a second pass over a field changes nothing when its first pass left non-empty text or its default processes to "" |
| FieldProcessor.SecondPassSubstitutesDefault | src/main/java/com/parthbt143/springboot/innovations/aspects/StringProcessorAspect.java:59-61 | a blank value becomes "" on the first pass and the default on the second, so the condition above is needed |
| FieldProcessor.ProcessedValuesIdempotent | src/main/java/com/parthbt143/springboot/innovations/aspects/StringProcessorAspect.java:48-70 | when every processed field uses NONE, UPPERCASE or LOWERCASE and comes out non-empty or has a default that processes to "", a second pass over the object changes nothing |
| UserDto.UserFieldsReady | src/main/java/com/parthbt143/springboot/innovations/DTOs/UserDTO.java:15-44 | all five `UserDTO` fields are `String` fields with a policy, and every default text is ASCII |
| UserDto.PolicyTable | src/main/java/com/parthbt143/springboot/innovations/DTOs/UserDTO.java:15-44 | the five fields in declaration order, each a `String` with its annotation's full settings (transform, `maxLength`, both trims, default), unset members at their defaults |
| UserDto.ToString | src/main/java/com/parthbt143/springboot/innovations/DTOs/UserDTO.java:46-56 | `toString` starts with "UserDTO [fullName=" and ends with "]" |
| UserDto.ToStringInterleave | src/main/java/com/parthbt143/springboot/innovations/DTOs/UserDTO.java:48-55 | `toString` is the opening text, the rendered fields in declaration order separated by their labels, and "]" |
| UserDto.ToStringParse | src/main/java/com/parthbt143/springboot/innovations/DTOs/UserDTO.java:46-56 | as long as none of the first four rendered fields contains ',', the rendered texts (a null field as "null") can be read back from `toString` in the order fullName, uniqueId, emailAddress, address, userDetails |
| UserDto.ToStringNullAmbiguous | src/main/java/com/parthbt143/springboot/innovations/DTOs/UserDTO.java:50-54 | a null field and a field holding the text "null" print alike |
| UserDtoExamples.UnknownUserCapitalized | src/main/java/com/parthbt143/springboot/innovations/DTOs/UserDTO.java:15-17 | word capitalisation leaves "Unknown User" as it is |
| UserDtoExamples.FullNameDefault | src/main/java/com/parthbt143/springboot/innovations/DTOs/UserDTO.java:15-19 | a null or empty `fullName` is stored as "Unknown User" |
| UserDtoExamples.NameTokens | src/main/java/com/parthbt143/springboot/innovations/DTOs/UserDTO.java:15-16 | the tokens of "  john   DOE " are "john" and "DOE" |
| UserDtoExamples.NameCapitalized | src/main/java/com/parthbt143/springboot/innovations/DTOs/UserDTO.java:15-16 | word capitalisation turns "  john   DOE " into "John Doe" |
| UserDtoExamples.FullNameExample | src/main/java/com/parthbt143/springboot/innovations/DTOs/UserDTO.java:15-19 | a `fullName` of "  john   DOE " is stored as "John Doe" |
| UserDtoExamples.UniqueIdDefault | src/main/java/com/parthbt143/springboot/innovations/DTOs/UserDTO.java:21-24 | a null or empty `uniqueId` is stored as "", not left null |
| UserDtoExamples.UniqueIdUpper | src/main/java/com/parthbt143/springboot/innovations/DTOs/UserDTO.java:21-24 | a non-empty `uniqueId` is stored as the upper-cased text the same value gets with no transform (trimmed, runs collapsed); so no lower-case letter is left and it is no longer than it was |
| UserDtoExamples.EmailAddressDefault | src/main/java/com/parthbt143/springboot/innovations/DTOs/UserDTO.java:26-30 | a null or empty `emailAddress` is stored as "noemail@example.com" |
| UserDtoExamples.EmailAddressLower | src/main/java/com/parthbt143/springboot/innovations/DTOs/UserDTO.java:26-30 | a non-empty `emailAddress` is stored as the lower-cased text the same value gets with no transform; so no upper-case letter is left and it is no longer than it was |
| UserDtoExamples.AddressDefault | src/main/java/com/parthbt143/springboot/innovations/DTOs/UserDTO.java:33-37 | a null or empty `address` is stored as "Unknown Address" |
| UserDtoExamples.AddressCapitalized | src/main/java/com/parthbt143/springboot/innovations/DTOs/UserDTO.java:33-34 | sentence capitalisation turns "hello world. this is fine!" into "Hello world. This is fine!" |
| UserDtoExamples.AddressExample | src/main/java/com/parthbt143/springboot/innovations/DTOs/UserDTO.java:33-37 | an `address` of "hello world. this is fine!" is stored as "Hello world. This is fine!" |
| UserDtoExamples.UserDetailsDefault | src/main/java/com/parthbt143/springboot/innovations/DTOs/UserDTO.java:39-44 | a null or empty `userDetails` is stored as "N/A" |
| UserDtoExamples.UserDetailsShape | src/main/java/com/parthbt143/springboot/innovations/DTOs/UserDTO.java:39-44 | a non-empty `userDetails` is stored as its first 250 characters, trimmed: at most 250 long and with no trimmable end |
| UserDtoExamples.UserDetailsKeepsRuns | src/main/java/com/parthbt143/springboot/innovations/DTOs/UserDTO.java:39-44 | interior whitespace runs are kept: "a \t b" is stored unchanged although it is not collapsed |
| UserDtoExamples.UserDetailsFullLength | src/main/java/com/parthbt143/springboot/innovations/DTOs/UserDTO.java:39-44 | a text of 250 characters or more is stored as exactly its first 250 when neither end of that prefix is trimmable |
| UserDtoExamples.EmptyUser | src/main/java/com/parthbt143/springboot/innovations/DTOs/UserDTO.java:15-44 | a `UserDTO` whose fields are all null or empty holds "Unknown User", "", "noemail@example.com", "Unknown Address" and "N/A" after the pass |

## Left out

- The Spring AOP wiring is not modelled: the pointcut, the `@Before` advice and its loop over `JoinPoint.getArgs()` (`StringProcessorAspect.java:23-39`). It is framework weaving. The model covers the pass over one object. Two arguments that are the same object, and the order in which the arguments are visited, are therefore not captured.
- Java reflection is replaced by an explicit table of field declarations: `getDeclaredFields`, `setAccessible` and `field.get`/`set`. The `IllegalAccessException` path cannot arise on that table and is not modelled.
- Case mapping and `Character.isLetter` are modelled on ASCII characters only. Unicode and locale case mapping, which can change the length (for example 'ß'), is not modelled. The transforms and the pipeline (`ApplyTransform`, `ProcessValue`, `NormalizeField`, `ProcessFields`) therefore require ASCII text; `Trim`, `Collapse`, `Truncate`, `Tokens` and `Split` take any text. `ToString` is stated for `UserDTO` values that are ASCII where not null, like every other `UserDTO` fact here.
- The regular-expression engine behind `split` and `replaceAll` is not modelled. Its behaviour for the one pattern `\s+` is written out directly.
- Transforms.CapitalizedWordsJoin: requires that the input hold no control character other than the six `\s` characters. Java `trim()` removes those characters but `\s` does not split on them, so without this the join form does not hold. `CapitalizedWords` itself models both behaviours for every ASCII input.
- `StringProcessor.java` is not part of this model. Its default member values are assumed in one place, `Pipeline.DefaultPolicy`.
- `StringProcessorController.java` (HTTP routing) and `StringProcessorService.java` (console output of its argument) are not modelled.
- The Lombok-generated getters, setters and constructors of `UserDTO` are not modelled. The fields are the `values` of an `Instance`.
- Java `int` overflow plays no part: `maxLength` is compared and used as a prefix length only, so it is an unbounded integer here.
