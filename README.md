# Chat utilities of the genomic assistant, modelled in Dafny

This project models the four text utilities of `utils/chat.ts`. The chat
layer of the genomic assistant uses them on every message.

- **Detection** (`containsSensitiveHealthInfo`) tests a message against
  fifteen regular expressions. Two are numeric: an SSN, and a nine-digit
  medical record number. Thirteen are case-insensitive phrases. Every
  expression is wrapped in `\b` word boundaries.
- **Sanitization** (`sanitizeForHIPAA`) leaves an unflagged message alone.
  A flagged message goes through a chain of thirteen non-global
  `String.prototype.replace` calls, each replacing the leftmost match of
  one pattern with a bracketed label, and then gets the compliance notice
  appended.
- **Formatting** (`formatGenomicData`) renders an object or array with
  `JSON.stringify(data, null, 2)` and any other value with `String(data)`.
  If stringifying throws, it returns a fixed error text instead.
- **Quick replies** (`generateQuickReplySuggestions`) lower-cases the
  message and looks for four keywords by substring inclusion. The first
  group that hits picks a list of canned suggestions. Two of the lists put
  in the patient's name.

The utilities are pure, so the model is made of datatypes, functions and
lemmas. It has no classes and no loops.

The modules follow the utilities:

- `Text`: characters, ASCII case mapping, substring inclusion.
- `Detection`: the regular-expression semantics of the fifteen patterns and
  the detection test.
- `DetectionExamples`: detection on concrete messages.
- `Sanitize`: the substitution chain and the sanitizer.
- `SanitizeExamples`: substitution chains followed on concrete messages.
- `Resanitize`: the compliance notice is never flagged and does not change
  whether the text before it is flagged; what a second pass does.
- `QuickReplies`: the keyword classifier and the three lists.
- `Format`: `JSON.stringify` with an indent of two, `String`, and the
  formatter.
- `FormatExamples`: the formatter on concrete values.

## How the model is built

The regular expressions follow section 22.2 of ECMA-262.

- `\b` checks the word characters `[A-Za-z0-9_]` on each side of a
  position. Outside the string counts as a non-word character.
- The `i` flag compares characters after the non-Unicode Canonicalize
  step. That step upper-cases ASCII letters, and it never maps a
  non-ASCII character onto an ASCII one. The patterns are ASCII, so
  treating them as ASCII is exact.
- No pattern has the `g` flag. Both `test` and `replace` therefore look
  for the leftmost match from index 0.
- Each pattern has a fixed width, so at most one match starts at each
  index.

`JSON.stringify` follows section 25.5.2 of ECMA-262:

- `undefined`, functions and symbols are left out of objects and become
  `null` in arrays;
- non-finite numbers become `null`;
- strings are quoted and escaped as QuoteJSONString specifies;
- a BigInt or a cycle throws a TypeError;
- a non-empty container puts each entry on its own line, two spaces deeper
  than its parent;
- an empty container is written `{}` or `[]`.

`String` turns a BigInt into its decimal digits.

**Sanitizing is not idempotent.** The label `[REDACTED PHI]` contains the
word `PHI`, which the case-insensitive pattern `\bphi\b` matches, so a second
pass redacts it again and adds a second notice:

- `Sanitize.SanitizeTwiceIff` states exactly when a second pass changes
  the text;
- `SanitizeExamples.PhiIsRedactedAndRedetected` shows the input `"phi"`
  doing it;
- `Resanitize.NoticeNotFlagged` shows that the notice itself never causes
  it, and `Resanitize.SanitizeTwiceIffChainClean` narrows the condition to
  the labels and text the chain leaves behind.

## Model

| member | source | states |
|---|---|---|
| Text.Canonicalize | utils/chat.ts:20-32 | The case folding of the `i` flag: a lower-case ASCII letter maps to its upper-case form, and every other character maps to itself. Whether a character is a word character is unchanged. |
| Text.ToLowerCase | utils/chat.ts:77 | `toLowerCase` keeps the length, and each character becomes the lower-case form of the character at the same index. |
| Text.Includes | utils/chat.ts:80 | `includes` holds exactly when the keyword occurs at some index of the text. |
| Text.IncludesTransitive | utils/chat.ts:89 | A text that contains a word also contains everything that word contains. |
| Detection.FirstMatch | utils/chat.ts:34 | When it finds an index, a match starts there and at no earlier index. It finds none exactly when the pattern matches nowhere. |
| Detection.Test | utils/chat.ts:34 | `pattern.test(message)` is true exactly when the pattern matches somewhere in the message. |
| Detection.SomeTest | utils/chat.ts:34 | `some` over a pattern table is true exactly when some pattern of the table matches. |
| Detection.ContainsSensitiveHealthInfo | utils/chat.ts:16-35 | A message is flagged exactly when one of the fifteen patterns, in source order, matches it. |
| Detection.DetectionPatternsWordAnchored | utils/chat.ts:17-33 | Every pattern of the table begins and ends its body with characters that only match word characters. |
| Detection.MatchIsWholeWords | utils/chat.ts:18-32 | The two `\b` mean whole words: a pattern matches at an index exactly when its body matches there, no word character comes just before it, and none comes just after it. |
| Detection.MatchLocal | utils/chat.ts:18-32 | Whether a pattern matches depends only on the characters it covers and whether its two neighbours are word characters. |
| Detection.SingleWordMatch | utils/chat.ts:18-19 | In a text of word characters only, a match must cover the whole text. |
| Detection.DigitRunIsMrnIffNine | utils/chat.ts:19 | A run of digits holds a medical record number exactly when it has nine digits: longer runs do not match. |
| Detection.NoDigitNoNumber | utils/chat.ts:18-19 | A text without digits holds neither an SSN nor a record number. |
| Detection.AbsentCharNoMatch | utils/chat.ts:20-32 | A text that avoids a set of characters holding some character of a phrase, in both cases, has no match of that phrase. |
| Detection.AbsentPairNoMatch | utils/chat.ts:20-32 | A text in which two adjacent characters of a phrase, in either case, never stand side by side has no match of that phrase. |
| Detection.PhrasePrefixMatch | utils/chat.ts:22-32 | Where a multi-word phrase matches, its first word matches too. |
| Detection.PhraseAtStart | utils/chat.ts:20-32 | A phrase at the start of a text, followed by the end of the text or a non-word character, is the leftmost match there. |
| DetectionExamples.NoPatternNotFlagged | utils/chat.ts:17-34 | A message in which none of the fifteen patterns matches is not flagged. |
| DetectionExamples.CleanQuestionNotFlagged | utils/chat.ts:16-35 | "What does this gene do?" is not flagged. |
| DetectionExamples.UpperCaseFlagged | utils/chat.ts:25 | "Home ADDRESS" matches the address pattern at index 5 and is flagged: the test ignores case. |
| DetectionExamples.PluralNotAddress | utils/chat.ts:25 | "addresses" contains the text "address", but the address pattern matches nowhere in it. |
| DetectionExamples.AddressesNotFlagged | utils/chat.ts:16-35 | "addresses" on its own is not flagged: no pattern of the table matches it. |
| DetectionExamples.PluralNotMedication | utils/chat.ts:28 | "medications" contains the text "medication", but the medication pattern matches nowhere in it. |
| DetectionExamples.MedicationsNotFlagged | utils/chat.ts:16-35 | "medications" on its own is not flagged. |
| DetectionExamples.TenDigitsNotRecordNumber | utils/chat.ts:19 | "1234567890" holds no nine-digit record number. |
| Sanitize.ReplaceFirstSpec | utils/chat.ts:42-54 | A non-global `replace` returns the text unchanged when the pattern does not match. Otherwise only the leftmost match becomes the token, and the text before and after it is kept. |
| Sanitize.ReplaceFirstKeepsLaterMatches | utils/chat.ts:42-54 | Only the first occurrence is redacted: every later match lies strictly after the first one, and it still matches in the output, shifted by the change in length. |
| Sanitize.SpliceKeepsLaterMatches | utils/chat.ts:42-54 | Splicing a token over one match keeps every later, non-overlapping match of the same pattern, at its shifted index. |
| Sanitize.ShiftedMatch | utils/chat.ts:42-54 | A match after a spliced region is still a match once shifted by the change in length. |
| Sanitize.MatchesApart | utils/chat.ts:42-54 | Two non-overlapping matches of a word-anchored pattern cannot touch: at least one character lies between them. |
| Sanitize.RedactWithoutOccurrence | utils/chat.ts:42-54 | A chain whose patterns all fail to match returns the text unchanged. |
| Sanitize.RedactLengthens | utils/chat.ts:42-54 | When every token is longer than its match, the chain never shortens the text. It returns the text unchanged only if no step found a match. |
| Sanitize.RedactionStepsLengthen | utils/chat.ts:42-54 | Each of the thirteen labels is longer than any text its pattern matches. |
| Sanitize.RedactionPatternsAreDetected | utils/chat.ts:17-54 | Every pattern of the chain is one of the detection patterns. "patient id" and "date of birth" are detected but have no step. |
| Sanitize.RedactUndetectedIsIdentity | utils/chat.ts:41-58 | On a message detection does not flag, the chain would change nothing. |
| Sanitize.SanitizeShape | utils/chat.ts:38-59 | An unflagged message is returned as it is. A flagged one comes back at least as long plus the notice, ending in exactly the notice, with the chain's output in front of it. |
| Sanitize.SanitizeUnchangedIffUndetected | utils/chat.ts:38-59 | The sanitizer returns its input unchanged exactly when detection does not flag it. |
| Sanitize.SanitizeTwiceIff | utils/chat.ts:38-59 | A second pass leaves a sanitized message unchanged exactly when detection does not flag the first pass's output. |
| Sanitize.DetectedButNotRedacted | utils/chat.ts:41-56 | A flagged message that no substitution pattern matches comes back as itself followed by the notice. |
| SanitizeExamples.SkipStep | utils/chat.ts:42-54 | A step whose pattern does not match passes the text on unchanged. |
| SanitizeExamples.HitAtStart | utils/chat.ts:42-54 | A step whose phrase starts the text replaces exactly that phrase with its label. |
| SanitizeExamples.SsnWhole | utils/chat.ts:42 | A text that is exactly one SSN is replaced by the SSN label in the first step. |
| SanitizeExamples.PhiIsRedactedAndRedetected | utils/chat.ts:44 | "phi" becomes "[REDACTED PHI]" plus the notice. That output is flagged again, and a second pass changes it again. |
| SanitizeExamples.RepeatedTermRedactedOnce | utils/chat.ts:50 | In "medication medication" only the first occurrence is redacted. |
| SanitizeExamples.EmailBeforeAddress | utils/chat.ts:46-47 | In "email address" the address pattern matches too, but the email step runs first, and the result is "[REDACTED EMAIL]" plus the notice. |
| SanitizeExamples.SsnRedacted | utils/chat.ts:42 | "123-45-6789" is flagged and becomes "[REDACTED SSN]" plus the notice. |
| SanitizeExamples.PatientIdOnlyNoticed | utils/chat.ts:41-56 | "patient id" is flagged, but no step replaces it: it comes back as itself plus the notice. |
| SanitizeExamples.BirthDateOnlyNoticed | utils/chat.ts:41-56 | "date of birth" is flagged, but no step replaces it: it comes back as itself plus the notice. |
| SanitizeExamples.CleanQuestionUnchanged | utils/chat.ts:58 | An unflagged question is returned as it is, without the notice. |
| Resanitize.NoticeNotFlagged | utils/chat.ts:55 | The compliance notice matches none of the fifteen detection patterns. |
| Resanitize.NoMatchAcross | utils/chat.ts:18-32 | No match of a table pattern can start in the text and run into a tail that begins with a non-word character and a bracket, nor start where that tail starts. |
| Resanitize.OccursBeforeTail | utils/chat.ts:18-34 | Appending such a tail, in which a pattern does not occur, leaves unchanged whether that pattern occurs. |
| Resanitize.FlaggedWithNotice | utils/chat.ts:34-55 | A text followed by the notice is flagged exactly when the text alone is flagged. |
| Resanitize.SanitizeTwiceIffChainClean | utils/chat.ts:38-59 | A second pass leaves a sanitized message unchanged exactly when the message was not flagged, or the substitution chain's output is not flagged. |
| Resanitize.AddressLabelFlagged | utils/chat.ts:25-47 | "[REDACTED ADDRESS]" matches the address pattern at index 10, so it is flagged. |
| QuickReplies.MutationReplies | utils/chat.ts:81-88 | The mutation list has six suggestions. |
| QuickReplies.GeneReplies | utils/chat.ts:90-97 | The gene list has six suggestions. |
| QuickReplies.GenerateQuickReplySuggestions | utils/chat.ts:76-107 | It throws exactly when the patient record is absent and a keyword branch fires. The default branch gives the default list for any patient; the mutation and gene branches give their lists with the record's name. |
| QuickReplies.SuggestionCount | utils/chat.ts:80-107 | A result always holds at least five suggestions: six on a keyword branch, five on the default one. |
| QuickReplies.ToLowerCaseAppend | utils/chat.ts:77 | Lower-casing distributes over concatenation. |
| QuickReplies.KeywordIgnoresCase | utils/chat.ts:77-80 | A keyword written in the message in any mix of cases is found. |
| QuickReplies.IncludesExtended | utils/chat.ts:80-89 | Adding text before or after a message keeps every keyword it contained. |
| QuickReplies.ClassifyMonotone | utils/chat.ts:80-98 | Adding text around a message never moves it to a lower-priority list. |
| QuickReplies.ContainingGeneSelectsGene | utils/chat.ts:89 | Any word that contains "gene" selects the gene list when no mutation keyword occurs. |
| QuickReplies.GeneticAndGeneralContainGene | utils/chat.ts:89 | "genetic" and "general" both contain "gene". |
| QuickReplies.GeneticAndGeneralSelectGene | utils/chat.ts:80-97 | "genetic" and "general" on their own select the gene list. |
| QuickReplies.MutationBeatsGene | utils/chat.ts:80-89 | "gene mutation" selects the mutation list: the mutation test comes first. |
| QuickReplies.UpperCaseKeyword | utils/chat.ts:77-80 | "GENOMIC" selects the mutation list. |
| QuickReplies.MutationRepliesShape | utils/chat.ts:81-88 | Only the sixth mutation suggestion depends on the name, which it holds verbatim. The other five are fixed. |
| QuickReplies.GeneRepliesShape | utils/chat.ts:90-97 | Only the fifth gene suggestion depends on the name, which it holds verbatim. The other five are fixed. |
| QuickReplies.ListsDistinct | utils/chat.ts:80-107 | The three lists differ from each other, whatever the names. |
| QuickReplies.MutationRepliesDetermineName | utils/chat.ts:87 | Two mutation lists are equal exactly when the names are equal. |
| QuickReplies.GeneRepliesDetermineName | utils/chat.ts:95 | Two gene lists are equal exactly when the names are equal. |
| QuickReplies.NameFromReply | utils/chat.ts:87 | A suggestion built from a fixed prefix, a name and a fixed suffix determines the name. |
| QuickReplies.ResultDeterminesBranch | utils/chat.ts:80-107 | Equal suggestion lists come from the same branch, whatever the patients. |
| QuickReplies.BranchFromList | utils/chat.ts:80-107 | A branch's list tells the branch apart from the other two. |
| QuickReplies.DefaultIgnoresPatient | utils/chat.ts:100-107 | On the default branch the result does not depend on the patient record, and it never throws. |
| QuickReplies.LacksLetter | utils/chat.ts:77-80 | A keyword containing a letter the message lacks in both cases is not found. |
| QuickReplies.GeneWithoutLetterM | utils/chat.ts:80-89 | A message without the letter m that holds "gene" selects the gene list. |
| QuickReplies.MutationQuestion | utils/chat.ts:80-88 | "Tell me about this mutation" with patient "Alex" gets the mutation list, whose last suggestion names Alex. |
| QuickReplies.GeneQuestion | utils/chat.ts:89-97 | "What does this gene do?" gets the gene list with the name. With no patient record it throws. |
| QuickReplies.Greeting | utils/chat.ts:100-107 | "hello" gets the default list, whatever the patient record. |
| Format.FormatGenomicData | utils/chat.ts:62-73 | It never throws. For an object or array, it returns the stringified text when nothing inside is unserializable, and the sentinel otherwise. Any other value is converted with `String`. |
| Format.SerThrowsIff | utils/chat.ts:66 | Stringifying throws exactly when a BigInt or a cycle is reached somewhere inside. |
| Format.SerOmittedIff | utils/chat.ts:66 | A value is skipped exactly when it is `undefined`, a function or a symbol. |
| Format.SerBrackets | utils/chat.ts:66 | A serializable object or array is rendered between its own brackets. |
| Format.ArrayKeepsEveryElement | utils/chat.ts:66 | An array keeps one entry per element, and a skipped element becomes `null`. |
| Format.SerSingleMember | utils/chat.ts:66 | An object with one member puts `"key": text` on its own line, one level deeper than its braces, which stay at the object's level. |
| Format.SerSingleElement | utils/chat.ts:66 | An array with one element puts the element's text on its own line, one level deeper than its brackets, which stay at the array's level. |
| Format.ElementTexts | utils/chat.ts:66 | Array entries fail exactly when some element throws. Otherwise there is one entry per element, the element's text or `null`. |
| Format.MemberTexts | utils/chat.ts:66 | Object entries fail exactly when some member throws. Otherwise there is one entry per member that is not skipped, in member order: the entry of the k-th kept member is its quoted key, `": "` and its text, at the position given by the kept members before it. |
| Format.Keys | utils/chat.ts:66 | There is one key per member. |
| Format.UnquoteQuote | utils/chat.ts:66 | Quoting a string is reversible: reading the JSON string literal back gives the original string. |
| Format.UnescapeQuoteBody | utils/chat.ts:66 | Unescaping the escaped body of any string gives the string back. |
| Format.UnescapeEscapeChar | utils/chat.ts:66 | Reading a character's escape gives back that character, and reading goes on with the text after it. |
| Format.HexRoundTrip | utils/chat.ts:66 | A hexadecimal digit of a `\u` escape is read back as its value. |
| Format.QuoteBodyPrintable | utils/chat.ts:66 | A quoted string holds no control character. |
| Format.QuoteBodyPlain | utils/chat.ts:66 | Text without quotes, backslashes or control characters is quoted verbatim. |
| Format.DecimalRoundTrip | utils/chat.ts:68 | The decimal text of a natural number is a non-empty run of digits, has no leading zero unless the number is zero, and denotes the number. |
| Format.BigIntTextRoundTrip | utils/chat.ts:68 | `String` of a BigInt determines the BigInt: reading its sign and digits gives the original value. |
| FormatExamples.PrimitivesAreStrings | utils/chat.ts:65-68 | `null`, `undefined`, a string and `NaN` are converted with `String`: "null", "undefined", the unquoted string and "NaN". |
| FormatExamples.EmptyContainers | utils/chat.ts:66 | An empty array gives "[]", and an object whose only member is `undefined` gives "{}". |
| FormatExamples.BigIntGivesSentinel | utils/chat.ts:65-71 | An object holding a BigInt gives the sentinel. A lone BigInt is converted to its digits with the sign. |
| FormatExamples.OneMemberLayout | utils/chat.ts:66 | `{a: 1}` gives `{`, a line `  "a": 1`, and `}`. |
| FormatExamples.NestedLayout | utils/chat.ts:66 | `{a: [1]}` gives `{`, `  "a": [`, `    1`, `  ]`, `}`: the nested array goes two spaces deeper. |

## Left out

- The second copy of the four functions (utils/chat.ts:108-215) is the same code again; the model covers it through the first copy.
- The `EnhancedChatResponse` interface and the `Message` import (utils/chat.ts:1-13) are types with no behaviour.
- The `console.error` call in the formatter's catch block (utils/chat.ts:70) is logging only; the model keeps the returned sentinel.
- Case handling covers ASCII only. `toLowerCase` also lower-cases non-ASCII letters, but no keyword contains one, so a keyword match is affected only where a non-ASCII character turns into an ASCII one, which the model does not capture.
- Format.JsNumber: the text `Number::toString` gives a finite number is taken as given, because floating-point printing is out of scope.
- Format.Ser: `toJSON` methods, replacer functions, getters, Proxy objects, boxed primitives, and property-order rules (integer keys first) are not modelled; the members are taken in the order they enumerate.
- Format.Quote: strings are sequences of code points, so the escaping of lone UTF-16 surrogates is not modelled.
- Format.FormatGenomicData: the layout of containers with several entries is proved only through the definition of `Join`; the worked layout examples have one entry per level.
- Format.Circular stands for any cycle; no object graph with identity is built.
- QuickReplies.PatientData: the text a template literal renders for `patientData.name` (a string, a number, `undefined` …) is taken as given; a record without a `name` property renders "undefined", which is covered by the name being arbitrary text. A `name` that is a Symbol makes the template literal throw a TypeError, which `Record(name: string)` cannot express.
- Sanitize.RedactionSteps: only the PHI and ADDRESS labels are worked through as flagged again; for the other labels the question is left to `Resanitize.SanitizeTwiceIffChainClean`, which reduces it to detection on the chain's output.
- The rest of the repository (the chat route, the genomic AI service, report fetching) performs I/O and calls external services; utils/chat.ts is the only file of this model.
