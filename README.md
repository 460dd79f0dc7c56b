# RemoveBrackets layout formatter, modelled in Dafny

JabRef's layout formatters turn a BibTeX field text into the text that an
export layout prints. `RemoveBrackets` is one of them. It copies the field
text character by character into a builder and skips every `{` and every `}`.
All other characters are kept in their original order. Its documentation gives
the example `"{Stefan Kolb}" -> "Stefan Kolb"`.

`RemoveBrackets.dfy` (module `RemoveBrackets`) holds the model:

- `Format` is the formatter's loop. It has a builder that only grows, and its
  loop invariant says that the builder holds the filtered prefix seen so far.
- `Filter` is the specification `Format` is proved against.
- The lemmas state what `Filter` guarantees:
  - no brace in the output;
  - the exact length;
  - unchanged output for brace-free input;
  - idempotence;
  - distribution over concatenation;
  - a characterisation from both directions: the output is the one brace-free
    subsequence of the input that keeps every other character as often as the
    input has it.

## Model

| member | source | states |
|---|---|---|
| `RemoveBrackets.Format` | jablib/src/main/java/org/jabref/logic/layout/format/RemoveBrackets.java:10-19 | the builder filled by the loop over the characters equals `Filter(fieldText)`, so every property proved of `Filter` below holds of the formatter's output |
| `RemoveBrackets.FilterHasNoBraces` | jablib/src/main/java/org/jabref/logic/layout/format/RemoveBrackets.java:13-15 | no character of the output is `{` or `}` |
| `RemoveBrackets.FilterCounts` | jablib/src/main/java/org/jabref/logic/layout/format/RemoveBrackets.java:13-17 | every character other than a brace occurs in the output exactly as often as in the input; braces occur zero times |
| `RemoveBrackets.FilterIsSubsequence` | jablib/src/main/java/org/jabref/logic/layout/format/RemoveBrackets.java:13-17 | the output keeps the input's characters in their original relative order (it is a subsequence of the input) |
| `RemoveBrackets.FilterUnique` | jablib/src/main/java/org/jabref/logic/layout/format/RemoveBrackets.java:13-18 | any brace-free subsequence of the input that keeps every non-brace character as often as the input is the formatter's output, so the three properties above determine it |
| `RemoveBrackets.FilterCharacterized` | jablib/src/main/java/org/jabref/logic/layout/format/RemoveBrackets.java:13-18 | both directions: a text is the output for an input exactly when it is a brace-free subsequence of the input that keeps all other characters |
| `RemoveBrackets.FilterKeepsBraceFree` | jablib/src/main/java/org/jabref/logic/layout/format/RemoveBrackets.java:14-15 | an input without braces is returned unchanged |
| `RemoveBrackets.FilterUnchangedIff` | jablib/src/main/java/org/jabref/logic/layout/format/RemoveBrackets.java:13-18 | the output equals the input if and only if the input holds no brace |
| `RemoveBrackets.FilterIdempotent` | jablib/src/main/java/org/jabref/logic/layout/format/RemoveBrackets.java:13-18 | formatting an already formatted text returns it unchanged |
| `RemoveBrackets.FilterLength` | jablib/src/main/java/org/jabref/logic/layout/format/RemoveBrackets.java:11-18 | the output length is the input length minus the number of `{` and `}` occurrences, so it is never longer than the input |
| `RemoveBrackets.FilterAppend` | jablib/src/main/java/org/jabref/logic/layout/format/RemoveBrackets.java:13-17 | formatting `a + b` equals formatting `a` and `b` separately and concatenating the results |
| `RemoveBrackets.SubsequenceMultiset` | jablib/src/main/java/org/jabref/logic/layout/format/RemoveBrackets.java:13-18 | helper of `FilterUnique`: a general fact about subsequences, that deleting characters never adds occurrences (a subsequence's multiset is contained in the input's); it closes the case in which the first input character is skipped although it is not a brace |
| `RemoveBrackets.FilterUnwraps` | jablib/src/main/java/org/jabref/logic/layout/format/RemoveBrackets.java:7-18 | a brace-free text wrapped in one pair of braces comes out as the bare text, which generalises the documented example |
| `RemoveBrackets.DocumentedExample` | jablib/src/main/java/org/jabref/logic/layout/format/RemoveBrackets.java:7 | `"{Stefan Kolb}"` formats to `"Stefan Kolb"` |

## Left out

- `Format` works on Dafny `char` values, which are Unicode scalar values. Java's `char` is a UTF-16 code unit. The result is the same either way: a surrogate code unit is never equal to `{` or `}`, so a supplementary character's two code units are both kept, in order. A Java `String` may also hold an unpaired surrogate code unit, which a Dafny `string` cannot; the model's input domain is narrower there, and Java keeps such a code unit, since it is never a brace.
- A `null` field text is not modelled. Dafny strings cannot be null, and the Java method would throw a `NullPointerException` on one.
- The initial capacity of the `StringBuilder` (`fieldText.length()`) only tunes allocation and has no visible effect, so it is not modelled.
- The `LayoutFormatter` interface and the layout machinery that calls `format` are not part of this model.
