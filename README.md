# Leecode codec in Dafny

Leecode gives each of 98 characters a fixed two-digit decimal code. The
characters are A–Z, a–z, 0–9, punctuation including the em dash U+2014,
space, tab, newline and carriage return. The codes run from "00" to "97".
`encode` first collapses every run of spaces with `clean_input`. It then
writes the code of each character in order and fails at the first character
that has no code. `decode` deletes every non-digit and rejects an odd digit
count. It then reads the remaining digits two at a time and fails at the
first pair that is not a code.

The model has five modules:

- `CodeTable` (code_table.dfy) holds the two dictionaries. `number_to_char`
  is a map built from the 98 table characters, written in code order.
  `char_to_number` is built from it the way the dictionary comprehension
  does.
- `Normalizer` (normalizer.dfy) holds `clean_input`. The regular-expression
  substitution is written as a recursive scan, next to an independent
  reference definition (`Squeeze`).
- `Codec` (codec.dfy) holds `encode` and `decode`. The loops are imperative
  methods (`Encode`, `Decode`) with loop invariants. Each is proved equal to
  a specification function (`Encoding`, `Decoding`). Raising `ValueError`
  becomes a `Result` value with three kinds of failure: an unsupported
  character (carrying the character), an odd length, and an unknown pair
  (carrying the pair).
- `CodecProperties` (codec_properties.dfy) holds what `encode` and `decode`
  promise: when and where they fail, the shape of their output, and the
  round trips in both directions.
- `TestLeecode` (test_leecode.dfy) holds the script `test_leecode.py`. That
  file repeats the table, `clean_input`, `encode` and `decode` word for
  word (test_leecode.py:10-70), so the modules above stand for both copies.
  The test loops are methods. Every check the script prints is proved as a
  lemma: the sample sentences, the edge cases, the table size, and the two
  hand-written codes.

The table maps "07" to 'H' (app.py:8), so `encode("Hi")` is "0734"
(`TestLeecode.EncodeHi`).

## Model

| member | source | states |
|---|---|---|
| CodeTable.NumberToCharKey | app.py:6-24 | a string is a key of `number_to_char` exactly when it is two ASCII digits denoting a number below 98; key "nn" maps to the nn-th table character |
| CodeTable.PairRoundTrip | app.py:6-24 | reading a two-digit key as a number and writing the number back with zero padding gives the key |
| CodeTable.AlphabetDistinct | app.py:6-24 | the 98 characters of the table are pairwise distinct, so the comprehension inverting it loses no entry |
| CodeTable.CharToNumberAt | app.py:27 | the character under each code is a key of `char_to_number` and is mapped back to that code |
| CodeTable.CodeOfCharInverse | app.py:27 | looking up a character's code and then that code's character gives the character back |
| CodeTable.CharOfCodeInverse | app.py:27 | looking up a code's character and then that character's code gives the code back |
| CodeTable.TablesInverse | app.py:6-27 | `char_to_number` and `number_to_char` are inverse to each other, in both directions |
| CodeTable.CharToNumberKeys | app.py:27 | the keys of `char_to_number` are exactly the 98 table characters |
| CodeTable.TableSizes | test_leecode.py:146 | both dictionaries have 98 entries |
| CodeTable.MaxCode | test_leecode.py:147 | "97" is a code, and every code is a two-digit pair at most 97, so it is also the largest code in string order |
| Normalizer.DropSpaces | app.py:31 | removes exactly the leading run of spaces: the result is a suffix of the input, does not start with a space, and everything removed was a space |
| Normalizer.CleanInput | app.py:29-32 | the cleaned text is never longer than the input and starts with the input's first character |
| Normalizer.CleanInputIsSqueeze | app.py:31 | `clean_input` agrees on every input with an independent definition that deletes each space followed by another space |
| Normalizer.CleanInputNoSpaceRun | app.py:31 | the cleaned text never holds two adjacent spaces |
| Normalizer.CleanInputFixpoint | app.py:29-32 | `clean_input` leaves a text unchanged exactly when the text has no two adjacent spaces |
| Normalizer.CleanInputIdempotent | app.py:29-32 | cleaning twice gives the same result as cleaning once |
| Normalizer.CleanInputSameCharacters | app.py:31 | a character occurs in the cleaned text exactly when it occurs in the input, so tab, newline and carriage return survive |
| Normalizer.CleanInputAppend | app.py:31 | `clean_input` works piecewise when the first piece does not end in a space, since no run of spaces then straddles the cut |
| Codec.EncodeChars | app.py:40-46 | the encoding loop succeeds exactly when every character has a code, and then yields two digits per character; a failure names a character of the text that has no code |
| Codec.Encoding | app.py:34-46 | `encode` yields two digits per character of the cleaned text when it succeeds; when it fails, it names a character of the input that has no code |
| Codec.Encode | app.py:34-46 | the imperative `encode` (empty check, cleaning, loop that appends codes and stops at the first unsupported character) returns `Encoding(text)` |
| Codec.StripNonDigits | app.py:54 | the stripped code holds only ASCII digits and is never longer than the input |
| Codec.DecodePairs | app.py:59-66 | the decoding loop succeeds exactly when every pair is a key of `number_to_char`, and then yields one character per two digits; a failure names a two-character pair that is not a key |
| Codec.Decoding | app.py:48-66 | `decode` yields one character per two digits of the code when it succeeds; when it fails, the error is either the length error or a two-character pair that is not a key |
| Codec.Decode | app.py:48-66 | the imperative `decode` (empty check, stripping, length check, loop over offsets 0, 2, 4, …) returns `Decoding(code)` |
| CodecProperties.EncodeCharsAt | app.py:41-43 | a successful encoding loop puts the code of the i-th character at the i-th pair of its output |
| CodecProperties.EncodeCharsError | app.py:41-45 | a failing encoding loop reports the first character that has no code |
| CodecProperties.DecodePairsAt | app.py:60-63 | a successful decoding loop puts the character of the i-th pair at position i of its output |
| CodecProperties.DecodePairsError | app.py:60-65 | a failing decoding loop reports the first pair that is not a key |
| CodecProperties.StripNonDigitsAppend | app.py:54 | stripping works piecewise, so the digits keep their relative order |
| CodecProperties.StripNonDigitsCounts | app.py:54 | stripping keeps every digit as often as it occurs and drops every other character |
| CodecProperties.StripNonDigitsOfDigits | app.py:54 | a string of digits is left as it is |
| CodecProperties.EncodeEmpty | app.py:36-37 | `encode("")` is the empty code, not an error |
| CodecProperties.DecodeEmpty | app.py:50-51 | `decode("")` is the empty text, not an error |
| CodecProperties.EncodingSuccess | app.py:39-46 | `encode` succeeds exactly when every character of the input (equivalently, of the cleaned input) has a code; its output is then the codes of the cleaned text in order, 2·\|clean_input(text)\| digits long |
| CodecProperties.EncodingError | app.py:39-45 | when `encode` fails, it names the first character of the cleaned text that has no code |
| CodecProperties.DecodingIgnoresNonDigits | app.py:54 | two codes with the same digits decode alike |
| CodecProperties.DecodingNoDigits | app.py:54-66 | a code without any digit decodes to the empty text |
| CodecProperties.SpacedCode | app.py:54 | "07 14" strips to "0714" and decodes like "0714" |
| CodecProperties.DecodingOddLength | app.py:56-57 | `decode` fails with the length error exactly when the number of digits is odd |
| CodecProperties.DecodingUnknownCode | app.py:59-65 | with an even digit count, `decode` fails at the first pair that is not a key, and that pair is "98" or "99" |
| CodecProperties.UnknownPair | app.py:62 | a pair of digits that is not a key is "98" or "99" |
| CodecProperties.UnknownCodeIs98Or99 | app.py:62-65 | every pair `decode` ever rejects is "98" or "99" |
| CodecProperties.DecodingSuccess | app.py:59-66 | with an even digit count and every pair a key, `decode` succeeds with half as many characters, the i-th being the character of the i-th pair |
| CodecProperties.EncodeCharsIsCode | app.py:40-46 | the encoding loop's output is all digits, two per character, and each pair is a key naming its character |
| CodecProperties.DecodePairsEncodeChars | app.py:40-66 | the decoding loop undoes the encoding loop |
| CodecProperties.EncodeCharsDecodePairs | app.py:40-66 | the encoding loop undoes the decoding loop |
| CodecProperties.DecodeEncodeChars | app.py:40-66 | a non-empty code produced by the encoding loop decodes back to the loop's input |
| CodecProperties.RoundTrip | app.py:34-66 | whenever `encode(s)` succeeds, `decode(encode(s))` is `clean_input(s)` |
| CodecProperties.DecodeThenEncode | app.py:34-66 | whenever `decode(c)` succeeds with a text that has no two adjacent spaces, `encode` of that text gives back the digits of `c` |
| TestLeecode.RoundTripVerdict | test_leecode.py:94-114 | one test never prints the cross; it prints the check mark exactly when every character of the input has a code, and otherwise prints the unsupported-character error of `encode` |
| TestLeecode.RunCase | test_leecode.py:93-113 | the body of the test loop, calling the imperative `encode` and `decode`, yields that verdict |
| TestLeecode.RunCases | test_leecode.py:92-114 | the test loop yields one verdict per case, in order |
| TestLeecode.TestCasesPass | test_leecode.py:78-114 | all eight sample sentences get the check mark |
| TestLeecode.EdgeCasesPass | test_leecode.py:120-142 | all five edge cases get the check mark |
| TestLeecode.EncodeHi | app.py:34-46 | "Hi" encodes to "0734" |
| TestLeecode.EncodeSpaceRun | app.py:29-46 | "A  B" is cleaned to "A B" and encodes to "009401" |
| TestLeecode.OnlySpaces | test_leecode.py:123 | "  " is cleaned to " ", encodes to "94" and decodes to " " |
| TestLeecode.ControlCharacters | test_leecode.py:124 | "\n\t" is not collapsed: it encodes to "9695" and decodes back unchanged |
| TestLeecode.DigitText | test_leecode.py:125 | the text "00" encodes to "5252" and decodes back to "00" |
| TestLeecode.MultipleSpaces | test_leecode.py:86 | "Multiple   spaces   here" is cleaned to "Multiple spaces here", encodes, and decodes to "Multiple spaces here" |
| TestLeecode.HiThereClean | test_leecode.py:154 | "Hi there" is left unchanged by `clean_input` |
| TestLeecode.ManualHelloAsWritten | test_leecode.py:153 | the code printed with the "Hello!" comment has 15 digits and `decode` rejects it with the length error |
| TestLeecode.ManualHiThereAsWritten | test_leecode.py:154 | the code printed with the "Hi there" comment decodes to "HelhoPoP It" |
| TestLeecode.IntendedHello | test_leecode.py:153 | "Hello!" encodes to "073037374065", which decodes back to "Hello!" |
| TestLeecode.IntendedHiThere | test_leecode.py:154 | "Hi there" encodes to "0734944533304330", which decodes back to "Hi there" |

## Left out

- The Streamlit page of app.py (app.py:68 onwards), the tkinter and Kivy front ends, and build_apk.py. They are presentation, clipboard and build plumbing. The `.strip()` the front ends apply to their input belongs to them, not to the codec.
- The `print` output of `test_leecode` and the wording of the exception messages. That includes the Unicode code point `ord(char)` in the message of `encode`. A failure is a `Result` variant that carries the offending character or pair.
- The regular-expression engine. `re.sub(r' +', ' ', …)` and `re.sub(r'[^0-9]', '', …)` are written as recursive scans. In Python 3, `[0-9]` matches only the ASCII digits, and the scan keeps exactly those.
- The encoded strings that the script prints for the eight sample sentences are not stated as literals. test_leecode.py:105 only prints them and checks nothing about them; what the script does check, that each sentence comes back from the round trip, is `TestLeecode.TestCasesPass`.
- Python strings can hold lone surrogates (U+D800 to U+DFFF), which have no code and make `encode` raise. A Dafny `char` is a Unicode scalar value and cannot hold one, so the model cannot express that input.
- The `except Exception` in the test loops is modelled only for the errors `encode` and `decode` raise. No other exception can occur in those calls.

## Findings

| source | as written | input that shows it | evidently intended | confidence | as-written member | corrected member |
|---|---|---|---|---|---|---|
| test_leecode.py:153 | the code "071430374115408" is labelled "Should decode to 'Hello!'" | `decode("071430374115408")`: 15 digits, so the length error is raised | the code of "Hello!", "073037374065" | not executed | TestLeecode.ManualHelloAsWritten | TestLeecode.IntendedHello |
| test_leecode.py:154 | the code "0730373340154015940845" is labelled "Should decode to 'Hi there'" | `decode("0730373340154015940845")` returns "HelhoPoP It" | the code of "Hi there", "0734944533304330" | not executed | TestLeecode.ManualHiThereAsWritten | TestLeecode.IntendedHiThere |
