# Input masks: a verified model of the masking engine

The `Mask` React component shows a text field that formats what the user
types, according to one of five mask types: a Ukrainian phone number, a credit
card number, a zip code, a time of day and an IBAN. On every keystroke the
component passes the field's whole current text to `formatter`. `formatter`
sends it to the normalizer for the mask type. The normalizer returns two
strings:

- `maskedValue`: the decorated text the field displays.
- `raw`: the same value without decoration.

The field is drawn green when the displayed text is as long as the mask type's
template in the `pattern` table, and red otherwise.

This project models that engine in Dafny and proves what each normalizer
produces. The engine is pure, so everything is written as functions and lemmas.

- `strings.dfy` (module `StringOps`) models the JavaScript string operations
  the engine is built from, as total functions:
  - `Digits`, `NonDigits` and `Strip` model the `replace(/\D/g, '')` family and
    `split(c).join('')`.
  - `Chunks`, `Join` and `Grouped` model `match(/.{1,n}/g)?.join(c) || ''`.
  - `UpperAscii` models `toLocaleUpperCase`.
  - `GreedySplit` models the anchored phone regex with its five bounded capture
    groups.

  The module also proves their laws: layout by position, length, what
  filtering recovers, and that the greedy split is the one match the regex's
  backtracking returns.
- `mask.dfy` (module `Mask`) holds:
  - the mask types;
  - the five normalizers, branch for branch as in `src/Mask.tsx`;
  - `Formatter`, `Pattern` and the completion test `IsComplete`;
  - the properties of each normalizer: its exact layout, how `raw` relates to
    `maskedValue`, idempotence or stability when its own output is fed back in,
    when the field turns green, and that every template is its own
    normalization.

## Model

| member | source | states |
|---|---|---|
| `StringOps.Filter` | src/Mask.tsx:25 | removing a character class keeps only characters of that class and never lengthens the text |
| `StringOps.FilterCounts` | src/Mask.tsx:64 | every kept character occurs as often as in the input; every removed one does not occur at all |
| `StringOps.FilterConcat` | src/Mask.tsx:113 | filtering two pieces and concatenating equals filtering the concatenation, so order is kept |
| `StringOps.Digits` | src/Mask.tsx:25 | `replace(/\D/g, '')` leaves only digits and never lengthens the text; `FilterCounts` and `FilterConcat` say which digits and in what order |
| `StringOps.NonDigits` | src/Mask.tsx:110 | `replace(/(\d*)/g, '')` leaves no digit and never lengthens the text |
| `StringOps.Strip` | src/Mask.tsx:94 | `split(c).join('')` leaves no `c` and never lengthens the text |
| `StringOps.DigitsIdempotent` | src/Mask.tsx:78 | stripping non-digits a second time changes nothing |
| `StringOps.Chunks` | src/Mask.tsx:65 | `.{1,n}` matches concatenate back to the input; each has 1 to n characters and all but the last have exactly n; there are none only for empty input |
| `StringOps.Grouped` | src/Mask.tsx:64-66 | the grouped display is empty exactly when the text is; its layout is stated by the lemmas below |
| `StringOps.GroupedJoinsChunks` | src/Mask.tsx:64-66 | `Grouped` is exactly `Join` applied to `Chunks`, and the empty string when there are no chunks, as `?.join(c) \|\| ''` does |
| `StringOps.GroupedLength` | src/Mask.tsx:64-66 | a grouped display of non-empty text is one separator longer per full group after the first: length \|s\| + (\|s\|-1)/n |
| `StringOps.GroupedAt` | src/Mask.tsx:64-66 | display position i = q*(n+1)+r is the separator when r = n, and text position j = q*n+r (which exists) otherwise |
| `StringOps.GroupedAppend` | src/Mask.tsx:64-66 | grouping text whose first part is whole groups joins the two groupings with one separator |
| `StringOps.GroupedFilter` | src/Mask.tsx:94 | any filter that drops the separator gives the same result on a grouped display as on its input |
| `StringOps.GroupedStrip` | src/Mask.tsx:94 | removing the separator from a grouped display gives the input back when the input has no separator |
| `StringOps.UpperAscii` | src/Mask.tsx:110 | upper-casing keeps the length, maps each character by position, leaves no a-z letter and keeps exactly the digits where they were |
| `StringOps.GreedySplit` | src/Mask.tsx:26 | the anchored match of groups of at most k1..km digits succeeds exactly when there are at most k1+...+km digits, with one capture per group |
| `StringOps.GreedySplitMatches` | src/Mask.tsx:26 | a successful split's captures concatenate to the digits, respect every bound, and a later capture is non-empty only when every earlier one is full |
| `StringOps.GreedySplitUnique` | src/Mask.tsx:26 | any captures that fit the bounds and are filled left to right are the split's own, so the model gives the regex's one match |
| `StringOps.NoSplitMeansNoMatch` | src/Mask.tsx:26 | when the split fails, no captures at all fit the bounds: the anchored regex has no match |
| `Mask.PhoneNormalize` | src/Mask.tsx:21-55 | display and raw are empty together; a non-empty display starts with "+380" and a non-empty raw with "380"; each branch is stated by the lemmas below |
| `Mask.PhoneCaptures` | src/Mask.tsx:26 | the phone regex fails exactly beyond 12 digits; otherwise its captures are the digits cut at 3, 5, 8 and 10 |
| `Mask.PhoneDisplayDigits` | src/Mask.tsx:43-51 | the digits of the phone display are exactly its raw string |
| `Mask.PhoneLengthThreeClears` | src/Mask.tsx:35-40 | any input of exactly three characters clears both strings |
| `Mask.PhoneTooManyDigitsClears` | src/Mask.tsx:42-54 | more than 12 digits leave both strings empty |
| `Mask.PhoneShortEntry` | src/Mask.tsx:28-33 | inputs shorter than five characters (other than three) show "+380 (" and give "380", each followed by the first up-to-three digits |
| `Mask.PhoneGeneralForm` | src/Mask.tsx:42-52 | from five characters and up to 12 digits, the result is the display and raw of the greedy captures |
| `Mask.PhoneGeneralRaw` | src/Mask.tsx:49-51 | in the general case, raw is "380" followed by the digits after the first three, the first group being dropped |
| `Mask.PhoneRawIsDisplayedDigits` | src/Mask.tsx:21-55 | in every branch, raw is exactly the digits of the display |
| `Mask.PhoneGeneralLength` | src/Mask.tsx:43-47 | display length is 4 for "+380", plus the digits after the first three, plus 2 for " (" beyond 3 digits, 2 for ") " beyond 5, and 1 for each single space beyond 8 and 10 |
| `Mask.PhoneFitsPattern` | src/Mask.tsx:144 | no phone display is longer than the 19-character template |
| `Mask.PhoneComplete` | src/Mask.tsx:170 | the phone field is green exactly when the input has at least five characters and exactly 12 digits |
| `Mask.PhoneStable` | src/Mask.tsx:21-55 | from five characters, with 4 to 12 digits, normalizing the display again reproduces the same display and raw |
| `Mask.PhoneShortEntryNotStable` | src/Mask.tsx:28-52 | the short entry "1234" shows "+380 (123", which normalizes to "+380 (12) 3", so stability needs five characters |
| `Mask.CreditCardNormalize` | src/Mask.tsx:61-71 | raw is exactly the input's digits in order; removing the spaces from the display gives raw; the display is empty exactly when there are no digits |
| `Mask.CreditCardLayout` | src/Mask.tsx:62-66 | the display is raw cut into fours joined by single spaces: its length, a space at every fifth position, digit raw[k - k/5] elsewhere |
| `Mask.CreditCardIdempotent` | src/Mask.tsx:61-71 | normalizing the display again gives the same display and raw |
| `Mask.CreditCardComplete` | src/Mask.tsx:170 | green exactly with 16 digits; with at most 16 digits the display fits the template |
| `Mask.ZipCodeNormalize` | src/Mask.tsx:77-81 | display and raw are both exactly the input's digits in order, never longer than the input |
| `Mask.ZipCodeIdempotent` | src/Mask.tsx:77-81 | normalizing the display again gives the same result |
| `Mask.ZipCodeComplete` | src/Mask.tsx:170 | green exactly with 5 digits; with at most 5 digits the display fits the template |
| `Mask.TimeNormalize` | src/Mask.tsx:87-100 | raw, obtained by removing the colons from the display, is exactly the input's digits; the display is empty exactly when there are none |
| `Mask.TimeLayout` | src/Mask.tsx:88-92 | the display is the digits cut into pairs joined by ":": its length, a colon at every third position, digit raw[k - k/3] elsewhere |
| `Mask.TimeIdempotent` | src/Mask.tsx:87-100 | normalizing the display again gives the same display and raw |
| `Mask.TimeComplete` | src/Mask.tsx:170 | green exactly with 6 digits; with at most 6 digits the display fits the template |
| `Mask.IbanBody` | src/Mask.tsx:113 | the text before grouping keeps the first two characters as typed, is digits after them, and has 2 to 33 characters |
| `Mask.IbanNormalize` | src/Mask.tsx:106-121 | raw never holds a space and has at most 33 characters; inputs of 35 characters or more give empty strings |
| `Mask.IbanCountryCodeBand` | src/Mask.tsx:109-110 | under three characters the display is the input's non-digits, at most two, each upper-cased in place, so it holds no digit and no lower-case letter |
| `Mask.IbanAccountBand` | src/Mask.tsx:111-118 | from 3 to 34 characters, raw is the first two characters without spaces then the digits of positions 2 to 32; the display is that body in fours joined by spaces |
| `Mask.IbanBodyOfGrouped` | src/Mask.tsx:113-115 | a display of at most 33 characters, made from a body whose tail is digits, yields that body again |
| `Mask.IbanStable` | src/Mask.tsx:106-121 | while the display fits the template, normalizing it again gives the same display and raw |
| `Mask.IbanComplete` | src/Mask.tsx:170 | green exactly in the account band with a 27-character body; a shorter body fits the template |
| `Mask.Formatter` | src/Mask.tsx:128-141 | for each mask type, the relation between raw and the display: raw is all digits except for IBAN, and raw is the display with that type's decoration removed (the dispatch to each type's normalizer is the body) |
| `Mask.IsComplete` | src/Mask.tsx:170 | a complete display has between 5 and 33 characters, the shortest and longest template |
| `Mask.Pattern` | src/Mask.tsx:143-149 | template lengths are 19, 19, 5, 8 and 33 |
| `Mask.PhonePatternIsNormalized` | src/Mask.tsx:144 | the phone template normalizes to itself |
| `Mask.CreditCardPatternIsNormalized` | src/Mask.tsx:145 | the credit card template normalizes to itself |
| `Mask.TimePatternIsNormalized` | src/Mask.tsx:147 | the time template normalizes to itself |
| `Mask.IbanPatternIsNormalized` | src/Mask.tsx:148 | the IBAN template normalizes to itself |
| `Mask.PatternIsNormalized` | src/Mask.tsx:143-170 | every template is its own normalization and counts as complete |

## Left out

- The React `Mask` component (src/Mask.tsx:157-178) is left out: its state, its change handler, the `onChange` callback and its attributes. Only the length comparison at line 170 is modelled, as `IsComplete`.
- The stylesheet import (src/Mask.tsx:2) and the demo application are not part of this model.
- `maxLength` (src/Mask.tsx:173) is not modelled as a limit on inputs. The normalizers are specified for inputs of every length. This is why the IBAN band for 35 characters and more appears, although the field cannot hold such text.
- Strings are sequences of `char`, and lengths and slice offsets are counted in `char`s. JavaScript counts `value.length` (src/Mask.tsx:28,35,109,111) and `slice(0, 2)`/`slice(2, 33)` (src/Mask.tsx:113) in UTF-16 code units. Input holding characters outside the Basic Multilingual Plane, such as emoji, can therefore take a different branch here: JavaScript counts `"😀1"` as 3 long, so the phone mask clears it, while the model counts 2.
- `.` in `/.{1,n}/` does not match line terminators. The model chunks every character, which assumes the field text has none. An `<input>` removes line feeds and carriage returns but not U+2028/U+2029; these matter only among the first two characters of an IBAN in the account band, where JavaScript's chunking skips them and the model keeps them.
- StringOps.UpperAscii: upper-cases only `a`-`z`. `toLocaleUpperCase` also maps non-ASCII letters and depends on the locale.
- The phone templates contain `${match[i] ? '' : ''}` pieces (src/Mask.tsx:49-51). They always add the empty string and are not modelled.
- Mask.PhoneFitsPattern, Mask.CreditCardComplete, Mask.TimeComplete, Mask.IbanComplete: the display is not kept within its template by the normalizers. It fits the template only when the input holds no more digits than the template. For example, 17 digits give a 21-character credit card display. The field's `maxLength` is what limits the text in practice, so the fit is proved only under that precondition. The phone display is the exception: the regex rejects more than 12 digits, so it always fits.
- Mask.PhoneStable: proved for inputs of at least five characters with 4 to 12 digits. A short entry is not always stable: "1234" shows "+380 (123", which normalizes to "+380 (12) 3" (`Mask.PhoneShortEntryNotStable`). An input of five characters or more with at most 3 digits shows "+380", which normalizes to "+380 (380".
- Mask.IbanStable: proved while the body has 3 to 27 characters. A longer body gives a display over 33 characters, which the field cannot hold. A two-character body gives a two-character display, which falls into the country-code band.
