# Registration form: address normaliser, server validator and browser checks

This project is a Dafny model of the logic at the core of a Japanese member-registration form.
It has three parts.

- **Address normaliser and master check** (`UserAddress` in `Address.php`):
  - `normalizeAddress` rewrites free-form address text into a canonical form in five fixed steps.
  - `checkAddressMatch` asks whether a typed postal code, prefecture and city/town agree with the postal address master.
- **Server validator** (`Validator` in `Validator.php`):
  - `validate` runs one ordered chain of rules per field.
  - Each field stores at most one message, under its field key.
  - `getErrors` returns that ordered error map.
- **Browser checks** (`contact.js`):
  - The four field predicates `validateName`, `validateKana`, `validateTel` and `validateMail`.
  - The submit handler's decision to cancel the submission.

The modules are:

| module | file | models |
|---|---|---|
| `Wrappers` | wrappers.dfy | `Option`, and the outcome of a database query (rows, or a failure) |
| `Chars` | chars.dfy | the character classes: `\s` with and without PHP's `u` modifier, `trim`'s set, full-width digits, the hyphen glyphs, the kanji numerals |
| `Strings` | strings.dfy | map, filter, `trim`, `mb_strpos` (first occurrence) and byte-wise string order |
| `Decimal` | decimal.dfy | decimal digit strings, `sprintf('%0Nd')` and PHP's `(int)` cast |
| `Normalization` | normalize.dfy | `normalizeAddress` |
| `AddressMatch` | address.dfy | `checkAddressMatch` |
| `Dates` | dates.dfy | `checkdate` and the "not in the future" test |
| `Validator` | validator.dfy | `validate`, `isValidDate` and `getErrors` |
| `ContactForm` | client.dfy | the four browser predicates and the submit decision |
| `ClientServer` | compare.dfy | where browser and server agree and where they part |

How the model treats the parts it does not compute:

- **Inputs supplied from outside.** The database query is a function parameter, `lookup(postalKey, normalisedPrefecture)`. It returns either rows or a failure, so the key the code queries with is part of each contract. "Today" is a parameter. The uploaded-file metadata is a record per document: its upload error code and its declared type.
- **Library predicates.** `\p{Han}`, `\p{Hiragana}`, `\p{Katakana}` and `FILTER_VALIDATE_EMAIL` are uninterpreted. They are passed in as an `Oracles` record, and every contract holds for any choice of them.
- **Strings.** Strings are sequences of Unicode scalar values, so `mb_strlen` is the sequence length.
- **Regular-expression details modelled.**
  - PCRE's `$` without the `D` modifier also matches before one final line feed. This is modelled as `Validator.DollarMatch`.
  - Under PHP's `u` modifier, `\s` is `\p{Z}`, `\h` and `\v` together: the ASCII spaces, the space separators, U+2028, U+2029, next line (U+0085) and the Mongolian vowel separator (U+180E). Without it, `\s` means the six ASCII spaces.
  - The browser's regular expressions have no `u` flag, so they run over UTF-16 code units. That matters only for the unescaped `.` in `validateMail`, which cannot match a character outside the Basic Multilingual Plane.

Some facts about the code that shape the model:

- Step 1 of the normaliser converts digits only: `mb_convert_kana` with mode `n` leaves letters alone.
- The postal key is built by `trim`, then deleting `-`, then converting digits (Address.php:133).
- Both telephone patterns require exactly three digit groups.
- The master check has a single mode: containment in either direction.

## Model

| member | source | states |
|---|---|---|
| Normalization.FoldDigits | Address.php:108 | no full-width digit survives; each full-width digit becomes the ASCII digit of the same value; every other character stays in place |
| Normalization.FullWidthDigitsIrrelevant | Address.php:108 | digits typed full-width or half-width give the same normal form |
| Normalization.StripSpaces | Address.php:109 | the result holds exactly the characters of the input that are not Unicode `\s` (U+3000, U+0085 and U+180E included) |
| Normalization.StripSpacesSplit | Address.php:109 | the deletion keeps order: around any character the two sides are stripped independently, and the character survives exactly when it is not a space |
| Normalization.NormalizeDropsSpace | Address.php:109 | inserting a Unicode space anywhere in an address leaves its normal form unchanged |
| Normalization.UnifyHyphens | Address.php:110 | a character becomes `-` if and only if it was `-` or one of ー ― －; no other character changes |
| Normalization.NormalizeUnifiesHyphen | Address.php:110 | each of ー ― － contributes exactly one ASCII `-` to the normal form |
| Normalization.StripParens | Address.php:111 | afterwards no `（` is followed anywhere later by `）`; only input characters remain; a string with no such pair is returned unchanged |
| Normalization.StripParensDropsSpan | Address.php:111 | `（`, the text up to the first following `）`, and that `）` all disappear, whatever the text holds; in the pipeline the text holds no line feed, which the pattern's `.` would not cross, because step 2 already removed every `\s` |
| Normalization.StripParensKeepsPrefix | Address.php:111 | text before the first `（` is kept verbatim, so an unmatched `（` survives |
| Normalization.NormalizeDropsAnnotation | Address.php:111 | an annotation `（…）` leaves no trace in the full normal form |
| Normalization.ExpandNumerals | Address.php:112-116 | no kanji numeral survives; every other character of the input survives; a string without numerals is unchanged |
| Normalization.ExpandNumeralsAppend | Address.php:112-116 | the replacement acts on each character separately (one-for-one, not number parsing) |
| Normalization.NumeralValues | Address.php:112-116 | 一 … 十 become the decimal numerals of 1 … 10, without leading zeros |
| Normalization.NumeralRunExpands | Address.php:112-116 | each kanji numeral of a two-numeral run is replaced on its own, so the run becomes the two digit strings joined |
| Normalization.ElevenBecomesOneHundredOne | Address.php:112-116 | 十一 normalises to `101`, not `11` |
| Normalization.NormalizeAddress | Address.php:106-118 | the normal form has no full-width digit, no space, no hyphen glyph, no kanji numeral and no `（…）` pair |
| Normalization.NormalIsFixed | Address.php:106-118 | a string already in normal form is its own normal form |
| Normalization.NormalizeIdempotent | Address.php:106-118 | normalising twice gives the same result as normalising once |
| Normalization.NormalizeKeepsPlainPrefix | Address.php:106-118 | characters that none of the five steps names pass through unchanged and in order |
| Normalization.FullWidthNumberExample | Address.php:106-118 | `１２３番地` and `123番地` have the same normal form |
| Strings.TrimBy | Address.php:133 | trimming returns a contiguous slice whose ends are not trimmed characters, with everything outside it trimmable; the input comes back unchanged if and only if its ends are not trimmable |
| AddressMatch.PostalKey | Address.php:133 | the key has no ASCII `-` and no full-width digit; every other character of the trimmed input is kept, while `－` is kept as it is |
| AddressMatch.PostalKeyOfHyphenated | Address.php:133 | a code typed `ddd-dddd`, each digit ASCII or full-width, with `trim` whitespace on either side, becomes exactly its seven digits as ASCII, in order and with their values |
| Strings.TrimByPadded | Address.php:133 | trimming removes exactly the trimmable padding around a text whose ends are not trimmable |
| Strings.StrPos | Address.php:170-173 | the first offset where the needle occurs; found if and only if the needle is a substring; an empty needle is found at 0 |
| AddressMatch.EitherContains | Address.php:170-173 | the two `mb_strpos` tests succeed if and only if one text is a substring of the other |
| AddressMatch.LoopAccepts | Address.php:157-178 | one loop pass returns true if and only if the row is eligible (town neither the sentinel nor empty) and confirms the input |
| AddressMatch.CheckAddressMatch | Address.php:130-183 | true if and only if the query on (postal key, normalised prefecture) succeeds and some eligible row's normalised city+town contains, or is contained in, the normalised input; a failed query or no rows gives false; sentinel-only rows give false; an input that normalises to empty matches any eligible row |
| AddressMatch.InputNormalFormSuffices | Address.php:134-135 | pre-normalising the prefecture or the city/town does not change the answer |
| AddressMatch.FullWidthInputMatchesAlike | Address.php:135 | full-width digits in the city/town match as their ASCII forms do |
| Dates.CheckDate | Validator.php:114-117 | a valid date has month 1-12, day 1-31 and year 1-32767; days up to 28 are always valid; 29 February only in leap years; day 29 in every other month; day 30 in every month except February; day 31 only in the seven long months |
| Dates.CenturyLeapDay | Validator.php:116 | a century year has 29 February exactly when it is divisible by 400 (1900 no, 2000 yes) |
| Decimal.PadDecimal | Validator.php:45 | `%0Nd` gives at least N decimal digits whose value is the number, with no leading zero beyond the padding |
| Decimal.FixedDigitsOrder | Validator.php:47 | for equal-width digit strings, string order is numeric order and string equality is numeric equality |
| Decimal.PhpIntCast | Validator.php:116 | on a string of decimal digits the cast yields its decimal value |
| Decimal.IntCastReadsPrefix | Validator.php:116 | the cast skips leading numeric whitespace, reads an optional `-` or `+` and the longest digit prefix, and ignores whatever follows; a string starting with anything else casts to 0 |
| Decimal.IntCastReadsPadded | Validator.php:45 | casting a zero-padded numeral back yields the number |
| Dates.FutureTestsAgree | Validator.php:45-47 | for years of at most four digits, the string comparison of the formatted dates is exactly calendar order |
| Dates.Year10000SlipsThrough | Validator.php:45-47 | 10000-01-01 passes checkdate and is after 2026-10-10, yet the string comparison says it is not |
| Validator.NameCheck | Validator.php:13-21 | the name's message is "required" exactly for empty(), "too long" exactly when more than 20 characters, "edge space" exactly when a space is at either end, "not Japanese" exactly when a character is outside the script classes; each only when the earlier rules passed |
| Validator.NameCheckAccepts | Validator.php:13-21 | a name passes if and only if it is 1-20 characters from the script classes, ー and spaces, with no space at either end |
| Validator.KanaCheck | Validator.php:24-36 | the kana's message is "edge space" exactly when the value starts or ends with a Unicode space, "not hiragana" exactly when, with no edge space, a character is outside ぁ-ん, ー and spaces, and "too long" only after both passed |
| Validator.KanaCheckAccepts | Validator.php:24-36 | kana passes if and only if it is 1-20 characters of ぁ-ん, ー and spaces, with no space at either end |
| Validator.DateCheck | Validator.php:42-50 | a date passes if and only if checkdate accepts it and it is not after today |
| Validator.BirthCheck | Validator.php:39-51 | nothing is reported when the check is skipped; "required" exactly when a part is empty(); otherwise the cast parts go to DateCheck |
| Validator.PostalCheck | Validator.php:54-58 | a postal code passes if and only if it is `ddd-dddd`, optionally followed by one line feed |
| Validator.AddressCheck | Validator.php:61-67 | every address failure is stored under one key; "required" exactly when prefecture or city/town is empty(); otherwise "prefecture too long" exactly when it has more than 10 characters; otherwise "city or building too long" exactly when either has more than 50; the block passes if and only if none of these holds |
| Validator.TelShapeAccepts | Validator.php:72-76 | a number in the server shape has no whitespace and has a digit; once whitespace is excluded, the tolerated final line feed cannot occur |
| Validator.TelCheck | Validator.php:70-78 | "required" exactly for empty(); "whitespace" exactly when an ASCII space occurs; "no digit" exactly when, without whitespace, no ASCII digit occurs; "format" exactly when, with a digit and no whitespace, the shape fails; a number passes if and only if it is `0` followed by groups of 1-4, 1-4 and 3-4 digits joined by `-` |
| Validator.EmailCheck | Validator.php:80-84 | an address passes if and only if it is non-empty and the address filter accepts it |
| Validator.DocumentCheck | Validator.php:88-101 | a document fails if and only if document checking is on, a file was chosen and its declared type is not png, jpeg or jpg; an absent file never fails |
| Validator.Collect | Validator.php:12-101 | the collected failures are exactly the failing fields' messages, in field order |
| Validator.Validate | Validator.php:8-104 | passes if and only if no message is stored and no field fails; stored messages are exactly the chain results, at most one per key, in key order; skipping the birth date or not checking documents removes those keys |
| Validator.ErrorEntries | Validator.php:108-111 | the map has one entry per stored failure, in the order the failures were stored, under pairwise distinct keys |
| Validator.GetErrors | Validator.php:108-111 | the map holds (key, message) for every failing field and nothing else, with distinct keys, entry by entry in the order validate stored them (key order); it is empty exactly when validate passed |
| ContactForm.ValidateName | contact.js:47-50 | an accepted name has 2-20 characters, all full-width (U+3000 to U+9FFF: no ASCII, no half-width katakana), and its only space is U+3000; any 2-20 hiragana are accepted |
| ContactForm.ValidateKana | contact.js:230-238 | accepts if and only if non-empty and every character is in ぁ-ん or ー; no space passes |
| ContactForm.TelSplitUnique | contact.js:218 | any accepted split uses the first and second `-` |
| ContactForm.ValidateTel | contact.js:215-223 | accepts if and only if three ASCII digit groups of 2-4, 2-4 and 3-4 digits joined by single `-` |
| ContactForm.MailSplitUnique | contact.js:203 | any accepted split puts the `@` of the pattern at the first `@` |
| ContactForm.ValidateMail | contact.js:197-208 | accepts if and only if the string matches the pattern; an accepted string starts with an ASCII letter or digit, contains `@` and ends with one |
| ContactForm.DotNotRequired | contact.js:203 | `a@bcd` is accepted: the unescaped `.` needs no literal dot |
| ContactForm.ConventionalAddressAccepted | contact.js:199-203 | every local@domain.tld with word-character parts and an alphanumeric start is accepted |
| ContactForm.MissingFields | contact.js:74-80 | a "not entered" message appears exactly for present required fields whose value is "" |
| ContactForm.SubmitErrors | contact.js:68-125 | each message appears exactly when its check fails; format checks fire only on non-empty values; a chosen file fails unless its type is image/png or image/jpeg |
| ContactForm.SubmitBlocked | contact.js:127-129 | the submission is cancelled if and only if some required field is blank or some format or file check fails |
| ContactForm.SubmitIgnoresNameFormat | contact.js:68-130 | the decision does not depend on the name's content once it is non-empty |
| ContactForm.HandlerRegisteredAsWritten | contact.js:54-68 | with the script as written, the submit handler exists only when the page loads with every required field blank or none blank |
| ContactForm.BlankNameSlipsThroughAtLoad | contact.js:58-68 | a page loaded with only the name blank is submitted unchecked, although the handler would have cancelled it |
| ContactForm.BlankFieldBlocks | contact.js:74-80 | with the handler registered, any blank required field cancels the submission |
| ClientServer.PostalLineFeedOnlyServer | Validator.php:56 | `ddd-dddd` plus a final line feed passes the server but not the browser |
| ClientServer.ClientTelWithLeadingZeroPassesServer | Validator.php:76 | a number the browser accepts that starts with 0 passes the server |
| ClientServer.ClientTelChars | contact.js:218 | an accepted number is digits and `-` only, and starts and ends with a digit |
| ClientServer.ClientTelWithoutLeadingZeroFailsServer | Validator.php:76 | a number the browser accepts that does not start with 0 fails the server's format rule |
| ClientServer.ShortMiddleGroupOnlyServer | Validator.php:76 | 0ddd-d-ddd passes the server's shape but not the browser |
| ClientServer.KanaRulesAgreeUpToLength | Validator.php:24-36 | for kana the browser accepts, the server accepts if and only if it has at most 20 characters |
| ClientServer.ServerKanaWithoutSpacesPassesClient | contact.js:233 | kana the server accepts and that holds no space passes the browser |
| ClientServer.ClientNameOnServer | contact.js:47-50 | for a name the browser's `validateName` accepts, the server accepts it if and only if it neither starts nor ends with U+3000 and the script classes hold every character other than ー and U+3000 |
| ClientServer.ServerNameInClientBlocksPassesClient | contact.js:47-50 | a name the server accepts passes `validateName` when it has at least 2 characters, all in the browser's blocks |
| ClientServer.ClientNameWithLeadingSpaceFailsServer | Validator.php:17-18 | a name the browser accepts that starts with U+3000 gets the server's edge-space message |
| ClientServer.JpgOnlyServer | contact.js:111 | a chosen image/jpg passes the server but not the browser |
| ClientServer.DocumentTypesAgreeOtherwise | Validator.php:90-91 | for any other declared type the two sides agree |
| ClientServer.ZeroIsMissingOnlyOnServer | Validator.php:61-62 | a prefecture of "0" is missing for the server's empty() but not for the browser |

## Left out

- Database access: `getAddressByPostalCode`, `create`, `findByUserId` and `updateByUserId` in Address.php are SQL I/O. The query inside `checkAddressMatch` is a function parameter. Its failure (the caught `PDOException`) is the `LookupFailed` value.
- Db.php, edit.php and update.php are connection set-up, request routing, sessions, file moves and HTML rendering, and are not part of this model. edit.php calls `validate` with both options set. `Validator.Validate`'s contract covers that case through its option clauses.
- Searchaddress.php is an HTTP endpoint and is not part of this model. Its postal clean-up runs in a different order from Address.php:133: convert, then delete hyphens, then trim.
- `\p{Han}`, `\p{Hiragana}`, `\p{Katakana}` and `FILTER_VALIDATE_EMAIL` are library tables and algorithms. They are parameters, and nothing is assumed about them.
- `date('Y-m-d')` reads the clock, so today's date is a parameter.
- Decimal.PhpIntCast: it reads leading whitespace, a sign and a digit prefix, as `Decimal.IntCastReadsPrefix` states. It does not model the exponent and fraction forms of numeric strings, or saturation at the platform's integer limits. So a part written in exponent form is read differently: PHP reads `(int)"3e1"` as 30, the model as 3, so month 2 with day "3e1" is rejected by checkdate in PHP and accepted by the model.
- Dates.FormatDate: its contract states only the minimum length. Its meaning is carried by `Dates.FutureTestsAgree` and `Dates.Year10000SlipsThrough`.
- Validator.DateCheck: the future test is the corrected calendar order `Dates.IsFuture`, not the string comparison as written (see Findings). So for a birth year of 10000 or more, `Validator.DateCheck`, `Validator.Validate` and `Validator.GetErrors` report the "future" message where the code stores nothing. Up to year 9999 the two tests agree (`Dates.FutureTestsAgree`).
- Validator.BirthCheck: for the date rules it defers to `Validator.DateCheck`, so the same difference applies.
- Text that is not valid UTF-8 is outside the model, whose strings are sequences of characters. On such input `preg_replace` returns null, so the kana gets the edge-space message; `preg_match` returns false, so the name gets the "not Japanese" message; and `mb_strlen` counts the bad bytes. On the browser side, lone UTF-16 surrogates are left out for the same reason.
- Form values that are arrays rather than strings, and the `$_FILES` entries beyond the error code and the declared type, are left out. So are PHP warnings about missing keys, which do not change the outcome.
- The DOM helpers of contact.js are UI only: `errorElement`, `removeElementsByClass`, `removeClass`, the live `input` listeners and the messages of the first-display blank check. That check's one effect on the outcome, whether the script gets as far as registering the submit handler, is modelled (see Findings). The message the live name check shows, 'お名前は全角日本語2～20文字で入力してください' (contact.js:35), is left out with them. `ContactForm.ValidateName` is modelled, and `ContactForm.SubmitIgnoresNameFormat` shows the submit handler does not call it.

## Findings

| source | as written | input that shows it | evidently intended | confidence | as-written member | corrected member |
|---|---|---|---|---|---|---|
| contact.js:58-65, 139 | `errorElement` is a `var` assigned a function at line 139, the end of the script. The first-display check at lines 58-65 calls it before that line has run, so the call throws a TypeError and the script stops before line 68 registers the submit handler. | a page loaded with the name blank and the kana filled: no handler exists, so submitting with the name still blank is not cancelled | show the messages and register the handler on every load | not executed | ContactForm.HandlerRegisteredAsWritten (shown by ContactForm.BlankNameSlipsThroughAtLoad) | ContactForm.SubmitBlocked (the handler always registered; ContactForm.BlankFieldBlocks) |
| Validator.php:45-47 | The future test compares `sprintf('%04d-%02d-%02d')` strings byte by byte. checkdate accepts years up to 32767, so a five-digit year formats wider, and it is compared by its first digit. | birth date 10000-01-01 with today 2026-10-10: "1" sorts before "2", so the date is not "after" today and is accepted | reject every date after today in calendar order | not executed | Dates.IsFutureAsWritten (shown by Dates.Year10000SlipsThrough) | Dates.IsFuture (used by Validator.DateCheck; agreement on four-digit years is Dates.FutureTestsAgree) |
