# QR code generator: input classifier, duplicate check and generation workflow

This project models the logic inside the single React component of a QR code
generator (`src/App.js`). The user types a URL, an email address or a phone
number. The component checks the text against three anchored regular
expressions. It refuses text whose first entry in the session history is less
than 24 hours old. Otherwise it hands the text, the chosen width
and the error-correction level to the QR encoding library. When the library
reports success, the component shows the image and appends `{content,
timestamp}` to the history.

The project has three modules, one per concern:

- `Validation` (validation.dfy): `IsURLValid`, `IsEmailValid` and
  `IsPhoneValid`, each the regular expression read literally over
  `seq<char>`. Lemmas characterise, in both directions, exactly which strings
  each validator accepts. `IsAcceptable` is the gate of generateQRCode.
- `History` (history.dfy): the history record, the first-match lookup
  (`Array.find`) and `IsCodeDuplicate`. It also holds the invariant the
  duplicate check keeps on the history (`SpacedFromFirst`) and the lemmas
  about both.
- `Generator` (generator.dfy): the class `QrCodeGenerator`. It holds the
  component's state fields and has one method per handler. Their `modifies`
  and `ensures` clauses say what changes and what does not. `SessionScenario`
  is a client that drives one session through acceptance, duplicate refusal,
  option changes and resubmission after 24 hours.

One might expect the history never to hold two entries with equal content
less than 24 hours apart (`NoCloseRepeats`). The code does not keep that rule:
`isCodeDuplicate` looks only at the first entry with equal content
(src/App.js:79). Suppose a text is resubmitted exactly 24 hours after its
first generation. A third submission 1 ms later is then compared with the
oldest entry only, so it is accepted. `History.FirstMatchAdmitsCloseRepeat`
proves this on that input, including that the duplicate check lets each of
the three entries in. `SpacedFromFirst` is the weaker rule the code does
keep: it is the class invariant of `QrCodeGenerator`.

## Model

| member | source | states |
|---|---|---|
| `Validation.URLValidCharacterisation` | src/App.js:63-66 | the URL validator accepts exactly the strings that start with `ftp://`, `http://` or `https://` and then have one or more characters, none of them whitespace, `"` or `'` |
| `Validation.WwwGroupIsRedundant` | src/App.js:64 | inside each scheme branch, the optional `(?:www\.)?` group does not change the accepted set |
| `Validation.URLHasNoWhitespace` | src/App.js:64 | no accepted URL contains a JavaScript `\s` character |
| `Validation.EmailValidCharacterisation` | src/App.js:68-71 | the email validator accepts iff the string has no whitespace and exactly one `@`, the part before the `@` is non-empty, and the part after it has a `.` that is neither its first nor its last character |
| `Validation.EmailPatternHasShape` | src/App.js:69 | every match of the email pattern, wherever backtracking puts the `@` and the `.`, has that shape |
| `Validation.EmailShapeMatchesPattern` | src/App.js:69 | every string of that shape matches the email pattern |
| `Validation.PhoneValidCharacterisation` | src/App.js:73-76 | the phone validator accepts iff the string, with one leading `+` removed if present, is 2 to 15 ASCII digits whose first is 1-9; an accepted string has 2 to 16 characters and no whitespace |
| `Validation.PhoneIsNeitherUrlNorEmail` | src/App.js:63-76 | a string the phone validator accepts is rejected by the URL and email validators |
| `Validation.AcceptsSamples` | src/App.js:63-76 | `http://a.co` is a URL, `a@b.co` and `foo@bar.com` are email addresses, `+15551234567` is a phone number |
| `Validation.RejectsSamples` | src/App.js:34-76 | `5`, `0123`, `+` and a 16-digit string are not phone numbers, and `plain text` fails the gate |
| `History.FindFirst` | src/App.js:79 | the lookup returns the index of an entry with equal content such that no earlier entry has equal content, or None when no entry has equal content |
| `History.WindowIsStrictMillisComparison` | src/App.js:81-84 | dividing the time difference into hours and comparing with 24 is the same as the strict comparison `now - timestamp < 86400000` |
| `History.DuplicateCharacterisation` | src/App.js:78-87 | the duplicate check is true iff there is a first entry with equal content and it is less than 86,400,000 ms older than `now`; with no equal entry it is false |
| `History.ExactlyOneDayIsNotDuplicate` | src/App.js:82-84 | a first matching entry exactly 24 hours old does not make a duplicate |
| `History.FirstMatchIsStable` | src/App.js:79 | once a content is in the history, appending entries never changes which entry the lookup finds or what the duplicate check answers |
| `History.AppendNonDuplicateKeepsSpacing` | src/App.js:39-57 | appending an entry that the duplicate check let through, stamped with the time of the check, keeps `SpacedFromFirst`: every entry is at least 24 hours younger than the first entry with its content |
| `History.FirstMatchAdmitsCloseRepeat` | src/App.js:79-84 | starting from an empty history, the duplicate check lets in `a@b.co` at time 0, again at exactly 24 hours, and again 1 ms later, because only the oldest entry is consulted; the resulting history holds two equal contents 1 ms apart |
| `Generator.QrCodeGenerator.constructor` | src/App.js:8-16 | initial state: empty text, image, error and history; size 300; level H |
| `Generator.QrCodeGenerator.HandleChange` | src/App.js:18-21 | editing sets the text and clears the error message; the image, history and options are unchanged |
| `Generator.QrCodeGenerator.HandleSizeChange` | src/App.js:23-25 | changing the size sets only `size`; history, image, text and error message are unchanged |
| `Generator.QrCodeGenerator.HandleEclChange` | src/App.js:27-29 | changing the level sets only the level; history, image, text and error message are unchanged |
| `Generator.QrCodeGenerator.GenerateQrCode` | src/App.js:31-61 | rejected text gets the validation message and never reaches the encoder; a duplicate gets the duplicate message and never reaches the encoder; otherwise the encoder gets exactly (text, size, level); on failure the encoder message is set; on success the image is shown, the error is cleared and exactly `{text, now}` is appended after the unchanged earlier entries; history and image change only on success; the history invariant is kept |

## Left out

- The QR encoding itself: `toDataURL` (src/App.js:44-60) is a call into the `qrcode` library. `GenerateQrCode` takes it as a function from the request to a data URL or an error.
- Asynchrony: the encoder's callback runs later, and the closure captures `text` and the history when the attempt starts. Each attempt is modelled as atomic, so overlapping attempts from repeated clicks are not modelled.
- GenerateQrCode: uses one time `now` for the duplicate check and for the new entry's timestamp. The source reads the clock twice, once in isCodeDuplicate and again in the callback.
- The clock: `new Date().getTime()` becomes the `now` parameter. Timestamps are unbounded integers, not double-precision numbers.
- History.WithinWindow: the division into hours is taken exactly, in the reals. Double-precision rounding of the quotient is not modelled.
- HandleSizeChange: takes the already-parsed integer. `parseInt` of the field's text and its NaN result (src/App.js:24) are not modelled.
- HandleEclChange: takes one of the four levels, as the selector offers (src/App.js:133-136). An arbitrary string value is not modelled.
- Validation.IsWhitespace: enumerates JavaScript's `\s` over Unicode scalar values. JavaScript strings are UTF-16 code units. A character outside the Basic Multilingual Plane is one `char` here and two code units there; both are outside `\s`, so acceptance is the same. Text holding an unpaired surrogate code unit, which the URL and email character classes accept, cannot be represented as Dafny `char`s and is not modelled.
- Copy and download (`copyQRCode`, `downloadQRCode`, src/App.js:89-101): browser clipboard and DOM I/O.
- The "View History" and "Customize" toggles and all rendering (src/App.js:103-186): UI booleans and markup. They touch no modelled state.
- Logging the encoder error to the console (src/App.js:49): output only.
