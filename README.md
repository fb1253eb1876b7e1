# User-edit workflow of the `App` screen, modelled in Dafny

The repository is a React Native screen. It fetches a list of user records
(`id`, `name`, `email`, `age`) from a local HTTP service and lists them. It
lets the user edit one record's name, age and email in a modal form. The
form is checked before the update is sent. This project models the logic of
that screen, all of it in `App.tsx`:

- the six checks `saveEdit` runs before it sends an update, in their order,
  with the first failure reported;
- the three regular expressions behind them (name, two-digit age, email).
  The name and email patterns are each written as a character-level matcher
  and proved equal to a plain description of the strings they accept. The
  two-digit pattern is itself that description; what is proved about it is
  that the age's decimal string passes exactly for ages 10..99;
- the number/text conversions the age goes through (`age.toString()`,
  `parseInt(text, 10)`, `parseInt(text, 10) || 0`);
- the merge that puts a saved edit into the list;
- the component's state and its handlers, as a class whose methods change
  those fields.

Files, one module each:

| file | module | contents |
|---|---|---|
| options.dfy | `Options` | `Option`, standing for a nullable `UserData` and for `NaN` from `parseInt` |
| chars.dfy | `Chars` | letters, digits, the whitespace set of `\s` and `trim`; `TrimStart`, `TrimEnd`, `Trim` |
| number_text.dfy | `NumberText` | decimal string of an integer, `/^\d{2}$/`, `parseInt`, the age field's conversion |
| name_pattern.dfy | `NamePattern` | matcher for `/^[a-zA-Z]+(\s[a-zA-Z]+)*$/` and the shape of accepted names |
| email_pattern.dfy | `EmailPattern` | `validateEmail` as a checker and as an existential split |
| users.dfy | `Users` | the `User` record and the list merge of a successful save |
| validation.dfy | `Validation` | the check chain `Validate`, the reference verdict `FirstViolated`, rule lemmas |
| app.dfy | `UserEditApp` | class `App`: the `useState` fields and the handlers; scenarios |

Modelling choices:

- The state is the eight `useState` fields at App.tsx:29-36. One more field,
  `pendingFetches`, counts the `setTimeout` callbacks that are scheduled but
  have not run. Firing the timer is the separate step `RunScheduledFetch`.
- Each handler is one atomic step. The collaborator's answer is a parameter
  (`HttpOutcome`): a status with an optional decoded body, or a network
  error. `response.ok` is a status in 200..299.
- The whitespace set is ECMAScript's WhiteSpace and LineTerminator code
  points, with Unicode's space separators listed one by one. The same set
  serves `trim`, the `\s` of the name pattern, and the whitespace that
  `parseInt` skips.
- Ages are integers. `age.toString()` is the decimal numeral with a minus
  sign for negative values.
- The email pattern's optional second top-level group never changes which
  addresses are accepted. The host's character class includes the dot, so
  every local@host.tld.tld2 address is also local@host.tld with
  `host.tld` as its host (`SecondTldRedundant`, `OneTldShapeIff`).
- Alerts are replaced by rule identifiers (`Rule`). Message texts appear
  only as comments.

In these places the code does something a reader of the screen might not
expect; the model follows the code:

- A failed fetch keeps the list it had. It does not empty it. It also hides
  the unfetch button, which `fetchUserData` clears at its start.
- The name pattern separates words with any one `\s` character, not only a
  space.
- `unfetchUserData` has no guard. It empties the list and clears both flags
  in any state, and it does not cancel a scheduled fetch.
- `saveEdit`'s `finally` clause clears `isFetching` on every path. This
  includes a validation failure, which returns before any request is sent.
  So, handler by handler, a save that fails validation while a delayed
  fetch is pending clears the busy flag, and `FetchUserDataWithDelay` can
  then schedule a second fetch. This is an observation about the handlers
  only. On the rendered screen a delayed fetch can be pending only while the
  list is empty, so no row offers Edit and the modal cannot be open.

## Model

| member | source | states |
|---|---|---|
| Chars.Trim | App.tsx:104 | `trim` gives the empty string exactly when the name is all whitespace; otherwise the result neither starts nor ends with whitespace |
| Chars.TrimIsPiece | App.tsx:104 | the trimmed name is a contiguous piece of the name, and every character outside that piece is whitespace |
| Chars.TrimStart | App.tsx:104 | the result is the longest suffix not starting with whitespace; everything removed is whitespace |
| Chars.TrimEnd | App.tsx:104 | the result is the longest prefix not ending with whitespace; everything removed is whitespace |
| Chars.TrimOfUnpadded | App.tsx:104 | a string with no whitespace at either end is its own trim |
| NumberText.NatToDecimal | App.tsx:124 | the numeral of a natural number is non-empty, all digits, and has no leading zero |
| NumberText.ToDecimalString | App.tsx:124 | the string of an integer starts with a digit or a minus sign |
| NumberText.DigitPrefix | App.tsx:122 | the longest prefix of digits: a prefix, all digits, and followed by a non-digit if anything follows |
| NumberText.DecimalLength | App.tsx:124 | a numeral has one digit exactly below 10 and two digits exactly for 10..99 |
| NumberText.TwoDigitsIff | App.tsx:124 | `/^\d{2}$/` accepts the string of an integer exactly when the integer is in 10..99 |
| NumberText.DigitsValueOfDecimal | App.tsx:122 | reading a numeral back gives the number it was made from |
| NumberText.ParseIntOfNumeral | App.tsx:122 | `parseInt` of a digit string is the value of its digits |
| NumberText.ParseIntOfNegativeNumeral | App.tsx:122 | `parseInt` of a minus sign followed by a digit string is the negated value of the digits |
| NumberText.ParseIntOfDecimal | App.tsx:122 | `parseInt(String(n), 10) == n` for every integer `n` |
| NumberText.AgeTextRoundTrip | App.tsx:300-301 | the age field shows `age.toString()`; parsing that text back as the field does gives the same age |
| NumberText.ParseIntOfTypedText | App.tsx:301 | for text made of whitespace, an optional `+` or `-`, a run of digits and anything not starting with a digit, `parseInt` and the age field's conversion both give the value of the digits, negated after `-` |
| NumberText.ParseIntSkipsWhitespace | App.tsx:301 | `parseInt` of a text equals `parseInt` of the text without its leading whitespace |
| NumberText.ParseIntOfSignedDigits | App.tsx:301 | text starting with an optional `+` or `-`, then digits, then anything not starting with a digit, parses to the value of those digits, negated after `-` |
| NumberText.ParseIntOfDigitsThen | App.tsx:301 | text starting with a digit parses to the value of its digit prefix |
| NumberText.ParseIntAfterSign | App.tsx:301 | text starting with `+` or `-` parses to the value of the digits after the sign, negated after `-` |
| NumberText.TrimStartAfterWhitespace | App.tsx:301 | removing the leading whitespace of whitespace followed by a string not starting with whitespace leaves exactly that string |
| NumberText.DigitPrefixBeforeNonDigit | App.tsx:301 | the digits `parseInt` reads stop at the first non-digit |
| NumberText.AgeFromTextWithoutDigits | App.tsx:301 | text with no digit in it sets the age to 0 |
| NamePattern.RestMatchesIff | App.tsx:109 | what may follow a letter in the pattern: exactly the strings that end in a letter, hold only letters and whitespace, and never have two whitespace characters in a row |
| NamePattern.NameMatchesIff | App.tsx:109 | the name matcher accepts exactly the names made of ASCII-letter words joined by single whitespace characters |
| NamePattern.NameRejections | App.tsx:109-115 | the name check rejects a digit, any other non-letter non-whitespace character, leading or trailing whitespace, two whitespace characters in a row, and the empty name |
| NamePattern.MatchedNameIsTrimmed | App.tsx:104-109 | a name that passes the format check is not blank and is its own trim |
| EmailPattern.IndexOf | App.tsx:40 | the index of the first occurrence of a character, or the length when it does not occur |
| EmailPattern.LastIndexOf | App.tsx:40 | the index of the last occurrence of a character, or -1 when it does not occur |
| EmailPattern.FirstAt | App.tsx:40 | the `@` after a valid local part is the first `@` of the string |
| EmailPattern.LastDotBefore | App.tsx:40 | a dot followed only by letters is the last dot of the string |
| EmailPattern.DomainHasHostBeforeLastDot | App.tsx:40 | when the part after the `@` is accepted, everything before its last dot is a valid host |
| EmailPattern.HostDotTld | App.tsx:40 | a host, a dot and a top-level segment together form a valid host |
| EmailPattern.ValidEmailSound | App.tsx:38-42 | every address the checker accepts splits as local@host.tld |
| EmailPattern.SecondTldRedundant | App.tsx:40 | a local@host.tld.tld2 split is also a local@host.tld split, with `host.tld` as the host |
| EmailPattern.OneTldShapeIff | App.tsx:40 | an address has the local@host.tld(.tld2) shape exactly when it has the local@host.tld shape |
| EmailPattern.ValidEmailComplete | App.tsx:38-42 | every address that splits as local@host.tld or local@host.tld.tld2 is accepted by the checker |
| EmailPattern.ValidEmailIff | App.tsx:38-42 | `validateEmail` accepts exactly the strings that split as local@host.tld(.tld2): local over `[A-Za-z0-9._-]`, host over `[A-Za-z0-9.-]`, both non-empty, each top-level segment 2 to 4 letters |
| EmailPattern.EmptyIsNotEmail | App.tsx:132 | the empty email is rejected |
| Users.Ids | App.tsx:157 | the ids of a list, in list order |
| Users.ApplyEdit | App.tsx:156-160 | the merged list has the same length and the same id at each position; each record with the edited id takes the buffer's name, email and age; every other record is unchanged |
| Users.ApplyEditKeepsIds | App.tsx:156-160 | the merge keeps the ids and their order |
| Users.ApplyEditAbsentId | App.tsx:156-160 | when no record has the id, the merge returns the list unchanged |
| Users.ApplyEditIdempotent | App.tsx:156-160 | applying the same save twice gives the list of applying it once |
| Users.ApplyEditOverwrites | App.tsx:156-160 | of two saves for the same id, the later one decides the record's fields |
| Validation.AgeFormatIff | App.tsx:122-130 | the two-digit check with the `parseInt` range test passes exactly for ages 10..99 |
| Validation.EmailCheckIff | App.tsx:132 | the email check (non-empty and `validateEmail`) passes exactly for strings that split as an address |
| Validation.NameGivenIff | App.tsx:104 | the trim check passes exactly when the name holds a character that is not whitespace |
| Validation.ValidateIsFirstViolated | App.tsx:99-135 | the check chain gives the same verdict as the first rule, in source order, that the form violates, with each rule stated without regular expressions |
| Validation.FirstViolatedIff | App.tsx:99-135 | the reference verdict accepts exactly when every rule holds, and names rule k exactly when rule k fails and all rules before it hold |
| Validation.ValidateReportsFirstFailure | App.tsx:99-135 | first failure wins: the form is accepted exactly when all six rules hold, and the rule reported is the first one that fails |
| Validation.NoUserIsInvalidUser | App.tsx:99-102 | without a user being edited the verdict is the invalid-user error, whatever the buffer holds |
| Validation.BlankNameIsMissing | App.tsx:104-107 | an empty or all-whitespace name is reported by the trim check, not by the format check |
| Validation.AgeRules | App.tsx:117-130 | after the name checks pass, age 0 gives the missing-age error, and any other age gives the age-format error exactly when it is outside 10..99 |
| Validation.AgeSevenRejected | App.tsx:117-130 | the form "O K", 7 (and 100), "a@b.com" fails at the age format check |
| Validation.WellFormedEditAccepted | App.tsx:99-135 | the form "Jon Ng", 45, "jon@ng.com" passes every check |
| UserEditApp.App.constructor | App.tsx:29-36 | the initial state: empty list, both flags cleared, modal closed, empty buffer, no fetch scheduled |
| UserEditApp.App.FetchUserData | App.tsx:44-64 | a delivered fetch replaces the list with the payload verbatim and shows the unfetch button; any failure keeps the list and hides the button; `isFetching` is false afterwards; the edit state is untouched |
| UserEditApp.App.FetchUserDataWithDelay | App.tsx:66-73 | a no-op while `isFetching` is set; otherwise sets it and schedules exactly one fetch |
| UserEditApp.App.RunScheduledFetch | App.tsx:69-71 | the timer runs one scheduled fetch, with the outcome of `fetchUserData` |
| UserEditApp.App.UnfetchUserData | App.tsx:75-79 | the list becomes empty and both flags are cleared, from any state; nothing else changes |
| UserEditApp.App.ShowEditModal | App.tsx:81-87 | the buffer holds the record's name, email and age, the record is the edit target and the modal is open; the list and flags are unchanged |
| UserEditApp.App.CloseEditModal | App.tsx:89-95 | the modal is closed, no edit target, buffer ('', '', 0); the list and flags are unchanged |
| UserEditApp.App.EditName | App.tsx:289 | typing sets the buffer's name to the text |
| UserEditApp.App.EditEmail | App.tsx:314 | typing sets the buffer's email to the text |
| UserEditApp.App.EditAgeText | App.tsx:301 | typing sets the buffer's age to the text parsed as `parseInt` does, with no digits giving 0 |
| UserEditApp.App.SaveEdit | App.tsx:97-168 | a failed check returns its rule and sends no request; otherwise the update for the edited id with the buffer is sent; only an ok response gives a save, which merges the buffer into the list and closes the modal with the buffer reset; every other path leaves the list, the edit target, the buffer and the modal unchanged; `isFetching` is false on every path |
| UserEditApp.OpenThenCancel | App.tsx:81-95 | opening the modal on a record and cancelling leaves the list unchanged and the edit state cleared |
| UserEditApp.FetchPressedTwice | App.tsx:66-73 | pressing fetch twice before the timer fires schedules one fetch only |
| UserEditApp.FetchThenUnfetch | App.tsx:44-79 | a fetch answered with one record lists exactly that record with the unfetch button shown and `isFetching` false; unfetch then empties the list |
| UserEditApp.TypedAges | App.tsx:301 | typing "7" or "45" into the age field sets the age to 7 or 45 |
| UserEditApp.OpenAndType | App.tsx:44-95 | after a fetch delivering a list, opening a record and typing three texts, the list is that list, the record is the edit target, the modal is open and the buffer holds the typed name, email and parsed age |
| UserEditApp.SubmitAgeSeven | App.tsx:117-135 | saving "O K", 7, "a@b.com" is rejected at the age format check; no request is sent, the modal stays open and the buffer keeps what was typed |
| UserEditApp.SaveForFirstRecord | App.tsx:137-168 | saving "Jon Ng", 45, "jon@ng.com" for id 1 of two records updates that record only, keeps the order, and closes the modal |

## Left out

- Rendering: the JSX of the screen, the list rows and `EditModal`, and the
  style sheet. Only the text-field handlers that write the buffer are
  modelled.
- I/O: the real `fetch` calls, URLs, headers, `JSON.stringify` and
  `response.json()`. Their result is the `HttpOutcome` parameter, and the
  update `saveEdit` sends is returned as an `UpdateRequest`. `console.error`
  and `Alert.alert` are not modelled; the rule identifier stands for the
  alert.
- Timing: the 2000 ms delay itself, React's batching of state updates, and
  stale closures. Each handler runs as one atomic step. The state between
  `fetchUserData`'s start and its awaited answer is not observable.
- Floating point: ages are integers. A non-integer or `NaN` age from the
  JSON body, the exponent form of `toString` for very large numbers, and
  the precision limit of `parseInt` are not modelled.
- A fetched body is taken to be an array of records. A body of another JSON
  shape, which `setData` would accept unchecked, is not modelled.
- The whitespace set is fixed to the space separators Unicode lists today.
  Later Unicode versions could add more.
