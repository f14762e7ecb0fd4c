# Registration form password rule

A model of the registration form in `String/Task1.js`: the password-strength
rule (`isValidPassword`) and the three-way outcome of `registerUser`, which
compares the password with its re-entry and then applies the rule.

- `password_rule.dfy`, module `PasswordRule`: the four-part rule. A password
  must be at least 8 characters long. It must also contain an ASCII capital
  `A`-`Z`, an ASCII digit `0`-`9` (what `\d` means) and a
  member of the class `[!@#$%^&*(),.?":{}|<>]`. Each `/[...]/.test(p)` is
  modelled by `Test`, a left-to-right scan. Its contract ties it to the
  existential predicate `Contains`.
- `registration.dfy`, module `Registration`: the `Outcome` datatype, the
  message for each outcome, and `Register`, the priority chain. A mismatch
  wins, then the rule picks created or too weak.

The special-character class holds 20 characters:
`! @ # $ % ^ & * ( ) , . ? " : { } | < >`. `^` is not first in the class, so
it stands for itself. Strings are `seq<char>`, one `char` per character. For
characters of the Basic Multilingual Plane (up to U+FFFF) one `char` is one
UTF-16 code unit, so `|p|` is JavaScript's `.length` there.

## Model

| member | source | states |
|---|---|---|
| `PasswordRule.Test` | String/Task1.js:11-13 | a class test succeeds exactly when some position of the password holds a member of the class |
| `PasswordRule.InClass` | String/Task1.js:11-13 | members of the three classes are visible ASCII characters, and no capital is a digit or special and no digit is a special |
| `PasswordRule.ClassesDisjoint` | String/Task1.js:11-13 | no character belongs to two of the classes |
| `PasswordRule.IsValidPassword` | String/Task1.js:10-13 | a password is valid if and only if it has length at least 8, a capital, a digit and a listed special |
| `PasswordRule.ShortIsInvalid` | String/Task1.js:10 | every password shorter than 8 characters is invalid |
| `PasswordRule.ShortButCompleteIsInvalid` | String/Task1.js:10-13 | a 4-character password with a capital, a digit and a special is still invalid |
| `PasswordRule.MissingClassIsInvalid` | String/Task1.js:11-13 | a password with no member of one of the three classes is invalid, whatever its length |
| `PasswordRule.Without` | String/Task1.js:11-13 | deleting all members of a class leaves no member of it, keeps every other character as often as it occurred, and does not lengthen the password |
| `PasswordRule.RemovingClassInvalidates` | String/Task1.js:11-13 | a password with every capital, every digit or every special removed is invalid, while it still has exactly the other classes it had |
| `PasswordRule.NeutralInsertKeepsClasses` | String/Task1.js:11-13 | inserting a character outside the three classes anywhere changes no class test |
| `PasswordRule.NeutralInsertValidity` | String/Task1.js:10-13 | after inserting such a character, validity depends only on the new length and the original classes |
| `PasswordRule.NeutralReplaceKeepsValidity` | String/Task1.js:11-13 | replacing a neutral character by another neutral one, such as a lower-case letter, `-` or `_`, keeps validity |
| `PasswordRule.PermutationKeepsValidity` | String/Task1.js:10-13 | any rearrangement of a password is valid exactly when the password is; only which characters occur matters |
| `PasswordRule.PermutationKeepsClass` | String/Task1.js:11-13 | a class occurring in a password occurs in each of its rearrangements |
| `PasswordRule.ExtensionKeepsValidity` | String/Task1.js:10-13 | appending characters to a valid password keeps it valid |
| `PasswordRule.StrongExample` | String/Task1.js:10-13 | `Passw0rd!` is accepted |
| `PasswordRule.NoUpperExample` | String/Task1.js:11 | `passw0rd!`, which has no capital, is refused |
| `PasswordRule.DashAndUnderscoreAreNotSpecial` | String/Task1.js:13 | `-` and `_` belong to no class, and `Password1-_` is refused for lack of a special |
| `PasswordRule.NonAsciiIsNeutral` | String/Task1.js:11-12 | `Ä` is not a capital and the Arabic-Indic digit three is not a digit |
| `Registration.MessageDeterminesOutcome` | String/Task1.js:16-20 | distinct outcomes have distinct messages |
| `Registration.Register` | String/Task1.js:15-21 | mismatch exactly when the entries differ; created exactly when they agree and the password is valid; too weak exactly when they agree and it is not; so exactly one outcome for every pair of entries |
| `Registration.RegisterMessage` | String/Task1.js:15-21 | the logged text is the mismatch message exactly when the entries differ, the success message exactly when they agree and the password is valid, and the weakness message exactly when they agree and it is not |
| `Registration.MismatchRegardlessOfStrength` | String/Task1.js:15-16 | `Passw0rd!` and `Passw0rd?`, both strong, give the mismatch outcome |
| `Registration.CreatedIffConfirmedAndStrong` | String/Task1.js:10-18 | the account is created if and only if the entries agree and all four conditions hold |
| `Registration.CreatedKeptUnderExtension` | String/Task1.js:10-18 | if a confirmed password is accepted, every confirmed extension of it is accepted too |
| `Registration.ConfirmedWeakIsTooWeak` | String/Task1.js:19-20 | agreeing entries that break the rule give too weak, never mismatch |
| `Registration.ConfirmedWeakExamples` | String/Task1.js:19-20 | the confirmed entries `passw0rd!` and `Ab1!` give too weak |

`Registration.Message`, the text logged for each outcome, has no row of its
own: `Registration.RegisterMessage` states which of its three texts each pair
of entries produces.

## Left out

- The `prompt` calls for name, e-mail, mobile number, password and re-entry (String/Task1.js:3-7) are input. The two password entries are parameters of `Register`. Name, e-mail and mobile number do not affect the outcome.
- The `console.log` calls (String/Task1.js:16-20) and the top-level call (String/Task1.js:24) are output. The message is returned as an `Outcome`, and `Message` gives its text.
- A cancelled `prompt` returns `null`, and both entries of `Register` are strings, so this case is not modelled. A cancelled password prompt makes `password.length` throw before any message is logged. A cancelled re-entry prompt alone gives "Passwords do not match", because a string is never strictly equal to `null`.
- The model covers only passwords made of Basic Multilingual Plane characters, where one `char` is one UTF-16 code unit. A character beyond U+FFFF is two code units in JavaScript but one `char` here, and Dafny has no `char` for a lone surrogate. So for such a password `|p|` is less than JavaScript's `.length`. For example, `Pass0!` followed by an emoji has length 8 in the form and is accepted there, but it has length 7 here and is refused.
- The asynchronous demos (Async/), the DOM and timer handlers (EVENT/script.cjs), the floating-point calculator (Object/Calculator/script.js), the `Math`/`Date` demos and the object-literal and loop demos are not part of this model. They are timers, the event loop, the DOM, floating point or literal printing, with no decision logic.
