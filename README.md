# Password strength evaluator, verified in Dafny

This project models the rule evaluator of the password strength meter: the
callback that the `usePasswordStrength` React hook memoises. Given the current
password it computes, in one pure step, a record of nine fields:

- five rule outcomes:
  - `hasMinLength`: at least 8 code units;
  - `hasLower`: some code unit in `a`..`z`;
  - `hasUpper`: some code unit in `A`..`Z`;
  - `hasNumber`: some code unit in `0`..`9`;
  - `hasSpecial`: some code unit that is neither an ASCII letter nor an ASCII digit;
- `score`, one point per rule that holds;
- `strengthLabel`: `""` for an empty password, otherwise `Weak`, `Medium` or `Strong`;
- `strengthPercent`, the fill of the strength bar;
- `barColor`: red, yellow or green.

Everything lives in one module, `UsePasswordStrength` (`use_password_strength.dfy`).
A password is a `seq<CodeUnit>`, where `CodeUnit` is the integer range
0..0xFFFF. That is what JavaScript's `.length` counts and what its regular
expressions without the `u` flag scan. A character outside the Basic
Multilingual Plane is therefore two units, a surrogate pair, and each half is
classified on its own. `Utf16` turns a string of Basic Multilingual Plane
characters into its code units for the worked examples.

Each `/[...]/.test(password)` becomes `Test(password, k)`, a left-to-right scan
for a unit of class `k`. Its contract equates the scan with `Mentions`, the
statement that some index holds such a unit. The bracket ranges are numeric
ranges of code units; `BracketRangesAreAlphabets` shows that they hold exactly
the listed ASCII letters and digits. `Evaluate` is the whole callback. The
lemmas after it state the properties of its result.

The label follows the source's else-if chain exactly, including its last test
`score === 5`, which would leave the label empty for a score above 5.
`StrengthLabel`'s contract and `Evaluate`'s score bound together show that this
fall-through is never taken. The percentage `(score / 5) * 100` is computed as
an exact rational (`real`). Calling the evaluator twice on the same password
gives the same record because `Evaluate` is a mathematical function.

## Model

| member | source | states |
|---|---|---|
| `UsePasswordStrength.InClass` | src/usePasswordStrength.js:25-28 | a code unit at or above 0x80, a surrogate half included, matches only the negated class `[^A-Za-z0-9]` |
| `UsePasswordStrength.BracketRangesAreAlphabets` | src/usePasswordStrength.js:25-28 | the ranges `[a-z]`, `[A-Z]` and `[0-9]` hold exactly the code units of the 26 lowercase letters, the 26 uppercase letters and the ten digits; `[^A-Za-z0-9]` matches exactly the units that are none of these 62 characters |
| `UsePasswordStrength.ClassOf` | src/usePasswordStrength.js:25-28 | every code unit matches exactly one of the classes `[a-z]`, `[A-Z]`, `[0-9]`, `[^A-Za-z0-9]` |
| `UsePasswordStrength.Test` | src/usePasswordStrength.js:25-28 | a regex character-class test on the password is true iff some index of the password holds a unit of that class |
| `UsePasswordStrength.TestExtends` | src/usePasswordStrength.js:25-28 | a class test that succeeds on a password also succeeds on every extension of it |
| `UsePasswordStrength.Point` | src/usePasswordStrength.js:33-37 | each `rule ? 1 : 0` term is at most 1, and is 1 iff the rule holds |
| `UsePasswordStrength.CountTrue` | src/usePasswordStrength.js:32-37 | the number of true rules is at most the number of rules; it is 0 iff none holds and maximal iff all hold |
| `UsePasswordStrength.CountTrueIsCardinality` | src/usePasswordStrength.js:32-37 | that count is the number of indices at which the rule list is true |
| `UsePasswordStrength.StrengthResult.Rules` | src/usePasswordStrength.js:62-67 | the returned record carries five rule outcomes, and all five are true iff every rule holds |
| `UsePasswordStrength.StrengthLabel` | src/usePasswordStrength.js:40-49 | the label is `""` iff the password is empty or the score exceeds 5; for a non-empty password it is `Weak` iff score <= 2, `Medium` iff score is 3 or 4, `Strong` iff score is 5 |
| `UsePasswordStrength.StrengthPercent` | src/usePasswordStrength.js:52 | `(score / 5) * 100` equals 20 times the score |
| `UsePasswordStrength.BarColor` | src/usePasswordStrength.js:55-59 | `getBarColor` gives red iff score <= 2, yellow iff score is 3 or 4, green iff score >= 5 |
| `UsePasswordStrength.Evaluate` | src/usePasswordStrength.js:21-72 | `hasMinLength` iff length >= 8; `hasLower`/`hasUpper`/`hasNumber` iff some unit is in `a-z`/`A-Z`/`0-9`; `hasSpecial` iff some unit is in none of those ranges; `0 <= score <= 5` |
| `UsePasswordStrength.ScoreIsRuleCount` | src/usePasswordStrength.js:32-37 | the score equals the number of indices of the five rules that hold; it is 5 iff all hold and 0 iff none holds |
| `UsePasswordStrength.NonEmptyMeetsClassRule` | src/usePasswordStrength.js:25-37 | a non-empty password meets at least one of the lowercase, uppercase, digit and special rules, so its score is at least 1 |
| `UsePasswordStrength.LabelEmptyIffPasswordEmpty` | src/usePasswordStrength.js:40-49 | the label is `""` iff the password is empty |
| `UsePasswordStrength.LabelBands` | src/usePasswordStrength.js:40-49 | for a non-empty password the label is `Weak` iff score <= 2, `Medium` iff score is 3 or 4, `Strong` iff score is 5, and is always one of these three |
| `UsePasswordStrength.ColorBands` | src/usePasswordStrength.js:55-59 | the bar colour is red (`#e74c3c`) iff score <= 2, yellow (`#f1c40f`) iff score is 3 or 4, green (`#2ecc71`) iff score is 5 |
| `UsePasswordStrength.LabelMatchesColor` | src/usePasswordStrength.js:40-59 | for a non-empty password, `Weak` goes with red, `Medium` with yellow and `Strong` with green, in both directions |
| `UsePasswordStrength.PercentIsTwentyPerPoint` | src/usePasswordStrength.js:52 | the bar fill is exactly 20 times the score and lies between 0 and 100 |
| `UsePasswordStrength.PercentStrictlyIncreasing` | src/usePasswordStrength.js:52 | the bar fill is strictly increasing in the score, 0 at score 0 and 100 at score 5 |
| `UsePasswordStrength.EmptyPassword` | src/usePasswordStrength.js:24-72 | the empty password fails every rule and gets score 0, label `""`, fill 0 and red |
| `UsePasswordStrength.ExtensionKeepsRules` | src/usePasswordStrength.js:24-37 | appending code units never turns a rule from true to false, so the score never drops |
| `UsePasswordStrength.ExampleShortLowercase` | src/usePasswordStrength.js:24-72 | `"abc"` meets only the lowercase rule: score 1, `Weak`, 20, red |
| `UsePasswordStrength.ExampleEightLowercase` | src/usePasswordStrength.js:24-72 | `"abcdefgh"` meets the length and lowercase rules: score 2, `Weak`, 40, red |
| `UsePasswordStrength.ExampleNoSymbol` | src/usePasswordStrength.js:24-72 | `"Abcdefgh1"` meets every rule except the special one: score 4, `Medium`, 80, yellow |
| `UsePasswordStrength.ExampleAllRules` | src/usePasswordStrength.js:24-72 | `"Abcdefg1!"` meets all five rules: score 5, `Strong`, 100, green |
| `UsePasswordStrength.ExampleEightSpaces` | src/usePasswordStrength.js:24-72 | eight spaces meet the length and special rules: score 2, `Weak`, 40, red |
| `UsePasswordStrength.ExampleAstralCharacter` | src/usePasswordStrength.js:24-72 | six letters and U+1F600 are eight code units: the length, lowercase and special rules hold, giving score 3, `Medium`, 60, yellow |

## Left out

- The `useMemo` caching keyed on `[password]` (src/usePasswordStrength.js:21, 73): it does not change the result, so only the callback is modelled.
- src/PasswordStrength.js: React state, layout, the show/hide toggle and the confirm-password equality test. This is presentation code around the evaluator.
- src/App.js: it only renders the root component.
- IEEE-754 rounding of `(score / 5) * 100` (src/usePasswordStrength.js:52): the model uses exact rationals. No claim is made about the floating-point values for scores 1 to 4.
- A `null` or `undefined` password: the `!password` test (src/usePasswordStrength.js:41) is modelled for strings only, where it means "empty".
- Decoding a JavaScript string into code units: the model takes the code units as its input. `Utf16` covers only Basic Multilingual Plane text; a character above U+FFFF is written as its surrogate pair by hand.
- Code points, graphemes and non-ASCII letters: each code unit is classified by the ASCII ranges alone, as the source does.
- The regular-expression engine: each `/[...]/.test` is modelled by an explicit scan for a code unit in the bracket expression's ranges.
