/**
 * The password rule evaluator of the `usePasswordStrength` hook: a total, pure
 * map from a password to a fixed-shape record of five rule outcomes, a score,
 * a label, a bar percentage and a bar colour.
 *
 * A password is a sequence of UTF-16 code units, which is what JavaScript's
 * `.length` counts and what a regular expression without the `u` flag scans.
 */
module UsePasswordStrength {

  // ----- Code units and character classes -----

  /** One UTF-16 code unit. */
  newtype CodeUnit = x: int | 0 <= x < 0x1_0000

  /** The code units of a string all of whose characters lie in the Basic
      Multilingual Plane, where every character is a single code unit. */
  function Utf16(s: string): (units: seq<CodeUnit>)
    requires forall i :: 0 <= i < |s| ==> s[i] as int < 0x1_0000
    ensures |units| == |s|
    ensures forall i :: 0 <= i < |s| ==> units[i] as int == s[i] as int
  {
    seq(|s|, i requires 0 <= i < |s| => s[i] as int as CodeUnit)
  }

  const LOWERCASE := "abcdefghijklmnopqrstuvwxyz"
  const UPPERCASE := "ABCDEFGHIJKLMNOPQRSTUVWXYZ"
  const DIGITS := "0123456789"

  /** `u` is the code unit of one of the characters listed in `chars`. */
  ghost predicate OneOf(u: CodeUnit, chars: string) {
    exists i :: 0 <= i < |chars| && chars[i] as int == u as int
  }

  /** A unit is one of the characters of `a + b` iff it is one of `a` or of `b`. */
  lemma OneOfAppend(u: CodeUnit, a: string, b: string)
    ensures OneOf(u, a + b) <==> OneOf(u, a) || OneOf(u, b)
  {
    if OneOf(u, a) {
      var i :| 0 <= i < |a| && a[i] as int == u as int;
      assert (a + b)[i] == a[i];
    }
    if OneOf(u, b) {
      var i :| 0 <= i < |b| && b[i] as int == u as int;
      assert (a + b)[|a| + i] == b[i];
    }
    if OneOf(u, a + b) {
      var i :| 0 <= i < |a + b| && (a + b)[i] as int == u as int;
      if i >= |a| {
        assert b[i - |a|] == (a + b)[i];
      } else {
        assert a[i] == (a + b)[i];
      }
    }
  }

  /** `[a-z]` */
  predicate IsLower(u: CodeUnit) { 0x61 <= u <= 0x7A }

  /** `[A-Z]` */
  predicate IsUpper(u: CodeUnit) { 0x41 <= u <= 0x5A }

  /** `[0-9]` */
  predicate IsDigit(u: CodeUnit) { 0x30 <= u <= 0x39 }

  /** The character classes the four regular-expression rules look for. */
  datatype CharClass = Lower | Upper | Digit | Special

  /** Whether `u` matches the bracket expression of the rule for class `k`;
      `Special` is the negated class `[^A-Za-z0-9]`. A unit outside ASCII,
      a lone surrogate included, is always special. */
  function InClass(u: CodeUnit, k: CharClass): (b: bool)
    ensures u >= 0x80 ==> (b <==> k == Special)
  {
    match k
    case Lower => IsLower(u)
    case Upper => IsUpper(u)
    case Digit => IsDigit(u)
    case Special => !IsUpper(u) && !IsLower(u) && !IsDigit(u)
  }

  /** The three code-unit ranges hold exactly the 26 lowercase letters, the 26
      uppercase letters and the ten digits, so the negated class matches
      exactly the units that are none of those 62 characters. */
  lemma BracketRangesAreAlphabets(u: CodeUnit)
    ensures IsLower(u) <==> OneOf(u, LOWERCASE)
    ensures IsUpper(u) <==> OneOf(u, UPPERCASE)
    ensures IsDigit(u) <==> OneOf(u, DIGITS)
    ensures InClass(u, Special) <==> !OneOf(u, UPPERCASE + LOWERCASE + DIGITS)
  {
    assert forall i :: 0 <= i < |LOWERCASE| ==> LOWERCASE[i] as int == 0x61 + i;
    assert forall i :: 0 <= i < |UPPERCASE| ==> UPPERCASE[i] as int == 0x41 + i;
    assert forall i :: 0 <= i < |DIGITS| ==> DIGITS[i] as int == 0x30 + i;
    if IsLower(u) {
      assert LOWERCASE[u as int - 0x61] as int == u as int;
    }
    if IsUpper(u) {
      assert UPPERCASE[u as int - 0x41] as int == u as int;
    }
    if IsDigit(u) {
      assert DIGITS[u as int - 0x30] as int == u as int;
    }
    OneOfAppend(u, UPPERCASE, LOWERCASE);
    OneOfAppend(u, UPPERCASE + LOWERCASE, DIGITS);
  }

  /** The one class every code unit belongs to: the four classes partition the units. */
  function ClassOf(u: CodeUnit): (k: CharClass)
    ensures InClass(u, k)
    ensures forall k' :: InClass(u, k') ==> k' == k
  {
    if IsLower(u) then Lower
    else if IsUpper(u) then Upper
    else if IsDigit(u) then Digit
    else Special
  }

  /** Some position of `s` holds a unit of class `k`. */
  ghost predicate Mentions(s: seq<CodeUnit>, k: CharClass) {
    exists i :: 0 <= i < |s| && InClass(s[i], k)
  }

  /** `/[...]/.test(s)` for the class `k`: a left-to-right scan for a match. */
  function Test(s: seq<CodeUnit>, k: CharClass): (found: bool)
    ensures found <==> Mentions(s, k)
  {
    if |s| == 0 then false
    else if InClass(s[0], k) then true
    else
      var rest := Test(s[1..], k);
      assert forall i :: 1 <= i < |s| ==> s[i] == s[1..][i - 1];
      rest
  }

  /** A match in `s` stays a match in any extension of `s`. */
  lemma {:induction false} TestExtends(s: seq<CodeUnit>, t: seq<CodeUnit>, k: CharClass)
    ensures Test(s, k) ==> Test(s + t, k)
  {
    if |s| > 0 {
      assert (s + t)[0] == s[0];
      assert (s + t)[1..] == s[1..] + t;
      TestExtends(s[1..], t, k);
    }
  }

  // ----- Score -----

  /** `b ? 1 : 0` */
  function Point(b: bool): (p: nat)
    ensures p <= 1 && (p == 1 <==> b)
  {
    if b then 1 else 0
  }

  /** The number of true entries of `bs`, counted from the back. */
  function CountTrue(bs: seq<bool>): (n: nat)
    ensures n <= |bs|
    ensures n == 0 <==> forall i :: 0 <= i < |bs| ==> !bs[i]
    ensures n == |bs| <==> forall i :: 0 <= i < |bs| ==> bs[i]
  {
    if |bs| == 0 then 0
    else CountTrue(bs[..|bs| - 1]) + Point(bs[|bs| - 1])
  }

  /** The indices at which `bs` is true. */
  ghost function TrueAt(bs: seq<bool>): set<int> {
    set i | 0 <= i < |bs| && bs[i]
  }

  /** `CountTrue` is the number of indices at which the sequence is true. */
  lemma {:induction false} CountTrueIsCardinality(bs: seq<bool>)
    ensures CountTrue(bs) == |TrueAt(bs)|
  {
    if |bs| > 0 {
      var n := |bs| - 1;
      var front := bs[..n];
      CountTrueIsCardinality(front);
      assert n !in TrueAt(front);
      assert TrueAt(bs) == TrueAt(front) + (if bs[n] then {n} else {});
    }
  }

  // ----- Label, percentage and colour -----

  const WEAK := "Weak"
  const MEDIUM := "Medium"
  const STRONG := "Strong"

  const RED := "#e74c3c"
  const YELLOW := "#f1c40f"
  const GREEN := "#2ecc71"

  /** The label's if/else-if chain. Its last test, `score === 5`, leaves the
      label empty for a score above 5. */
  function StrengthLabel(password: seq<CodeUnit>, score: int): (text: string)
    ensures text == "" <==> |password| == 0 || score > 5
    ensures text == WEAK <==> |password| > 0 && score <= 2
    ensures text == MEDIUM <==> |password| > 0 && 3 <= score <= 4
    ensures text == STRONG <==> |password| > 0 && score == 5
  {
    if |password| == 0 then ""
    else if score <= 2 then WEAK
    else if score <= 4 then MEDIUM
    else if score == 5 then STRONG
    else ""
  }

  /** `(score / 5) * 100`, as an exact rational. */
  function StrengthPercent(score: int): (percent: real)
    ensures percent == score as real * 20.0
  {
    (score as real / 5.0) * 100.0
  }

  /** `getBarColor`: red up to 2, yellow up to 4, green otherwise. */
  function BarColor(score: int): (color: string)
    ensures color == RED <==> score <= 2
    ensures color == YELLOW <==> 3 <= score <= 4
    ensures color == GREEN <==> score >= 5
  {
    if score <= 2 then RED
    else if score <= 4 then YELLOW
    else GREEN
  }

  // ----- The evaluator -----

  /** The record the hook returns. */
  datatype StrengthResult = StrengthResult(
    hasMinLength: bool,
    hasLower: bool,
    hasUpper: bool,
    hasNumber: bool,
    hasSpecial: bool,
    score: int,
    strengthLabel: string,
    strengthPercent: real,
    barColor: string)
  {
    /** The five rule outcomes, in the order the score adds them. */
    function Rules(): (rules: seq<bool>)
      ensures |rules| == 5
      ensures (forall i :: 0 <= i < |rules| ==> rules[i]) <==>
        hasMinLength && hasLower && hasUpper && hasNumber && hasSpecial
    {
      var rules := [hasMinLength, hasLower, hasUpper, hasNumber, hasSpecial];
      assert forall i :: 0 <= i < 5 ==> rules[i] in {rules[0], rules[1], rules[2], rules[3], rules[4]};
      assert (forall i :: 0 <= i < 5 ==> rules[i]) ==> rules[0] && rules[1] && rules[2] && rules[3] && rules[4];
      rules
    }
  }

  /** The body of the hook's memoised callback. */
  function Evaluate(password: seq<CodeUnit>): (r: StrengthResult)
    ensures r.hasMinLength <==> |password| >= 8
    ensures r.hasLower <==> exists i :: 0 <= i < |password| && IsLower(password[i])
    ensures r.hasUpper <==> exists i :: 0 <= i < |password| && IsUpper(password[i])
    ensures r.hasNumber <==> exists i :: 0 <= i < |password| && IsDigit(password[i])
    ensures r.hasSpecial <==>
      exists i :: 0 <= i < |password| && !IsLower(password[i]) && !IsUpper(password[i]) && !IsDigit(password[i])
    ensures 0 <= r.score <= 5
  {
    var hasMinLength := |password| >= 8;
    var hasLower := Test(password, Lower);
    var hasUpper := Test(password, Upper);
    var hasNumber := Test(password, Digit);
    var hasSpecial := Test(password, Special);
    var score :=
      Point(hasMinLength) + Point(hasLower) + Point(hasUpper) +
      Point(hasNumber) + Point(hasSpecial);
    StrengthResult(
      hasMinLength, hasLower, hasUpper, hasNumber, hasSpecial,
      score,
      StrengthLabel(password, score),
      StrengthPercent(score),
      BarColor(score))
  }

  // ----- Properties -----

  /** The score is the number of rules that hold, that is, the number of
      indices at which the rule list is true: 5 exactly when all hold, 0
      exactly when none does. */
  lemma ScoreIsRuleCount(password: seq<CodeUnit>)
    ensures var r := Evaluate(password);
      r.score == |set i | 0 <= i < 5 && r.Rules()[i]|
    ensures var r := Evaluate(password);
      r.score == 5 <==> r.hasMinLength && r.hasLower && r.hasUpper && r.hasNumber && r.hasSpecial
    ensures var r := Evaluate(password);
      r.score == 0 <==> !r.hasMinLength && !r.hasLower && !r.hasUpper && !r.hasNumber && !r.hasSpecial
  {
    var r := Evaluate(password);
    FiveCounts(r.Rules());
  }

  /** For a list of five, the count is the sum of the five points and the
      number of true indices. */
  lemma FiveCounts(bs: seq<bool>)
    requires |bs| == 5
    ensures CountTrue(bs) == Point(bs[0]) + Point(bs[1]) + Point(bs[2]) + Point(bs[3]) + Point(bs[4])
    ensures CountTrue(bs) == |set i | 0 <= i < 5 && bs[i]|
  {
    assert CountTrue(bs[..1]) == Point(bs[0]) by { assert bs[..1][..0] == []; }
    assert CountTrue(bs[..2]) == CountTrue(bs[..1]) + Point(bs[1]) by { assert bs[..2][..1] == bs[..1]; }
    assert CountTrue(bs[..3]) == CountTrue(bs[..2]) + Point(bs[2]) by { assert bs[..3][..2] == bs[..2]; }
    assert CountTrue(bs[..4]) == CountTrue(bs[..3]) + Point(bs[3]) by { assert bs[..4][..3] == bs[..3]; }
    CountTrueIsCardinality(bs);
    assert TrueAt(bs) == set i | 0 <= i < 5 && bs[i];
  }

  /** Every non-empty password meets at least one character-class rule, namely
      the one for the class of its first character, so it scores at least 1. */
  lemma NonEmptyMeetsClassRule(password: seq<CodeUnit>)
    requires |password| > 0
    ensures var r := Evaluate(password);
      r.hasLower || r.hasUpper || r.hasNumber || r.hasSpecial
    ensures Evaluate(password).score >= 1
  {
    var k := ClassOf(password[0]);
    assert Mentions(password, k);
    assert Test(password, k);
  }

  /** The label is empty exactly for the empty password. */
  lemma LabelEmptyIffPasswordEmpty(password: seq<CodeUnit>)
    ensures Evaluate(password).strengthLabel == "" <==> |password| == 0
  {
  }

  /** For a non-empty password the label bands are Weak 0..2, Medium 3..4,
      Strong 5, and no other label occurs. */
  lemma LabelBands(password: seq<CodeUnit>)
    requires |password| > 0
    ensures var r := Evaluate(password);
      && (r.strengthLabel == WEAK <==> r.score <= 2)
      && (r.strengthLabel == MEDIUM <==> 3 <= r.score <= 4)
      && (r.strengthLabel == STRONG <==> r.score == 5)
      && r.strengthLabel in {WEAK, MEDIUM, STRONG}
  {
  }

  /** The colour bands are red 0..2, yellow 3..4, green 5, for every password. */
  lemma ColorBands(password: seq<CodeUnit>)
    ensures var r := Evaluate(password);
      && (r.barColor == RED <==> r.score <= 2)
      && (r.barColor == YELLOW <==> 3 <= r.score <= 4)
      && (r.barColor == GREEN <==> r.score == 5)
  {
  }

  /** For a non-empty password, label and colour lie in the same band:
      Weak with red, Medium with yellow, Strong with green. */
  lemma LabelMatchesColor(password: seq<CodeUnit>)
    requires |password| > 0
    ensures var r := Evaluate(password);
      && (r.strengthLabel == WEAK <==> r.barColor == RED)
      && (r.strengthLabel == MEDIUM <==> r.barColor == YELLOW)
      && (r.strengthLabel == STRONG <==> r.barColor == GREEN)
  {
    LabelBands(password);
    ColorBands(password);
  }

  /** The bar fill is twenty percent per point, from 0 to 100. */
  lemma PercentIsTwentyPerPoint(password: seq<CodeUnit>)
    ensures var r := Evaluate(password);
      r.strengthPercent == r.score as real * 20.0 && 0.0 <= r.strengthPercent <= 100.0
  {
  }

  /** The bar fill is 0 at score 0, 100 at score 5, and strictly increasing. */
  lemma PercentStrictlyIncreasing(lo: int, hi: int)
    requires lo < hi
    ensures StrengthPercent(lo) < StrengthPercent(hi)
    ensures StrengthPercent(0) == 0.0 && StrengthPercent(5) == 100.0
  {
  }

  /** The empty password fails every rule and gets score 0, no label, an empty
      bar and the red colour. */
  lemma EmptyPassword()
    ensures Evaluate([]) == StrengthResult(false, false, false, false, false, 0, "", 0.0, RED)
  {
  }

  /** Extending a password keeps every rule that held, so the score never drops. */
  lemma ExtensionKeepsRules(password: seq<CodeUnit>, suffix: seq<CodeUnit>)
    ensures var r, e := Evaluate(password), Evaluate(password + suffix);
      && (r.hasMinLength ==> e.hasMinLength)
      && (r.hasLower ==> e.hasLower)
      && (r.hasUpper ==> e.hasUpper)
      && (r.hasNumber ==> e.hasNumber)
      && (r.hasSpecial ==> e.hasSpecial)
      && r.score <= e.score
  {
    TestExtends(password, suffix, Lower);
    TestExtends(password, suffix, Upper);
    TestExtends(password, suffix, Digit);
    TestExtends(password, suffix, Special);
  }

  /** A short lowercase word meets only the lowercase rule. */
  lemma ExampleShortLowercase(p: seq<CodeUnit>)
    requires p == Utf16("abc")
    ensures Evaluate(p) == StrengthResult(false, true, false, false, false, 1, WEAK, 20.0, RED)
  {
    assert InClass(p[0], Lower);
    assert forall i :: 0 <= i < |p| ==> IsLower(p[i]);
  }

  /** An eight-letter lowercase word meets the length and lowercase rules. */
  lemma ExampleEightLowercase(p: seq<CodeUnit>)
    requires p == Utf16("abcdefgh")
    ensures Evaluate(p) == StrengthResult(true, true, false, false, false, 2, WEAK, 40.0, RED)
  {
    assert InClass(p[0], Lower);
    assert forall i :: 0 <= i < |p| ==> IsLower(p[i]);
  }

  /** A long mixed-case word with a digit but no symbol meets four rules. */
  lemma ExampleNoSymbol(p: seq<CodeUnit>)
    requires p == Utf16("Abcdefgh1")
    ensures Evaluate(p) == StrengthResult(true, true, true, true, false, 4, MEDIUM, 80.0, YELLOW)
  {
    assert InClass(p[0], Upper) && InClass(p[1], Lower) && InClass(p[8], Digit);
    assert forall i :: 0 <= i < |p| ==> IsUpper(p[i]) || IsLower(p[i]) || IsDigit(p[i]);
  }

  /** A nine-character password with every class meets all five rules. */
  lemma ExampleAllRules(p: seq<CodeUnit>)
    requires p == Utf16("Abcdefg1!")
    ensures Evaluate(p) == StrengthResult(true, true, true, true, true, 5, STRONG, 100.0, GREEN)
  {
    assert InClass(p[0], Upper) && InClass(p[1], Lower) && InClass(p[7], Digit);
    assert InClass(p[8], Special);
  }

  /** Eight spaces meet the length rule and, a space being neither letter nor
      digit, the special-character rule. */
  lemma ExampleEightSpaces(p: seq<CodeUnit>)
    requires p == Utf16("        ")
    ensures Evaluate(p) == StrengthResult(true, false, false, false, true, 2, WEAK, 40.0, RED)
  {
    assert InClass(p[0], Special);
    assert forall i :: 0 <= i < |p| ==> p[i] == 0x20;
  }

  /** Six letters followed by U+1F600, which UTF-16 writes as the surrogate
      pair 0xD83D 0xDE00: eight code units, so the length rule holds, and the
      surrogates are special. */
  lemma ExampleAstralCharacter(p: seq<CodeUnit>)
    requires p == Utf16("abcdef") + [0xD83D, 0xDE00]
    ensures Evaluate(p) == StrengthResult(true, true, false, false, true, 3, MEDIUM, 60.0, YELLOW)
  {
    assert InClass(p[0], Lower) && InClass(p[6], Special);
    assert forall i :: 0 <= i < |p| ==> 0x61 <= p[i];
  }
}
