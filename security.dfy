/**
  backend/src/middleware/security.js: the password-strength check and the length rule
  the server applies to its JWT secret at start-up.

  Lengths are counted in characters; JavaScript counts UTF-16 code units, which is the
  same for every character outside the astral planes.
 */
module Security {
  import opened Common

  const MinLength: nat := 8
  const MinSecretLength: nat := 32

  /** The five requirements, in the order their errors are reported. */
  datatype Rule = TooShort | NoUpper | NoLower | NoDigit | NoSpecial

  const Rules: seq<Rule> := [TooShort, NoUpper, NoLower, NoDigit, NoSpecial]

  /** `{ isValid, errors }` */
  datatype Strength = Strength(isValid: bool, errors: seq<string>)

  /** The character classes the four regular expressions test for. */
  datatype Class = Upper | Lower | Digit | Special

  /** `[A-Z]`, `[a-z]`, `\d` (ASCII digits only) and `[!@#$%^&*(),.?":{}|<>]`, the last
      written as ranges of ASCII codes. */
  predicate InClass(c: char, k: Class)
  {
    match k
    case Upper => 'A' <= c <= 'Z'
    case Lower => 'a' <= c <= 'z'
    case Digit => '0' <= c <= '9'
    case Special =>
      || '!' <= c <= '&' || '(' <= c <= '*' || c == ',' || c == '.' || c == ':' || c == '<'
      || '>' <= c <= '@' || c == '^' || '{' <= c <= '}'
  }

  /** The ranges of the special class are exactly its twenty characters. */
  lemma SpecialsAreTheClass(c: char)
    ensures InClass(c, Special) <==> c in "!@#$%^&*(),.?\":{}|<>"
  {
  }

  /** `regex.test(password)` for one class: the regex is unanchored, so one character of
      the class anywhere is enough. */
  predicate Has(p: string, k: Class)
  {
    p != [] && (InClass(p[0], k) || Has(p[1..], k))
  }

  lemma {:induction false} HasIff(p: string, k: Class)
    ensures Has(p, k) <==> exists i :: 0 <= i < |p| && InClass(p[i], k)
  {
    if p != [] {
      HasIff(p[1..], k);
      if exists i :: 0 <= i < |p| && InClass(p[i], k) {
        var i :| 0 <= i < |p| && InClass(p[i], k);
        if i > 0 {
          assert p[1..][i - 1] == p[i];
        }
      }
      if Has(p[1..], k) {
        var i :| 0 <= i < |p[1..]| && InClass(p[1..][i], k);
        assert p[i + 1] == p[1..][i];
      }
    }
  }

  /** Whether `password` breaks `rule`. */
  predicate Breaks(password: string, rule: Rule)
  {
    match rule
    case TooShort => |password| < MinLength
    case NoUpper => !Has(password, Upper)
    case NoLower => !Has(password, Lower)
    case NoDigit => !Has(password, Digit)
    case NoSpecial => !Has(password, Special)
  }

  /** The members of `rules` that `password` breaks, in their order. */
  function BrokenAmong(password: string, rules: seq<Rule>): seq<Rule>
  {
    if rules == [] then []
    else
      var last := rules[|rules| - 1];
      BrokenAmong(password, rules[..|rules| - 1]) + (if Breaks(password, last) then [last] else [])
  }

  /** The rules `password` breaks, in reporting order. */
  function Broken(password: string): seq<Rule>
  {
    BrokenAmong(password, Rules)
  }

  /** The messages, in French as the API returns them. */
  const TooShortText: string := "Le mot de passe doit contenir au moins 8 caract\U{E8}res"
  const NoUpperText: string := "Le mot de passe doit contenir au moins une lettre majuscule"
  const NoLowerText: string := "Le mot de passe doit contenir au moins une lettre minuscule"
  const NoDigitText: string := "Le mot de passe doit contenir au moins un chiffre"
  const NoSpecialText: string := "Le mot de passe doit contenir au moins un caract\U{E8}re sp\U{E9}cial (!@#$%^&*...)"

  /** The message pushed for each broken rule. */
  function Message(rule: Rule): string
  {
    match rule
    case TooShort => TooShortText
    case NoUpper => NoUpperText
    case NoLower => NoLowerText
    case NoDigit => NoDigitText
    case NoSpecial => NoSpecialText
  }

  function Messages(rules: seq<Rule>): (r: seq<string>)
    ensures |r| == |rules| && forall i :: 0 <= i < |rules| ==> r[i] == Message(rules[i])
  {
    seq(|rules|, i requires 0 <= i < |rules| => Message(rules[i]))
  }

  /** `validatePasswordStrength`: one `if` per rule, each pushing its message. */
  method ValidatePasswordStrength(password: string) returns (r: Strength)
    ensures r.errors == Messages(Broken(password))
    ensures r.isValid <==> r.errors == []
  {
    var errors: seq<string> := [];
    ghost var broken: seq<Rule> := [];
    assert Rules[..0] == [];
    if |password| < MinLength {
      errors, broken := Push(errors, broken, TooShort);
    }
    assert Rules[..1][..0] == Rules[..0];
    assert broken == BrokenAmong(password, Rules[..1]);
    if !Has(password, Upper) {
      errors, broken := Push(errors, broken, NoUpper);
    }
    assert Rules[..2][..1] == Rules[..1];
    assert broken == BrokenAmong(password, Rules[..2]);
    if !Has(password, Lower) {
      errors, broken := Push(errors, broken, NoLower);
    }
    assert Rules[..3][..2] == Rules[..2];
    assert broken == BrokenAmong(password, Rules[..3]);
    if !Has(password, Digit) {
      errors, broken := Push(errors, broken, NoDigit);
    }
    assert Rules[..4][..3] == Rules[..3];
    assert broken == BrokenAmong(password, Rules[..4]);
    if !Has(password, Special) {
      errors, broken := Push(errors, broken, NoSpecial);
    }
    assert Rules[..5][..4] == Rules[..4] && Rules[..5] == Rules;
    r := Strength(|errors| == 0, errors);
  }

  /** `errors.push(message)`, keeping alongside the rules pushed so far. */
  method Push(errors: seq<string>, ghost broken: seq<Rule>, rule: Rule) returns (errors': seq<string>, ghost broken': seq<Rule>)
    requires errors == Messages(broken)
    ensures errors' == errors + [Message(rule)] && broken' == broken + [rule]
    ensures errors' == Messages(broken')
  {
    errors' := errors + [Message(rule)];
    broken' := broken + [rule];
  }

  /** A rule is reported exactly when it is among those checked and broken. */
  lemma {:induction false} BrokenAmongMembers(password: string, rules: seq<Rule>)
    ensures forall rule :: rule in BrokenAmong(password, rules) <==> rule in rules && Breaks(password, rule)
    ensures IsSubsequence(BrokenAmong(password, rules), rules)
  {
    if rules != [] {
      var init := rules[..|rules| - 1];
      var last := rules[|rules| - 1];
      BrokenAmongMembers(password, init);
      assert rules == init + [last];
      SubsequenceExtend(BrokenAmong(password, init), init, last, Breaks(password, last));
    }
  }

  /** Keeping a subsequence of `b`, and perhaps the element appended to `b`. */
  lemma {:induction false} SubsequenceExtend(a: seq<Rule>, b: seq<Rule>, x: Rule, keep: bool)
    requires IsSubsequence(a, b)
    ensures IsSubsequence(a + (if keep then [x] else []), b + [x])
    decreases |b|
  {
    var a' := a + (if keep then [x] else []);
    if b == [] {
      assert a == [];
      if keep {
        assert a' == [x] && b + [x] == [x] && a'[1..] == [] && (b + [x])[1..] == [];
      }
    } else if a == [] {
      if keep {
        assert a' == [x];
        assert IsSubsequence([x], [x]) by { assert [x][1..] == []; }
        assert (b + [x])[|b + [x]| - 1] == x;
        SubsequenceOfTail([x], b + [x]);
      }
    } else if a[0] == b[0] {
      SubsequenceExtend(a[1..], b[1..], x, keep);
      assert a'[1..] == a[1..] + (if keep then [x] else []);
      assert (b + [x])[1..] == b[1..] + [x];
    } else {
      SubsequenceExtend(a, b[1..], x, keep);
      assert (b + [x])[1..] == b[1..] + [x];
    }
  }

  /** A subsequence of the last element of `b` alone is a subsequence of `b`. */
  lemma {:induction false} SubsequenceOfTail(a: seq<Rule>, b: seq<Rule>)
    requires b != [] && IsSubsequence(a, [b[|b| - 1]])
    ensures IsSubsequence(a, b)
    decreases |b|
  {
    if |b| > 1 && a != [] && a[0] != b[0] {
      assert b[1..][|b| - 2] == b[|b| - 1];
      SubsequenceOfTail(a, b[1..]);
    } else if |b| > 1 && a != [] {
      assert a == [b[|b| - 1]] by {
        assert IsSubsequence(a, [b[|b| - 1]]);
      }
    }
  }

  /** Nothing is reported exactly when every rule checked holds. */
  lemma {:induction false} NoneBroken(password: string, rules: seq<Rule>)
    ensures BrokenAmong(password, rules) == [] <==> forall rule :: rule in rules ==> !Breaks(password, rule)
  {
    BrokenAmongMembers(password, rules);
    if BrokenAmong(password, rules) != [] {
      assert BrokenAmong(password, rules)[0] in BrokenAmong(password, rules);
    }
  }

  /** A password is valid exactly when it is long enough and has all four classes. */
  lemma ValidIff(password: string)
    ensures Broken(password) == [] <==>
      |password| >= MinLength && Has(password, Upper) && Has(password, Lower) && Has(password, Digit) && Has(password, Special)
  {
    NoneBroken(password, Rules);
    assert TooShort in Rules && NoUpper in Rules && NoLower in Rules && NoDigit in Rules && NoSpecial in Rules;
  }

  /** The errors name exactly the rules broken, each once, in the fixed order; so there are
      at most five. */
  lemma ErrorsAreBrokenRules(password: string)
    ensures forall rule :: Message(rule) in Messages(Broken(password)) <==> Breaks(password, rule)
    ensures IsSubsequence(Broken(password), Rules)
    ensures |Messages(Broken(password))| <= 5
  {
    BrokenAmongMembers(password, Rules);
    SubsequenceLength(Broken(password), Rules);
    forall rule | Message(rule) in Messages(Broken(password)) ensures Breaks(password, rule) {
      var i :| 0 <= i < |Broken(password)| && Messages(Broken(password))[i] == Message(rule);
      MessageInjective(Broken(password)[i], rule);
    }
    forall rule | Breaks(password, rule) ensures Message(rule) in Messages(Broken(password)) {
      assert rule in Rules by { RulesComplete(rule); }
      var i :| 0 <= i < |Broken(password)| && Broken(password)[i] == rule;
      assert Messages(Broken(password))[i] == Message(rule);
    }
  }

  lemma RulesComplete(rule: Rule)
    ensures rule in Rules
  {
  }

  lemma {:induction false} SubsequenceLength(a: seq<Rule>, b: seq<Rule>)
    requires IsSubsequence(a, b)
    ensures |a| <= |b|
    decreases |b|
  {
    if a != [] {
      if a[0] == b[0] {
        SubsequenceLength(a[1..], b[1..]);
      } else {
        SubsequenceLength(a, b[1..]);
      }
    }
  }

  /** Different rules have different messages. */
  lemma MessageInjective(a: Rule, b: Rule)
    requires Message(a) == Message(b)
    ensures a == b
  {
  }

  /** `Abcdef1!` passes every rule; the empty password breaks all five. */
  lemma Examples()
    ensures Broken("Abcdef1!") == []
    ensures Broken("") == Rules
  {
    assert Has("Abcdef1!", Upper) && Has("Abcdef1!", Lower) && Has("Abcdef1!", Digit) && Has("Abcdef1!", Special);
    ValidIff("Abcdef1!");
    AllBroken("", Rules);
  }

  /** When every rule checked is broken, all are reported. */
  lemma {:induction false} AllBroken(password: string, rules: seq<Rule>)
    requires forall rule :: rule in rules ==> Breaks(password, rule)
    ensures BrokenAmong(password, rules) == rules
  {
    if rules != [] {
      AllBroken(password, rules[..|rules| - 1]);
      assert rules == rules[..|rules| - 1] + [rules[|rules| - 1]];
    }
  }

  // ------------------------------------------------------------- JWT secret

  /** Why `validateJWTSecret` ends the process. */
  datatype Refusal = MissingSecret | ShortSecret(length: nat)

  /** `validateJWTSecret`: `secret` is `process.env.JWT_SECRET`; `None` when the server may
      start, otherwise the reason it exits. */
  function CheckSecret(secret: Option<string>): (r: Option<Refusal>)
    ensures r.None? <==> secret.Some? && |secret.value| >= MinSecretLength
    ensures r == Some(MissingSecret) <==> secret.None? || secret.value == ""
    ensures r.Some? && r.value.ShortSecret? ==> r.value.length == |secret.value| && 0 < r.value.length < MinSecretLength
  {
    if secret.None? || secret.value == "" then Some(MissingSecret)
    else if |secret.value| < MinSecretLength then Some(ShortSecret(|secret.value|))
    else None
  }
}
