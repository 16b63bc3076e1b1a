/**
 * The client's input validators (client/src/utils/validation.utils.js):
 * the e-mail and password regular expressions, the fixed password
 * requirements sentence, and the rule aggregator `validateForm`.
 */
module Validation {
  import opened Js
  import opened Text

  // ---------------------------------------------------------------------
  // validateEmail: /^[^\s@]+@[^\s@]+\.[^\s@]+$/
  // ---------------------------------------------------------------------

  /** `[^\s@]+`: a non-empty run of characters that are neither whitespace nor '@'. */
  predicate EmailAtom(s: string)
  {
    s != [] && forall k :: 0 <= k < |s| ==> !IsWhitespace(s[k]) && s[k] != '@'
  }

  /**
   * The e-mail pattern as written: the whole string splits as
   * atom '@' atom '.' atom at some '@' position `a` and '.' position `d`.
   */
  predicate EmailPattern(email: string)
  {
    exists a, d :: 0 <= a < d < |email| && email[a] == '@' && email[d] == '.'
      && EmailAtom(email[..a]) && EmailAtom(email[a + 1..d]) && EmailAtom(email[d + 1..])
  }

  /** The part after '@' holds a '.' that is neither its first nor its last character. */
  predicate HasInnerDot(domain: string)
  {
    exists k :: 0 < k < |domain| - 1 && domain[k] == '.'
  }

  /** Two '@' at distinct positions make the '@' count at least two. */
  lemma TwoAtsCountTwice(s: string, a: int, b: int)
    requires 0 <= a < b < |s| && s[a] == '@' && s[b] == '@'
    ensures multiset(s)['@'] >= 2
  {
    assert s == s[..b] + s[b..];
    assert s[..b][a] == '@' && s[b..][0] == '@';
    assert multiset(s) == multiset(s[..b]) + multiset(s[b..]);
  }

  /** The pattern's conditions, stated without split points. */
  predicate EmailShape(email: string)
  {
    && NoWhitespace(email)
    && multiset(email)['@'] == 1
    && exists a :: 0 < a < |email| && email[a] == '@' && HasInnerDot(email[a + 1..])
  }

  lemma AtomHasNoAtNorSpace(s: string)
    requires EmailAtom(s)
    ensures '@' !in s && NoWhitespace(s)
  {
  }

  lemma NoWhitespaceConcat(x: string, y: string)
    requires NoWhitespace(x) && NoWhitespace(y)
    ensures NoWhitespace(x + y)
  {
    forall k | 0 <= k < |x + y| ensures !IsWhitespace((x + y)[k]) {
      if k >= |x| { assert (x + y)[k] == y[k - |x|]; }
    }
  }

  /** Exactly one '@' between two parts that hold none. */
  lemma OneAtBetween(local: string, rest: string)
    requires '@' !in local && '@' !in rest
    ensures multiset(local + ['@'] + rest)['@'] == 1
  {
    assert multiset(local + ['@'] + rest) == multiset(local) + multiset(['@']) + multiset(rest);
  }

  /** The pieces of a match, put back together, hold no whitespace. */
  lemma PiecesHaveNoWhitespace(local: string, mid: string, top: string)
    requires NoWhitespace(local) && NoWhitespace(mid) && NoWhitespace(top)
    ensures NoWhitespace(local + ['@'] + (mid + ['.'] + top))
  {
    NoWhitespaceConcat(mid, ['.']);
    NoWhitespaceConcat(mid + ['.'], top);
    NoWhitespaceConcat(local, ['@']);
    NoWhitespaceConcat(local + ['@'], mid + ['.'] + top);
  }

  /** A string is its parts around two positions `a < d`, with the characters there. */
  lemma SplitTwice(s: string, a: int, d: int)
    requires 0 <= a < d < |s|
    ensures s == s[..a] + [s[a]] + (s[a + 1..d] + [s[d]] + s[d + 1..])
    ensures s[a + 1..] == s[a + 1..d] + [s[d]] + s[d + 1..]
  {
    assert s[a + 1..] == s[a + 1..d] + [s[d]] + s[d + 1..];
    assert s == s[..a] + [s[a]] + s[a + 1..];
  }

  lemma PatternGivesShape(email: string)
    requires EmailPattern(email)
    ensures EmailShape(email)
  {
    var a, d :| 0 <= a < d < |email| && email[a] == '@' && email[d] == '.'
      && EmailAtom(email[..a]) && EmailAtom(email[a + 1..d]) && EmailAtom(email[d + 1..]);
    var local, mid, top := email[..a], email[a + 1..d], email[d + 1..];
    AtomHasNoAtNorSpace(local);
    AtomHasNoAtNorSpace(mid);
    AtomHasNoAtNorSpace(top);
    SplitTwice(email, a, d);
    var rest := mid + ['.'] + top;
    assert email == local + ['@'] + rest;
    assert rest == email[a + 1..];
    PiecesHaveNoWhitespace(local, mid, top);
    OneAtBetween(local, rest);
    assert rest[|mid|] == '.';
  }

  lemma ShapeGivesPattern(email: string)
    requires EmailShape(email)
    ensures EmailPattern(email)
  {
    var a :| 0 < a < |email| && email[a] == '@' && HasInnerDot(email[a + 1..]);
    var rest := email[a + 1..];
    var k :| 0 < k < |rest| - 1 && rest[k] == '.';
    var d := a + 1 + k;
    forall b | 0 <= b < |email| && b != a ensures email[b] != '@' {
      if email[b] == '@' {
        if b < a { TwoAtsCountTwice(email, b, a); } else { TwoAtsCountTwice(email, a, b); }
      }
    }
    var local, mid, top := email[..a], email[a + 1..d], email[d + 1..];
    assert EmailAtom(local) by {
      forall t | 0 <= t < |local| ensures !IsWhitespace(local[t]) && local[t] != '@' {
        assert local[t] == email[t];
      }
    }
    assert EmailAtom(mid) by {
      forall t | 0 <= t < |mid| ensures !IsWhitespace(mid[t]) && mid[t] != '@' {
        assert mid[t] == email[a + 1 + t];
      }
    }
    assert EmailAtom(top) by {
      forall t | 0 <= t < |top| ensures !IsWhitespace(top[t]) && top[t] != '@' {
        assert top[t] == email[d + 1 + t];
      }
    }
    assert email[d] == '.';
  }

  /**
   * The pattern, stated without split points: no whitespace, exactly one
   * '@', something before it, and an inner '.' after it.
   */
  lemma ValidateEmailCharacterization(email: string)
    ensures EmailPattern(email) <==> EmailShape(email)
  {
    if EmailPattern(email) { PatternGivesShape(email); }
    if EmailShape(email) { ShapeGivesPattern(email); }
  }

  /** `validateEmail`: the pattern test, which accepts exactly the strings of e-mail shape. */
  function ValidateEmail(email: string): (r: bool)
    ensures r <==> EmailShape(email)
  {
    ValidateEmailCharacterization(email);
    EmailPattern(email)
  }

  // ---------------------------------------------------------------------
  // validatePassword: /^(?=.*[a-z])(?=.*[A-Z])(?=.*\d).{8,}$/
  // ---------------------------------------------------------------------

  /** The three classes the password lookaheads search for. */
  datatype CharClass = Lower | Upper | Digit

  predicate InClass(c: char, cls: CharClass)
  {
    match cls
    case Lower => IsLower(c)
    case Upper => IsUpper(c)
    case Digit => IsDigit(c)
  }

  /**
   * `(?=.*X)` at the start of the string: a character of class X occurs,
   * reached by `.*`, which cannot cross a line terminator.
   */
  predicate LookaheadFinds(s: string, cls: CharClass)
  {
    exists k :: 0 <= k < |s| && InClass(s[k], cls)
      && forall j :: 0 <= j < k ==> !IsLineTerminator(s[j])
  }

  /** `.{8,}$` from the start: at least 8 code units, none a line terminator. */
  predicate DotsToEnd(s: string)
  {
    Utf16Length(s) >= 8 && forall k :: 0 <= k < |s| ==> !IsLineTerminator(s[k])
  }

  /** The password pattern as written: the three lookaheads, then `.{8,}` to the end. */
  predicate PasswordPattern(password: string)
  {
    && LookaheadFinds(password, Lower)
    && LookaheadFinds(password, Upper)
    && LookaheadFinds(password, Digit)
    && DotsToEnd(password)
  }

  /** Some character of `s` is in class `cls`. */
  predicate Contains(s: string, cls: CharClass)
  {
    exists k :: 0 <= k < |s| && InClass(s[k], cls)
  }

  /**
   * The pattern without lookaheads: at least 8 UTF-16 code units, no line
   * terminator, and one lower-case letter, one upper-case letter and one
   * digit somewhere.
   */
  lemma ValidatePasswordCharacterization(password: string)
    ensures PasswordPattern(password) <==>
      && Utf16Length(password) >= 8
      && (forall k :: 0 <= k < |password| ==> !IsLineTerminator(password[k]))
      && Contains(password, Lower) && Contains(password, Upper) && Contains(password, Digit)
  {
  }

  /** `validatePassword`: the pattern test, stated without lookaheads. */
  function ValidatePassword(password: string): (r: bool)
    ensures r <==>
      && Utf16Length(password) >= 8
      && (forall k :: 0 <= k < |password| ==> !IsLineTerminator(password[k]))
      && Contains(password, Lower) && Contains(password, Upper) && Contains(password, Digit)
  {
    ValidatePasswordCharacterization(password);
    PasswordPattern(password)
  }

  /** `getPasswordRequirements`: the fixed sentence shown beside the password field. */
  function PasswordRequirements(): string
  {
    "Password must be at least 8 characters with 1 uppercase, 1 lowercase, and 1 number"
  }

  // ---------------------------------------------------------------------
  // validateForm(values, rules)
  // ---------------------------------------------------------------------

  /** One rule of a field: `required`, an optional `validate` predicate, an optional `message`. */
  datatype Rule = Rule(required: bool, validate: Option<Option<string> -> bool>, message: Option<string>)

  /** `values[field]`: the field's value, or `undefined` when the form has none. */
  function Lookup(values: map<string, string>, field: string): Option<string>
  {
    if field in values then Some(values[field]) else None
  }

  /** A rule rejects the value: it is required and the value is falsy, or its predicate says no. */
  predicate RuleFails(value: Option<string>, rule: Rule)
  {
    (rule.required && !Truthy(value)) || (rule.validate.Some? && !rule.validate.value(value))
  }

  /**
   * What a failing rule leaves in `errors[field]`: a failing predicate writes
   * `rule.message` last (possibly `undefined`); otherwise the required check
   * wrote `rule.message || "<field> is required"`.
   */
  function FailureMessage(field: string, value: Option<string>, rule: Rule): Option<string>
  {
    if rule.validate.Some? && !rule.validate.value(value) then rule.message
    else Some(Or(rule.message, field + " is required"))
  }

  /**
   * One iteration of the inner `forEach`: the required check, then the
   * predicate check, each overwriting the field's entry (`None`: no entry).
   */
  function ApplyRule(field: string, value: Option<string>, rule: Rule, entry: Option<Option<string>>): Option<Option<string>>
  {
    var afterRequired :=
      if rule.required && !Truthy(value) then Some(Some(Or(rule.message, field + " is required"))) else entry;
    if rule.validate.Some? && !rule.validate.value(value) then Some(rule.message) else afterRequired
  }

  /** The inner `forEach` over a field's rules, in list order. */
  function ApplyRules(field: string, value: Option<string>, rules: seq<Rule>, entry: Option<Option<string>>): Option<Option<string>>
    decreases |rules|
  {
    if rules == [] then entry else ApplyRules(field, value, rules[1..], ApplyRule(field, value, rules[0], entry))
  }

  /**
   * The rule loop keeps the entry it started with when every rule passes,
   * creates an entry as soon as one rule fails, and ends with the message
   * of the LAST failing rule in list order.
   */
  lemma {:induction false} ApplyRulesLastFailure(field: string, value: Option<string>, rules: seq<Rule>, entry: Option<Option<string>>)
    ensures (forall i :: 0 <= i < |rules| ==> !RuleFails(value, rules[i]))
              ==> ApplyRules(field, value, rules, entry) == entry
    ensures entry.Some? ==> ApplyRules(field, value, rules, entry).Some?
    ensures (exists i :: 0 <= i < |rules| && RuleFails(value, rules[i]))
              ==> ApplyRules(field, value, rules, entry).Some?
    ensures forall i :: 0 <= i < |rules| && RuleFails(value, rules[i])
                        && (forall j :: i < j < |rules| ==> !RuleFails(value, rules[j]))
              ==> ApplyRules(field, value, rules, entry) == Some(FailureMessage(field, value, rules[i]))
    decreases |rules|
  {
    if rules != [] {
      var rest := rules[1..];
      var e1 := ApplyRule(field, value, rules[0], entry);
      ApplyRulesLastFailure(field, value, rest, e1);
      assert ApplyRules(field, value, rules, entry) == ApplyRules(field, value, rest, e1);
      if forall i :: 0 <= i < |rules| ==> !RuleFails(value, rules[i]) {
        assert !RuleFails(value, rules[0]);
        assert forall i :: 0 <= i < |rest| ==> !RuleFails(value, rest[i]) by {
          forall i | 0 <= i < |rest| ensures !RuleFails(value, rest[i]) { assert rest[i] == rules[i + 1]; }
        }
      }
      if exists i :: 0 <= i < |rules| && RuleFails(value, rules[i]) {
        var i :| 0 <= i < |rules| && RuleFails(value, rules[i]);
        if i > 0 { assert rest[i - 1] == rules[i]; }
      }
      forall i | 0 <= i < |rules| && RuleFails(value, rules[i])
                 && (forall j :: i < j < |rules| ==> !RuleFails(value, rules[j]))
        ensures ApplyRules(field, value, rules, entry) == Some(FailureMessage(field, value, rules[i]))
      {
        if i == 0 {
          forall j | 0 <= j < |rest| ensures !RuleFails(value, rest[j]) { assert rest[j] == rules[j + 1]; }
        } else {
          assert rest[i - 1] == rules[i];
          forall j | i - 1 < j < |rest| ensures !RuleFails(value, rest[j]) { assert rest[j] == rules[j + 1]; }
        }
      }
    }
  }

  /** A field's entry after all its rules ran from an empty `errors` object. */
  function FieldEntry(values: map<string, string>, field: string, rules: seq<Rule>): Option<Option<string>>
  {
    ApplyRules(field, Lookup(values, field), rules, None)
  }

  /**
   * `validateForm`: every key of the result is a field of `rules`; a field
   * has an entry iff one of its rules fails; the entry is the message of
   * the last failing rule.
   */
  function ValidateForm(values: map<string, string>, rules: map<string, seq<Rule>>): (errors: map<string, Option<string>>)
    ensures errors.Keys <= rules.Keys
    ensures forall f :: f in rules ==>
              (f in errors <==> exists i :: 0 <= i < |rules[f]| && RuleFails(Lookup(values, f), rules[f][i]))
    ensures forall f, i :: f in errors && 0 <= i < |rules[f]| && RuleFails(Lookup(values, f), rules[f][i])
                           && (forall j :: i < j < |rules[f]| ==> !RuleFails(Lookup(values, f), rules[f][j]))
              ==> errors[f] == FailureMessage(f, Lookup(values, f), rules[f][i])
  {
    forall f | f in rules {
      ApplyRulesLastFailure(f, Lookup(values, f), rules[f], None);
    }
    map f | f in rules && FieldEntry(values, f, rules[f]).Some? :: FieldEntry(values, f, rules[f]).value
  }
}
