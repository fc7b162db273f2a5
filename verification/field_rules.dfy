/** The per-field rules the settings forms declare, as Laravel's validator
    applies them: `required`, `maxLength`, `url`, `email`, the phone
    pattern `/^[0-9\s\-\+\(\)]+$/`, and the `boolean` rule a toggle adds
    for itself.

    Every rule but `required` is skipped when the value is null or a string
    that trims to nothing, and a failed `required` ends the field's checks.
    The URL and e-mail syntax checks belong to the framework; they are
    parameters here. */
module FieldRules {
  import opened Wrappers
  import opened Json

  /** The framework's URL and e-mail syntax checks. */
  datatype FormatChecks = FormatChecks(isUrl: string -> bool, isEmail: string -> bool)

  datatype Rule = Required | MaxLength(limit: nat) | Url | Email | PhonePattern | Boolean

  /** A rule a field's value failed. */
  datatype FieldError = FieldError(field: string, rule: Rule)

  /** The characters PHP's `trim` removes by default. */
  predicate IsTrimChar(c: char) {
    c == ' ' || c == '\t' || c == '\n' || c == '\r' || c == '\0' || c == '\U{000B}'
  }

  /** A string `trim` reduces to "". */
  predicate IsBlank(t: string) {
    forall i :: 0 <= i < |t| ==> IsTrimChar(t[i])
  }

  /** What the validator treats as an empty field: null, or a blank string. */
  predicate IsEmpty(v: Value) {
    IsNull(v) || (v.value.JStr? && IsBlank(v.value.s))
  }

  /** `required`: not null, not a blank string, not an empty array. */
  predicate IsPresent(v: Value) {
    && !IsEmpty(v)
    && !(v.value.JArr? && |v.value.items| == 0)
    && !(v.value.JObj? && |v.value.fields| == 0)
  }

  /** `\s` of PCRE without the `u` flag: space, tab, line feed, vertical
      tab, form feed, carriage return. */
  predicate IsRegexSpace(c: char) {
    c == ' ' || c == '\t' || c == '\n' || c == '\U{000B}' || c == '\U{000C}' || c == '\r'
  }

  /** One character of the class `[0-9\s\-\+\(\)]`. */
  predicate IsPhoneChar(c: char) {
    ('0' <= c <= '9') || IsRegexSpace(c) || c == '-' || c == '+' || c == '(' || c == ')'
  }

  /** `/^[0-9\s\-\+\(\)]+$/`: one or more characters, all from the class. */
  predicate MatchesPhonePattern(t: string) {
    |t| > 0 && forall i :: 0 <= i < |t| ==> IsPhoneChar(t[i])
  }

  /** The strings `boolean` accepts. */
  predicate IsBooleanText(t: string) {
    t == "0" || t == "1"
  }

  /** `boolean`: strictly one of `true`, `false`, `0`, `1`, `"0"`, `"1"`. */
  predicate IsBooleanLike(j: Json) {
    || j.JBool?
    || (j.JInt? && (j.i == 0 || j.i == 1))
    || (j.JStr? && IsBooleanText(j.s))
  }

  /** Whether the string `t` satisfies a rule that reads a string. */
  predicate TextPasses(rule: Rule, t: string, checks: FormatChecks) {
    match rule
    case Boolean => IsBooleanText(t)
    case Required => !IsBlank(t)
    case MaxLength(limit) => |t| <= limit
    case Url => checks.isUrl(t)
    case Email => checks.isEmail(t)
    case PhonePattern => MatchesPhonePattern(t)
  }

  /** Whether `v` satisfies `rule`. */
  predicate Passes(rule: Rule, v: Value, checks: FormatChecks) {
    if rule == Required then IsPresent(v)
    else if rule == Boolean then IsEmpty(v) || IsBooleanLike(v.value)
    else IsEmpty(v) || (v.value.JStr? && TextPasses(rule, v.value.s, checks))
  }

  /** The errors of one field: its rules in order, stopping after a failed
      `required`. */
  function CheckField(field: string, v: Value, rules: seq<Rule>, checks: FormatChecks): (errs: seq<FieldError>)
    ensures |errs| == 0 <==> forall k :: 0 <= k < |rules| ==> Passes(rules[k], v, checks)
    ensures forall k :: 0 <= k < |errs| ==>
      errs[k].field == field && errs[k].rule in rules && !Passes(errs[k].rule, v, checks)
    ensures |errs| <= |rules|
  {
    if |rules| == 0 then []
    else if Passes(rules[0], v, checks) then CheckField(field, v, rules[1..], checks)
    else if rules[0] == Required then [FieldError(field, Required)]
    else [FieldError(field, rules[0])] + CheckField(field, v, rules[1..], checks)
  }

  /** The rules of `rs` that `v` fails, in order: a reference reading of the
      validator's error list, independent of where it stops. */
  function Failing(rs: seq<Rule>, v: Value, checks: FormatChecks): seq<Rule> {
    if |rs| == 0 then []
    else (if Passes(rs[0], v, checks) then [] else [rs[0]]) + Failing(rs[1..], v, checks)
  }

  /** One error per rule of `rs`, all for `field`. */
  function Report(field: string, rs: seq<Rule>): seq<FieldError> {
    if |rs| == 0 then [] else [FieldError(field, rs[0])] + Report(field, rs[1..])
  }

  /** A present value, or a field without `required`, is checked against
      every rule: its errors are exactly the failing rules, in order. */
  lemma {:induction false} CheckFieldReportsAllFailures(field: string, v: Value, rules: seq<Rule>, checks: FormatChecks)
    requires IsPresent(v) || Required !in rules
    ensures CheckField(field, v, rules, checks) == Report(field, Failing(rules, v, checks))
  {
    if |rules| > 0 {
      assert Required in rules ==> Required in rules[1..] || rules[0] == Required;
      CheckFieldReportsAllFailures(field, v, rules[1..], checks);
      if Passes(rules[0], v, checks) {
        assert Failing(rules, v, checks) == Failing(rules[1..], v, checks);
      } else {
        assert Failing(rules, v, checks) == [rules[0]] + Failing(rules[1..], v, checks);
        ReportCons(field, rules[0], Failing(rules[1..], v, checks));
      }
    }
  }

  /** A value `required` rejects is checked against the rules up to and
      including the first `required`, which fails and ends the checks: the
      errors are exactly the failing rules of that prefix, in order, and the
      last of them is `required`. */
  lemma CheckFieldStopsAtRequired(field: string, v: Value, rules: seq<Rule>, checks: FormatChecks, i: nat)
    requires !IsPresent(v)
    requires i < |rules| && rules[i] == Required && Required !in rules[..i]
    ensures CheckField(field, v, rules, checks) == Report(field, Failing(rules[..i + 1], v, checks))
    ensures CheckField(field, v, rules, checks)[|CheckField(field, v, rules, checks)| - 1] == FieldError(field, Required)
  {
    CheckFieldPrefix(field, v, rules, checks, i);
    CheckFieldEndsWithRequired(field, v, rules, checks, i);
  }

  /** The error list of `CheckFieldStopsAtRequired`. */
  lemma {:induction false} CheckFieldPrefix(field: string, v: Value, rules: seq<Rule>, checks: FormatChecks, i: nat)
    requires !IsPresent(v)
    requires i < |rules| && rules[i] == Required && Required !in rules[..i]
    ensures CheckField(field, v, rules, checks) == Report(field, Failing(rules[..i + 1], v, checks))
  {
    if i == 0 {
      assert rules[..1] == [Required];
      assert Failing(rules[..1][1..], v, checks) == [];
    } else {
      assert rules[0] == rules[..i][0];
      assert rules[1..][..i - 1] == rules[..i][1..];
      CheckFieldPrefix(field, v, rules[1..], checks, i - 1);
      var head := rules[..i + 1];
      assert head[1..] == rules[1..][..i];
      if Passes(rules[0], v, checks) {
        assert Failing(head, v, checks) == Failing(head[1..], v, checks);
      } else {
        assert Failing(head, v, checks) == [rules[0]] + Failing(head[1..], v, checks);
        ReportCons(field, rules[0], Failing(head[1..], v, checks));
      }
    }
  }

  /** The last error of `CheckFieldStopsAtRequired`. */
  lemma {:induction false} CheckFieldEndsWithRequired(field: string, v: Value, rules: seq<Rule>, checks: FormatChecks, i: nat)
    requires !IsPresent(v)
    requires i < |rules| && rules[i] == Required && Required !in rules[..i]
    ensures |CheckField(field, v, rules, checks)| > 0
    ensures CheckField(field, v, rules, checks)[|CheckField(field, v, rules, checks)| - 1] == FieldError(field, Required)
  {
    if i > 0 {
      assert rules[0] == rules[..i][0];
      assert rules[1..][..i - 1] == rules[..i][1..];
      CheckFieldEndsWithRequired(field, v, rules[1..], checks, i - 1);
      var tail := CheckField(field, v, rules[1..], checks);
      if Passes(rules[0], v, checks) {
        assert CheckField(field, v, rules, checks) == tail;
      } else {
        assert CheckField(field, v, rules, checks) == [FieldError(field, rules[0])] + tail;
      }
    }
  }

  /** `Report` maps over a list one head at a time. */
  lemma ReportCons(field: string, r: Rule, rs: seq<Rule>)
    ensures Report(field, [r] + rs) == [FieldError(field, r)] + Report(field, rs)
  {
    assert ([r] + rs)[1..] == rs;
  }

  /** An empty company name reports only `required`, not `maxLength`. */
  lemma RequiredStopsExample(checks: FormatChecks)
    ensures CheckField("company_name", None, [Required, MaxLength(255)], checks) == [FieldError("company_name", Required)]
  {
  }

  /** The phone field's rules, `maxLength(255)` and the pattern, skip an
      empty value and accept any other exactly when it is a string of at
      most 255 characters, all from the phone class. */
  lemma PhoneRules(v: Value, checks: FormatChecks)
    ensures (Passes(MaxLength(255), v, checks) && Passes(PhonePattern, v, checks)) <==>
      || IsEmpty(v)
      || (v.value.JStr? && 0 < |v.value.s| <= 255 && forall i :: 0 <= i < |v.value.s| ==> IsPhoneChar(v.value.s[i]))
  {
  }

  /** "+40-760 123 456" is a phone number; "call me" is not. */
  lemma PhoneExamples(checks: FormatChecks)
    ensures Passes(PhonePattern, Some(JStr("+40-760 123 456")), checks)
    ensures !Passes(PhonePattern, Some(JStr("call me")), checks)
  {
    var bad := "call me";
    assert !IsBlank(bad) by { assert !IsTrimChar(bad[0]); }
    assert !IsPhoneChar(bad[0]);
    var good := "+40-760 123 456";
    assert !IsBlank(good) by { assert !IsTrimChar(good[0]); }
  }

  /** The toggle's `boolean` rule takes booleans, 0 and 1 in either form,
      and an empty value; "yes" and 2 fail it. */
  lemma BooleanExamples(checks: FormatChecks)
    ensures Passes(Boolean, Some(JBool(false)), checks)
    ensures Passes(Boolean, Some(JInt(1)), checks) && Passes(Boolean, Some(JStr("0")), checks)
    ensures Passes(Boolean, None, checks)
    ensures !Passes(Boolean, Some(JStr("yes")), checks)
    ensures !Passes(Boolean, Some(JInt(2)), checks)
  {
    assert !IsBlank("yes") by { assert !IsTrimChar("yes"[0]); }
  }
}
