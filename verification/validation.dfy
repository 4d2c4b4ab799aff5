/** The validation rules of the salary controller, and the part of Laravel's
    validator that decides which rule runs on which value.

    A rule list is checked attribute by attribute. An attribute is rejected
    when some rule that runs on its value fails; which rules run follows the
    validator's `isValidatable`: a rule list holding `sometimes` is skipped
    entirely when the key is absent, `required` always runs, and every other
    rule runs only on a key that is present and not a blank string. */
module Validation {
  import opened Requests

  datatype Rule = Sometimes | Required | IsString | IsEmail | Numeric | Max(limit: nat) | Min(bound: int)

  /** The length bound of the `max:255` rules. */
  const MaxLength: nat := 255

  type RuleTable = seq<(Field, seq<Rule>)>

  /** The rules of `store`: all four attributes are required. */
  const StoreRules: RuleTable := [
    (Name, [Required, IsString, Max(MaxLength)]),
    (Email, [Required, IsEmail, Max(MaxLength)]),
    (SalaryLocal, [Required, Numeric, Min(0)]),
    (SalaryEuros, [Required, Numeric, Min(0)])
  ]

  /** The rules of `update`: every attribute is checked only when supplied. */
  const UpdateRules: RuleTable := [
    (Name, [Sometimes, Required, IsString, Max(MaxLength)]),
    (SalaryLocal, [Sometimes, Required, Numeric, Min(0)]),
    (SalaryEuros, [Sometimes, Required, Numeric, Min(0)]),
    (Commission, [Sometimes, Required, Numeric, Min(0)])
  ]

  /** What `required` accepts once the key is present. */
  predicate Filled(v: Value) {
    match v
    case Null => false
    case Text(s) => !Blank(s)
    case _ => true
  }

  /** The size `max` and `min` compare, in hundredths: the value itself when
      the list has a numeric rule and the value is numeric, else the length
      of the value's text. Unsized covers a number in a list without a
      numeric rule, whose printed length is not modelled; in the rules above
      such a value already fails `string` or `email`. */
  datatype Size = Hundredths(h: int) | Unsized

  function SizeOf(p: Primitives, rules: seq<Rule>, v: Value): Size {
    if Numeric in rules && NumericCents(p, v).Some? then Hundredths(NumericCents(p, v).value)
    else match v
      case Text(s) => Hundredths(100 * |s|)
      case Null => Hundredths(0)
      case Bool(b) => Hundredths(if b then 100 else 0)
      case Number(_) => Unsized
  }

  /** Whether the validator runs rule r on an attribute with the given rule
      list and (possibly absent) value. */
  predicate Runs(r: Rule, rules: seq<Rule>, v: Option<Value>) {
    && (r.Required? || (v.Some? && !(v.value.Text? && Blank(v.value.s))))
    && (Sometimes !in rules || v.Some?)
  }

  /** Whether rule r, once it runs, accepts the value. */
  predicate Passes(p: Primitives, r: Rule, rules: seq<Rule>, v: Option<Value>) {
    match r
    case Sometimes => true
    case Required => v.Some? && Filled(v.value)
    case IsString => v.Some? && v.value.Text?
    case IsEmail => v.Some? && v.value.Text? && p.isEmail(v.value.s)
    case Numeric => v.Some? && NumericCents(p, v.value).Some?
    case Max(n) =>
      v.None? || (match SizeOf(p, rules, v.value)
                  case Hundredths(h) => h <= 100 * n
                  case Unsized => true)
    case Min(n) =>
      v.None? || (match SizeOf(p, rules, v.value)
                  case Hundredths(h) => h >= 100 * n
                  case Unsized => true)
  }

  /** The attribute gets an error message: some rule that runs fails. */
  predicate Rejected(p: Primitives, rules: seq<Rule>, v: Option<Value>) {
    exists i :: 0 <= i < |rules| && Runs(rules[i], rules, v) && !Passes(p, rules[i], rules, v)
  }

  /** The attributes of a request that the validator reports errors for:
      those with a rule list that rejects the attribute's value. An absent
      attribute whose every rule list holds `sometimes` is never reported. */
  function Errors(p: Primitives, table: RuleTable, req: Request): (errs: set<Field>)
    ensures forall f :: f in errs <==>
      exists i :: 0 <= i < |table| && table[i].0 == f && Rejected(p, table[i].1, Get(req, f))
    ensures forall f ::
              Key(f) !in req && (forall i :: 0 <= i < |table| && table[i].0 == f ==> Sometimes in table[i].1)
              ==> f !in errs
  {
    set i | 0 <= i < |table| && Rejected(p, table[i].1, Get(req, table[i].0)) :: table[i].0
  }

  function StoreErrors(p: Primitives, req: Request): set<Field> {
    Errors(p, StoreRules, req)
  }

  function UpdateErrors(p: Primitives, req: Request): set<Field> {
    Errors(p, UpdateRules, req)
  }

  // Each field's rules stated directly, as the rule strings read.

  /** `string|max:255` together with `required`. */
  predicate NameAcceptable(v: Value) {
    v.Text? && !Blank(v.s) && |v.s| <= MaxLength
  }

  /** `email|max:255` together with `required`. */
  predicate EmailAcceptable(p: Primitives, v: Value) {
    v.Text? && !Blank(v.s) && p.isEmail(v.s) && |v.s| <= MaxLength
  }

  /** `numeric|min:0` together with `required`. */
  predicate AmountAcceptable(p: Primitives, v: Value) {
    match v
    case Number(c) => c >= 0
    case Text(s) => !Blank(s) && p.parseNumeric(s).Some? && p.parseNumeric(s).value >= 0
    case _ => false
  }

  predicate Acceptable(p: Primitives, f: Field, v: Value) {
    match f
    case Name => NameAcceptable(v)
    case Email => EmailAcceptable(p, v)
    case SalaryLocal | SalaryEuros | Commission => AmountAcceptable(p, v)
    case DisplayedSalary => true  // neither action has a rule for displayed_salary
  }

  /** The fields each action validates. */
  const StoreFields: set<Field> := {Name, Email, SalaryLocal, SalaryEuros}
  const UpdateFields: set<Field> := {Name, SalaryLocal, SalaryEuros, Commission}

  lemma NameRules(p: Primitives, v: Option<Value>)
    ensures Rejected(p, [Required, IsString, Max(MaxLength)], v) <==> !(v.Some? && NameAcceptable(v.value))
  {
    var rules := [Required, IsString, Max(MaxLength)];
    if !(v.Some? && NameAcceptable(v.value)) {
      if !(v.Some? && Filled(v.value)) {
        assert Runs(rules[0], rules, v) && !Passes(p, rules[0], rules, v);
      } else if !v.value.Text? {
        assert Runs(rules[1], rules, v) && !Passes(p, rules[1], rules, v);
      } else {
        assert Runs(rules[2], rules, v) && !Passes(p, rules[2], rules, v);
      }
    }
  }

  lemma EmailRules(p: Primitives, v: Option<Value>)
    ensures Rejected(p, [Required, IsEmail, Max(MaxLength)], v) <==> !(v.Some? && EmailAcceptable(p, v.value))
  {
    var rules := [Required, IsEmail, Max(MaxLength)];
    if !(v.Some? && EmailAcceptable(p, v.value)) {
      if !(v.Some? && Filled(v.value)) {
        assert Runs(rules[0], rules, v) && !Passes(p, rules[0], rules, v);
      } else if !(v.value.Text? && p.isEmail(v.value.s)) {
        assert Runs(rules[1], rules, v) && !Passes(p, rules[1], rules, v);
      } else {
        assert Runs(rules[2], rules, v) && !Passes(p, rules[2], rules, v);
      }
    }
  }

  lemma AmountRules(p: Primitives, v: Option<Value>)
    ensures Rejected(p, [Required, Numeric, Min(0)], v) <==> !(v.Some? && AmountAcceptable(p, v.value))
  {
    var rules := [Required, Numeric, Min(0)];
    if !(v.Some? && AmountAcceptable(p, v.value)) {
      if !(v.Some? && Filled(v.value)) {
        assert Runs(rules[0], rules, v) && !Passes(p, rules[0], rules, v);
      } else if NumericCents(p, v.value).None? {
        assert Runs(rules[1], rules, v) && !Passes(p, rules[1], rules, v);
      } else {
        assert Runs(rules[2], rules, v) && !Passes(p, rules[2], rules, v);
      }
    }
  }

  /** `sometimes` in front of a rule list: an absent key is never rejected,
      a present one is judged by the remaining rules. */
  lemma SometimesRules(p: Primitives, rules: seq<Rule>, v: Option<Value>)
    requires Sometimes !in rules
    ensures Rejected(p, [Sometimes] + rules, v) <==> v.Some? && Rejected(p, rules, v)
  {
    var all := [Sometimes] + rules;
    assert Numeric in all <==> Numeric in rules;
    if Rejected(p, all, v) {
      var i :| 0 <= i < |all| && Runs(all[i], all, v) && !Passes(p, all[i], all, v);
      assert i > 0 && all[i] == rules[i - 1];
      assert Runs(rules[i - 1], rules, v) && !Passes(p, rules[i - 1], rules, v);
    }
    if v.Some? && Rejected(p, rules, v) {
      var i :| 0 <= i < |rules| && Runs(rules[i], rules, v) && !Passes(p, rules[i], rules, v);
      assert all[i + 1] == rules[i];
      assert Runs(all[i + 1], all, v) && !Passes(p, all[i + 1], all, v);
    }
  }

  /** `store` reports an error for exactly the required fields that are
      missing or unacceptable. */
  lemma StoreErrorsExactly(p: Primitives, req: Request, f: Field)
    ensures f in StoreErrors(p, req) <==> f in StoreFields && !(Get(req, f).Some? && Acceptable(p, f, Get(req, f).value))
  {
    NameRules(p, Get(req, Name));
    EmailRules(p, Get(req, Email));
    AmountRules(p, Get(req, SalaryLocal));
    AmountRules(p, Get(req, SalaryEuros));
    var errs := StoreErrors(p, req);
    if f in StoreFields && !(Get(req, f).Some? && Acceptable(p, f, Get(req, f).value)) {
      var i := match f case Name => 0 case Email => 1 case SalaryLocal => 2 case _ => 3;
      assert StoreRules[i].0 == f;
      assert f in errs;
    }
  }

  /** `update` reports an error for exactly the supplied fields among name,
      salary_local, salary_euros and commission whose value is unacceptable;
      absent fields are never checked. */
  lemma UpdateErrorsExactly(p: Primitives, req: Request, f: Field)
    ensures f in UpdateErrors(p, req) <==> f in UpdateFields && Get(req, f).Some? && !Acceptable(p, f, Get(req, f).value)
  {
    var name := [Required, IsString, Max(MaxLength)];
    var amount := [Required, Numeric, Min(0)];
    assert UpdateRules[0].1 == [Sometimes] + name;
    assert UpdateRules[1].1 == [Sometimes] + amount;
    SometimesRules(p, name, Get(req, Name));
    SometimesRules(p, amount, Get(req, SalaryLocal));
    SometimesRules(p, amount, Get(req, SalaryEuros));
    SometimesRules(p, amount, Get(req, Commission));
    NameRules(p, Get(req, Name));
    AmountRules(p, Get(req, SalaryLocal));
    AmountRules(p, Get(req, SalaryEuros));
    AmountRules(p, Get(req, Commission));
    var errs := UpdateErrors(p, req);
    if f in UpdateFields && Get(req, f).Some? && !Acceptable(p, f, Get(req, f).value) {
      var i := match f case Name => 0 case SalaryLocal => 1 case SalaryEuros => 2 case _ => 3;
      assert UpdateRules[i].0 == f;
      assert f in errs;
    }
  }
}
