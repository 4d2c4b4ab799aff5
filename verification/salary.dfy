/** The `Salary` Eloquent model: its attributes, its mass-assignable
    (fillable) attribute names, the `creating` and `updating` hooks that
    recompute `displayed_salary`, and the way `save()` decides whether an
    existing record is written at all. */
module SalaryModel {
  import opened Requests

  /** A stored salary record. Money is in cents (the columns are `decimal:2`).
      `email` holds whatever value last reached it: `store` writes a
      validated address, `update` writes the supplied value unchecked. */
  datatype Salary = Salary(
    id: int,
    name: string,
    email: Value,
    salaryLocal: int,
    salaryEuros: int,
    commission: int,
    displayedSalary: int)

  /** The `displayed_salary` attribute of an instance as the change check of
      `save()` reads it. The check compares a `decimal:2` attribute with the
      loaded one after casting both to decimals: Cents is a value the cast
      accepts, NoDecimal one that is compared without a cast (unset on a new
      instance, or null), Uncastable a string the cast throws on. */
  datatype Decimal = Cents(c: int) | NoDecimal | Uncastable

  /** A model instance's attributes before a hook runs. */
  datatype Draft = Draft(
    id: int,
    name: string,
    email: Value,
    salaryLocal: int,
    salaryEuros: int,
    commission: int,
    displayedSalary: Decimal)

  /** The attribute names mass assignment may set. */
  const Fillable: set<string> :=
    {"name", "email", "salary_local", "salary_euros", "commission", "displayed_salary"}

  lemma FillableAreFields(k: string)
    ensures k in Fillable <==> exists f :: Key(f) == k
  {
    if k in Fillable {
      var f :=
        if k == "name" then Name else if k == "email" then Email
        else if k == "salary_local" then SalaryLocal else if k == "salary_euros" then SalaryEuros
        else if k == "commission" then Commission else DisplayedSalary;
      assert Key(f) == k;
    }
  }

  /** The derived-field invariant every stored record satisfies. */
  predicate Consistent(r: Salary) {
    r.displayedSalary == r.salaryEuros + r.commission
  }

  /** The body shared by the `creating` and `updating` hooks: the record
      that is written, with `displayed_salary` recomputed from the
      instance's own euro salary and commission. */
  function Hook(d: Draft): (r: Salary)
    ensures Consistent(r)
    ensures r.id == d.id && r.name == d.name && r.email == d.email
    ensures r.salaryLocal == d.salaryLocal && r.salaryEuros == d.salaryEuros && r.commission == d.commission
  {
    Salary(d.id, d.name, d.email, d.salaryLocal, d.salaryEuros, d.commission, d.salaryEuros + d.commission)
  }

  /** The attributes of a record loaded from the table. */
  function Loaded(r: Salary): (d: Draft)
    ensures Hook(d) == r <==> Consistent(r)
  {
    Draft(r.id, r.name, r.email, r.salaryLocal, r.salaryEuros, r.commission, Cents(r.displayedSalary))
  }

  /** A value the decimal cast refuses: a string that is not numeric. */
  predicate CastRefuses(p: Primitives, v: Value) {
    v.Text? && p.parseNumeric(v.s).None?
  }

  /** A supplied value of a `decimal:2` attribute, as the change check casts it. */
  function DecimalOf(p: Primitives, v: Value): (r: Decimal)
    ensures r.Uncastable? <==> CastRefuses(p, v)
    ensures r.NoDecimal? <==> v.Null?
    ensures NumericCents(p, v).Some? ==> r == Cents(NumericCents(p, v).value)
  {
    match v
    case Null => NoDecimal
    case Bool(b) => Cents(if b then 100 else 0)
    case Number(c) => Cents(c)
    case Text(s) => if p.parseNumeric(s).Some? then Cents(p.parseNumeric(s).value) else Uncastable
  }

  /** `save()` on an existing record. The change check runs first and throws
      (None) on a displayed_salary the decimal cast refuses, before anything
      is written. When no attribute differs from what was loaded, nothing is
      written and the `updating` hook does not run; otherwise the hook runs
      and its result is written. */
  function Save(original: Salary, d: Draft): (r: Option<Salary>)
    ensures r.None? <==> d.displayedSalary.Uncastable?
    ensures r.Some? ==> r.value.id == d.id
    ensures Consistent(original) && r.Some? ==> r.value == Hook(d)
  {
    if d.displayedSalary.Uncastable? then None
    else if d == Loaded(original) then Some(original)
    else Some(Hook(d))
  }

  /** The values `store` passes to `updateOrCreate` besides the email. */
  datatype Values = Values(name: string, salaryLocal: int, salaryEuros: int, commission: int)

  /** `fill($values)` on a loaded record: every key of the values array is fillable. */
  function FillValues(original: Salary, v: Values): (d: Draft)
    ensures d.id == original.id && d.email == original.email
    ensures !d.displayedSalary.Uncastable?
    ensures d == Loaded(original) <==>
      v == Values(original.name, original.salaryLocal, original.salaryEuros, original.commission)
  {
    Draft(original.id, v.name, original.email, v.salaryLocal, v.salaryEuros, v.commission,
          Cents(original.displayedSalary))
  }

  /** A new instance built from the lookup attributes and the values, before
      the `creating` hook; `id` is what the insert assigns. */
  function NewDraft(id: int, email: Value, v: Values): (d: Draft)
    ensures d.displayedSalary.NoDecimal?
  {
    Draft(id, v.name, email, v.salaryLocal, v.salaryEuros, v.commission, NoDecimal)
  }

  /** A request whose typed attributes can be assigned: a supplied name is
      text and a supplied money attribute is numeric. The update rules
      guarantee this for every request they accept. */
  predicate Assignable(p: Primitives, req: Request) {
    && (Key(Name) in req ==> req[Key(Name)].Text?)
    && (Key(SalaryLocal) in req ==> NumericCents(p, req[Key(SalaryLocal)]).Some?)
    && (Key(SalaryEuros) in req ==> NumericCents(p, req[Key(SalaryEuros)]).Some?)
    && (Key(Commission) in req ==> NumericCents(p, req[Key(Commission)]).Some?)
  }

  /** The new value of a money attribute: the supplied one when the key is present. */
  function AmountOr(p: Primitives, req: Request, f: Field, current: int): int
    requires Key(f) in req ==> NumericCents(p, req[Key(f)]).Some?
  {
    if Key(f) in req then NumericCents(p, req[Key(f)]).value else current
  }

  /** The request supplies a displayed_salary the decimal cast refuses. */
  predicate RefusedDisplayedSalary(p: Primitives, req: Request) {
    Key(DisplayedSalary) in req && CastRefuses(p, req[Key(DisplayedSalary)])
  }

  /** `fill($request->all())` on a loaded record: each fillable key present in
      the request is assigned, every other key is silently discarded. */
  function Fill(p: Primitives, original: Salary, req: Request): (d: Draft)
    requires Assignable(p, req)
    ensures d.id == original.id
    ensures Key(Name) in req ==> Text(d.name) == req[Key(Name)]
    ensures Key(Email) in req ==> d.email == req[Key(Email)]
    ensures Key(SalaryLocal) in req ==> NumericCents(p, req[Key(SalaryLocal)]) == Some(d.salaryLocal)
    ensures Key(SalaryEuros) in req ==> NumericCents(p, req[Key(SalaryEuros)]) == Some(d.salaryEuros)
    ensures Key(Commission) in req ==> NumericCents(p, req[Key(Commission)]) == Some(d.commission)
    ensures req.Keys !! Fillable ==> d == Loaded(original)
    ensures d.displayedSalary.Uncastable? <==> RefusedDisplayedSalary(p, req)
  {
    Draft(
      original.id,
      if Key(Name) in req then req[Key(Name)].s else original.name,
      if Key(Email) in req then req[Key(Email)] else original.email,
      AmountOr(p, req, SalaryLocal, original.salaryLocal),
      AmountOr(p, req, SalaryEuros, original.salaryEuros),
      AmountOr(p, req, Commission, original.commission),
      if Key(DisplayedSalary) in req then DecimalOf(p, req[Key(DisplayedSalary)])
      else Cents(original.displayedSalary))
  }

  /** Mass assignment only ever reads fillable keys: adding or changing any
      other key, `id` included, leaves the filled attributes as they were. */
  lemma FillIgnoresUnfillable(p: Primitives, original: Salary, req: Request, k: string, v: Value)
    requires Assignable(p, req) && k !in Fillable
    ensures Assignable(p, req[k := v])
    ensures Fill(p, original, req[k := v]) == Fill(p, original, req)
  {
  }

  /** A supplied `displayed_salary` never reaches the table: a value the
      decimal cast refuses makes the save throw, and any other value saves to
      the same record as no displayed_salary at all. */
  lemma SuppliedDisplayedSalaryOverwritten(p: Primitives, original: Salary, req: Request, v: Value)
    requires Consistent(original) && Assignable(p, req)
    ensures Assignable(p, req[Key(DisplayedSalary) := v])
    ensures Save(original, Fill(p, original, req[Key(DisplayedSalary) := v])).None? <==> CastRefuses(p, v)
    ensures !CastRefuses(p, v) ==>
      Save(original, Fill(p, original, req[Key(DisplayedSalary) := v]))
      == Save(original, Fill(p, original, req - {Key(DisplayedSalary)}))
  {
  }
}
