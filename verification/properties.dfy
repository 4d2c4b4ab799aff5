/** What the salary actions promise, stated over whole requests and tables:
    the rejection cases of `store`, the two branches of its upsert, its
    idempotence, the frame of `update`, and the inputs mass assignment
    cannot reach. */
module SalaryProperties {
  import opened Requests
  import opened Validation
  import opened SalaryModel
  import opened SalaryTable
  import opened SalaryController

  /** The record carries the request's name, local salary and euro salary. */
  predicate Carries(p: Primitives, req: Request, rec: Salary) {
    && Get(req, Name) == Some(Text(rec.name))
    && Get(req, SalaryLocal).Some? && NumericCents(p, Get(req, SalaryLocal).value) == Some(rec.salaryLocal)
    && Get(req, SalaryEuros).Some? && NumericCents(p, Get(req, SalaryEuros).value) == Some(rec.salaryEuros)
  }

  /** One of the inputs `store` must turn away: a missing or over-long name
      or email, or a missing, non-numeric or negative salary. */
  predicate BadStoreInput(p: Primitives, req: Request) {
    || Key(Name) !in req
    || (req[Key(Name)].Text? && |req[Key(Name)].s| > MaxLength)
    || Key(Email) !in req
    || (req[Key(Email)].Text? && |req[Key(Email)].s| > MaxLength)
    || Key(SalaryLocal) !in req
    || NumericCents(p, req[Key(SalaryLocal)]).None?
    || NumericCents(p, req[Key(SalaryLocal)]).value < 0
    || Key(SalaryEuros) !in req
    || NumericCents(p, req[Key(SalaryEuros)]).None?
    || NumericCents(p, req[Key(SalaryEuros)]).value < 0
  }

  /** What an accepted `store` request holds, field by field. */
  lemma StoreAcceptedFields(p: Primitives, req: Request)
    requires StoreAcceptable(p, req)
    ensures Key(Name) in req && NameAcceptable(req[Key(Name)])
    ensures Key(Email) in req && EmailAcceptable(p, req[Key(Email)])
    ensures Key(SalaryLocal) in req && AmountAcceptable(p, req[Key(SalaryLocal)])
    ensures Key(SalaryEuros) in req && AmountAcceptable(p, req[Key(SalaryEuros)])
  {
  }

  /** `store` answers 422 and leaves the table alone on every bad input. */
  lemma StoreRejectsBadInput(p: Primitives, t: Table, req: Request)
    requires BadStoreInput(p, req)
    ensures Store(p, t, req).table == t
    ensures Store(p, t, req).response.Unprocessable?
    ensures Status(Store(p, t, req).response) == 422
  {
    StoreErrorsEmpty(p, req);
    if StoreAcceptable(p, req) {
      StoreAcceptedFields(p, req);
      assert false;
    }
  }

  /** Zero is an accepted salary: a well-formed name and email with both
      salaries zero is stored, with the displayed salary equal to the
      commission alone. */
  lemma StoreAcceptsZeroSalaries(p: Primitives, t: Table, req: Request)
    requires Key(Name) in req && NameAcceptable(req[Key(Name)])
    requires Key(Email) in req && EmailAcceptable(p, req[Key(Email)])
    requires Key(SalaryLocal) in req && req[Key(SalaryLocal)] == Number(0)
    requires Key(SalaryEuros) in req && req[Key(SalaryEuros)] == Number(0)
    requires Valid(t)
    ensures Store(p, t, req).response.Created?
    ensures Store(p, t, req).response.record.salaryLocal == 0
    ensures Store(p, t, req).response.record.salaryEuros == 0
    ensures Store(p, t, req).response.record.displayedSalary == DefaultCommission
  {
  }

  /** `store` with an email no record has adds exactly one record, under a
      fresh id, with commission 500.00 and displayed salary euros + 500.00. */
  lemma StoreNewEmail(p: Primitives, t: Table, req: Request)
    requires Valid(t) && StoreErrors(p, req) == {}
    requires forall id :: id in t.rows ==> Get(req, Email) != Some(t.rows[id].email)
    ensures var r := Store(p, t, req);
      && r.response.Created?
      && var rec := r.response.record;
      && t.nextId !in t.rows
      && rec.id == t.nextId
      && r.table == Table(t.rows[t.nextId := rec], t.nextId + 1)
      && |r.table.rows| == |t.rows| + 1
      && Get(req, Email) == Some(rec.email)
      && Carries(p, req, rec)
      && rec.commission == DefaultCommission
      && rec.displayedSalary == rec.salaryEuros + DefaultCommission
  {
    StoreErrorsEmpty(p, req);
    var e := req[Key(Email)];
    assert Get(req, Email) == Some(e);
    assert FirstWithEmail(t, e).None?;
  }

  /** `store` with an email the table already has rewrites the first record
      with that email in place: same id, same set of ids, its name and
      salaries from the request, commission reset to 500.00, displayed
      salary recomputed, every other record untouched. */
  lemma StoreExistingEmail(p: Primitives, t: Table, req: Request, id: int)
    requires Valid(t) && StoreErrors(p, req) == {}
    requires id in t.rows && Get(req, Email) == Some(t.rows[id].email)
    requires forall j :: j in t.rows && j < id ==> Get(req, Email) != Some(t.rows[j].email)
    ensures var r := Store(p, t, req);
      && r.table.nextId == t.nextId
      && r.table.rows.Keys == t.rows.Keys
      && r.response == Created(r.table.rows[id])
      && var rec := r.table.rows[id];
      && rec.id == id
      && rec.email == t.rows[id].email
      && Carries(p, req, rec)
      && rec.commission == DefaultCommission
      && rec.displayedSalary == rec.salaryEuros + DefaultCommission
      && forall j :: j in t.rows && j != id ==> r.table.rows[j] == t.rows[j]
  {
    StoreErrorsEmpty(p, req);
    var e := req[Key(Email)];
    assert Get(req, Email) == Some(e);
    var first := FirstWithEmail(t, e);
    assert first == Some(id);
    assert Consistent(t.rows[id]);
  }

  /** Repeating a `store` request changes nothing more: the second call finds
      the record the first one wrote and saves it unchanged. */
  lemma StoreIdempotent(p: Primitives, t: Table, req: Request)
    requires Valid(t)
    ensures Store(p, Store(p, t, req).table, req) == Store(p, t, req)
  {
  }

  /** `store` never creates a second record with the same email. */
  lemma StoreKeepsEmailsUnique(p: Primitives, t: Table, req: Request)
    requires Valid(t) && EmailsUnique(t)
    ensures EmailsUnique(Store(p, t, req).table)
  {
  }

  /** An accepted `update` writes each supplied fillable attribute, keeps every
      other attribute, the id and every other record, and recomputes the
      displayed salary from the resulting euro salary and commission. */
  lemma UpdateWrites(p: Primitives, t: Table, id: int, req: Request)
    requires Valid(t) && id in t.rows && UpdateErrors(p, req) == {}
    ensures RefusedDisplayedSalary(p, req) ==> Update(p, t, id, req) == Step(t, ServerError)
    ensures var r := Update(p, t, id, req);
      !RefusedDisplayedSalary(p, req) ==>
      && r.table.nextId == t.nextId
      && r.table.rows.Keys == t.rows.Keys
      && (forall j :: j in t.rows && j != id ==> r.table.rows[j] == t.rows[j])
      && r.response == Ok(r.table.rows[id])
      && var before, rec := t.rows[id], r.table.rows[id];
      && rec.id == id
      && (Key(Name) in req ==> req[Key(Name)] == Text(rec.name))
      && (Key(Name) !in req ==> rec.name == before.name)
      && (Key(Email) in req ==> rec.email == req[Key(Email)])
      && (Key(Email) !in req ==> rec.email == before.email)
      && (Key(SalaryLocal) in req ==> NumericCents(p, req[Key(SalaryLocal)]) == Some(rec.salaryLocal))
      && (Key(SalaryLocal) !in req ==> rec.salaryLocal == before.salaryLocal)
      && (Key(SalaryEuros) in req ==> NumericCents(p, req[Key(SalaryEuros)]) == Some(rec.salaryEuros))
      && (Key(SalaryEuros) !in req ==> rec.salaryEuros == before.salaryEuros)
      && (Key(Commission) in req ==> NumericCents(p, req[Key(Commission)]) == Some(rec.commission))
      && (Key(Commission) !in req ==> rec.commission == before.commission)
      && rec.displayedSalary == rec.salaryEuros + rec.commission
  {
  }

  /** The update rules read only name, salary_local, salary_euros and
      commission, so a key outside them changes no verdict. */
  lemma UpdateErrorsIgnore(p: Primitives, req: Request, k: string, v: Value)
    requires k != Key(Name) && k != Key(SalaryLocal) && k != Key(SalaryEuros) && k != Key(Commission)
    ensures UpdateErrors(p, req[k := v]) == UpdateErrors(p, req)
    ensures UpdateErrors(p, req - {k}) == UpdateErrors(p, req)
  {
    forall f
      ensures f in UpdateErrors(p, req[k := v]) <==> f in UpdateErrors(p, req)
      ensures f in UpdateErrors(p, req - {k}) <==> f in UpdateErrors(p, req)
    {
      UpdateErrorsExactly(p, req, f);
      UpdateErrorsExactly(p, req[k := v], f);
      UpdateErrorsExactly(p, req - {k}, f);
    }
  }

  /** Keys outside the fillable set, `id` among them, have no effect on `update`. */
  lemma UpdateIgnoresUnfillable(p: Primitives, t: Table, id: int, req: Request, k: string, v: Value)
    requires k !in Fillable
    ensures Update(p, t, id, req[k := v]) == Update(p, t, id, req)
  {
    UpdateErrorsIgnore(p, req, k, v);
    if id in t.rows && UpdateErrors(p, req) == {} {
      UpdateAcceptedIsAssignable(p, req);
      FillIgnoresUnfillable(p, t.rows[id], req, k, v);
    }
  }

  /** A caller-supplied displayed salary never survives an `update`: a value
      the decimal cast accepts, or null, gives the outcome of the same request
      without it; a non-numeric string leaves the table alone. */
  lemma UpdateIgnoresDisplayedSalary(p: Primitives, t: Table, id: int, req: Request, v: Value)
    requires Valid(t)
    ensures !CastRefuses(p, v) ==>
      Update(p, t, id, req[Key(DisplayedSalary) := v]) == Update(p, t, id, req - {Key(DisplayedSalary)})
    ensures CastRefuses(p, v) ==> Update(p, t, id, req[Key(DisplayedSalary) := v]).table == t
  {
    UpdateErrorsIgnore(p, req, Key(DisplayedSalary), v);
    if id in t.rows && UpdateErrors(p, req) == {} {
      UpdateAcceptedIsAssignable(p, req);
      SuppliedDisplayedSalaryOverwritten(p, t.rows[id], req, v);
    }
  }

  /** An `update` with an empty body saves nothing: the record is returned as stored. */
  lemma UpdateWithNothingChangesNothing(p: Primitives, t: Table, id: int)
    requires Valid(t) && id in t.rows
    ensures Update(p, t, id, map[]) == Step(t, Ok(t.rows[id]))
  {
  }

  /** `update` does not check `email`, so it can give a record the email of
      another one: two records with distinct emails, then a body holding only
      the first one's email sent to the second, whatever the address check. */
  lemma UpdateCanDuplicateEmail(p: Primitives)
    ensures var t := Table(map[
              1 := Salary(1, "Ana", Text("a@x.com"), 100000, 90000, 50000, 140000),
              2 := Salary(2, "Bo", Text("b@x.com"), 200000, 180000, 50000, 230000)], 3);
      && Valid(t) && EmailsUnique(t)
      && Update(p, t, 2, map[Key(Email) := Text("a@x.com")]).response.Ok?
      && !EmailsUnique(Update(p, t, 2, map[Key(Email) := Text("a@x.com")]).table)
  {
    var t := Table(map[
              1 := Salary(1, "Ana", Text("a@x.com"), 100000, 90000, 50000, 140000),
              2 := Salary(2, "Bo", Text("b@x.com"), 200000, 180000, 50000, 230000)], 3);
    var req := map[Key(Email) := Text("a@x.com")];
    UpdateErrorsIgnore(p, map[], Key(Email), Text("a@x.com"));
    UpdateWithNothingChangesNothing(p, t, 2);
    UpdateWrites(p, t, 2, req);
    var r := Update(p, t, 2, req);
    assert r.table.rows[1].email == r.table.rows[2].email;
  }

  /** The request body of the worked example's POST. */
  function AnaPost(): Request {
    map[Key(Name) := Text("Ana"), Key(Email) := Text("a@x.com"),
        Key(SalaryLocal) := Number(100000), Key(SalaryEuros) := Number(90000)]
  }

  /** The POST of the worked example, on an empty table: Ana is stored under
      id 1 with commission 500.00 and displayed salary 1400.00. */
  lemma AnaStored(p: Primitives)
    requires p.isEmail("a@x.com")
    ensures var ana := Salary(1, "Ana", Text("a@x.com"), 100000, 90000, 50000, 140000);
      Store(p, Empty(), AnaPost()) == Step(Table(map[1 := ana], 2), Created(ana))
  {
    var post := AnaPost();
    assert !Blank("Ana") by { assert !Trimmable("Ana"[0]); }
    assert !Blank("a@x.com") by { assert !Trimmable("a@x.com"[0]); }
    assert Get(post, Name) == Some(Text("Ana"));
    assert Get(post, Email) == Some(Text("a@x.com"));
    assert Get(post, SalaryLocal) == Some(Number(100000));
    assert Get(post, SalaryEuros) == Some(Number(90000));
    assert StoreAcceptable(p, post);
    StoreErrorsEmpty(p, post);
    StoreNewEmail(p, Empty(), post);
  }

  /** A worked example: posting Ana with salaries 1000 and 900 yields
      commission 500.00 and displayed salary 1400.00; then putting commission
      800 yields displayed salary 1700.00 with the other fields unchanged. */
  lemma AnaScenario(p: Primitives)
    requires p.isEmail("a@x.com")
    ensures var r1 := Store(p, Empty(), AnaPost());
      var r2 := Update(p, r1.table, 1, map[Key(Commission) := Number(80000)]);
      && r1.response == Created(Salary(1, "Ana", Text("a@x.com"), 100000, 90000, 50000, 140000))
      && r2.response == Ok(Salary(1, "Ana", Text("a@x.com"), 100000, 90000, 80000, 170000))
  {
    AnaStored(p);
    var t := Table(map[1 := Salary(1, "Ana", Text("a@x.com"), 100000, 90000, 50000, 140000)], 2);
    var put := map[Key(Commission) := Number(80000)];
    forall f
      ensures f !in UpdateErrors(p, put)
    {
      UpdateErrorsExactly(p, put, f);
    }
    UpdateWrites(p, t, 1, put);
  }

  /** A stored record can be shown right away, under the id `store` returned. */
  lemma ShowAfterStore(p: Primitives, t: Table, req: Request)
    requires Valid(t) && StoreErrors(p, req) == {}
    ensures var r := Store(p, t, req);
      Show(r.table, r.response.record.id) == Step(r.table, Ok(r.response.record))
  {
  }

  /** After `destroy`, the same id is gone: `show` answers 404 and a second
      `destroy` changes nothing. */
  lemma ShowAfterDestroy(t: Table, id: int)
    ensures Show(Destroy(t, id).table, id) == Step(Destroy(t, id).table, NotFound)
    ensures Destroy(Destroy(t, id).table, id) == Step(Destroy(t, id).table, NotFound)
  {
  }
}
