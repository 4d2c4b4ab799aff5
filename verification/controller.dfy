/** `SalaryController`: the five actions behind the `/salary` routes, each a
    step from a table to a table and a response. Route model binding
    resolves `{salary}` by id before an action runs, so `show`, `update` and
    `destroy` answer 404 for a missing id whatever the request holds. */
module SalaryController {
  import opened Requests
  import opened Validation
  import opened SalaryModel
  import opened SalaryTable

  datatype Response =
    | Ok(record: Salary)                 // 200 with the record
    | Created(record: Salary)            // 201 with the record
    | Listing(records: seq<Salary>)      // 200 with every record
    | NoContent                          // 204, empty body
    | Unprocessable(errors: set<Field>)  // 422 with the rejected fields
    | NotFound                           // 404 from route model binding
    | ServerError                        // 500 from an exception the action does not catch

  function Status(r: Response): int {
    match r
    case Ok(_) => 200
    case Created(_) => 201
    case Listing(_) => 200
    case NoContent => 204
    case Unprocessable(_) => 422
    case NotFound => 404
    case ServerError => 500
  }

  datatype Step = Step(table: Table, response: Response)

  /** The commission `store` writes: 500.00, in cents. */
  const DefaultCommission: int := 50000

  /** Every required field of `store` is present and acceptable. */
  predicate StoreAcceptable(p: Primitives, req: Request) {
    forall f :: f in StoreFields ==> Get(req, f).Some? && Acceptable(p, f, Get(req, f).value)
  }

  lemma StoreErrorsEmpty(p: Primitives, req: Request)
    ensures StoreErrors(p, req) == {} <==> StoreAcceptable(p, req)
  {
    forall f {
      StoreErrorsExactly(p, req, f);
    }
  }

  /** The values array `store` hands to `updateOrCreate`. */
  function StoreValues(p: Primitives, req: Request): (v: Values)
    requires StoreAcceptable(p, req)
    ensures v.commission == DefaultCommission
    ensures Text(v.name) == req[Key(Name)]
    ensures NumericCents(p, req[Key(SalaryLocal)]) == Some(v.salaryLocal) && v.salaryLocal >= 0
    ensures NumericCents(p, req[Key(SalaryEuros)]) == Some(v.salaryEuros) && v.salaryEuros >= 0
  {
    assert Acceptable(p, Name, Get(req, Name).value);
    assert Acceptable(p, SalaryLocal, Get(req, SalaryLocal).value);
    assert Acceptable(p, SalaryEuros, Get(req, SalaryEuros).value);
    Values(
      req[Key(Name)].s,
      NumericCents(p, req[Key(SalaryLocal)]).value,
      NumericCents(p, req[Key(SalaryEuros)]).value,
      DefaultCommission)
  }

  /** `index`: every record, each once, the table unchanged. */
  method Index(t: Table) returns (r: Step)
    requires Valid(t)
    ensures r.table == t && r.response.Listing? && Status(r.response) == 200
    ensures forall i :: 0 <= i < |r.response.records| ==>
              r.response.records[i].id in t.rows && t.rows[r.response.records[i].id] == r.response.records[i]
    ensures forall i, j :: 0 <= i < j < |r.response.records| ==> r.response.records[i] != r.response.records[j]
    ensures forall id :: id in t.rows ==> t.rows[id] in r.response.records
  {
    var rs := All(t);
    forall id | id in t.rows
      ensures t.rows[id] in rs
    {
      var i :| 0 <= i < |rs| && rs[i].id == id;
      assert rs[i] == t.rows[id];
    }
    r := Step(t, Listing(rs));
  }

  /** `store`: validate, then upsert keyed on the email. */
  function Store(p: Primitives, t: Table, req: Request): (r: Step)
    ensures r.response.Unprocessable? <==> StoreErrors(p, req) != {}
    ensures r.response.Unprocessable? ==> r.table == t && r.response.errors == StoreErrors(p, req)
    ensures !r.response.Unprocessable? ==> r.response.Created? && Status(r.response) == 201
    ensures Valid(t) ==> Valid(r.table)
  {
    var errs := StoreErrors(p, req);
    if errs != {} then Step(t, Unprocessable(errs))
    else
      StoreErrorsEmpty(p, req);
      var (t', saved) := UpdateOrCreate(t, req[Key(Email)], StoreValues(p, req));
      Step(t', Created(saved))
  }

  /** `show`: the record with that id. */
  function Show(t: Table, id: int): (r: Step)
    ensures r.table == t
    ensures id in t.rows <==> r.response.Ok?
    ensures id in t.rows ==> r.response.record == t.rows[id]
    ensures id !in t.rows <==> r.response == NotFound
  {
    if id in t.rows then Step(t, Ok(t.rows[id])) else Step(t, NotFound)
  }

  /** Every request the update rules accept can be mass-assigned. */
  lemma UpdateAcceptedIsAssignable(p: Primitives, req: Request)
    requires UpdateErrors(p, req) == {}
    ensures Assignable(p, req)
  {
    UpdateErrorsExactly(p, req, Name);
    UpdateErrorsExactly(p, req, SalaryLocal);
    UpdateErrorsExactly(p, req, SalaryEuros);
    UpdateErrorsExactly(p, req, Commission);
  }

  /** `update`: validate the supplied fields, then fill the whole request and
      save. A displayed_salary the decimal cast refuses makes the save throw,
      which the framework answers with 500. */
  function Update(p: Primitives, t: Table, id: int, req: Request): (r: Step)
    ensures id !in t.rows ==> r == Step(t, NotFound)
    ensures id in t.rows ==> (r.response.Unprocessable? <==> UpdateErrors(p, req) != {})
    ensures r.response.Unprocessable? ==> r.table == t && r.response.errors == UpdateErrors(p, req)
    ensures r.response.ServerError? <==>
              id in t.rows && UpdateErrors(p, req) == {} && RefusedDisplayedSalary(p, req)
    ensures r.response.ServerError? ==> r.table == t
    ensures id in t.rows && !r.response.Unprocessable? && !r.response.ServerError? ==> r.response.Ok?
    ensures Valid(t) ==> Valid(r.table)
  {
    if id !in t.rows then Step(t, NotFound)
    else
      var errs := UpdateErrors(p, req);
      if errs != {} then Step(t, Unprocessable(errs))
      else
        UpdateAcceptedIsAssignable(p, req);
        match Save(t.rows[id], Fill(p, t.rows[id], req))
        case None => Step(t, ServerError)
        case Some(saved) => Step(Table(t.rows[id := saved], t.nextId), Ok(saved))
  }

  /** `destroy`: remove the record with that id. */
  function Destroy(t: Table, id: int): (r: Step)
    ensures id !in t.rows ==> r == Step(t, NotFound)
    ensures id in t.rows ==> r.response == NoContent && Status(r.response) == 204
    ensures id in t.rows ==> r.table.rows.Keys == t.rows.Keys - {id} && r.table.nextId == t.nextId
    ensures forall j :: j in r.table.rows ==> j in t.rows && r.table.rows[j] == t.rows[j]
    ensures Valid(t) ==> Valid(r.table)
  {
    if id !in t.rows then Step(t, NotFound) else Step(Delete(t, id), NoContent)
  }
}
