/** The `salaries` table as Eloquent reaches it: rows keyed by their
    auto-increment id, the next id the table will assign, and the queries
    the controller uses (`all`, route binding by id, `updateOrCreate`
    keyed on email, `delete`). */
module SalaryTable {
  import opened Requests
  import opened SalaryModel

  datatype Table = Table(rows: map<int, Salary>, nextId: int)

  /** The invariant of every reachable table: ids are positive, below the
      counter, agree with their row, and every row satisfies the
      derived-field invariant. Email uniqueness is deliberately not part of
      it, because `update` can break it. */
  ghost predicate Valid(t: Table) {
    && t.nextId >= 1
    && forall id :: id in t.rows ==> 1 <= id < t.nextId && t.rows[id].id == id && Consistent(t.rows[id])
  }

  /** No two rows share an email. */
  ghost predicate EmailsUnique(t: Table) {
    forall i, j :: i in t.rows && j in t.rows && i != j ==> t.rows[i].email != t.rows[j].email
  }

  function Empty(): (t: Table)
    ensures Valid(t) && EmailsUnique(t) && t.rows == map[]
  {
    Table(map[], 1)
  }

  /** The lowest id at or above k, and below bound, whose row has the email. */
  function FirstFrom(rows: map<int, Salary>, email: Value, k: int, bound: int): (r: Option<int>)
    decreases bound - k
    ensures r.Some? ==> k <= r.value < bound && r.value in rows && rows[r.value].email == email
    ensures r.Some? ==> forall j :: k <= j < r.value && j in rows ==> rows[j].email != email
    ensures r.None? ==> forall j :: k <= j < bound && j in rows ==> rows[j].email != email
  {
    if k >= bound then None
    else if k in rows && rows[k].email == email then Some(k)
    else FirstFrom(rows, email, k + 1, bound)
  }

  /** `where('email', $email)->first()`: the row with that email, the one with
      the lowest id when several share it. */
  function FirstWithEmail(t: Table, email: Value): (r: Option<int>)
    ensures r.Some? ==> r.value in t.rows && t.rows[r.value].email == email
    ensures Valid(t) && r.Some? ==> forall j :: j in t.rows && j < r.value ==> t.rows[j].email != email
    ensures Valid(t) && r.None? ==> forall j :: j in t.rows ==> t.rows[j].email != email
  {
    FirstFrom(t.rows, email, 1, t.nextId)
  }

  /** `updateOrCreate(['email' => $email], $values)`: fill and save the row
      found by email, or insert a new row under the next id. Returns the
      table and the record as saved. */
  function UpdateOrCreate(t: Table, email: Value, v: Values): (r: (Table, Salary))
    ensures Valid(t) ==> r.1.id in r.0.rows && r.0.rows[r.1.id] == r.1
    ensures Valid(t) ==> r.0.rows.Keys == t.rows.Keys + {r.1.id}
    ensures Valid(t) ==> forall j :: j in t.rows && j != r.1.id ==> r.0.rows[j] == t.rows[j]
    ensures r.1.email == email && r.1.name == v.name
    ensures r.1.salaryLocal == v.salaryLocal && r.1.salaryEuros == v.salaryEuros && r.1.commission == v.commission
    ensures Valid(t) ==> Valid(r.0)
    ensures Valid(t) ==> (r.1.id in t.rows <==> exists j :: j in t.rows && t.rows[j].email == email)
    ensures Valid(t) && r.1.id in t.rows ==>
              r.0.nextId == t.nextId && forall j :: j in t.rows && j < r.1.id ==> t.rows[j].email != email
    ensures Valid(t) && r.1.id !in t.rows ==> r.1.id == t.nextId && r.0.nextId == t.nextId + 1
  {
    match FirstWithEmail(t, email)
    case Some(id) =>
      var saved := Save(t.rows[id], FillValues(t.rows[id], v)).value;
      (Table(t.rows[id := saved], t.nextId), saved)
    case None =>
      var created := Hook(NewDraft(t.nextId, email, v));
      (Table(t.rows[t.nextId := created], t.nextId + 1), created)
  }

  /** `$salary->delete()`. */
  function Delete(t: Table, id: int): (r: Table)
    ensures r.rows.Keys == t.rows.Keys - {id}
    ensures forall j :: j in r.rows ==> r.rows[j] == t.rows[j]
    ensures r.nextId == t.nextId
  {
    Table(t.rows - {id}, t.nextId)
  }

  /** `Salary::all()`: every row, in ascending id order. */
  method All(t: Table) returns (rs: seq<Salary>)
    requires Valid(t)
    ensures forall i :: 0 <= i < |rs| ==> rs[i].id in t.rows && t.rows[rs[i].id] == rs[i]
    ensures forall i, j :: 0 <= i < j < |rs| ==> rs[i].id < rs[j].id
    ensures forall id :: id in t.rows ==> exists i :: 0 <= i < |rs| && rs[i].id == id
  {
    rs := [];
    var k := 1;
    while k < t.nextId
      invariant 1 <= k <= t.nextId
      invariant forall i :: 0 <= i < |rs| ==> rs[i].id in t.rows && t.rows[rs[i].id] == rs[i] && rs[i].id < k
      invariant forall i, j :: 0 <= i < j < |rs| ==> rs[i].id < rs[j].id
      invariant forall id :: id in t.rows && id < k ==> exists i :: 0 <= i < |rs| && rs[i].id == id
    {
      if k in t.rows {
        ghost var before := rs;
        rs := rs + [t.rows[k]];
        assert forall i :: 0 <= i < |before| ==> rs[i] == before[i];
        assert rs[|rs| - 1].id == k;
      }
      k := k + 1;
    }
  }
}
