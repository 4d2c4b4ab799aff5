/** Request input as the salary controller reads it through `$request->all()`:
    a map from attribute name to a decoded JSON value.

    Every monetary quantity in this project is an integer number of cents:
    the four money columns are cast to `decimal:2`, so cents represent them
    exactly and a sum of two of them needs no rounding. */
module Requests {

  datatype Option<+T> = None | Some(value: T)

  /** A decoded input value. Decimal numbers arrive as integer cents;
      JSON arrays and objects are not part of the model. */
  datatype Value = Null | Bool(b: bool) | Number(cents: int) | Text(s: string)

  type Request = map<string, Value>

  /** Library routines the validator relies on and whose code is not part of
      the model: the address check behind the `email` rule, and PHP's
      `is_numeric` on a string together with that string's value in cents. */
  datatype Primitives = Primitives(isEmail: string -> bool, parseNumeric: string -> Option<int>)

  /** The attributes of a salary record that requests and rules refer to;
      these are exactly the model's fillable attributes. */
  datatype Field = Name | Email | SalaryLocal | SalaryEuros | Commission | DisplayedSalary

  /** The attribute name of a field, as it appears in request bodies. */
  function Key(f: Field): string {
    match f
    case Name => "name"
    case Email => "email"
    case SalaryLocal => "salary_local"
    case SalaryEuros => "salary_euros"
    case Commission => "commission"
    case DisplayedSalary => "displayed_salary"
  }

  /** The value a request supplies for a field, if the key is present. */
  function Get(req: Request, f: Field): (r: Option<Value>)
    ensures r.Some? <==> Key(f) in req
    ensures r.Some? ==> r.value == req[Key(f)]
  {
    if Key(f) in req then Some(req[Key(f)]) else None
  }

  /** The characters PHP's `trim` strips by default. */
  predicate Trimmable(c: char) {
    c == ' ' || c == '\t' || c == '\n' || c == '\r' || c == '\0' || c == '\U{B}'
  }

  /** `trim($s) === ''`: the string is empty once trimmed. */
  predicate Blank(s: string) {
    forall i :: 0 <= i < |s| ==> Trimmable(s[i])
  }

  /** The value in cents of an input that `is_numeric` accepts. */
  function NumericCents(p: Primitives, v: Value): (r: Option<int>)
    ensures v.Number? ==> r == Some(v.cents)
    ensures v.Null? || v.Bool? ==> r.None?
  {
    match v
    case Number(c) => Some(c)
    case Text(s) => p.parseNumeric(s)
    case _ => None
  }
}
