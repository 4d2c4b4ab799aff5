# Salary record store — a Dafny model

This project models the backend of a small salary-tracking application: the
`Salary` Eloquent model and the `SalaryController` behind the `/salary`
routes. A salary record has a name, an email, a local salary, a euro salary,
a commission and a derived `displayed_salary`. The model `creating` and
`updating` hooks keep `displayed_salary == salary_euros + commission`. The
controller offers five actions:

- `index` lists every record;
- `store` validates its input, then upserts keyed on email with the
  commission set to 500.00;
- `show` returns one record by id;
- `update` validates the supplied fields, then mass-assigns the whole request;
- `destroy` deletes one record by id.

Everything is pure and functional. Money is in integer cents, because the
four money columns are `decimal:2`. The table is a map from id to record plus
the next auto-increment id. Each action is a function from a table and a
request to a `Step`: the resulting table and a `Response`, which is one of
200 / 201 / 204 / 422 / 404 / 500. The 500 is the one exception the code can
reach: `save()` compares each `decimal:2` attribute with the loaded one after
casting both, and the cast throws on a `displayed_salary` that is a
non-numeric string, before anything is written.

Modules, one file each:

- `Requests` (`requests.dfy`): input values (null, boolean, number in cents,
  text), the request map, the field names. It also holds `Primitives`, the two
  library routines the validator uses: the email address check and PHP's
  `is_numeric` on strings. The model takes both as parameters.
- `Validation` (`validation.dfy`): the rule strings of `store` and `update` as
  rule lists. It interprets them the way Laravel's validator decides which
  rule runs: `sometimes` skips an absent key; `required` always runs; every
  other rule runs only on a present, non-blank value. It also states each
  field's rules directly and proves the two descriptions agree.
- `SalaryModel` (`salary.dfy`): the record, the fillable set, mass assignment
  (`fill`), the hooks, and `save()`. `save()` writes nothing, and runs no
  hook, when no attribute changed; it throws when the decimal cast refuses
  `displayed_salary`.
- `SalaryTable` (`table.dfy`): the table, its invariant, and the queries.
  These are `all`, the lookup used by `updateOrCreate` (lowest id first),
  `updateOrCreate` itself, and `delete`.
- `SalaryController` (`controller.dfy`): the five actions. Route model
  binding runs before an action, so a missing id gives 404 whatever the body.
- `SalaryProperties` (`properties.dfy`): properties that span whole requests
  and tables.

Two behaviours of the code shape the properties below:

- `store` on an existing email resets the commission to 500.00 rather than
  keeping the stored one (`SalaryController.php` line 43).
- Email is not unique under `update`. `update` assigns `email` without any
  rule, so it can give one record another record's email
  (`SalaryProperties.UpdateCanDuplicateEmail`). The table invariant therefore
  does not include email uniqueness. `store` alone keeps it
  (`SalaryProperties.StoreKeepsEmailsUnique`).

## Model

| member | source | states |
|---|---|---|
| Validation.NameRules | backend/app/Http/Controllers/Api/SalaryController.php:27 | `required\|string\|max:255` rejects a name exactly when it is absent, not text, blank once trimmed, or longer than 255 characters |
| Validation.EmailRules | backend/app/Http/Controllers/Api/SalaryController.php:28 | `required\|email\|max:255` rejects an email exactly when it is absent, not text, blank, refused by the address check, or longer than 255 characters |
| Validation.AmountRules | backend/app/Http/Controllers/Api/SalaryController.php:29-30 | `required\|numeric\|min:0` rejects an amount exactly when it is absent, null, blank, not numeric, or negative; zero passes |
| Validation.SometimesRules | backend/app/Http/Controllers/Api/SalaryController.php:64-67 | prefixing `sometimes` means an absent key is never rejected and a present one is judged by the remaining rules |
| Validation.Errors | backend/app/Http/Controllers/Api/SalaryController.php:26-31 | the validator reports a field exactly when one of its rule lists rejects its value; an absent field whose rule lists all hold `sometimes` is never reported |
| Validation.StoreErrorsExactly | backend/app/Http/Controllers/Api/SalaryController.php:26-31 | `store` reports an error for a field if and only if it is one of name, email, salary_local, salary_euros and is missing or unacceptable |
| Validation.UpdateErrorsExactly | backend/app/Http/Controllers/Api/SalaryController.php:63-68 | `update` reports an error for a field if and only if it is one of name, salary_local, salary_euros, commission, is supplied, and is unacceptable; email and displayed_salary are never checked |
| SalaryModel.FillableAreFields | backend/app/Models/Salary.php:9-16 | the fillable names are exactly the six attribute names name, email, salary_local, salary_euros, commission, displayed_salary |
| SalaryModel.Hook | backend/app/Models/Salary.php:29-35 | the record a hook produces satisfies displayed_salary = salary_euros + commission, and every other attribute is the instance's own |
| SalaryModel.Loaded | backend/app/Models/Salary.php:33-35 | re-running the hook on a loaded record gives that record back exactly when the record already satisfies the derived-field invariant |
| SalaryModel.DecimalOf | backend/app/Models/Salary.php:22 | the `decimal:2` cast of a supplied displayed_salary refuses exactly a non-numeric string, keeps null uncast, and gives any numeric value its cents |
| SalaryModel.Save | backend/app/Models/Salary.php:33-35 | saving throws, writing nothing, exactly when displayed_salary is a value the decimal cast refuses; otherwise it keeps the id, and on a consistent record it equals running the updating hook, so the invariant survives every save |
| SalaryModel.Fill | backend/app/Http/Controllers/Api/SalaryController.php:74 | mass assignment sets each supplied name, email and amount to the request's value; a request with no fillable key leaves the attributes exactly as loaded; the displayed_salary is uncastable exactly when a non-numeric string is supplied |
| SalaryModel.FillIgnoresUnfillable | backend/app/Models/Salary.php:9-16 | mass assignment ignores every key outside the fillable set, `id` included: adding or changing one leaves the filled attributes unchanged |
| SalaryModel.SuppliedDisplayedSalaryOverwritten | backend/app/Models/Salary.php:18-35 | a supplied displayed_salary makes the save throw exactly when it is a non-numeric string, and any other value saves to the same record as no displayed_salary at all |
| SalaryTable.Empty | backend/app/Models/Salary.php:7 | the empty table of `Salary` records satisfies the table invariant and has unique emails |
| SalaryTable.FirstFrom | backend/app/Http/Controllers/Api/SalaryController.php:37-38 | the search returns the lowest id in range whose row has the email, and returns none only when no row in range has it |
| SalaryTable.FirstWithEmail | backend/app/Http/Controllers/Api/SalaryController.php:37-38 | the email lookup of `updateOrCreate` finds a row with that email, the lowest such id; it finds none only when no row has the email |
| SalaryTable.UpdateOrCreate | backend/app/Http/Controllers/Api/SalaryController.php:37-45 | the upsert writes a record with the given email and values; on a valid table it reuses the lowest id holding that email, or appends one under the next id exactly when no row has it, touches no other row and keeps the table valid |
| SalaryTable.Delete | backend/app/Http/Controllers/Api/SalaryController.php:84 | deleting removes exactly that id; every other row and the id counter are unchanged |
| SalaryTable.All | backend/app/Http/Controllers/Api/SalaryController.php:17 | `Salary::all()` returns stored rows only, in strictly ascending id order, and every stored row appears |
| SalaryController.StoreErrorsEmpty | backend/app/Http/Controllers/Api/SalaryController.php:26-35 | `store` validation passes exactly when all four required fields are present and acceptable |
| SalaryController.StoreValues | backend/app/Http/Controllers/Api/SalaryController.php:37-44 | the values given to `updateOrCreate` are the request's name and non-negative salaries, with commission 500.00 |
| SalaryController.Index | backend/app/Http/Controllers/Api/SalaryController.php:15-19 | `index` returns 200 with every stored record, each exactly once, and changes nothing |
| SalaryController.Store | backend/app/Http/Controllers/Api/SalaryController.php:24-48 | `store` answers 422 with the rejected fields and an unchanged table exactly when validation fails, otherwise 201; the table invariant is preserved |
| SalaryController.Show | backend/app/Http/Controllers/Api/SalaryController.php:53-56 | `show` returns 200 with the stored record for an existing id and 404 otherwise, changing nothing |
| SalaryController.UpdateAcceptedIsAssignable | backend/app/Http/Controllers/Api/SalaryController.php:63-74 | every request the update rules accept has a text name and numeric amounts wherever they are supplied |
| SalaryController.Update | backend/app/Http/Controllers/Api/SalaryController.php:61-77 | `update` answers 404 with no change for a missing id; otherwise 422 with no change exactly when a supplied field fails its rule; otherwise 500 with no change exactly when displayed_salary is a non-numeric string, else 200; the table invariant is preserved |
| SalaryController.Destroy | backend/app/Http/Controllers/Api/SalaryController.php:82-86 | `destroy` answers 404 with no change for a missing id; otherwise 204 with exactly that id removed and every other record untouched |
| SalaryProperties.StoreAcceptedFields | backend/app/Http/Controllers/Api/SalaryController.php:26-31 | an accepted `store` request holds an acceptable name, email, salary_local and salary_euros |
| SalaryProperties.StoreRejectsBadInput | backend/app/Http/Controllers/Api/SalaryController.php:26-35 | a missing or over-long name or email, or a missing, non-numeric or negative salary, gives 422 and leaves the table unchanged |
| SalaryProperties.StoreAcceptsZeroSalaries | backend/app/Http/Controllers/Api/SalaryController.php:29-30 | zero salaries with an acceptable name and email are stored, and the displayed salary is then the commission alone |
| SalaryProperties.StoreNewEmail | backend/app/Http/Controllers/Api/SalaryController.php:37-47 | an unseen email adds exactly one record under the fresh id, carrying the request's fields, commission 500.00 and displayed salary euros + 500.00, answered with 201 |
| SalaryProperties.StoreExistingEmail | backend/app/Http/Controllers/Api/SalaryController.php:37-45 | a known email rewrites the first record with it in place (same ids, same count): name and salaries overwritten, commission reset to 500.00, displayed salary recomputed, others untouched |
| SalaryProperties.StoreIdempotent | backend/app/Http/Controllers/Api/SalaryController.php:37-45 | repeating a `store` request yields the same table and the same response as doing it once |
| SalaryProperties.StoreKeepsEmailsUnique | backend/app/Http/Controllers/Api/SalaryController.php:37-45 | `store` never creates a second record with an email already present |
| SalaryProperties.UpdateWrites | backend/app/Http/Controllers/Api/SalaryController.php:74 | an accepted update with a non-numeric-string displayed_salary answers 500 and changes nothing; any other accepted update writes each supplied fillable attribute and keeps every other attribute, the id and all other records; displayed_salary is recomputed from the new values |
| SalaryProperties.UpdateErrorsIgnore | backend/app/Http/Controllers/Api/SalaryController.php:63-68 | keys other than name, salary_local, salary_euros and commission never change the update verdict |
| SalaryProperties.UpdateIgnoresUnfillable | backend/app/Models/Salary.php:9-16 | adding or changing a key outside the fillable set, `id` included, leaves the outcome of `update` unchanged |
| SalaryProperties.UpdateIgnoresDisplayedSalary | backend/app/Models/Salary.php:18-35 | an `update` carrying a numeric or null displayed_salary has the same outcome as the same request without it; a non-numeric string leaves the table unchanged |
| SalaryProperties.UpdateWithNothingChangesNothing | backend/app/Http/Controllers/Api/SalaryController.php:74 | an `update` with an empty body returns the stored record and leaves the table unchanged |
| SalaryProperties.UpdateCanDuplicateEmail | backend/app/Http/Controllers/Api/SalaryController.php:63-74 | for every address check, an accepted `update` can copy one record's email onto another, breaking email uniqueness |
| SalaryProperties.AnaStored | backend/app/Http/Controllers/Api/SalaryController.php:37-47 | on an empty table, posting Ana stores exactly one record, id 1, with commission 500.00 and displayed salary 1400.00 |
| SalaryProperties.AnaScenario | backend/app/Http/Controllers/Api/SalaryController.php:37-74 | storing Ana with salaries 1000 and 900 gives commission 500.00 and displayed 1400.00; updating commission to 800 then gives displayed 1700.00 with the rest unchanged |
| SalaryProperties.ShowAfterStore | backend/app/Http/Controllers/Api/SalaryController.php:37-56 | the record `store` answers with is exactly what `show` then returns for its id |
| SalaryProperties.ShowAfterDestroy | backend/app/Http/Controllers/Api/SalaryController.php:82-86 | after `destroy`, `show` on the same id answers 404 and a second `destroy` changes nothing |

## Left out

- The frontend (React pages, form, table, types): presentation and HTTP client code.
- HTTP routing, JSON serialisation and the `auth:sanctum` `/user` route. Route model binding appears only as "look up by id, or 404".
- The email address check of the `email` rule and PHP's `is_numeric` on strings live in the framework and PHP. They are the parameters `isEmail` and `parseNumeric` of `Primitives`.
- Rounding of numbers with more than two fractional digits to `decimal:2`. Input numbers are already in cents.
- The hooks add through PHP floating point before the value is stored at two decimals. The model adds exactly in cents, which gives the same stored value.
- JSON arrays and objects as input values.
- `created_at` / `updated_at` timestamps: clock input.
- The database migration is not part of this model. There is no unique index on email, and no column type or NULL constraint is enforced. `email` holds whatever value `update` writes, and there are no database errors and no column-precision overflow.
- Concurrency, including two racing `store` calls for one email.
- Request middleware such as string trimming: values arrive as the controller sees them.
- Validation error messages. A 422 carries only the set of rejected fields.
- The printed length of a number under `max`/`min` in a rule list without `numeric` is not modelled: such a rule passes. In these rules that value already fails `string` or `email`.
- `where('email', …)->first()` has no ORDER BY, and `Salary::all()` has none either. The model takes the lowest id first and lists in ascending id order.
- Email comparison is exact. A case-insensitive database collation is not modelled.
- Exceptions other than the decimal cast's: a 500 carries no body, and the exception's type and message are not modelled.
