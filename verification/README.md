# Corporate vehicle fleet — the vehicle core, in Dafny

This project models the `vehiculos` application of a small Django fleet
system: the `Vehiculo` record and the store of vehicles, the vehicle form
(`VehiculoForm`, with its `clean_patente` plate rule), the views that
register, edit, delete and list vehicles, and the dashboard metrics.

The model is functional. The database is a value `Db`. It holds the users
(id to username), the vehicles keyed by primary key, and the
auto-increment counter. Each view is a function from a database and a
request (method and submitted form) to a new database and an `Outcome`. A
clock reading `now` is a parameter.

Modules, one per source file or concern:

- `Results`: `Option` and `Result`.
- `Text`: Python's `str.strip()` and `str.upper()`. Stripping is proved equal
  to a reference definition: remove a whitespace prefix and suffix, leaving
  no whitespace at either end.
- `LexOrder`: the order SQLite sorts plates in. It compares code point by
  code point, with a proper prefix first. It is proved total, transitive and
  antisymmetric.
- `Models` (`vehiculos/models.py`): the record, the database invariant
  `Valid`, the display string, and the store writes. Those writes are
  insert, update, delete, and user deletion under `PROTECT`.
- `Forms` (`vehiculos/forms.py`): the submission, `clean_patente`, and the
  form's whole validation. Django runs the checks in this order: each
  field's own clean (strip, required, column width), then `clean_patente`,
  then the unique-plate check that excludes the vehicle being edited.
- `Views` (`vehiculos/views.py`): `registrar_vehiculo`, `editar_vehiculo`,
  `eliminar_vehiculo` and `detalle_vehiculos`.
- `Dashboard` (`vehiculos/views.py`): the `dashboard` metrics.

The dashboard and the listing take the database as a value and return no
database, so they are read-only by construction.

The owner of a vehicle is mandatory and protected (`PROTECT`).
`clean_patente` strips and upper-cases the plate and requires at least 5
characters; the column allows at most 10.

## Model

| member | source | states |
|---|---|---|
| Text.Strip | vehiculos/forms.py:54 | the stripped plate is no longer than the input and has no whitespace at either end |
| Text.StripIsStripOf | vehiculos/forms.py:54 | `strip()` removes a whitespace prefix and a whitespace suffix, leaving a text with non-space ends |
| Text.StripOfIsUnique | vehiculos/forms.py:54 | only one text meets that description, so the model's strip is exactly Python's |
| Text.StripTrimmed | vehiculos/forms.py:54 | stripping a text with non-space ends leaves it unchanged |
| Text.StripIgnoresPadding | vehiculos/forms.py:54 | whitespace added on either side does not change the stripped result |
| Text.UpperFacts | vehiculos/forms.py:54 | after upper-casing no ASCII lower-case letter is left; a trimmed text stays trimmed; upper-casing twice equals once |
| LexOrder.LexLeReflexive | vehiculos/models.py:63 | every plate sorts no later than itself |
| LexOrder.LexLeTotal | vehiculos/models.py:63 | any two plates are comparable in the plate ordering |
| LexOrder.LexLeTransitive | vehiculos/models.py:63 | the plate ordering is transitive |
| LexOrder.LexLeAntisymmetric | vehiculos/models.py:63 | two plates that sort no later than each other are equal |
| Models.Str | vehiculos/models.py:70-74 | the display string is the plate, `" - "`, the make, a space and the model, in that order, with the length this implies |
| Models.StrDeterminesPatente | vehiculos/models.py:70-74 | for plates without spaces, equal display strings mean equal plates |
| Models.StrAmbiguousWithSpaces | vehiculos/models.py:70-74 | once plates may contain spaces (the form accepts "AB 123"), two vehicles with different plates can share a display string |
| Models.Create | vehiculos/models.py:16-30 | an insert succeeds exactly when the owner exists and no vehicle holds the plate; otherwise the database raises an integrity error |
| Models.CreateInsertsOne | vehiculos/models.py:44-53 | an insert adds one vehicle under a fresh key; it is active unless `activo` was explicitly false; both timestamps are the insert time; nothing else changes |
| Models.Update | vehiculos/models.py:16-30 | an update succeeds exactly when the owner exists and no other vehicle holds the plate, so a vehicle may keep its own plate |
| Models.UpdateInPlace | vehiculos/models.py:50-58 | an update changes only that vehicle; its creation time is kept and its update time is refreshed; the key set and the users are unchanged |
| Models.Delete | vehiculos/views.py:82 | a delete removes exactly that key and leaves every other vehicle and all users as they were |
| Models.DeleteUser | vehiculos/models.py:16-22 | deleting a user who still owns a vehicle is refused and changes nothing; a user with no vehicles is removed and the vehicles stay as they were; the error for an unknown user is a modelling choice, the source only declares `PROTECT` |
| Models.CreatePreservesValid | vehiculos/models.py:16-53 | an insert of values that fit the columns keeps plates unique, owners existing, widths respected and creation ≤ update time |
| Models.UpdatePreservesValid | vehiculos/models.py:50-58 | under a clock that does not go back, an update keeps the invariant, so the update time stays ≥ the creation time |
| Models.DeletePreservesValid | vehiculos/models.py:24-30 | deleting a vehicle keeps the invariant, including unique plates |
| Models.DeleteUserPreservesValid | vehiculos/models.py:16-22 | user deletion never leaves a vehicle whose owner is missing |
| Forms.CleanPatente | vehiculos/forms.py:46-61 | a plate is accepted exactly when its stripped and upper-cased form has at least 5 characters; the accepted plate is the stripped input upper-cased, with non-space ends and no lower-case letter; any other plate gets the invalid-plate error |
| Forms.MissingPatenteRejected | vehiculos/forms.py:54-59 | a plate missing from the cleaned data counts as empty and is refused |
| Forms.CleanPatenteIdempotent | vehiculos/forms.py:54-61 | cleaning an accepted plate again accepts it and returns the same plate |
| Forms.CleanPatenteIgnoresPadding | vehiculos/forms.py:54-56 | surrounding whitespace changes nothing, because the length rule applies after stripping |
| Forms.PaddedShortPlateRejected | vehiculos/forms.py:54-59 | `"  ab1  "` is seven characters long and is still refused |
| Forms.PreStripHarmless | vehiculos/forms.py:54 | the form field strips the plate before `clean_patente` runs, and this changes nothing |
| Forms.CleanText | vehiculos/models.py:32-42 | a required text field is accepted exactly when its stripped value is non-empty and fits the column width; the stored value is the stripped text |
| Forms.CleanUsuario | vehiculos/models.py:16-22 | a user choice is accepted exactly when a user is chosen and that user exists |
| Forms.CleanPlateField | vehiculos/forms.py:54-61 | the plate field accepts exactly a plate whose stripped length is 5 to 10 and whose cleaned form no other vehicle holds; the invalid-plate and duplicate errors arise exactly in their own cases |
| Forms.Validate | vehiculos/forms.py:17-23 | a submission validates exactly when all field rules hold; the cleaned values set only owner, plate, make, model and active flag, and they fit the columns |
| Forms.ValidateCollectsFieldErrors | vehiculos/forms.py:17-23 | a refused submission reports the errors of its four fields together, not only the first |
| Forms.ValidateReportsShortPlate | vehiculos/forms.py:56-59 | on failure, the invalid-plate error is reported exactly when the stripped plate is non-empty and shorter than five characters |
| Forms.ValidateReportsDuplicatePlate | vehiculos/models.py:24-27 | on failure, the duplicate-plate error is reported exactly when the plate passed its own checks and another vehicle holds it |
| Forms.ValidateReportsMissingUser | vehiculos/forms.py:17-23 | on failure, the user's "required" error is reported exactly when no user was chosen |
| Views.Registrar | vehiculos/views.py:49-58 | only a valid POST saves; a GET shows a blank form; an invalid POST shows the form's errors; neither changes the store |
| Views.RegistrarPost | vehiculos/views.py:50-55 | a POST saves exactly when the form validates, and otherwise returns the errors with the store unchanged |
| Views.RegistrarInsertsOne | vehiculos/views.py:50-55 | a valid registration inserts exactly one vehicle under a fresh key. It holds the cleaned values and the submitted active flag, is stamped with the current time, and nothing else changes |
| Views.Editar | vehiculos/views.py:66-76 | an unknown key gives not-found and the store is unchanged; only a valid POST saves; anything else leaves the store as it was |
| Views.EditarPost | vehiculos/views.py:68-73 | a POST on an existing vehicle saves exactly when the form validates, with its own plate not counted as taken |
| Views.EditarUpdatesInPlace | vehiculos/views.py:68-73 | a valid edit keeps the key and the creation time. It stores the cleaned values, refreshes the update time, and changes no other vehicle |
| Views.Eliminar | vehiculos/views.py:79-85 | an unknown key gives not-found; a POST removes exactly that vehicle; any other method only asks for confirmation and changes nothing |
| Views.RegistrarPreservesValid | vehiculos/views.py:49-58 | registering keeps the database invariant and keeps every stored plate in cleaned form |
| Views.EditarPreservesValid | vehiculos/views.py:66-76 | editing under a clock that does not go back keeps the invariant and keeps every stored plate in cleaned form |
| Views.EliminarPreservesValid | vehiculos/views.py:79-85 | deleting keeps the invariant and keeps every stored plate in cleaned form |
| Views.Listado | vehiculos/views.py:61-63 | the listing holds every vehicle exactly once, ordered by plate ascending |
| Views.FirstByPatente | vehiculos/views.py:62 | the chosen vehicle's plate sorts no later than any other candidate's |
| Views.ListadoStrict | vehiculos/models.py:24-27 | with unique plates, the listing order is strict, so the store fully determines it |
| Dashboard.ComputeMetricas | vehiculos/views.py:22-34 | `total` is the number of vehicles. `activos` and `inactivos` count vehicles by flag and add up to `total`. `por_usuario` is the ranked breakdown, its counts are each ≥ 1, and they add up to `total` |
| Dashboard.CountActivo | vehiculos/views.py:31-32 | the count equals the number of vehicles whose active flag is the one asked for |
| Dashboard.PorUsuario | vehiculos/views.py:22-27 | one entry per username that owns a vehicle, no username twice, each with its vehicle count, ordered by non-increasing count |
| Dashboard.MostVehicles | vehiculos/views.py:26 | the chosen username owns at least as many vehicles as any other candidate |
| Dashboard.ActivosPlusInactivos | vehiculos/views.py:30-32 | the active and inactive counts add up to the total |
| Dashboard.PorUsuarioPositive | vehiculos/views.py:22-27 | every breakdown entry counts at least one vehicle |
| Dashboard.SumTotalsCountsOwned | vehiculos/views.py:22-25 | with distinct names and exact counts, the counts add up to the number of vehicles owned by those names |
| Dashboard.PorUsuarioSumsToTotal | vehiculos/views.py:22-30 | the breakdown's counts add up to `total`, since every vehicle has exactly one owner |

## Left out

- HTTP details are not modelled: request and response objects, templates,
  flash messages, the `login_required` decorator and URL routing. That
  includes redirect targets; the route names the views redirect to are not
  checked. A request is reduced to POST or not-POST plus the submitted
  form. A response is reduced to an `Outcome`.
- Text.Upper: only ASCII letters are upper-cased. Python's full Unicode case
  mapping is not modelled, including mappings that change the length
  (`"ß"` to `"SS"`). This is why the no-lower-case claim is about ASCII.
- Text.IsSpace lists Python's whitespace code points explicitly. The
  underlying Unicode database is not modelled.
- The null-character validator that Django adds to every text field is not
  modelled.
- Models.Create: both timestamps take the same clock reading. Django reads
  the clock once for `auto_now_add` and once for `auto_now`. Time zones and
  real clocks are left out; a clock reading is a natural number.
- Models.Create and Models.Update do not check column widths. SQLite does not
  enforce `VARCHAR` widths, so the widths hold only because every write goes
  through the form (`Forms.Validate` ensures `Fits`).
- Models.Update requires the key to exist, because the edit view loads the
  vehicle first. Django's fallback of inserting when a concurrent delete
  removed the row is not modelled.
- Concurrency is not modelled. Two requests can both pass the form's
  uniqueness check; the database constraint that then refuses one is
  modelled only as the `IntegrityError` of `Models.Create` and `Models.Update`.
- `select_related`, indexes and SQL execution are left out; only the
  resulting sets and orders are modelled.
- Dashboard.PorUsuario breaks ties in an unspecified way, and
  `IsPorUsuario` allows any tie order, as the query does.
- Views.Listado returns the keys in display order, not the rendered objects.
- The unbound registration form shows `activo` checked; that is the model
  default. Rendering is left out: a GET is just `ShowForm({})`. The default
  itself is modelled in `Models.Create`.
- The accounts and pages apps, the admin configuration, the app config and
  the settings are not part of this model. They are library wrappers and
  configuration.
