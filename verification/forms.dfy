/**
 * The vehicle form: which fields a submission may set, how each is cleaned,
 * the plate rule of `clean_patente`, and the uniqueness check the model form
 * runs before saving. Checks run in the order of the form library: each
 * field's own clean (strip, required, width), then the field's `clean_<name>`
 * hook, then the unique-plate check for a plate that passed both.
 */
module Forms {
  import opened Results
  import opened Text
  import opened Models

  /** Shortest plate `clean_patente` accepts. */
  const PatenteMinLength: nat := 5

  datatype Field = UsuarioField | PatenteField | MarcaField | ModeloField

  datatype FormError =
    | Required(field: Field)  // nothing but whitespace was submitted
    | TooLong(field: Field)   // the stripped text exceeds the column width
    | InvalidChoice           // the chosen user does not exist
    | PatenteInvalida         // `clean_patente` refused the plate
    | PatenteDuplicada        // another vehicle already holds the plate

  /** A submitted form. A text field that was left out arrives as the empty
      text and an unchecked box as `false`; there is no timestamp field. */
  datatype Submission = Submission(
    usuario: Option<UserId>,
    patente: string,
    marca: string,
    modelo: string,
    activo: bool)

  /** A plate as `clean_patente` leaves it. */
  predicate IsCleanPlate(p: string) {
    |p| >= PatenteMinLength && Trimmed(p) && NoLower(p)
  }

  /** `clean_patente`: strip, upper-case, refuse anything shorter than five
      characters. A plate missing from the cleaned data counts as empty. */
  function CleanPatente(value: Option<string>): (r: Result<string, FormError>)
    ensures r.Ok? <==> |Upper(Strip(value.GetOr("")))| >= PatenteMinLength
    ensures r.Ok? ==> r.value == Upper(Strip(value.GetOr(""))) && IsCleanPlate(r.value)
    ensures r.Err? ==> r.error == PatenteInvalida
  {
    var stripped := Strip(value.GetOr(""));
    UpperFacts(stripped);
    var patente := Upper(stripped);
    if |patente| < PatenteMinLength then Err(PatenteInvalida) else Ok(patente)
  }

  /** A missing plate is refused. */
  lemma MissingPatenteRejected()
    ensures CleanPatente(None) == Err(PatenteInvalida)
  {
  }

  /** Cleaning an accepted plate again accepts it unchanged. */
  lemma CleanPatenteIdempotent(value: Option<string>)
    ensures CleanPatente(value).Ok? ==> CleanPatente(Some(CleanPatente(value).value)) == CleanPatente(value)
  {
    var r := CleanPatente(value);
    if r.Ok? {
      StripTrimmed(r.value);
      UpperFacts(r.value);
    }
  }

  /** Whitespace around a plate neither rescues a short one nor changes an
      accepted one: the length rule applies after stripping. */
  lemma CleanPatenteIgnoresPadding(pad1: string, s: string, pad2: string)
    requires AllSpace(pad1) && AllSpace(pad2)
    ensures CleanPatente(Some(pad1 + s + pad2)) == CleanPatente(Some(s))
  {
    StripIgnoresPadding(pad1, s, pad2);
  }

  /** "  ab1  " is seven characters long and still refused. */
  lemma PaddedShortPlateRejected()
    ensures |"  ab1  "| >= PatenteMinLength
    ensures CleanPatente(Some("  ab1  ")) == Err(PatenteInvalida)
  {
    assert "  ab1  " == "  " + "ab1" + "  ";
    CleanPatenteIgnoresPadding("  ", "ab1", "  ");
  }

  /** The form library strips the text before the hook sees it; since
      stripping is idempotent, that changes nothing. */
  lemma PreStripHarmless(raw: string)
    ensures CleanPatente(Some(Strip(raw))) == CleanPatente(Some(raw))
  {
    StripTrimmed(Strip(raw));
  }

  /** The form library's clean of a required text field of width `max`. */
  function CleanText(raw: string, field: Field, max: nat): (r: Result<string, FormError>)
    ensures r.Ok? <==> 0 < |Strip(raw)| <= max
    ensures r.Ok? ==> r.value == Strip(raw)
    ensures r.Err? ==> r.error == (if Strip(raw) == [] then Required(field) else TooLong(field))
  {
    var s := Strip(raw);
    if s == [] then Err(Required(field))
    else if |s| > max then Err(TooLong(field))
    else Ok(s)
  }

  /** The user choice: required, and it must name an existing user. */
  function CleanUsuario(users: map<UserId, string>, raw: Option<UserId>): (r: Result<UserId, FormError>)
    ensures r.Ok? <==> raw.Some? && raw.value in users
    ensures r.Ok? ==> r.value == raw.value
    ensures r.Err? ==> r.error == (if raw.None? then Required(UsuarioField) else InvalidChoice)
  {
    match raw
    case None => Err(Required(UsuarioField))
    case Some(u) => if u in users then Ok(u) else Err(InvalidChoice)
  }

  /** The plate: field clean, then `clean_patente`, then uniqueness among
      the vehicles other than `instance`. */
  function CleanPlateField(vs: map<Pk, Vehiculo>, raw: string, instance: Option<Pk>): (r: Result<string, FormError>)
    ensures r.Ok? <==>
      && PatenteMinLength <= |Strip(raw)| <= PatenteMaxLength
      && PlateFreeFor(vs, Upper(Strip(raw)), instance)
    ensures r.Ok? ==> r.value == Upper(Strip(raw)) && IsCleanPlate(r.value)
    ensures r.Err? ==> r.error in {Required(PatenteField), TooLong(PatenteField), PatenteInvalida, PatenteDuplicada}
    ensures r.Err? ==> (r.error == PatenteInvalida <==> 0 < |Strip(raw)| < PatenteMinLength)
    ensures r.Err? ==> (r.error == PatenteDuplicada <==>
      PatenteMinLength <= |Strip(raw)| <= PatenteMaxLength && !PlateFreeFor(vs, Upper(Strip(raw)), instance))
  {
    match CleanText(raw, PatenteField, PatenteMaxLength)
    case Err(e) => Err(e)
    case Ok(s) =>
      PreStripHarmless(raw);
      match CleanPatente(Some(s))
      case Err(e) => Err(e)
      case Ok(p) => if PlateFreeFor(vs, p, instance) then Ok(p) else Err(PatenteDuplicada)
  }

  function ErrorsOf<T>(r: Result<T, FormError>): set<FormError> {
    if r.Ok? then {} else {r.error}
  }

  /** Everything the form requires of a submission, stated on the raw text. */
  predicate Acceptable(db: Db, sub: Submission, instance: Option<Pk>) {
    && sub.usuario.Some? && sub.usuario.value in db.users
    && PatenteMinLength <= |Strip(sub.patente)| <= PatenteMaxLength
    && PlateFreeFor(db.vehiculos, Upper(Strip(sub.patente)), instance)
    && 0 < |Strip(sub.marca)| <= MarcaMaxLength
    && 0 < |Strip(sub.modelo)| <= ModeloMaxLength
  }

  /** `is_valid()` followed by the cleaned data: the values a save will
      write, or every field error found. `instance` is the vehicle being
      edited, whose own plate does not count as taken. */
  function Validate(db: Db, sub: Submission, instance: Option<Pk>): (r: Result<Editable, set<FormError>>)
    ensures r.Ok? <==> Acceptable(db, sub, instance)
    ensures r.Ok? ==>
      && r.value.usuario == sub.usuario.value && r.value.usuario in db.users
      && r.value.patente == Upper(Strip(sub.patente)) && IsCleanPlate(r.value.patente)
      && PlateFreeFor(db.vehiculos, r.value.patente, instance)
      && r.value.marca == Strip(sub.marca) && r.value.modelo == Strip(sub.modelo)
      && Fits(r.value.patente, r.value.marca, r.value.modelo)
      && r.value.activo == Some(sub.activo)
    ensures r.Err? ==> r.error != {}
  {
    var u := CleanUsuario(db.users, sub.usuario);
    var p := CleanPlateField(db.vehiculos, sub.patente, instance);
    var m := CleanText(sub.marca, MarcaField, MarcaMaxLength);
    var mo := CleanText(sub.modelo, ModeloField, ModeloMaxLength);
    if u.Ok? && p.Ok? && m.Ok? && mo.Ok? then
      Ok(Editable(u.value, p.value, m.value, mo.value, Some(sub.activo)))
    else
      Err(ErrorsOf(u) + ErrorsOf(p) + ErrorsOf(m) + ErrorsOf(mo))
  }

  /** The errors of a refused submission are those of its four fields. */
  lemma ValidateCollectsFieldErrors(db: Db, sub: Submission, instance: Option<Pk>)
    ensures var r := Validate(db, sub, instance);
      r.Err? ==> (r.error ==
        ErrorsOf(CleanPlateField(db.vehiculos, sub.patente, instance))
        + (ErrorsOf(CleanUsuario(db.users, sub.usuario))
           + ErrorsOf(CleanText(sub.marca, MarcaField, MarcaMaxLength))
           + ErrorsOf(CleanText(sub.modelo, ModeloField, ModeloMaxLength))))
  {
  }

  /** `clean_patente`'s error is reported exactly when the stripped plate
      is non-empty but shorter than five characters. */
  lemma ValidateReportsShortPlate(db: Db, sub: Submission, instance: Option<Pk>)
    ensures var r := Validate(db, sub, instance);
      r.Err? ==> (PatenteInvalida in r.error <==> 0 < |Strip(sub.patente)| < PatenteMinLength)
  {
    ValidateCollectsFieldErrors(db, sub, instance);
    var u := CleanUsuario(db.users, sub.usuario);
    var p := CleanPlateField(db.vehiculos, sub.patente, instance);
    var m := CleanText(sub.marca, MarcaField, MarcaMaxLength);
    var mo := CleanText(sub.modelo, ModeloField, ModeloMaxLength);
    assert PatenteInvalida !in ErrorsOf(u);
    assert PatenteInvalida !in ErrorsOf(m);
    assert PatenteInvalida !in ErrorsOf(mo);
    assert PatenteInvalida in ErrorsOf(p) <==> 0 < |Strip(sub.patente)| < PatenteMinLength;
  }

  /** The duplicate-plate error is reported exactly when the cleaned plate
      passed its own checks and another vehicle already holds it. */
  lemma ValidateReportsDuplicatePlate(db: Db, sub: Submission, instance: Option<Pk>)
    ensures var r := Validate(db, sub, instance);
      r.Err? ==> (PatenteDuplicada in r.error <==>
        && PatenteMinLength <= |Strip(sub.patente)| <= PatenteMaxLength
        && !PlateFreeFor(db.vehiculos, Upper(Strip(sub.patente)), instance))
  {
    ValidateCollectsFieldErrors(db, sub, instance);
    var u := CleanUsuario(db.users, sub.usuario);
    var p := CleanPlateField(db.vehiculos, sub.patente, instance);
    var m := CleanText(sub.marca, MarcaField, MarcaMaxLength);
    var mo := CleanText(sub.modelo, ModeloField, ModeloMaxLength);
    assert PatenteDuplicada !in ErrorsOf(u);
    assert PatenteDuplicada !in ErrorsOf(m);
    assert PatenteDuplicada !in ErrorsOf(mo);
    assert PatenteDuplicada in ErrorsOf(p) <==>
      PatenteMinLength <= |Strip(sub.patente)| <= PatenteMaxLength
      && !PlateFreeFor(db.vehiculos, Upper(Strip(sub.patente)), instance);
  }

  /** The user's "required" error is reported exactly when no user was chosen. */
  lemma ValidateReportsMissingUser(db: Db, sub: Submission, instance: Option<Pk>)
    ensures var r := Validate(db, sub, instance);
      r.Err? ==> (Required(UsuarioField) in r.error <==> sub.usuario.None?)
  {
    ValidateCollectsFieldErrors(db, sub, instance);
    var u := CleanUsuario(db.users, sub.usuario);
    var p := CleanPlateField(db.vehiculos, sub.patente, instance);
    var m := CleanText(sub.marca, MarcaField, MarcaMaxLength);
    var mo := CleanText(sub.modelo, ModeloField, ModeloMaxLength);
    assert Required(UsuarioField) !in ErrorsOf(p);
    assert Required(UsuarioField) !in ErrorsOf(m);
    assert Required(UsuarioField) !in ErrorsOf(mo);
    assert Required(UsuarioField) in ErrorsOf(u) <==> sub.usuario.None?;
  }
}
