/**
 * The `Vehiculo` record and the store of all vehicles, with the effects the
 * ORM and the database have on it: auto-increment keys, the unique plate and
 * foreign-key constraints, `PROTECT` on the owning user, and the two
 * automatic timestamps.
 */
module Models {
  import opened Results

  type UserId = nat
  type Pk = nat

  /** Column widths declared on the model. */
  const PatenteMaxLength: nat := 10
  const MarcaMaxLength: nat := 50
  const ModeloMaxLength: nat := 50

  /** Default of the `activo` column. */
  const ActivoDefault: bool := true

  /** One corporate vehicle. Timestamps are readings of an abstract clock. */
  datatype Vehiculo = Vehiculo(
    usuario: UserId,
    patente: string,
    marca: string,
    modelo: string,
    activo: bool,
    fechaCreacion: nat,
    fechaActualizacion: nat)

  /** Values supplied for the fields a form may set. `activo == None` means
      the value was not supplied. No timestamp can be supplied. */
  datatype Editable = Editable(
    usuario: UserId,
    patente: string,
    marca: string,
    modelo: string,
    activo: Option<bool>)

  /** The text columns fit their declared widths. */
  predicate Fits(patente: string, marca: string, modelo: string) {
    |patente| <= PatenteMaxLength && |marca| <= MarcaMaxLength && |modelo| <= ModeloMaxLength
  }

  /** The display string: plate, `" - "`, make, a space, model. */
  function Str(v: Vehiculo): (r: string)
    ensures |r| == |v.patente| + 3 + |v.marca| + 1 + |v.modelo|
    ensures r[..|v.patente|] == v.patente
    ensures r[|v.patente|..|v.patente| + 3] == " - "
    ensures r[|v.patente| + 3..|v.patente| + 3 + |v.marca|] == v.marca
    ensures r[|r| - |v.modelo| - 1] == ' ' && r[|r| - |v.modelo|..] == v.modelo
  {
    v.patente + (" - " + v.marca + " " + v.modelo)
  }

  /** When plates contain no space, the display string determines the plate:
      the first space in it is the one that follows the plate. */
  lemma StrDeterminesPatente(a: Vehiculo, b: Vehiculo)
    requires ' ' !in a.patente && ' ' !in b.patente
    requires Str(a) == Str(b)
    ensures a.patente == b.patente
  {
    var ra, rb := " - " + a.marca + " " + a.modelo, " - " + b.marca + " " + b.modelo;
    assert Str(a) == a.patente + ra;
    assert Str(b) == b.patente + rb;
    PrefixBeforeSpace(a.patente, ra, b.patente, rb);
  }

  /** With spaces allowed in plates the display string is ambiguous: the
      plate "A - B" with make "C" shows as the plate "A" with make "B - C". */
  lemma StrAmbiguousWithSpaces()
    ensures var a := Vehiculo(1, "A - B", "C", "D", true, 0, 0);
            var b := Vehiculo(1, "A", "B - C", "D", true, 0, 0);
            Str(a) == Str(b) && a.patente != b.patente
  {
    assert "A - B" + (" - " + "C" + " " + "D") == "A" + (" - " + "B - C" + " " + "D");
  }

  /** Two texts that each start with a space-free word followed by a space
      agree on that word. */
  lemma PrefixBeforeSpace(p: string, ra: string, q: string, rb: string)
    requires ' ' !in p && ' ' !in q
    requires |ra| > 0 && ra[0] == ' ' && |rb| > 0 && rb[0] == ' '
    requires p + ra == q + rb
    ensures p == q
  {
    FirstSpaceAfter(p, ra);
    FirstSpaceAfter(q, rb);
    assert p == (p + ra)[..|p|];
    assert q == (q + rb)[..|q|];
  }

  /** Position of the first space in `s`, or `|s|` when there is none. */
  function FirstSpace(s: string): (n: nat)
    ensures n <= |s|
  {
    if |s| == 0 || s[0] == ' ' then 0 else 1 + FirstSpace(s[1..])
  }

  lemma {:induction false} FirstSpaceAfter(p: string, rest: string)
    requires ' ' !in p && |rest| > 0 && rest[0] == ' '
    ensures FirstSpace(p + rest) == |p|
  {
    if |p| > 0 {
      assert (p + rest)[1..] == p[1..] + rest;
      FirstSpaceAfter(p[1..], rest);
    }
  }

  /** The database: the users (id to username) the vehicles point to, the
      vehicles by primary key, and the auto-increment counter. */
  datatype Db = Db(users: map<UserId, string>, vehiculos: map<Pk, Vehiculo>, nextPk: Pk)

  /** No vehicle other than `self` holds plate `p`. */
  predicate PlateFreeFor(vs: map<Pk, Vehiculo>, p: string, self: Option<Pk>) {
    forall k :: k in vs && vs[k].patente == p ==> self == Some(k)
  }

  predicate PlatesUnique(vs: map<Pk, Vehiculo>) {
    forall a, b :: a in vs && b in vs && vs[a].patente == vs[b].patente ==> a == b
  }

  /** Every vehicle references an existing user. */
  predicate OwnersExist(db: Db) {
    forall k :: k in db.vehiculos ==> db.vehiculos[k].usuario in db.users
  }

  /** Usernames are unique among users. */
  predicate UsernamesUnique(users: map<UserId, string>) {
    forall a, b :: a in users && b in users && users[a] == users[b] ==> a == b
  }

  /** Every key was handed out by the auto-increment counter. */
  predicate PksIssued(db: Db) {
    forall k :: k in db.vehiculos ==> k < db.nextPk
  }

  /** What holds of one stored vehicle. */
  predicate RecordOk(v: Vehiculo) {
    Fits(v.patente, v.marca, v.modelo) && v.fechaCreacion <= v.fechaActualizacion
  }

  /** The database invariant. */
  predicate Valid(db: Db) {
    && OwnersExist(db)
    && PlatesUnique(db.vehiculos)
    && UsernamesUnique(db.users)
    && PksIssued(db)
    && forall k :: k in db.vehiculos ==> RecordOk(db.vehiculos[k])
  }

  /** The clock reading `now` is not earlier than any stored save. */
  predicate NotBefore(db: Db, now: nat) {
    forall k :: k in db.vehiculos ==> db.vehiculos[k].fechaActualizacion <= now
  }

  datatype StoreError =
    | IntegrityError  // a unique or foreign-key constraint refused the write
    | ProtectedError  // a `PROTECT` reference refused a delete
    | DoesNotExist    // no row has that key

  /** Insert a new vehicle at clock reading `now`; the database refuses a
      taken plate or an unknown user. */
  function Create(db: Db, e: Editable, now: nat): (r: Result<(Db, Pk), StoreError>)
    requires PksIssued(db)
    ensures r.Ok? <==> e.usuario in db.users && PlateFreeFor(db.vehiculos, e.patente, None)
    ensures r.Err? ==> r.error == IntegrityError
  {
    if e.usuario !in db.users || !PlateFreeFor(db.vehiculos, e.patente, None) then
      Err(IntegrityError)
    else
      var pk := db.nextPk;
      var v := Vehiculo(e.usuario, e.patente, e.marca, e.modelo, e.activo.GetOr(ActivoDefault), now, now);
      Ok((db.(vehiculos := db.vehiculos[pk := v], nextPk := pk + 1), pk))
  }

  /** A successful insert adds exactly one vehicle under a fresh key, holding
      the supplied values, active unless `activo` was explicitly false, with
      both timestamps at `now`; nothing else changes. */
  lemma CreateInsertsOne(db: Db, e: Editable, now: nat)
    requires PksIssued(db) && Create(db, e, now).Ok?
    ensures
      var (db', pk) := Create(db, e, now).value;
      && pk !in db.vehiculos
      && db'.users == db.users
      && pk in db'.vehiculos
      && db'.vehiculos == db.vehiculos[pk := db'.vehiculos[pk]]
      && |db'.vehiculos| == |db.vehiculos| + 1
      && var v := db'.vehiculos[pk];
      && v.usuario == e.usuario && v.patente == e.patente && v.marca == e.marca && v.modelo == e.modelo
      && (v.activo <==> e.activo != Some(false))
      && v.fechaCreacion == now && v.fechaActualizacion == now
  {
  }

  /** Save new values into the existing vehicle `pk` at clock reading `now`;
      the database refuses a plate held by another vehicle or an unknown user. */
  function Update(db: Db, pk: Pk, e: Editable, now: nat): (r: Result<Db, StoreError>)
    requires pk in db.vehiculos
    ensures r.Ok? <==> e.usuario in db.users && PlateFreeFor(db.vehiculos, e.patente, Some(pk))
    ensures r.Err? ==> r.error == IntegrityError
  {
    if e.usuario !in db.users || !PlateFreeFor(db.vehiculos, e.patente, Some(pk)) then
      Err(IntegrityError)
    else
      var old_ := db.vehiculos[pk];
      var v := old_.(usuario := e.usuario, patente := e.patente, marca := e.marca, modelo := e.modelo,
                     activo := e.activo.GetOr(old_.activo), fechaActualizacion := now);
      Ok(db.(vehiculos := db.vehiculos[pk := v]))
  }

  /** A successful update changes only vehicle `pk`: it takes the supplied
      values (keeping `activo` when none was supplied), keeps its creation
      time and records `now` as its last save. */
  lemma UpdateInPlace(db: Db, pk: Pk, e: Editable, now: nat)
    requires pk in db.vehiculos && Update(db, pk, e, now).Ok?
    ensures
      var db' := Update(db, pk, e, now).value;
      && db'.users == db.users && db'.nextPk == db.nextPk
      && db'.vehiculos.Keys == db.vehiculos.Keys
      && (forall k :: k in db.vehiculos && k != pk ==> db'.vehiculos[k] == db.vehiculos[k])
      && var (old_, v) := (db.vehiculos[pk], db'.vehiculos[pk]);
      && v.usuario == e.usuario && v.patente == e.patente && v.marca == e.marca && v.modelo == e.modelo
      && v.activo == (if e.activo.Some? then e.activo.value else old_.activo)
      && v.fechaCreacion == old_.fechaCreacion && v.fechaActualizacion == now
  {
  }

  /** Hard-delete the vehicle `pk`; nothing references a vehicle, so this never fails. */
  function Delete(db: Db, pk: Pk): (db': Db)
    requires pk in db.vehiculos
    ensures pk !in db'.vehiculos
    ensures |db'.vehiculos| == |db.vehiculos| - 1
    ensures forall k :: k != pk ==> (k in db'.vehiculos <==> k in db.vehiculos)
    ensures forall k :: k in db'.vehiculos ==> db'.vehiculos[k] == db.vehiculos[k]
    ensures db'.users == db.users && db'.nextPk == db.nextPk
  {
    db.(vehiculos := db.vehiculos - {pk})
  }

  /** Delete user `uid`. The vehicles' reference to their user is `PROTECT`:
      a user who still owns a vehicle cannot be deleted. */
  function DeleteUser(db: Db, uid: UserId): (r: Result<Db, StoreError>)
    ensures r.Ok? <==> uid in db.users && forall k :: k in db.vehiculos ==> db.vehiculos[k].usuario != uid
    ensures r.Err? ==> r.error == (if uid in db.users then ProtectedError else DoesNotExist)
    ensures r.Ok? ==>
      && r.value.vehiculos == db.vehiculos && r.value.nextPk == db.nextPk
      && r.value.users.Keys == db.users.Keys - {uid}
      && forall u :: u in r.value.users ==> r.value.users[u] == db.users[u]
  {
    if uid !in db.users then Err(DoesNotExist)
    else if exists k :: k in db.vehiculos && db.vehiculos[k].usuario == uid then Err(ProtectedError)
    else Ok(db.(users := db.users - {uid}))
  }

  /** Inserting a record whose text fits the columns keeps the invariant. */
  lemma CreatePreservesValid(db: Db, e: Editable, now: nat)
    requires Valid(db) && Fits(e.patente, e.marca, e.modelo)
    ensures Create(db, e, now).Ok? ==> Valid(Create(db, e, now).value.0)
  {
    var r := Create(db, e, now);
    if r.Ok? {
      CreateInsertsOne(db, e, now);
      var (db', pk) := r.value;
      var v := db'.vehiculos[pk];
      assert forall k :: k in db'.vehiculos && k != pk ==> k in db.vehiculos && db'.vehiculos[k] == db.vehiculos[k];
      assert PlatesUnique(db'.vehiculos) by {
        forall a, b | a in db'.vehiculos && b in db'.vehiculos && db'.vehiculos[a].patente == db'.vehiculos[b].patente
          ensures a == b
        {
          if a != pk && b != pk {
            assert db.vehiculos[a].patente == db.vehiculos[b].patente;
          }
        }
      }
      assert OwnersExist(db');
      assert PksIssued(db');
    }
  }

  /** Updating with text that fits, under a clock that has not gone back,
      keeps the invariant; in particular creation stays no later than the
      last save. */
  lemma UpdatePreservesValid(db: Db, pk: Pk, e: Editable, now: nat)
    requires Valid(db) && pk in db.vehiculos && NotBefore(db, now)
    requires Fits(e.patente, e.marca, e.modelo)
    ensures Update(db, pk, e, now).Ok? ==> Valid(Update(db, pk, e, now).value)
  {
  }

  lemma DeletePreservesValid(db: Db, pk: Pk)
    requires Valid(db) && pk in db.vehiculos
    ensures Valid(Delete(db, pk))
  {
  }

  lemma DeleteUserPreservesValid(db: Db, uid: UserId)
    requires Valid(db)
    ensures DeleteUser(db, uid).Ok? ==> Valid(DeleteUser(db, uid).value)
  {
  }
}
