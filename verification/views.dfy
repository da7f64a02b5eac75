/**
 * The effects of the vehicle views on the store: register, edit, delete and
 * the ordered listing. A request is reduced to its method and its submitted
 * form; what a view renders is reduced to an `Outcome`.
 */
module Views {
  import opened Results
  import opened Models
  import opened Forms
  import opened LexOrder

  /** `Get` stands for every method other than POST. */
  datatype Method = Get | Post

  datatype Outcome =
    | Saved(pk: Pk)                         // the form was saved; the view redirects
    | Removed(pk: Pk)                       // the vehicle was deleted; the view redirects
    | ShowForm(errors: set<FormError>)      // the form is shown again, with its errors
    | ConfirmDelete(pk: Pk)                 // the delete confirmation page is shown
    | NotFound                              // no vehicle has that key

  /** Vehicle `v` holds the cleaned values `e`, saved at clock reading `now`. */
  predicate Holds(v: Vehiculo, e: Editable) {
    v.usuario == e.usuario && v.patente == e.patente && v.marca == e.marca && v.modelo == e.modelo
  }

  /** `registrar_vehiculo`: only a valid POST saves; anything else leaves
      the store as it was and shows the form (blank on GET, with the errors
      on an invalid POST). */
  function Registrar(db: Db, verb: Method, sub: Submission, now: nat): (r: (Db, Outcome))
    requires PksIssued(db)
    ensures r.1.Saved? <==> verb.Post? && Validate(db, sub, None).Ok?
    ensures !r.1.Saved? ==> r.0 == db && r.1.ShowForm?
    ensures !r.1.Saved? && verb.Post? ==> r.1.errors == Validate(db, sub, None).error
    ensures verb.Get? ==> r == (db, ShowForm({}))
  {
    if verb.Get? then (db, ShowForm({})) else RegistrarPost(db, sub, now)
  }

  /** The POST branch of `registrar_vehiculo`. */
  function RegistrarPost(db: Db, sub: Submission, now: nat): (r: (Db, Outcome))
    requires PksIssued(db)
    ensures r.1.Saved? <==> Validate(db, sub, None).Ok?
    ensures !r.1.Saved? ==> r == (db, ShowForm(Validate(db, sub, None).error))
  {
    var v := Validate(db, sub, None);
    if v.Err? then (db, ShowForm(v.error))
    else
      var c := Create(db, v.value, now).value;
      (c.0, Saved(c.1))
  }

  /** A valid registration inserts exactly one new vehicle holding the
      cleaned values, stamped with the current clock reading, and changes
      nothing else. */
  lemma RegistrarInsertsOne(db: Db, sub: Submission, now: nat)
    requires PksIssued(db)
    ensures Validate(db, sub, None).Ok? ==>
      var (db', out) := Registrar(db, Post, sub, now);
      var e := Validate(db, sub, None).value;
      && out.Saved? && out.pk !in db.vehiculos && out.pk in db'.vehiculos
      && db'.vehiculos == db.vehiculos[out.pk := db'.vehiculos[out.pk]]
      && |db'.vehiculos| == |db.vehiculos| + 1
      && db'.users == db.users
      && Holds(db'.vehiculos[out.pk], e) && db'.vehiculos[out.pk].activo == sub.activo
      && db'.vehiculos[out.pk].fechaCreacion == now && db'.vehiculos[out.pk].fechaActualizacion == now
  {
    if Validate(db, sub, None).Ok? {
      var e := Validate(db, sub, None).value;
      assert Create(db, e, now).Ok?;
      CreateInsertsOne(db, e, now);
      var c := Create(db, e, now).value;
      assert Registrar(db, Post, sub, now) == (c.0, Saved(c.1));
    }
  }

  /** `editar_vehiculo`: an unknown key is not found; only a valid POST
      saves; anything else leaves the store as it was. */
  function Editar(db: Db, pk: Pk, verb: Method, sub: Submission, now: nat): (r: (Db, Outcome))
    ensures pk !in db.vehiculos ==> r == (db, NotFound)
    ensures r.1.Saved? <==> pk in db.vehiculos && verb.Post? && Validate(db, sub, Some(pk)).Ok?
    ensures r.1.Saved? ==> r.1.pk == pk
    ensures !r.1.Saved? ==> r.0 == db
    ensures pk in db.vehiculos && verb.Get? ==> r.1 == ShowForm({})
    ensures pk in db.vehiculos && verb.Post? && !r.1.Saved? ==>
      r.1 == ShowForm(Validate(db, sub, Some(pk)).error)
  {
    if pk !in db.vehiculos then (db, NotFound)
    else if verb.Get? then (db, ShowForm({}))
    else EditarPost(db, pk, sub, now)
  }

  /** The POST branch of `editar_vehiculo` for an existing vehicle. */
  function EditarPost(db: Db, pk: Pk, sub: Submission, now: nat): (r: (Db, Outcome))
    requires pk in db.vehiculos
    ensures r.1.Saved? <==> Validate(db, sub, Some(pk)).Ok?
    ensures r.1.Saved? ==> r.1.pk == pk
    ensures !r.1.Saved? ==> r == (db, ShowForm(Validate(db, sub, Some(pk)).error))
  {
    var v := Validate(db, sub, Some(pk));
    if v.Err? then (db, ShowForm(v.error))
    else (Update(db, pk, v.value, now).value, Saved(pk))
  }

  /** A valid edit updates the vehicle in place: same key, the cleaned
      values, the creation time kept and the update time refreshed; no other
      vehicle changes, and a vehicle may keep its own plate. */
  lemma EditarUpdatesInPlace(db: Db, pk: Pk, sub: Submission, now: nat)
    requires pk in db.vehiculos
    ensures Validate(db, sub, Some(pk)).Ok? ==>
      var (db', out) := Editar(db, pk, Post, sub, now);
      var e := Validate(db, sub, Some(pk)).value;
      && out == Saved(pk)
      && db'.users == db.users && db'.nextPk == db.nextPk
      && db'.vehiculos.Keys == db.vehiculos.Keys
      && (forall k :: k in db.vehiculos && k != pk ==> db'.vehiculos[k] == db.vehiculos[k])
      && Holds(db'.vehiculos[pk], e) && db'.vehiculos[pk].activo == sub.activo
      && db'.vehiculos[pk].fechaCreacion == db.vehiculos[pk].fechaCreacion
      && db'.vehiculos[pk].fechaActualizacion == now
  {
    if Validate(db, sub, Some(pk)).Ok? {
      var e := Validate(db, sub, Some(pk)).value;
      assert Update(db, pk, e, now).Ok?;
      UpdateInPlace(db, pk, e, now);
      assert Editar(db, pk, Post, sub, now) == (Update(db, pk, e, now).value, Saved(pk));
    }
  }

  /** `eliminar_vehiculo`: an unknown key is not found; a POST removes that
      one vehicle; any other method only asks for confirmation. */
  function Eliminar(db: Db, pk: Pk, verb: Method): (r: (Db, Outcome))
    ensures pk !in db.vehiculos ==> r == (db, NotFound)
    ensures pk in db.vehiculos && verb.Get? ==> r == (db, ConfirmDelete(pk))
    ensures pk in db.vehiculos && verb.Post? ==>
      && r.1 == Removed(pk)
      && r.0.users == db.users
      && r.0.vehiculos.Keys == db.vehiculos.Keys - {pk}
      && |r.0.vehiculos| == |db.vehiculos| - 1
      && forall k :: k in r.0.vehiculos ==> r.0.vehiculos[k] == db.vehiculos[k]
  {
    if pk !in db.vehiculos then (db, NotFound)
    else if verb.Get? then (db, ConfirmDelete(pk))
    else (Delete(db, pk), Removed(pk))
  }

  /** Every stored plate is as `clean_patente` leaves it. */
  predicate PlatesClean(db: Db) {
    forall k :: k in db.vehiculos ==> IsCleanPlate(db.vehiculos[k].patente)
  }

  /** Registering keeps the database invariant and keeps every stored
      plate clean. */
  lemma RegistrarPreservesValid(db: Db, verb: Method, sub: Submission, now: nat)
    requires Valid(db) && PlatesClean(db)
    ensures Valid(Registrar(db, verb, sub, now).0) && PlatesClean(Registrar(db, verb, sub, now).0)
  {
    var v := Validate(db, sub, None);
    if verb.Post? && v.Ok? {
      CreatePreservesValid(db, v.value, now);
      CreateInsertsOne(db, v.value, now);
      var (db', pk) := Create(db, v.value, now).value;
      assert Registrar(db, verb, sub, now).0 == db';
      forall k | k in db'.vehiculos ensures IsCleanPlate(db'.vehiculos[k].patente) {
        if k != pk {
          assert db'.vehiculos[k] == db.vehiculos[k];
        }
      }
    }
  }

  /** Editing, under a clock that has not gone back, keeps the database
      invariant (so creation stays no later than the last save) and keeps
      every stored plate clean. */
  lemma EditarPreservesValid(db: Db, pk: Pk, verb: Method, sub: Submission, now: nat)
    requires Valid(db) && NotBefore(db, now) && PlatesClean(db)
    ensures Valid(Editar(db, pk, verb, sub, now).0) && PlatesClean(Editar(db, pk, verb, sub, now).0)
  {
    if pk in db.vehiculos && verb.Post? && Validate(db, sub, Some(pk)).Ok? {
      var e := Validate(db, sub, Some(pk)).value;
      UpdatePreservesValid(db, pk, e, now);
      UpdateInPlace(db, pk, e, now);
      var db' := Update(db, pk, e, now).value;
      assert Editar(db, pk, verb, sub, now).0 == db';
      forall k | k in db'.vehiculos ensures IsCleanPlate(db'.vehiculos[k].patente) {
        if k != pk {
          assert db'.vehiculos[k] == db.vehiculos[k];
        }
      }
    }
  }

  /** Deleting keeps the database invariant and keeps every stored plate clean. */
  lemma EliminarPreservesValid(db: Db, pk: Pk, verb: Method)
    requires Valid(db) && PlatesClean(db)
    ensures Valid(Eliminar(db, pk, verb).0) && PlatesClean(Eliminar(db, pk, verb).0)
  {
    if pk in db.vehiculos && verb.Post? {
      DeletePreservesValid(db, pk);
    }
  }

  /** `detalle_vehiculos`: every vehicle exactly once, by plate ascending. */
  method Listado(db: Db) returns (pks: seq<Pk>)
    ensures |pks| == |db.vehiculos|
    ensures forall i :: 0 <= i < |pks| ==> pks[i] in db.vehiculos
    ensures forall k :: k in db.vehiculos ==> k in pks
    ensures forall i, j :: 0 <= i < j < |pks| ==> pks[i] != pks[j]
    ensures forall i, j :: 0 <= i < j < |pks| ==>
      LexLe(db.vehiculos[pks[i]].patente, db.vehiculos[pks[j]].patente)
  {
    var vs := db.vehiculos;
    var rest := vs.Keys;
    pks := [];
    while rest != {}
      invariant Placed(vs.Keys, pks, rest)
      invariant PlacedInOrder(vs, pks, rest)
      decreases rest
    {
      var m := FirstByPatente(vs, rest);
      PlacedStep(vs.Keys, pks, rest, m);
      PlacedInOrderStep(vs, pks, rest, m);
      pks := pks + [m];
      rest := rest - {m};
    }
  }

  /** Part way through a listing of `keys`: `pks` holds distinct keys, and
      every key is either placed or still in `rest`, never both. */
  predicate Placed(keys: set<Pk>, pks: seq<Pk>, rest: set<Pk>) {
    && rest <= keys
    && (forall i :: 0 <= i < |pks| ==> pks[i] in keys && pks[i] !in rest)
    && (forall k :: k in keys ==> k in rest || k in pks)
    && (forall i, j :: 0 <= i < j < |pks| ==> pks[i] != pks[j])
    && |pks| + |rest| == |keys|
  }

  /** The placed keys are in plate order, and no key still in `rest` has a
      plate sorting before a placed one. */
  predicate PlacedInOrder(vs: map<Pk, Vehiculo>, pks: seq<Pk>, rest: set<Pk>)
    requires rest <= vs.Keys && forall i :: 0 <= i < |pks| ==> pks[i] in vs
  {
    && (forall i, j :: 0 <= i < j < |pks| ==> LexLe(vs[pks[i]].patente, vs[pks[j]].patente))
    && (forall i, k :: 0 <= i < |pks| && k in rest ==> LexLe(vs[pks[i]].patente, vs[k].patente))
  }

  /** Moving a key of `rest` to the end of `pks` keeps every key placed once. */
  lemma PlacedStep(keys: set<Pk>, pks: seq<Pk>, rest: set<Pk>, m: Pk)
    requires Placed(keys, pks, rest) && m in rest
    ensures Placed(keys, pks + [m], rest - {m})
  {
    var pks', rest' := pks + [m], rest - {m};
    var n := |pks|;
    assert forall i :: 0 <= i < n ==> pks'[i] == pks[i];
    assert pks'[n] == m;
    forall k | k in keys ensures k in rest' || k in pks' {
      if k == m {
        assert pks'[n] == k;
      } else if k !in rest {
        var i :| 0 <= i < n && pks[i] == k;
        assert pks'[i] == k;
      }
    }
  }

  /** Moving a first-sorting key of `rest` to the end of `pks` keeps the
      placed keys in plate order. */
  lemma PlacedInOrderStep(vs: map<Pk, Vehiculo>, pks: seq<Pk>, rest: set<Pk>, m: Pk)
    requires rest <= vs.Keys && forall i :: 0 <= i < |pks| ==> pks[i] in vs
    requires PlacedInOrder(vs, pks, rest)
    requires m in rest && forall k :: k in rest ==> LexLe(vs[m].patente, vs[k].patente)
    ensures PlacedInOrder(vs, pks + [m], rest - {m})
  {
    var pks' := pks + [m];
    var n := |pks|;
    assert forall i :: 0 <= i < n ==> pks'[i] == pks[i];
    forall i, j | 0 <= i < j < |pks'| ensures LexLe(vs[pks'[i]].patente, vs[pks'[j]].patente) {
      if j == n {
        assert pks'[j] == m;
      }
    }
  }

  /** A key of `keys` whose plate sorts first. */
  method FirstByPatente(vs: map<Pk, Vehiculo>, keys: set<Pk>) returns (m: Pk)
    requires keys != {} && keys <= vs.Keys
    ensures m in keys
    ensures forall k :: k in keys ==> LexLe(vs[m].patente, vs[k].patente)
  {
    m :| m in keys;
    LexLeReflexive(vs[m].patente);
    var seen := {m};
    var rest := keys - {m};
    while rest != {}
      invariant m in seen && seen + rest == keys && seen !! rest
      invariant forall k :: k in seen ==> LexLe(vs[m].patente, vs[k].patente)
      decreases rest
    {
      var k :| k in rest;
      if LexLe(vs[k].patente, vs[m].patente) {
        forall j | j in seen ensures LexLe(vs[k].patente, vs[j].patente) {
          LexLeTransitive(vs[k].patente, vs[m].patente, vs[j].patente);
        }
        m := k;
        LexLeReflexive(vs[m].patente);
      } else {
        LexLeTotal(vs[k].patente, vs[m].patente);
      }
      seen := seen + {k};
      rest := rest - {k};
    }
  }

  /** With unique plates the listing order is strict, so it is fully
      determined by the store. */
  lemma ListadoStrict(db: Db, pks: seq<Pk>, i: nat, j: nat)
    requires PlatesUnique(db.vehiculos)
    requires forall x :: 0 <= x < |pks| ==> pks[x] in db.vehiculos
    requires forall x, y :: 0 <= x < y < |pks| ==> pks[x] != pks[y]
    requires forall x, y :: 0 <= x < y < |pks| ==>
      LexLe(db.vehiculos[pks[x]].patente, db.vehiculos[pks[y]].patente)
    requires i < j < |pks|
    ensures !LexLe(db.vehiculos[pks[j]].patente, db.vehiculos[pks[i]].patente)
  {
    if LexLe(db.vehiculos[pks[j]].patente, db.vehiculos[pks[i]].patente) {
      LexLeAntisymmetric(db.vehiculos[pks[j]].patente, db.vehiculos[pks[i]].patente);
    }
  }
}
