/**
 * The read-only metrics of the `dashboard` view: how many vehicles there
 * are, how many are active and inactive, and how many each owner has,
 * ranked by that count.
 */
module Dashboard {
  import opened Models

  /** One row of the per-user breakdown: a username and how many vehicles it owns. */
  datatype Entry = Entry(username: string, total: nat)

  datatype Metricas = Metricas(total: nat, activos: nat, inactivos: nat, porUsuario: seq<Entry>)

  /** Username of the owner of vehicle `k`. */
  function OwnerName(db: Db, k: Pk): string
    requires OwnersExist(db) && k in db.vehiculos
  {
    db.users[db.vehiculos[k].usuario]
  }

  /** Keys of the vehicles whose `activo` flag is `flag`. */
  function KeysWithActivo(vs: map<Pk, Vehiculo>, flag: bool): set<Pk> {
    set k | k in vs && vs[k].activo == flag
  }

  /** Keys of the vehicles whose owner is called `name`. */
  function KeysOwnedBy(db: Db, name: string): set<Pk>
    requires OwnersExist(db)
  {
    set k | k in db.vehiculos && OwnerName(db, k) == name
  }

  /** The usernames that own at least one vehicle. */
  function OwnerNames(db: Db): set<string>
    requires OwnersExist(db)
  {
    set k | k in db.vehiculos :: OwnerName(db, k)
  }

  /** The usernames appearing in a breakdown. */
  function NamesOf(es: seq<Entry>): set<string> {
    if es == [] then {} else NamesOf(es[..|es| - 1]) + {es[|es| - 1].username}
  }

  /** Sum of the counts of a breakdown. */
  function SumTotals(es: seq<Entry>): nat {
    if es == [] then 0 else SumTotals(es[..|es| - 1]) + es[|es| - 1].total
  }

  /** What `por_usuario` is: one entry per username that owns a vehicle,
      each with that user's vehicle count, ordered by non-increasing count.
      Ties may come in any order. */
  ghost predicate IsPorUsuario(db: Db, es: seq<Entry>)
    requires OwnersExist(db)
  {
    && NamesOf(es) == OwnerNames(db)
    && (forall i, j :: 0 <= i < j < |es| ==> es[i].username != es[j].username)
    && (forall i :: 0 <= i < |es| ==> es[i].total == |KeysOwnedBy(db, es[i].username)|)
    && (forall i, j :: 0 <= i < j < |es| ==> es[i].total >= es[j].total)
  }

  /** The `dashboard` metrics: three counting queries and the breakdown. */
  method ComputeMetricas(db: Db) returns (m: Metricas)
    requires OwnersExist(db)
    ensures m.total == |db.vehiculos|
    ensures m.activos == |KeysWithActivo(db.vehiculos, true)|
    ensures m.inactivos == |KeysWithActivo(db.vehiculos, false)|
    ensures IsPorUsuario(db, m.porUsuario)
    ensures m.activos + m.inactivos == m.total
    ensures SumTotals(m.porUsuario) == m.total
    ensures forall i :: 0 <= i < |m.porUsuario| ==> m.porUsuario[i].total >= 1
  {
    var activos := CountActivo(db.vehiculos, true);
    var inactivos := CountActivo(db.vehiculos, false);
    var porUsuario := PorUsuario(db);
    m := Metricas(|db.vehiculos|, activos, inactivos, porUsuario);
    ActivosPlusInactivos(db.vehiculos);
    PorUsuarioSumsToTotal(db, porUsuario);
    forall i | 0 <= i < |porUsuario| ensures porUsuario[i].total >= 1 {
      PorUsuarioPositive(db, porUsuario, i);
    }
  }

  /** `filter(activo=flag).count()`: one pass over the vehicles. */
  method CountActivo(vs: map<Pk, Vehiculo>, flag: bool) returns (n: nat)
    ensures n == |KeysWithActivo(vs, flag)|
  {
    ghost var wanted := KeysWithActivo(vs, flag);
    var rest, done := vs.Keys, {};
    n := 0;
    while rest != {}
      invariant done + rest == vs.Keys && done !! rest
      invariant n == |wanted * done|
      decreases rest
    {
      var k :| k in rest;
      CountStep(wanted, done, k);
      if vs[k].activo == flag {
        n := n + 1;
      }
      done := done + {k};
      rest := rest - {k};
    }
    KeysWithActivoWithin(vs, flag);
  }

  lemma KeysWithActivoWithin(vs: map<Pk, Vehiculo>, flag: bool)
    ensures KeysWithActivo(vs, flag) * vs.Keys == KeysWithActivo(vs, flag)
  {
  }

  /** Adding key `k` to the visited keys grows the visited part of `a` by
      one exactly when `k` is in `a`. */
  lemma CountStep(a: set<Pk>, done: set<Pk>, k: Pk)
    requires k !in done
    ensures |a * (done + {k})| == |a * done| + (if k in a then 1 else 0)
  {
    if k in a {
      assert a * (done + {k}) == a * done + {k};
    } else {
      assert a * (done + {k}) == a * done;
    }
  }

  /** `por_usuario`: group by owner username, count, order by count descending. */
  method PorUsuario(db: Db) returns (es: seq<Entry>)
    requires OwnersExist(db)
    ensures IsPorUsuario(db, es)
  {
    var names := OwnerNames(db);
    es := [];
    while names != {}
      invariant names <= OwnerNames(db)
      invariant Listed(db, es, names)
      invariant Ranked(db, es, names)
      decreases names
    {
      var n := MostVehicles(db, names);
      var e := Entry(n, |KeysOwnedBy(db, n)|);
      ListedStep(db, es, names, e);
      RankedStep(db, es, names, e);
      es := es + [e];
      names := names - {n};
    }
  }

  /** Part way through the breakdown: the names already listed, each once,
      are exactly the owners no longer in `names`. */
  predicate Listed(db: Db, es: seq<Entry>, names: set<string>)
    requires OwnersExist(db)
  {
    && NamesOf(es) == OwnerNames(db) - names
    && (forall i :: 0 <= i < |es| ==> es[i].username !in names)
    && (forall i, j :: 0 <= i < j < |es| ==> es[i].username != es[j].username)
  }

  /** Part way through the breakdown: the listed counts are exact, in
      non-increasing order, and no owner still in `names` has more. */
  predicate Ranked(db: Db, es: seq<Entry>, names: set<string>)
    requires OwnersExist(db)
  {
    && (forall i :: 0 <= i < |es| ==> es[i].total == |KeysOwnedBy(db, es[i].username)|)
    && (forall i, j :: 0 <= i < j < |es| ==> es[i].total >= es[j].total)
    && (forall i, n :: 0 <= i < |es| && n in names ==> es[i].total >= |KeysOwnedBy(db, n)|)
  }

  /** Listing one more owner taken from `names` keeps every owner listed once. */
  lemma ListedStep(db: Db, es: seq<Entry>, names: set<string>, e: Entry)
    requires OwnersExist(db) && names <= OwnerNames(db)
    requires Listed(db, es, names) && e.username in names
    ensures Listed(db, es + [e], names - {e.username})
  {
    NamesOfAppend(es, e);
    var es' := es + [e];
    assert forall i :: 0 <= i < |es| ==> es'[i] == es[i];
  }

  /** Listing next an owner of `names` with the most vehicles, with its
      exact count, keeps the breakdown ranked. */
  lemma RankedStep(db: Db, es: seq<Entry>, names: set<string>, e: Entry)
    requires OwnersExist(db) && Ranked(db, es, names)
    requires e.username in names && e.total == |KeysOwnedBy(db, e.username)|
    requires forall m :: m in names ==> |KeysOwnedBy(db, m)| <= e.total
    ensures Ranked(db, es + [e], names - {e.username})
  {
    var es' := es + [e];
    assert forall i :: 0 <= i < |es| ==> es'[i] == es[i];
    assert es'[|es|] == e;
  }

  /** A name of `names` owning the most vehicles. */
  method MostVehicles(db: Db, names: set<string>) returns (n: string)
    requires OwnersExist(db) && names != {}
    ensures n in names
    ensures forall m :: m in names ==> |KeysOwnedBy(db, m)| <= |KeysOwnedBy(db, n)|
  {
    n :| n in names;
    var rest := names - {n};
    while rest != {}
      invariant n in names && rest <= names
      invariant forall m :: m in names - rest ==> |KeysOwnedBy(db, m)| <= |KeysOwnedBy(db, n)|
      decreases rest
    {
      var m :| m in rest;
      if |KeysOwnedBy(db, m)| > |KeysOwnedBy(db, n)| {
        n := m;
      }
      rest := rest - {m};
    }
  }

  /** Every vehicle is either active or inactive. */
  lemma ActivosPlusInactivos(vs: map<Pk, Vehiculo>)
    ensures |KeysWithActivo(vs, true)| + |KeysWithActivo(vs, false)| == |vs|
  {
    assert KeysWithActivo(vs, true) + KeysWithActivo(vs, false) == vs.Keys;
  }

  /** Every entry of the breakdown counts at least one vehicle. */
  lemma PorUsuarioPositive(db: Db, es: seq<Entry>, i: nat)
    requires OwnersExist(db) && IsPorUsuario(db, es) && i < |es|
    ensures es[i].total >= 1
  {
    NamesOfContains(es, i);
    var k :| k in db.vehiculos && OwnerName(db, k) == es[i].username;
    assert k in KeysOwnedBy(db, es[i].username);
  }

  lemma NamesOfAppend(es: seq<Entry>, e: Entry)
    ensures NamesOf(es + [e]) == NamesOf(es) + {e.username}
  {
    assert (es + [e])[..|es|] == es;
  }

  lemma {:induction false} NamesOfContains(es: seq<Entry>, i: nat)
    requires i < |es|
    ensures es[i].username in NamesOf(es)
  {
    if i < |es| - 1 {
      NamesOfContains(es[..|es| - 1], i);
    }
  }

  /** Keys owned by some name in `names`. */
  function KeysOwnedByAny(db: Db, names: set<string>): set<Pk>
    requires OwnersExist(db)
  {
    set k | k in db.vehiculos && OwnerName(db, k) in names
  }

  /** Summing a breakdown with distinct names and exact counts counts every
      vehicle owned by one of its names exactly once. */
  lemma {:induction false} SumTotalsCountsOwned(db: Db, es: seq<Entry>)
    requires OwnersExist(db)
    requires forall i, j :: 0 <= i < j < |es| ==> es[i].username != es[j].username
    requires forall i :: 0 <= i < |es| ==> es[i].total == |KeysOwnedBy(db, es[i].username)|
    ensures SumTotals(es) == |KeysOwnedByAny(db, NamesOf(es))|
  {
    if es != [] {
      var init, last := es[..|es| - 1], es[|es| - 1];
      SumTotalsCountsOwned(db, init);
      assert last.username !in NamesOf(init) by {
        if last.username in NamesOf(init) {
          var i := NamesOfIndex(init, last.username);
        }
      }
      var a, b := KeysOwnedByAny(db, NamesOf(init)), KeysOwnedBy(db, last.username);
      assert a !! b;
      assert KeysOwnedByAny(db, NamesOf(es)) == a + b;
    }
  }

  lemma {:induction false} NamesOfIndex(es: seq<Entry>, n: string) returns (i: nat)
    requires n in NamesOf(es)
    ensures i < |es| && es[i].username == n
  {
    if es[|es| - 1].username == n {
      i := |es| - 1;
    } else {
      i := NamesOfIndex(es[..|es| - 1], n);
    }
  }

  /** The counts of `por_usuario` add up to `total`: every vehicle has
      exactly one owner, and every owner appears exactly once. */
  lemma PorUsuarioSumsToTotal(db: Db, es: seq<Entry>)
    requires OwnersExist(db) && IsPorUsuario(db, es)
    ensures SumTotals(es) == |db.vehiculos|
  {
    SumTotalsCountsOwned(db, es);
    assert KeysOwnedByAny(db, NamesOf(es)) == db.vehiculos.Keys;
  }
}
