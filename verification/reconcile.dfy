/** Applying the generated objects of any number of CRs to the cluster
    (internal/controller/backstage_controller.go, pkg/model/db-secret.go,
    pkg/model/default-config.go). */
module ReconcileRuns {
  import opened GoStrings

  datatype Kind = Secret | ConfigMap | Deployment | StatefulSet | Service | Route | Claim | Other(name: string)

  /** Objects of one namespace. */
  datatype Key = Key(kind: Kind, name: string)

  /** What the store holds: the content, and the metadata that labelling touches. */
  datatype Stored = Stored(data: map<string, string>, meta: string)

  type Store = map<Key, Stored>

  // ---------------------------------------------------------------------------
  // Generated names
  // ---------------------------------------------------------------------------

  const DB_SECRET_PREFIX := "backstage-psql-secret-"

  function DbSecretName(cr: string): string {
    DB_SECRET_PREFIX + cr
  }

  function DefaultMultiObjectName(objectType: string, cr: string, item: string): string {
    "backstage-" + objectType + "-" + cr + "-" + item
  }

  /** Two CRs never share a database secret. */
  lemma DbSecretNameInjective(a: string, b: string)
    requires DbSecretName(a) == DbSecretName(b)
    ensures a == b
  {
    assert a == DbSecretName(a)[|DB_SECRET_PREFIX|..] && b == DbSecretName(b)[|DB_SECRET_PREFIX|..];
  }

  /** A generated file or environment secret is never named like a database secret. */
  lemma MultiObjectIsNoDbSecret(objectType: string, cr: string, item: string, other: string)
    requires objectType in {"files", "envs"}
    ensures DefaultMultiObjectName(objectType, cr, item) != DbSecretName(other)
  {
    assert DefaultMultiObjectName(objectType, cr, item)[10] == objectType[0];
    assert DbSecretName(other)[10] == 'p';
  }

  /** `cr` extends `base` by a dash and `extra`, and the other item makes up for it. */
  predicate Shifted(cr: string, item: string, base: string, baseItem: string) {
    |base| < |cr| && base + "-" <= cr && baseItem == cr[|base| + 1..] + "-" + item
  }

  /** Names of generated multi-objects of the same type clash between two CRs
      exactly when one CR's name is the other's extended by a dash and a text
      that the other's item name starts with. */
  lemma MultiObjectNamesClashIff(objectType: string, cr: string, item: string, cr': string, item': string)
    requires cr != cr'
    ensures DefaultMultiObjectName(objectType, cr, item) == DefaultMultiObjectName(objectType, cr', item') <==>
            Shifted(cr, item, cr', item') || Shifted(cr', item', cr, item)
  {
    var p := "backstage-" + objectType + "-";
    assert DefaultMultiObjectName(objectType, cr, item) == p + (cr + "-" + item);
    assert DefaultMultiObjectName(objectType, cr', item') == p + (cr' + "-" + item');
    assert (p + (cr + "-" + item))[|p|..] == cr + "-" + item;
    assert (p + (cr' + "-" + item'))[|p|..] == cr' + "-" + item';
    DashClash(cr, item, cr', item');
    DashClash(cr', item', cr, item);
  }

  lemma DashClash(a: string, x: string, b: string, y: string)
    requires a != b
    ensures |a| >= |b| ==> (a + "-" + x == b + "-" + y <==> Shifted(a, x, b, y))
    ensures Shifted(a, x, b, y) ==> |a| > |b|
  {
    var s, t := a + "-" + x, b + "-" + y;
    assert s[..|a|] == a && t[..|b|] == b;
    if |a| >= |b| {
      if s == t {
        assert |a| != |b|;
        assert a[..|b|] == s[..|b|] == b;
        assert a[|b|] == s[|b|] == '-';
        assert a == a[..|b|] + "-" + a[|b| + 1..];
        assert y == t[|b| + 1..] == s[|b| + 1..] == a[|b| + 1..] + "-" + x;
      }
      if Shifted(a, x, b, y) {
        assert a == b + "-" + a[|b| + 1..];
        assert s == b + "-" + (a[|b| + 1..] + "-" + x);
      }
    }
  }

  /** The instances `a-b` and `a` of one namespace can overwrite each other's object. */
  lemma MultiObjectNamesCanClash()
    ensures DefaultMultiObjectName("files", "a-b", "c") == DefaultMultiObjectName("files", "a", "b-c")
  {
  }

  // ---------------------------------------------------------------------------
  // Requests
  // ---------------------------------------------------------------------------

  /** A write of the operator to the cluster. */
  datatype Request =
    | DbSecret(cr: string, password: string, host: string, port: string)
    | MultiObject(kind: Kind, objectType: string, cr: string, item: string, data: map<string, string>)
    | Single(kind: Kind, name: string, data: map<string, string>)
    | PluginDependency(kind: Kind, name: string, data: map<string, string>)
    | LabelExternal(kind: Kind, name: string, meta: string)

  function KeyOf(r: Request): Key {
    match r
    case DbSecret(cr, _, _, _) => Key(Secret, DbSecretName(cr))
    case MultiObject(kind, objectType, cr, item, _) => Key(kind, DefaultMultiObjectName(objectType, cr, item))
    case Single(kind, name, _) => Key(kind, name)
    case PluginDependency(kind, name, _) => Key(kind, name)
    case LabelExternal(kind, name, _) => Key(kind, name)
  }

  function DbSecretData(password: string, host: string, port: string): map<string, string> {
    map["POSTGRES_PASSWORD" := password, "POSTGRESQL_ADMIN_PASSWORD" := password,
        "POSTGRES_USER" := "postgres", "POSTGRES_HOST" := host, "POSTGRES_PORT" := port]
  }

  /** What the operator generates: the only single Secret is the database one, and
      the multi-object Secrets are files and environments. The plugin dependencies
      shipped with the operator can be anything. */
  predicate Generated(r: Request) {
    && (r.Single? ==> r.kind != Secret)
    && (r.MultiObject? && r.kind == Secret ==> r.objectType in {"files", "envs"})
  }

  /** Create-if-absent for the database secret, overwrite for the rest; labelling
      an external object changes its metadata only. */
  function Apply(store: Store, r: Request): Store {
    match r
    case DbSecret(_, password, host, port) =>
      if KeyOf(r) in store then store else store[KeyOf(r) := Stored(DbSecretData(password, host, port), "")]
    case LabelExternal(_, _, meta) =>
      if KeyOf(r) in store then store[KeyOf(r) := store[KeyOf(r)].(meta := meta)] else store
    case MultiObject(_, _, _, _, data) => store[KeyOf(r) := Stored(data, "")]
    case Single(_, _, data) => store[KeyOf(r) := Stored(data, "")]
    case PluginDependency(_, _, data) => store[KeyOf(r) := Stored(data, "")]
  }

  /** What the store holds after a request: a generated object has exactly the
      requested content, a database secret is created with its five entries and
      never changed, labelling changes the metadata of an existing object only,
      and no other object is touched. */
  lemma ApplyLaw(store: Store, r: Request)
    ensures var t, k := Apply(store, r), KeyOf(r);
            && (r.Single? || r.MultiObject? || r.PluginDependency? ==>
                k in t && t[k].data == r.data && t[k].meta == "")
            && (r.DbSecret? ==> k in t)
            && (r.DbSecret? && k in store ==> t[k] == store[k])
            && (r.DbSecret? && k !in store ==> HoldsPassword(t[k].data, r.password, r.host, r.port))
            && (r.LabelExternal? ==> (k in t <==> k in store))
            && (r.LabelExternal? && k in store ==> t[k].data == store[k].data && t[k].meta == r.meta)
            && forall l :: l != k ==> (l in t <==> l in store) && (l in store ==> t[l] == store[l])
  {
  }

  /** The object that a request writes, by kind and name. */
  lemma KeyLaw(r: Request)
    ensures r.DbSecret? ==> KeyOf(r).kind == Secret && KeyOf(r).name == "backstage-psql-secret-" + r.cr
    ensures !r.DbSecret? ==> KeyOf(r).kind == r.kind
    ensures r.MultiObject? ==> KeyOf(r).name == "backstage-" + r.objectType + "-" + r.cr + "-" + r.item
    ensures r.Single? || r.PluginDependency? || r.LabelExternal? ==> KeyOf(r).name == r.name
  {
  }

  /** The entries of a database secret. */
  ghost predicate HoldsPassword(data: map<string, string>, password: string, host: string, port: string) {
    && data.Keys == {"POSTGRES_PASSWORD", "POSTGRESQL_ADMIN_PASSWORD", "POSTGRES_USER",
                     "POSTGRES_HOST", "POSTGRES_PORT"}
    && data["POSTGRES_PASSWORD"] == password && data["POSTGRESQL_ADMIN_PASSWORD"] == password
    && data["POSTGRES_USER"] == "postgres" && data["POSTGRES_HOST"] == host && data["POSTGRES_PORT"] == port
  }

  function RunAll(store: Store, rs: seq<Request>): Store {
    if rs == [] then store else Apply(RunAll(store, rs[..|rs| - 1]), rs[|rs| - 1])
  }

  // ---------------------------------------------------------------------------
  // The imperative apply loop
  // ---------------------------------------------------------------------------

  /** An object of the model: a single one, or the items of a multi-object. */
  datatype RuntimeObject = One(request: Request) | Many(items: seq<Request>)

  function Requests(objects: seq<RuntimeObject>): seq<Request> {
    if objects == [] then []
    else
      Requests(objects[..|objects| - 1]) + Items(objects[|objects| - 1])
  }

  function Items(o: RuntimeObject): seq<Request> {
    if o.One? then [o.request] else o.items
  }

  /** Every item of every object is asked for, and nothing else. */
  lemma {:induction false} RequestsIff(os: seq<RuntimeObject>, r: Request)
    ensures r in Requests(os) <==> exists o :: o in os && (o == One(r) || (o.Many? && r in o.items))
  {
    if os != [] {
      var init, last := os[..|os| - 1], os[|os| - 1];
      RequestsIff(init, r);
      assert last in os && forall o :: o in os <==> o in init || o == last;
    }
  }

  /** The last request for an object decides what the store holds: after a run a
      generated object has the content of the last request for it. */
  lemma {:induction false} LastRequestStays(store: Store, rs: seq<Request>, i: nat)
    requires i < |rs| && (rs[i].Single? || rs[i].MultiObject? || rs[i].PluginDependency?)
    requires forall j :: i < j < |rs| ==> KeyOf(rs[j]) != KeyOf(rs[i])
    ensures KeyOf(rs[i]) in RunAll(store, rs) && RunAll(store, rs)[KeyOf(rs[i])].data == rs[i].data
  {
    var n := |rs| - 1;
    if i < n {
      LastRequestStays(store, rs[..n], i);
      ApplyLaw(RunAll(store, rs[..n]), rs[n]);
    }
  }

  lemma {:induction false} RunAllConcat(store: Store, a: seq<Request>, b: seq<Request>)
    ensures RunAll(store, a + b) == RunAll(RunAll(store, a), b)
  {
    if b == [] {
      assert a + b == a;
    } else {
      InitOfConcat(a, b);
      RunAllConcat(store, a, b[..|b| - 1]);
    }
  }

  /** The cluster as the operator's client sees it. `fails(n)` says whether the
      n-th call to the API server is refused; a refused call changes nothing. */
  class Cluster {
    var objects: Store
    var calls: nat

    constructor ()
      ensures objects == map[] && calls == 0
    {
      objects, calls := map[], 0;
    }

    method ApplyPayload(r: Request, fails: nat -> bool) returns (ok: bool)
      modifies this
      ensures ok == !fails(old(calls)) && calls == old(calls) + 1
      ensures objects == if ok then Apply(old(objects), r) else old(objects)
    {
      ok := !fails(calls);
      calls := calls + 1;
      if !ok {
        return;
      }
      var key := KeyOf(r);
      if r.DbSecret? {
        if key !in objects {
          objects := objects[key := Stored(DbSecretData(r.password, r.host, r.port), "")];
        }
      } else if r.LabelExternal? {
        if key in objects {
          objects := objects[key := objects[key].(meta := r.meta)];
        }
      } else {
        objects := objects[key := Stored(r.data, "")];
      }
    }

    method ApplyItems(rs: seq<Request>, fails: nat -> bool) returns (ok: bool, ghost done: nat)
      modifies this
      ensures done <= |rs| && (ok <==> done == |rs|)
      ensures objects == RunAll(old(objects), rs[..done])
      ensures ok ==> calls == old(calls) + |rs| && forall n :: old(calls) <= n < calls ==> !fails(n)
      ensures !ok ==> calls == old(calls) + done + 1 && fails(calls - 1)
    {
      done := 0;
      for i := 0 to |rs|
        invariant done == i && objects == RunAll(old(objects), rs[..i])
        invariant calls == old(calls) + i && forall n :: old(calls) <= n < calls ==> !fails(n)
      {
        assert rs[..i + 1][..i] == rs[..i];
        ok := ApplyPayload(rs[i], fails);
        if !ok {
          return;
        }
        done := done + 1;
      }
      ok := true;
    }

    /** Applies the items of one object after the requests in `before`. */
    method ApplyNext(items: seq<Request>, fails: nat -> bool, ghost start: Store, ghost before: seq<Request>)
      returns (ok: bool, ghost after: seq<Request>)
      requires objects == RunAll(start, before)
      modifies this
      ensures objects == RunAll(start, after) && before <= after <= before + items
      ensures ok ==> after == before + items && calls >= old(calls) && forall n :: old(calls) <= n < calls ==> !fails(n)
      ensures !ok ==> |after| < |before + items| && calls > 0 && fails(calls - 1)
    {
      ghost var more;
      ok, more := ApplyItems(items, fails);
      RunAllConcat(start, before, items[..more]);
      after := before + items[..more];
    }

    /** `applyObjects`: applies the objects in order and stops at the first
        failure, having done exactly the requests before it. */
    method ApplyObjects(os: seq<RuntimeObject>, fails: nat -> bool) returns (ok: bool, ghost done: seq<Request>)
      modifies this
      ensures objects == RunAll(old(objects), done)
      ensures ok ==> done == Requests(os) && forall n :: old(calls) <= n < calls ==> !fails(n)
      ensures !ok ==> done < Requests(os) && calls > 0 && fails(calls - 1)
    {
      done := [];
      ghost var start := objects;
      for i := 0 to |os|
        invariant objects == RunAll(start, done) && done == Requests(os[..i])
        invariant calls >= old(calls) && forall n :: old(calls) <= n < calls ==> !fails(n)
      {
        RequestsAt(os, i);
        ghost var all := done + Items(os[i]);
        ok, done := ApplyNext(Items(os[i]), fails, start, done);
        if !ok {
          assert done <= all <= Requests(os) && |done| < |all|;
          return;
        }
      }
      assert os[..|os|] == os;
      ok := true;
    }

    /** Reconciles one after another, of any CRs, each stopped by its own first
        failure after `cuts[i]` requests: whatever they are and wherever they stop,
        no object is removed and every database secret that exists keeps its
        content, unless a plugin dependency is a Secret of that very name. */
    method Reconciles(runs: seq<seq<RuntimeObject>>, fails: nat -> bool) returns (ghost cuts: seq<nat>)
      requires forall os, r :: os in runs && r in Requests(os) ==> Generated(r)
      modifies this
      ensures IsCut(runs, cuts) && objects == RunAll(old(objects), CutShort(runs, cuts))
      ensures old(objects).Keys <= objects.Keys
      ensures forall cr :: DbSecretKey(cr) in old(objects) ==>
                var last := LastOverwrite(CutShort(runs, cuts), DbSecretName(cr));
                objects[DbSecretKey(cr)].data ==
                if last.Some? then last.value else old(objects)[DbSecretKey(cr)].data
    {
      cuts := [];
      ghost var start := objects;
      for i := 0 to |runs|
        invariant IsCut(runs[..i], cuts) && objects == RunAll(start, CutShort(runs[..i], cuts))
      {
        ghost var more;
        var ok;
        ok, more := ApplyObjects(runs[i], fails);
        RunAllConcat(start, CutShort(runs[..i], cuts), more);
        assert more == Requests(runs[i])[..|more|];
        CutShortSnoc(runs, i, cuts, |more|);
        cuts := cuts + [|more|];
      }
      assert runs[..|runs|] == runs;
      CutShortGenerated(runs, cuts);
      forall cr ensures start.Keys <= objects.Keys && (DbSecretKey(cr) in start ==>
                          var last := LastOverwrite(CutShort(runs, cuts), DbSecretName(cr));
                          objects[DbSecretKey(cr)].data ==
                          if last.Some? then last.value else start[DbSecretKey(cr)].data)
      {
        DbSecretStable(start, CutShort(runs, cuts), cr);
      }
      DbSecretStable(start, CutShort(runs, cuts), "");
    }
  }

  ghost predicate IsCut(runs: seq<seq<RuntimeObject>>, cuts: seq<nat>) {
    |cuts| == |runs| && forall i :: 0 <= i < |runs| ==> cuts[i] <= |Requests(runs[i])|
  }

  /** The first `cuts[i]` requests of each run. */
  ghost function CutShort(runs: seq<seq<RuntimeObject>>, cuts: seq<nat>): seq<Request>
    requires IsCut(runs, cuts)
  {
    if runs == [] then []
    else
      var n := |runs| - 1;
      CutShort(runs[..n], cuts[..n]) + Requests(runs[n])[..cuts[n]]
  }

  lemma CutShortSnoc(runs: seq<seq<RuntimeObject>>, i: nat, cuts: seq<nat>, cut: nat)
    requires i < |runs| && IsCut(runs[..i], cuts) && cut <= |Requests(runs[i])|
    ensures IsCut(runs[..i + 1], cuts + [cut])
    ensures CutShort(runs[..i + 1], cuts + [cut]) == CutShort(runs[..i], cuts) + Requests(runs[i])[..cut]
  {
    assert runs[..i + 1][..i] == runs[..i] && (cuts + [cut])[..i] == cuts;
    assert forall j :: 0 <= j < i ==> runs[..i + 1][j] == runs[..i][j] && (cuts + [cut])[j] == cuts[j];
  }

  lemma {:induction false} CutShortGenerated(runs: seq<seq<RuntimeObject>>, cuts: seq<nat>)
    requires IsCut(runs, cuts) && forall os, r :: os in runs && r in Requests(os) ==> Generated(r)
    ensures forall r :: r in CutShort(runs, cuts) ==> Generated(r)
  {
    if runs != [] {
      var n := |runs| - 1;
      assert runs[n] in runs && forall os :: os in runs[..n] ==> os in runs;
      CutShortGenerated(runs[..n], cuts[..n]);
    }
  }

  lemma RequestsAt(os: seq<RuntimeObject>, i: nat)
    requires i < |os|
    ensures Requests(os[..i + 1]) == Requests(os[..i]) + Items(os[i])
    ensures Requests(os[..i]) + Items(os[i]) <= Requests(os)
  {
    assert os[..i + 1][..i] == os[..i];
    RequestsPrefix(os, i + 1);
  }

  lemma {:induction false} RequestsPrefix(os: seq<RuntimeObject>, n: nat)
    requires n <= |os|
    ensures Requests(os[..n]) <= Requests(os)
  {
    if n == |os| {
      assert os[..n] == os;
    } else {
      assert os[..|os| - 1][..n] == os[..n];
      RequestsPrefix(os[..|os| - 1], n);
    }
  }

  // ---------------------------------------------------------------------------
  // Every run
  // ---------------------------------------------------------------------------

  function DbSecretKey(cr: string): Key {
    Key(Secret, DbSecretName(cr))
  }

  /** The plugin dependency is a Secret of the given name. */
  predicate Overwrites(r: Request, name: string) {
    r.PluginDependency? && r.kind == Secret && r.name == name
  }

  /** The content that the last such plugin dependency brings. */
  function LastOverwrite(rs: seq<Request>, name: string): (r: Option<map<string, string>>)
    ensures r.None? <==> forall i :: 0 <= i < |rs| ==> !Overwrites(rs[i], name)
  {
    if rs == [] then None
    else if Overwrites(rs[|rs| - 1], name) then Some(rs[|rs| - 1].data)
    else
      assert forall i :: 0 <= i < |rs| - 1 ==> rs[..|rs| - 1][i] == rs[i];
      LastOverwrite(rs[..|rs| - 1], name)
  }

  /** No generated request rewrites the content of an existing database secret,
      unless it is a plugin dependency of that very name. */
  lemma DbSecretUntouched(store: Store, r: Request, cr: string)
    requires Generated(r) && DbSecretKey(cr) in store
    ensures var k := DbSecretKey(cr);
            && k in Apply(store, r)
            && Apply(store, r)[k].data == if Overwrites(r, DbSecretName(cr)) then r.data else store[k].data
  {
    if r.MultiObject? && r.kind == Secret {
      MultiObjectIsNoDbSecret(r.objectType, r.cr, r.item, cr);
    }
  }

  /** Over every sequence of writes by any reconciles, of any CRs, interleaved
      and cut short anywhere, with a new password in every run: objects are never
      removed, and the content of an existing database secret stays, unless a
      plugin dependency is a Secret of that very name; then the last one decides. */
  lemma {:induction false} DbSecretStable(store: Store, rs: seq<Request>, cr: string)
    requires forall r :: r in rs ==> Generated(r)
    ensures store.Keys <= RunAll(store, rs).Keys
    ensures var k, last := DbSecretKey(cr), LastOverwrite(rs, DbSecretName(cr));
            k in store ==> RunAll(store, rs)[k].data == if last.Some? then last.value else store[k].data
  {
    if rs != [] {
      var init, last := rs[..|rs| - 1], rs[|rs| - 1];
      assert last in rs && forall r :: r in init ==> r in rs;
      DbSecretStable(store, init, cr);
      if DbSecretKey(cr) in store {
        DbSecretUntouched(RunAll(store, init), last, cr);
      }
    }
  }

  /** Nothing creates a database secret except its own CR's request or a plugin
      dependency of that very name. */
  lemma {:induction false} DbSecretOnlyByRequest(store: Store, rs: seq<Request>, cr: string)
    requires DbSecretKey(cr) !in store && forall r :: r in rs ==> Generated(r)
    requires forall r :: r in rs ==> !(r.DbSecret? && r.cr == cr)
    ensures var k, last := DbSecretKey(cr), LastOverwrite(rs, DbSecretName(cr));
            && (k in RunAll(store, rs) <==> last.Some?)
            && (last.Some? ==> RunAll(store, rs)[k].data == last.value)
  {
    if rs != [] {
      var init, last := rs[..|rs| - 1], rs[|rs| - 1];
      assert last in rs && forall r :: r in init ==> r in rs;
      DbSecretOnlyByRequest(store, init, cr);
      if DbSecretKey(cr) in RunAll(store, init) {
        DbSecretUntouched(RunAll(store, init), last, cr);
      } else if last.MultiObject? && last.kind == Secret {
        MultiObjectIsNoDbSecret(last.objectType, last.cr, last.item, cr);
      } else if last.DbSecret? && DbSecretName(last.cr) == DbSecretName(cr) {
        DbSecretNameInjective(last.cr, cr);
      }
    }
  }

  lemma {:induction false} LastOverwriteConcat(a: seq<Request>, b: seq<Request>, name: string)
    ensures LastOverwrite(a + b, name) ==
            if LastOverwrite(b, name).Some? then LastOverwrite(b, name) else LastOverwrite(a, name)
  {
    if b == [] {
      assert a + b == a;
    } else {
      InitOfConcat(a, b);
      LastOverwriteConcat(a, b[..|b| - 1], name);
    }
  }

  /** The password in use is the one that the first successful request of the CR
      brought, whatever passwords later runs draw, unless a plugin dependency is a
      Secret of that very name. */
  lemma {:induction false} FirstPasswordStays(store: Store, rs: seq<Request>, i: nat, cr: string)
    requires DbSecretKey(cr) !in store && forall r :: r in rs ==> Generated(r)
    requires i < |rs| && rs[i].DbSecret? && rs[i].cr == cr
    requires forall j :: 0 <= j < i ==> !(rs[j].DbSecret? && rs[j].cr == cr)
    ensures var k, last := DbSecretKey(cr), LastOverwrite(rs, DbSecretName(cr));
            && k in RunAll(store, rs)
            && (last.Some? ==> RunAll(store, rs)[k].data == last.value)
            && (last.None? ==> HoldsPassword(RunAll(store, rs)[k].data, rs[i].password, rs[i].host, rs[i].port))
  {
    var before, rest := rs[..i], rs[i + 1..];
    assert rs == before + [rs[i]] + rest;
    assert forall r :: r in before ==> r in rs;
    assert forall r :: r in rest ==> r in rs;
    DbSecretOnlyByRequest(store, before, cr);
    RunAllConcat(store, before + [rs[i]], rest);
    AfterOne(store, before, rs[i]);
    DbSecretStable(RunAll(store, before + [rs[i]]), rest, cr);
    LastOverwriteConcat(before + [rs[i]], rest, DbSecretName(cr));
    LastOverwriteConcat(before, [rs[i]], DbSecretName(cr));
  }

  lemma AfterOne(store: Store, before: seq<Request>, r: Request)
    ensures RunAll(store, before + [r]) == Apply(RunAll(store, before), r)
  {
    assert (before + [r])[..|before|] == before;
  }

  /** A plugin dependency of that name does replace the password. */
  lemma DependencyReplacesPassword(store: Store, cr: string, data: map<string, string>)
    requires DbSecretKey(cr) in store && store[DbSecretKey(cr)].data != data
    ensures var r := PluginDependency(Secret, DbSecretName(cr), data);
            Generated(r) && Apply(store, r)[DbSecretKey(cr)].data != store[DbSecretKey(cr)].data
  {
  }
}
