/** Which plugins are enabled after all merges, and the dependencies they bring
    (pkg/model/dynamic-plugins.go). */
module PluginActivation {
  import opened GoStrings
  import opened DynaPlugins
  import opened PluginMerge
  import opened PluginFold

  function EnabledOnly(ps: seq<Plugin>): seq<Plugin> {
    if ps == [] then []
    else
      EnabledOnly(ps[..|ps| - 1]) + if IsDisabled(ps[|ps| - 1]) then [] else [ps[|ps| - 1]]
  }

  /** The plugin is not disabled and has the dependency. */
  predicate Needs(p: Plugin, d: string) {
    !IsDisabled(p) && p.dependencies.Some? && d in p.dependencies.value
  }

  /** The dependencies of one plugin that count. */
  function Needed(p: Plugin): seq<string> {
    if IsDisabled(p) || p.dependencies.None? then [] else p.dependencies.value
  }

  function DependencyList(ps: seq<Plugin>): seq<string> {
    if ps == [] then [] else DependencyList(ps[..|ps| - 1]) + Needed(ps[|ps| - 1])
  }

  lemma {:induction false} EnabledIff(ps: seq<Plugin>, p: Plugin)
    ensures p in EnabledOnly(ps) <==> p in ps && !IsDisabled(p)
  {
    if ps != [] {
      var init, last := ps[..|ps| - 1], ps[|ps| - 1];
      assert p in ps <==> p in init || p == last;
      EnabledIff(init, p);
    }
  }

  lemma {:induction false} DependencyIff(ps: seq<Plugin>, d: string)
    ensures d in DependencyList(ps) <==> exists p :: p in ps && Needs(p, d)
  {
    if ps != [] {
      var init, last := ps[..|ps| - 1], ps[|ps| - 1];
      assert last in ps && forall q :: q in ps <==> q in init || q == last;
      DependencyIff(init, d);
      assert d in Needed(last) <==> Needs(last, d);
    }
  }

  ghost predicate Increasing(at: seq<nat>, n: nat) {
    && (forall i :: 0 <= i < |at| ==> at[i] < n)
    && (forall i, j :: 0 <= i < j < |at| ==> at[i] < at[j])
  }

  /** `r` are the plugins at the increasing positions `at` of the list, none of them
      disabled; at all other positions the plugin is disabled. */
  ghost predicate EnabledAt(ps: seq<Plugin>, r: seq<Plugin>, at: seq<nat>) {
    && |at| == |r| && Increasing(at, |ps|)
    && (forall i :: 0 <= i < |at| && at[i] < |ps| ==> r[i] == ps[at[i]] && !IsDisabled(ps[at[i]]))
    && (forall j: nat :: j < |ps| && j !in at ==> IsDisabled(ps[j]))
  }

  lemma {:induction false} EnabledInOrder(ps: seq<Plugin>) returns (at: seq<nat>)
    ensures EnabledAt(ps, EnabledOnly(ps), at)
  {
    at := [];
    if ps != [] {
      var n := |ps| - 1;
      at := EnabledInOrder(ps[..n]);
      assert ps == ps[..n] + [ps[n]];
      OneMoreEnabled(ps[..n], EnabledOnly(ps[..n]), at, ps[n]);
      at := if IsDisabled(ps[n]) then at else at + [n];
    }
  }

  lemma OneMoreEnabled(ps: seq<Plugin>, r: seq<Plugin>, at: seq<nat>, p: Plugin)
    requires EnabledAt(ps, r, at)
    ensures IsDisabled(p) ==> EnabledAt(ps + [p], r, at)
    ensures !IsDisabled(p) ==> EnabledAt(ps + [p], r + [p], at + [|ps|])
  {
    assert (at + [|ps|])[|at|] == |ps|;
  }

  /** The dependencies are those of the plugins that are not disabled, plugin by
      plugin, in order. */
  lemma {:induction false} DependenciesInOrder(ps: seq<Plugin>)
    ensures |ps| == 1 ==> DependencyList(ps) == if IsDisabled(ps[0]) || ps[0].dependencies.None? then []
                                                else ps[0].dependencies.value
    ensures forall n :: 0 <= n <= |ps| ==> DependencyList(ps) == DependencyList(ps[..n]) + DependencyList(ps[n..])
  {
    if |ps| == 1 {
      assert ps[..0] == [];
    }
    forall n | 0 <= n <= |ps| ensures DependencyList(ps) == DependencyList(ps[..n]) + DependencyList(ps[n..]) {
      assert ps[..n] + ps[n..] == ps;
      DependenciesConcat(ps[..n], ps[n..]);
    }
  }

  lemma {:induction false} DependenciesConcat(a: seq<Plugin>, b: seq<Plugin>)
    ensures DependencyList(a + b) == DependencyList(a) + DependencyList(b)
  {
    if b == [] {
      assert a + b == a;
    } else {
      InitOfConcat(a, b);
      DependenciesConcat(a, b[..|b| - 1]);
    }
  }

  /** The loop of `Dependencies`; data that does not parse is an error, blank data has no plugins. */
  method Dependencies(data: Data) returns (r: Option<seq<string>>)
    ensures r.None? <==> data.Malformed?
    ensures r.Some? ==> r.value == DependencyList(PluginsOf(data))
  {
    if data.Malformed? {
      return None;
    }
    var ps := PluginsOf(data);
    var result := [];
    for i := 0 to |ps|
      invariant result == DependencyList(ps[..i])
    {
      assert ps[..i + 1][..i] == ps[..i];
      if IsDisabled(ps[i]) {
        continue;
      }
      if ps[i].dependencies.Some? {
        result := result + ps[i].dependencies.value;
      }
    }
    assert ps[..|ps|] == ps;
    r := Some(result);
  }

  /** The enabled-plugin filter of `addToModel`, with the lines of packages.txt. */
  method EnabledPlugins(ps: seq<Plugin>) returns (enabled: seq<Plugin>, packages: seq<string>)
    ensures enabled == EnabledOnly(ps) && packages == Packages(enabled)
  {
    enabled, packages := [], [];
    for i := 0 to |ps|
      invariant enabled == EnabledOnly(ps[..i]) && packages == Packages(enabled)
    {
      assert ps[..i + 1][..i] == ps[..i];
      if !IsDisabled(ps[i]) {
        enabled, packages := enabled + [ps[i]], packages + [ps[i].package];
      }
    }
    assert ps[..|ps|] == ps;
  }

  lemma {:induction false} DistinctLookup(ps: seq<Plugin>, p: Plugin)
    requires Distinct(ps) && p in ps
    ensures p.package in ByPackage(ps) && ByPackage(ps)[p.package] == p
  {
    var init, last := ps[..|ps| - 1], ps[|ps| - 1];
    if p != last {
      assert ps == init + [last];
      assert p in init;
      DistinctLookup(init, p);
      var i :| 0 <= i < |init| && init[i] == p;
      assert ps[i].package != ps[|ps| - 1].package;
    }
  }

  lemma ListedIff(ps: seq<Plugin>, k: string)
    ensures k in Packages(ps) <==> exists p :: p in ps && p.package == k
  {
    if k in Packages(ps) {
      var i :| 0 <= i < |ps| && Packages(ps)[i] == k;
      assert ps[i] in ps;
    }
    if p :| p in ps && p.package == k {
      var i :| 0 <= i < |ps| && ps[i] == p;
      assert Packages(ps)[i] == k;
    }
  }

  /** At most one source: its plugin list is the result. */
  lemma Unmerged(sources: seq<Data>, resolve: bool, overlays: seq<seq<Plugin>>, out: Data)
    requires Reaches(sources, resolve, overlays, out) && |overlays| < 2
    ensures PluginsOf(out) == Flatten(overlays)
  {
    ReachesShape(sources, resolve, overlays, out);
    if |overlays| == 1 {
      SingleSource(sources, resolve, overlays, out);
      assert overlays[..0] == [] && [] + overlays[0] == overlays[0];
    }
  }

  /** The packages in packages.txt. After a merge they are exactly the ones that
      the merge law calls enabled; a single source is taken over as it is, and a
      package is installed when one of its entries is not disabled. */
  lemma EnabledPackagesLaw(sources: seq<Data>, resolve: bool, overlays: seq<seq<Plugin>>, out: Data, k: string)
    requires Reaches(sources, resolve, overlays, out)
    ensures k in Packages(EnabledOnly(PluginsOf(out))) <==>
            if |overlays| >= 2 then Layers(overlays, k) != [] && !DisabledByLast(Layers(overlays, k))
            else exists p :: p in Flatten(overlays) && p.package == k && !IsDisabled(p)
  {
    var ps := PluginsOf(out);
    EnabledPackageIff(ps, k);
    if |overlays| < 2 {
      Unmerged(sources, resolve, overlays, out);
    } else {
      FoldStack(sources, resolve, overlays, out, k);
      var layers := Layers(overlays, k);
      if layers != [] {
        StackFields(layers);
      }
      ByPackageKeys(ps);
      if p :| p in ps && p.package == k && !IsDisabled(p) {
        DistinctLookup(ps, p);
      }
    }
  }

  lemma {:induction false} EnabledPackageIff(ps: seq<Plugin>, k: string)
    ensures k in Packages(EnabledOnly(ps)) <==> exists p :: p in ps && p.package == k && !IsDisabled(p)
  {
    ListedIff(EnabledOnly(ps), k);
    forall p ensures p in EnabledOnly(ps) <==> p in ps && !IsDisabled(p) {
      EnabledIff(ps, p);
    }
  }

  /** A dependency is listed exactly when a package that the merge law calls
      enabled has it as its last set dependencies; for a single source, when an
      entry that is not disabled has it. */
  lemma DependencyLaw(sources: seq<Data>, resolve: bool, overlays: seq<seq<Plugin>>, out: Data, d: string)
    requires Reaches(sources, resolve, overlays, out)
    ensures d in DependencyList(PluginsOf(out)) <==>
            if |overlays| >= 2 then exists k :: Brings(overlays, k, d)
            else exists p :: p in Flatten(overlays) && Needs(p, d)
  {
    if |overlays| < 2 {
      Unmerged(sources, resolve, overlays, out);
      DependencyIff(PluginsOf(out), d);
    } else {
      MergedDependencies(sources, resolve, overlays, out, d);
    }
  }

  lemma {:induction false} MergedDependencies(sources: seq<Data>, resolve: bool, overlays: seq<seq<Plugin>>,
                                              out: Data, d: string)
    requires Reaches(sources, resolve, overlays, out) && |overlays| >= 2
    ensures d in DependencyList(PluginsOf(out)) <==> exists k :: Brings(overlays, k, d)
  {
    FoldStack(sources, resolve, overlays, out, "");
    var ps := PluginsOf(out);
    ByPackageKeys(ps);
    DependencyIff(ps, d);
    if p :| p in ps && Needs(p, d) {
      DistinctLookup(ps, p);
      PackageBrings(sources, resolve, overlays, out, p.package, d);
    }
    if k :| Brings(overlays, k, d) {
      PackageBrings(sources, resolve, overlays, out, k, d);
      assert ByPackage(ps)[k] in ps;
    }
  }

  lemma {:induction false} PackageBrings(sources: seq<Data>, resolve: bool, overlays: seq<seq<Plugin>>, out: Data,
                                         k: string, d: string)
    requires Reaches(sources, resolve, overlays, out) && |overlays| >= 2
    ensures var m := ByPackage(PluginsOf(out)); Brings(overlays, k, d) <==> k in m && Needs(m[k], d)
  {
    FoldStack(sources, resolve, overlays, out, k);
    if Layers(overlays, k) != [] {
      StackFields(Layers(overlays, k));
    }
  }

  /** Package `k` is enabled by its last entry and its last set dependencies include `d`. */
  ghost predicate Brings(overlays: seq<seq<Plugin>>, k: string, d: string)
    requires overlays != []
  {
    var layers := Layers(overlays, k);
    && layers != [] && !DisabledByLast(layers)
    && LastDependencies(layers).Some? && d in LastDependencies(layers).value
  }
}
