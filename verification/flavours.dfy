/** Which flavours are enabled, and exactly when their order does not matter
    (pkg/model/flavour.go, pkg/model/default-config.go). */
module Flavours {
  import opened GoStrings
  import opened DynaPlugins
  import opened PluginReferences
  import opened PluginMerge
  import opened PluginFold

  datatype FlavourInfo = FlavourInfo(basePath: string, enabled: bool)
  datatype EnabledFlavour = EnabledFlavour(name: string, basePath: string)
  datatype SpecFlavour = SpecFlavour(name: string, enabled: bool)

  datatype Selection = Selected(flavours: seq<EnabledFlavour>) | UnknownFlavour(name: string)

  /** The last spec entry for a flavour, if there is one, decides; otherwise its default. */
  predicate IsEnabled(spec: seq<SpecFlavour>, name: string, byDefault: bool) {
    if spec == [] then byDefault
    else if spec[|spec| - 1].name == name then spec[|spec| - 1].enabled
    else IsEnabled(spec[..|spec| - 1], name, byDefault)
  }

  /** Entry `i` is the last one of the spec for a flavour. */
  ghost predicate IsLastFor(spec: seq<SpecFlavour>, i: int, name: string) {
    0 <= i < |spec| && spec[i].name == name && forall j :: i < j < |spec| ==> spec[j].name != name
  }

  lemma {:induction false} LastEntryDecides(spec: seq<SpecFlavour>, i: int, name: string, byDefault: bool)
    requires IsLastFor(spec, i, name)
    ensures IsEnabled(spec, name, byDefault) == spec[i].enabled
  {
    var n := |spec| - 1;
    if i < n {
      assert spec[n].name != name;
      LastEntryDecides(spec[..n], i, name, byDefault);
    }
  }

  lemma {:induction false} DefaultDecides(spec: seq<SpecFlavour>, name: string, byDefault: bool)
    requires forall i :: 0 <= i < |spec| ==> spec[i].name != name
    ensures IsEnabled(spec, name, byDefault) == byDefault
  {
    if spec != [] {
      DefaultDecides(spec[..|spec| - 1], name, byDefault);
    }
  }

  /** `spec` is nil (`None`) or the list of the CR; `available` is what the
      flavours directory holds, with the defaults of the metadata files. */
  method GetEnabledFlavours(spec: Option<seq<SpecFlavour>>, available: map<string, FlavourInfo>) returns (r: Selection)
    ensures spec == Some([]) ==> r == Selected([])
    ensures r.UnknownFlavour? <==> spec.Some? && exists f :: f in spec.value && f.name !in available
    ensures r.Selected? ==> forall f :: f in r.flavours ==>
                              f.name in available && available[f.name].basePath == f.basePath
    ensures r.Selected? && spec.Some? ==>
              forall name, i :: name in available && IsLastFor(spec.value, i, name) ==>
                (EnabledFlavour(name, available[name].basePath) in r.flavours <==> spec.value[i].enabled)
    ensures r.Selected? && spec != Some([]) ==>
              forall name :: name in available && (spec.Some? ==> forall i :: 0 <= i < |spec.value| ==>
                                                                                spec.value[i].name != name) ==>
                (EnabledFlavour(name, available[name].basePath) in r.flavours <==> available[name].enabled)
    ensures r.Selected? ==> forall i, j :: 0 <= i < j < |r.flavours| ==> r.flavours[i].name != r.flavours[j].name
  {
    if spec == Some([]) {
      return Selected([]);
    }
    var all := available;
    var flavours := if spec.Some? then spec.value else [];
    for i := 0 to |flavours|
      invariant all.Keys == available.Keys
      invariant forall j :: 0 <= j < i ==> flavours[j].name in available
      invariant forall n :: n in all ==>
                  all[n] == FlavourInfo(available[n].basePath, IsEnabled(flavours[..i], n, available[n].enabled))
    {
      var f := flavours[i];
      if f.name !in all {
        return UnknownFlavour(f.name);
      }
      assert flavours[..i + 1][..i] == flavours[..i];
      all := all[f.name := all[f.name].(enabled := f.enabled)];
    }
    assert flavours[..|flavours|] == flavours;
    var result := CollectEnabled(all);
    r := Selected(result);
    forall name, i | name in available && IsLastFor(flavours, i, name)
      ensures IsEnabled(flavours, name, available[name].enabled) == flavours[i].enabled
    {
      LastEntryDecides(flavours, i, name, available[name].enabled);
    }
    forall name | name in available && forall i :: 0 <= i < |flavours| ==> flavours[i].name != name
      ensures IsEnabled(flavours, name, available[name].enabled) == available[name].enabled
    {
      DefaultDecides(flavours, name, available[name].enabled);
    }
    assert forall name :: name in available ==>
             (EnabledFlavour(name, available[name].basePath) in result <==>
              IsEnabled(flavours, name, available[name].enabled));
  }

  /** The enabled flavours of a map, in Go's arbitrary map order. */
  method CollectEnabled(all: map<string, FlavourInfo>) returns (result: seq<EnabledFlavour>)
    ensures forall name, path :: EnabledFlavour(name, path) in result <==>
              name in all && all[name].enabled && all[name].basePath == path
    ensures forall i, j :: 0 <= i < j < |result| ==> result[i].name != result[j].name
  {
    result := [];
    var todo := all.Keys;
    while todo != {}
      invariant todo <= all.Keys
      invariant forall name, path :: EnabledFlavour(name, path) in result <==>
                  name in all && name !in todo && all[name].enabled && all[name].basePath == path
      invariant forall f :: f in result ==> f.name !in todo
      invariant forall i, j :: 0 <= i < j < |result| ==> result[i].name != result[j].name
      decreases todo
    {
      var name :| name in todo;
      if all[name].enabled {
        assert forall f :: f in result ==> f.name != name;
        result := result + [EnabledFlavour(name, all[name].basePath)];
      }
      todo := todo - {name};
    }
  }

  // ---------------------------------------------------------------------------
  // The order of the flavours
  // ---------------------------------------------------------------------------

  function AllEntries(sources: seq<Data>): seq<Plugin> {
    if sources == [] then [] else AllEntries(sources[..|sources| - 1]) + PluginsOf(sources[|sources| - 1])
  }

  lemma OverlayIsSource(mid: Data, last: Data, resolve: bool, overlay: seq<Plugin>, out: Data)
    requires Merges(mid, last, resolve, overlay, out) && !last.Blank?
    requires resolve ==> forall p :: p in PluginsOf(last) ==> !IsRef(p.package) && !IsInherit(p.package)
    ensures overlay == PluginsOf(last)
  {
  }

  /** Without references the overlays are the sources' own plugin lists. */
  lemma {:induction false} OverlaysAreEntries(sources: seq<Data>, resolve: bool, overlays: seq<seq<Plugin>>, out: Data)
    requires Reaches(sources, resolve, overlays, out) && (resolve ==> NoReferences(sources))
    ensures Flatten(overlays) == AllEntries(sources) && |overlays| == CountNonBlank(sources)
  {
    if sources != [] {
      var init, last := sources[..|sources| - 1], sources[|sources| - 1];
      assert resolve ==> NoReferences(init);
      if last.Blank? {
        OverlaysAreEntries(init, resolve, overlays, out);
      } else {
        var before, overlay := overlays[..|overlays| - 1], overlays[|overlays| - 1];
        var mid :| Reaches(init, resolve, before, mid) && Merges(mid, last, resolve, overlay, out);
        OverlaysAreEntries(init, resolve, before, mid);
        assert last in sources;
        OverlayIsSource(mid, last, resolve, overlay, out);
      }
    }
  }

  // Permutations

  function Without(s: seq<Data>, i: nat): seq<Data>
    requires i < |s|
  {
    s[..i] + s[i + 1..]
  }

  lemma {:induction false} EntriesOfConcat(a: seq<Data>, b: seq<Data>)
    ensures AllEntries(a + b) == AllEntries(a) + AllEntries(b)
    ensures CountNonBlank(a + b) == CountNonBlank(a) + CountNonBlank(b)
  {
    if b == [] {
      assert a + b == a;
    } else {
      InitOfConcat(a, b);
      EntriesOfConcat(a, b[..|b| - 1]);
    }
  }

  lemma EntriesOfOne(d: Data)
    ensures AllEntries([d]) == PluginsOf(d) && CountNonBlank([d]) == if d.Blank? then 0 else 1
  {
  }

  lemma {:induction false} EntriesOfThree(a: seq<Data>, d: Data, b: seq<Data>)
    ensures AllEntries(a + [d] + b) == AllEntries(a) + PluginsOf(d) + AllEntries(b)
    ensures CountNonBlank(a + [d] + b) == CountNonBlank(a) + (if d.Blank? then 0 else 1) + CountNonBlank(b)
  {
    EntriesOfOne(d);
    EntriesOfConcat(a + [d], b);
    EntriesOfConcat(a, [d]);
  }

  lemma {:induction false} OneSourceLess(a: seq<Data>, d: Data, b: seq<Data>)
    ensures multiset(AllEntries(a + [d] + b)) == multiset(AllEntries(a + b)) + multiset(PluginsOf(d))
    ensures CountNonBlank(a + [d] + b) == CountNonBlank(a + b) + if d.Blank? then 0 else 1
  {
    EntriesOfThree(a, d, b);
    EntriesOfConcat(a, b);
    TakenOut(AllEntries(a), PluginsOf(d), AllEntries(b));
  }

  lemma {:induction false} EntriesWithout(s: seq<Data>, i: nat)
    requires i < |s|
    ensures multiset(AllEntries(s)) == multiset(AllEntries(Without(s, i))) + multiset(PluginsOf(s[i]))
    ensures CountNonBlank(s) == CountNonBlank(Without(s, i)) + if s[i].Blank? then 0 else 1
  {
    var whole := s[..i] + [s[i]] + s[i + 1..];
    assert whole == s;
    OneSourceLess(s[..i], s[i], s[i + 1..]);
  }

  lemma TakenOut(x: seq<Plugin>, y: seq<Plugin>, z: seq<Plugin>)
    ensures multiset(x + y + z) == multiset(x + z) + multiset(y)
  {
    assert multiset(x + y + z) == multiset(x) + multiset(y) + multiset(z);
    assert multiset(x + z) == multiset(x) + multiset(z);
  }

  lemma {:induction false} RemoveFromMultiset(s: seq<Data>, i: nat)
    requires i < |s|
    ensures multiset(Without(s, i)) == multiset(s) - multiset{s[i]}
  {
    assert s == s[..i] + [s[i]] + s[i + 1..];
  }

  lemma {:induction false} EntriesPermute(s: seq<Data>, t: seq<Data>)
    requires multiset(s) == multiset(t)
    ensures multiset(AllEntries(s)) == multiset(AllEntries(t)) && CountNonBlank(s) == CountNonBlank(t)
    decreases |s|
  {
    if s == [] {
      assert |multiset(t)| == 0;
      assert t == [];
    } else {
      assert s[0] in multiset(t);
      var i :| 0 <= i < |t| && t[i] == s[0];
      RemoveFromMultiset(s, 0);
      RemoveFromMultiset(t, i);
      EntriesPermute(Without(s, 0), Without(t, i));
      EntriesWithout(s, 0);
      EntriesWithout(t, i);
    }
  }

  // Entries of one package

  lemma {:induction false} EntriesCount(ps: seq<Plugin>, k: string, p: Plugin)
    ensures multiset(Entries(ps, k))[p] == if p.package == k then multiset(ps)[p] else 0
  {
    if ps != [] {
      EntriesCount(ps[..|ps| - 1], k, p);
      assert ps == ps[..|ps| - 1] + [ps[|ps| - 1]];
    }
  }

  lemma {:induction false} EntriesConcat(a: seq<Plugin>, b: seq<Plugin>, k: string)
    ensures Entries(a + b, k) == Entries(a, k) + Entries(b, k)
  {
    if b == [] {
      assert a + b == a;
    } else {
      InitOfConcat(a, b);
      EntriesConcat(a, b[..|b| - 1], k);
    }
  }

  lemma {:induction false} AtMostOneEntry(ps: seq<Plugin>, k: string)
    requires Distinct(ps)
    ensures |Entries(ps, k)| <= 1
    ensures Entries(ps, k) != [] ==> Entries(ps, k)[0] in ps && Entries(ps, k)[0].package == k
  {
    if ps != [] {
      var init := ps[..|ps| - 1];
      AtMostOneEntry(init, k);
      if Entries(init, k) != [] {
        var i :| 0 <= i < |init| && init[i] == Entries(init, k)[0];
        assert ps[i].package != ps[|ps| - 1].package;
      }
    }
  }

  /** Entries for a package are the same in every order of lists that name it at most once. */
  lemma SameEntries(a: seq<Plugin>, b: seq<Plugin>, k: string)
    requires multiset(a) == multiset(b) && Distinct(a)
    ensures Entries(a, k) == Entries(b, k)
  {
    forall p ensures multiset(Entries(a, k))[p] == multiset(Entries(b, k))[p] {
      EntriesCount(a, k, p);
      EntriesCount(b, k, p);
    }
    AtMostOneEntry(a, k);
    SameShortList(Entries(a, k), Entries(b, k));
  }

  lemma SameShortList(x: seq<Plugin>, y: seq<Plugin>)
    requires multiset(x) == multiset(y) && |x| <= 1
    ensures x == y
  {
    assert |x| == |multiset(x)| == |multiset(y)| == |y|;
    if |x| == 1 {
      assert x == [x[0]] && y == [y[0]];
      assert x[0] in multiset(y);
    }
  }

  lemma {:induction false} ByPackageEntries(ps: seq<Plugin>, k: string)
    ensures k in ByPackage(ps) <==> Entries(ps, k) != []
    ensures k in ByPackage(ps) ==> ByPackage(ps)[k] == Entries(ps, k)[|Entries(ps, k)| - 1]
  {
    if ps != [] {
      ByPackageEntries(ps[..|ps| - 1], k);
    }
  }

  ghost function PluginMap(d: Data): ByName {
    ByPackage(PluginsOf(d))
  }

  /** The plugin that a list of entries for one package gives in the end. */
  ghost function Outcome(entries: seq<Plugin>, sources: nat): Plugin
    requires entries != []
  {
    if sources == 1 then entries[|entries| - 1] else Erase(Stack(entries))
  }

  lemma {:induction false} FlattenHead(head: seq<Plugin>, tail: seq<seq<Plugin>>)
    ensures Flatten([head] + tail) == head + Flatten(tail)
  {
    var lists := [head] + tail;
    if tail == [] {
      assert lists[..0] == [];
      assert Flatten(lists) == [] + head == head + [];
    } else {
      var init, last := tail[..|tail| - 1], tail[|tail| - 1];
      FlattenHead(head, init);
      assert lists[..|lists| - 1] == [head] + init && lists[|lists| - 1] == last;
      assert Flatten(lists) == head + Flatten(init) + last == head + (Flatten(init) + last);
    }
  }

  /** Two or more sources, the first without duplicates: every entry of a package is a layer. */
  lemma MergedOutcome(overlays: seq<seq<Plugin>>, out: Data, k: string)
    requires |overlays| >= 2 && Folded(overlays, out) && Distinct(overlays[0])
    ensures var entries := Entries(overlays[0] + Flatten(overlays[1..]), k);
            && (k in PluginMap(out) <==> entries != [])
            && (entries != [] ==> PluginMap(out)[k] == Erase(Stack(entries)))
  {
    var first, rest := overlays[0], Flatten(overlays[1..]);
    ByPackageEntries(first, k);
    AtMostOneEntry(first, k);
    EntriesConcat(first, rest, k);
    MergeIntoStacks(ByPackage(first), rest, k);
    assert Layers(overlays, k) == Entries(first + rest, k);
  }

  /** What the fold gives a package depends only on the package's entries and on
      whether anything was merged at all. */
  lemma PackageOutcome(sources: seq<Data>, resolve: bool, overlays: seq<seq<Plugin>>, out: Data, k: string)
    requires Reaches(sources, resolve, overlays, out) && (resolve ==> NoReferences(sources))
    requires forall d :: d in sources ==> Distinct(PluginsOf(d))
    ensures var entries := Entries(AllEntries(sources), k);
            && (k in PluginMap(out) <==> entries != [])
            && (entries != [] ==> PluginMap(out)[k] == Outcome(entries, CountNonBlank(sources)))
  {
    OverlaysAreEntries(sources, resolve, overlays, out);
    ReachesFolded(sources, resolve, overlays, out);
    if overlays != [] {
      FirstOverlayDistinct(sources, resolve, overlays, out);
    }
    if |overlays| == 1 {
      SingleSource(sources, resolve, overlays, out);
    }
    OutcomeOfFold(overlays, out, k);
  }

  lemma {:induction false} OutcomeOfFold(overlays: seq<seq<Plugin>>, out: Data, k: string)
    requires Folded(overlays, out) && (overlays != [] ==> Distinct(overlays[0]))
    requires |overlays| == 1 ==> PluginsOf(out) == overlays[0]
    ensures var entries := Entries(Flatten(overlays), k);
            && (k in PluginMap(out) <==> entries != [])
            && (entries != [] ==> PluginMap(out)[k] == Outcome(entries, |overlays|))
  {
    if overlays != [] {
      FlattenHead(overlays[0], overlays[1..]);
      assert overlays == [overlays[0]] + overlays[1..];
      if |overlays| == 1 {
        assert overlays[1..] == [] && overlays[0] + [] == overlays[0];
        ByPackageEntries(overlays[0], k);
      } else {
        MergedOutcome(overlays, out, k);
      }
    }
  }

  /** The first overlay is the plugin list of one of the sources. */
  lemma {:induction false} FirstOverlayDistinct(sources: seq<Data>, resolve: bool,
                                                overlays: seq<seq<Plugin>>, out: Data)
    requires Reaches(sources, resolve, overlays, out) && overlays != []
    requires forall d :: d in sources ==> Distinct(PluginsOf(d))
    ensures Distinct(overlays[0])
  {
    var init, last := sources[..|sources| - 1], sources[|sources| - 1];
    if last.Blank? {
      FirstOverlayDistinct(init, resolve, overlays, out);
    } else {
      var before, overlay := overlays[..|overlays| - 1], overlays[|overlays| - 1];
      var mid :| Reaches(init, resolve, before, mid) && Merges(mid, last, resolve, overlay, out);
      if before != [] {
        FirstOverlayDistinct(init, resolve, before, mid);
      } else {
        ReachesFolded(init, resolve, before, mid);
        assert last in sources;
      }
    }
  }

  /** Every order of the flavours gives an outcome, and all outcomes hold the same plugins. */
  ghost predicate OrderIrrelevant(base: Data, fs: seq<Data>, resolve: bool) {
    exists m :: EveryOrderGives(base, fs, resolve, m)
  }

  ghost predicate EveryOrderGives(base: Data, fs: seq<Data>, resolve: bool, m: ByName) {
    forall gs :: multiset(gs) == multiset(fs) ==> Succeeds([base] + gs, resolve) && AllGive([base] + gs, resolve, m)
  }

  ghost predicate AllGive(sources: seq<Data>, resolve: bool, m: ByName) {
    forall overlays, out :: Reaches(sources, resolve, overlays, out) ==> PluginMap(out) == m
  }

  /** All sources parse and, with resolution on, every flavour has supported
      packages only; nothing is asked when at most one source has data. */
  ghost predicate FlavoursFit(base: Data, fs: seq<Data>, resolve: bool) {
    CountNonBlank([base] + fs) >= 2 ==>
      Malformed !in [base] + fs && (resolve ==> forall f :: f in fs ==> Supported(f))
  }

  /** Base first, then the flavours. When no source names a package twice, no two
      flavours share a package and nothing is a reference, the flavour order is
      irrelevant if and only if `FlavoursFit`. The base may overlap with every
      flavour, and may be missing (`Blank`). */
  lemma {:induction false} FlavourOrderIrrelevantIff(base: Data, fs: seq<Data>, resolve: bool)
    requires resolve ==> NoReferences([base] + fs)
    requires Distinct(PluginsOf(base)) && Distinct(AllEntries(fs))
    ensures OrderIrrelevant(base, fs, resolve) <==> FlavoursFit(base, fs, resolve)
  {
    if FlavoursFit(base, fs, resolve) {
      FittingOrderSucceeds(base, fs, fs, resolve);
      var overlays, out :| Reaches([base] + fs, resolve, overlays, out);
      forall gs | multiset(gs) == multiset(fs)
        ensures Succeeds([base] + gs, resolve) && AllGive([base] + gs, resolve, PluginMap(out))
      {
        FittingOrderSucceeds(base, fs, gs, resolve);
        OrdersAgree(base, fs, gs, resolve, overlays, out);
      }
      assert EveryOrderGives(base, fs, resolve, PluginMap(out));
    } else {
      BadOrder(base, fs, resolve);
      var gs :| multiset(gs) == multiset(fs) && !Succeeds([base] + gs, resolve);
      assert forall m :: !EveryOrderGives(base, fs, resolve, m);
    }
  }

  /** When one order of the flavours gives an outcome, every order gives the same
      plugins if and only if references are not resolved, at most one source has
      data, the base has data, or all packages of the flavours are supported. */
  lemma {:induction false} OneOrderThenAllIff(base: Data, fs: seq<Data>, resolve: bool,
                                              overlays: seq<seq<Plugin>>, out: Data)
    requires Reaches([base] + fs, resolve, overlays, out)
    requires resolve ==> NoReferences([base] + fs)
    requires Distinct(PluginsOf(base)) && Distinct(AllEntries(fs))
    ensures EveryOrderGives(base, fs, resolve, PluginMap(out)) <==>
            !resolve || CountNonBlank([base] + fs) <= 1 || !base.Blank? || forall f :: f in fs ==> Supported(f)
  {
    FlavourOrderIrrelevantIff(base, fs, resolve);
    SucceedsIff([base] + fs, resolve);
    FitsIff(base, fs, resolve);
    if m :| EveryOrderGives(base, fs, resolve, m) {
      assert AllGive([base] + fs, resolve, m);
      assert m == PluginMap(out);
    }
  }

  lemma {:induction false} FitsIff(base: Data, fs: seq<Data>, resolve: bool)
    requires Mergeable([base] + fs, resolve)
    ensures FlavoursFit(base, fs, resolve) <==>
            !resolve || CountNonBlank([base] + fs) <= 1 || !base.Blank? || forall f :: f in fs ==> Supported(f)
  {
    var sources := [base] + fs;
    if !base.Blank? && resolve {
      forall f | f in fs ensures Supported(f) {
        var j :| 0 <= j < |fs| && fs[j] == f;
        assert sources[0] == base && sources[j + 1] == f;
      }
    }
  }

  /** The order decides: without a base, the first flavour is taken over unchecked,
      while a later one must have supported packages. */
  lemma {:induction false} FlavourOrderMatters(a: Data, b: Data, p: Plugin)
    requires a == Text(Doc(None, [p.(package := "foo")])) && b == Text(Doc(None, [p.(package := "./b")]))
    ensures Distinct(AllEntries([a, b])) && NoReferences([Blank, a, b])
    ensures Succeeds([Blank, a, b], true) && !Succeeds([Blank, b, a], true)
  {
    EntriesOfTwo(a, b);
    NotReferences();
    assert NoReferences([Blank, a, b]) && NoReferences([Blank, b, a]);
    SucceedsIff([Blank, a, b], true);
    SucceedsIff([Blank, b, a], true);
    assert Supported(b) && LaterSupported([Blank, a, b]);
    assert a.doc.plugins[0] in PluginsOf(a) && !Supported(a);
    var late := [Blank, b, a];
    assert !late[1].Blank? && late[2] == a;
  }

  lemma EntriesOfTwo(a: Data, b: Data)
    ensures AllEntries([a, b]) == PluginsOf(a) + PluginsOf(b)
  {
    assert [a] + [b] == [a, b];
    EntriesOfOne(a);
    EntriesOfOne(b);
    EntriesOfConcat([a], [b]);
  }

  lemma NotReferences()
    ensures !IsRef("foo") && !IsInherit("foo") && !IsRef("./b") && !IsInherit("./b")
    ensures !IsDirectLink("foo") && IsDirectLink("./b")
  {
    assert "foo"[0] != LOCAL[0];
  }

  lemma {:induction false} FittingOrderSucceeds(base: Data, fs: seq<Data>, gs: seq<Data>, resolve: bool)
    requires multiset(gs) == multiset(fs) && FlavoursFit(base, fs, resolve)
    requires resolve ==> NoReferences([base] + fs)
    ensures Succeeds([base] + gs, resolve)
  {
    var sources := [base] + gs;
    BaseAndPermuted(base, fs, gs);
    CountIff(sources);
    if resolve {
      forall i, j | 0 <= i < j < |sources| && !sources[i].Blank? ensures Supported(sources[j]) {
        if !sources[j].Blank? {
          assert sources[j] in gs;
        }
      }
    }
    SucceedsIff(sources, resolve);
  }

  lemma {:induction false} BaseAndPermuted(base: Data, fs: seq<Data>, gs: seq<Data>)
    requires multiset(gs) == multiset(fs)
    ensures multiset([base] + gs) == multiset([base] + fs)
    ensures CountNonBlank([base] + gs) == CountNonBlank([base] + fs)
    ensures forall d :: d in gs <==> d in fs
    ensures forall d :: d in [base] + gs <==> d in [base] + fs
  {
    assert multiset([base] + fs) == multiset([base]) + multiset(fs);
    assert multiset([base] + gs) == multiset([base]) + multiset(gs);
    EntriesPermute([base] + gs, [base] + fs);
    PermutedSources(gs, fs);
  }

  lemma OrdersAgree(base: Data, fs: seq<Data>, gs: seq<Data>, resolve: bool, overlays: seq<seq<Plugin>>, out: Data)
    requires multiset(gs) == multiset(fs) && Reaches([base] + fs, resolve, overlays, out)
    requires resolve ==> NoReferences([base] + fs)
    requires Distinct(PluginsOf(base)) && Distinct(AllEntries(fs))
    ensures AllGive([base] + gs, resolve, PluginMap(out))
  {
    forall overlays', out' | Reaches([base] + gs, resolve, overlays', out') ensures PluginMap(out') == PluginMap(out) {
      SameOutcome(base, fs, gs, resolve, overlays, out, overlays', out');
    }
  }

  lemma {:induction false} SameOutcome(base: Data, fs: seq<Data>, gs: seq<Data>, resolve: bool,
                    overlays: seq<seq<Plugin>>, out: Data, overlays': seq<seq<Plugin>>, out': Data)
    requires multiset(gs) == multiset(fs)
    requires Reaches([base] + fs, resolve, overlays, out) && Reaches([base] + gs, resolve, overlays', out')
    requires resolve ==> NoReferences([base] + fs)
    requires Distinct(PluginsOf(base)) && Distinct(AllEntries(fs))
    ensures PluginMap(out) == PluginMap(out')
  {
    BaseAndPermuted(base, fs, gs);
    BaseAndFlavours(base, fs);
    EntriesPermute(fs, gs);
    forall k ensures SameEntriesOf([base] + fs, [base] + gs, k) {
      SameEntriesAfterBase(base, fs, gs, k);
    }
    SamePlugins([base] + fs, [base] + gs, resolve, overlays, out, overlays', out');
  }

  ghost predicate SameEntriesOf(s: seq<Data>, t: seq<Data>, k: string) {
    Entries(AllEntries(s), k) == Entries(AllEntries(t), k)
  }

  lemma {:induction false} SamePlugins(s: seq<Data>, t: seq<Data>, resolve: bool,
                    overlays: seq<seq<Plugin>>, out: Data, overlays': seq<seq<Plugin>>, out': Data)
    requires Reaches(s, resolve, overlays, out) && Reaches(t, resolve, overlays', out')
    requires (resolve ==> NoReferences(s)) && (forall d :: d in t <==> d in s)
    requires forall d :: d in s ==> Distinct(PluginsOf(d))
    requires CountNonBlank(s) == CountNonBlank(t) && forall k :: SameEntriesOf(s, t, k)
    ensures PluginMap(out) == PluginMap(out')
  {
    forall k
      ensures k in PluginMap(out) <==> k in PluginMap(out')
      ensures k in PluginMap(out) ==> PluginMap(out)[k] == PluginMap(out')[k]
    {
      assert SameEntriesOf(s, t, k);
      SamePackage(s, t, resolve, overlays, out, overlays', out', k);
    }
  }

  lemma {:induction false} SamePackage(s: seq<Data>, t: seq<Data>, resolve: bool,
                    overlays: seq<seq<Plugin>>, out: Data, overlays': seq<seq<Plugin>>, out': Data, k: string)
    requires Reaches(s, resolve, overlays, out) && Reaches(t, resolve, overlays', out')
    requires (resolve ==> NoReferences(s)) && (forall d :: d in t <==> d in s)
    requires forall d :: d in s ==> Distinct(PluginsOf(d))
    requires CountNonBlank(s) == CountNonBlank(t) && SameEntriesOf(s, t, k)
    ensures k in PluginMap(out) <==> k in PluginMap(out')
    ensures k in PluginMap(out) ==> PluginMap(out)[k] == PluginMap(out')[k]
  {
    PackageOutcome(s, resolve, overlays, out, k);
    PackageOutcome(t, resolve, overlays', out', k);
  }

  /** When the flavours do not fit, some order of them cannot be merged: one that
      puts an unsupported flavour last. */
  lemma {:induction false} BadOrder(base: Data, fs: seq<Data>, resolve: bool)
    requires !FlavoursFit(base, fs, resolve) && (resolve ==> NoReferences([base] + fs))
    ensures exists gs :: multiset(gs) == multiset(fs) && !Succeeds([base] + gs, resolve)
  {
    if Malformed in [base] + fs {
      SucceedsIff([base] + fs, resolve);
    } else {
      var i :| 0 <= i < |fs| && !Supported(fs[i]);
      MovedLast(base, fs, i);
    }
  }

  lemma {:induction false} MovedLast(base: Data, fs: seq<Data>, i: nat)
    requires i < |fs| && !Supported(fs[i]) && CountNonBlank([base] + fs) >= 2 && NoReferences([base] + fs)
    ensures multiset(Without(fs, i) + [fs[i]]) == multiset(fs)
    ensures !Succeeds([base] + (Without(fs, i) + [fs[i]]), true)
  {
    var gs := Without(fs, i) + [fs[i]];
    SameFlavours(fs, i);
    BaseAndPermuted(base, fs, gs);
    UnsupportedLast([base] + Without(fs, i), fs[i], [base] + gs);
    assert NoReferences([base] + gs);
    SucceedsIff([base] + gs, true);
  }

  lemma {:induction false} SameFlavours(fs: seq<Data>, i: nat)
    requires i < |fs|
    ensures multiset(Without(fs, i) + [fs[i]]) == multiset(fs)
  {
    RemoveFromMultiset(fs, i);
    assert fs[i] in multiset(fs);
  }

  lemma {:induction false} UnsupportedLast(init: seq<Data>, last: Data, sources: seq<Data>)
    requires sources == init + [last] && CountNonBlank(sources) >= 2 && !Supported(last)
    ensures !LaterSupported(sources)
  {
    assert sources[..|init|] == init;
    CountIff(init);
    var i :| 0 <= i < |init| && !init[i].Blank?;
    assert !sources[i].Blank? && sources[|init|] == last;
  }

  lemma PermutedSources(s: seq<Data>, t: seq<Data>)
    requires multiset(s) == multiset(t)
    ensures forall d :: d in s <==> d in t
  {
    assert forall d :: d in s <==> d in multiset(s);
    assert forall d :: d in t <==> d in multiset(t);
  }

  lemma BaseAndFlavours(base: Data, fs: seq<Data>)
    requires Distinct(PluginsOf(base)) && Distinct(AllEntries(fs))
    ensures forall d :: d in [base] + fs ==> Distinct(PluginsOf(d))
  {
    SourcesDistinct(fs);
  }

  lemma SameEntriesAfterBase(base: Data, fs: seq<Data>, gs: seq<Data>, k: string)
    requires multiset(AllEntries(fs)) == multiset(AllEntries(gs)) && Distinct(AllEntries(fs))
    ensures Entries(AllEntries([base] + fs), k) == Entries(AllEntries([base] + gs), k)
  {
    SameEntries(AllEntries(fs), AllEntries(gs), k);
    EntriesOfConcat([base], fs);
    EntriesOfConcat([base], gs);
    EntriesConcat(AllEntries([base]), AllEntries(fs), k);
    EntriesConcat(AllEntries([base]), AllEntries(gs), k);
  }

  lemma DistinctParts(a: seq<Plugin>, b: seq<Plugin>)
    requires Distinct(a + b)
    ensures Distinct(a) && Distinct(b)
  {
    assert forall i :: 0 <= i < |a| ==> a[i] == (a + b)[i];
    forall i, j | 0 <= i < j < |b| ensures b[i].package != b[j].package {
      assert (a + b)[|a| + i].package != (a + b)[|a| + j].package;
    }
  }

  lemma {:induction false} SourcesDistinct(fs: seq<Data>)
    requires Distinct(AllEntries(fs))
    ensures forall d :: d in fs ==> Distinct(PluginsOf(d))
  {
    if fs != [] {
      var init, last := fs[..|fs| - 1], fs[|fs| - 1];
      DistinctParts(AllEntries(init), PluginsOf(last));
      SourcesDistinct(init);
      assert fs == init + [last];
    }
  }
}
