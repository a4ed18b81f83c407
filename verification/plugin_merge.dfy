/** Merging dynamic-plugins.yaml sources package by package
    (pkg/model/dynamic-plugins.go, pkg/model/default-config.go). */
module PluginMerge {
  import opened GoStrings
  import opened PluginConfigTree
  import opened DynaPlugins
  import opened PluginReferences

  /** The parsed content of one dynamic-plugins.yaml. */
  datatype Doc = Doc(includes: Option<seq<string>>, plugins: seq<Plugin>)

  /** The data of a source: the empty string, a text that is not the expected YAML, or a document. */
  datatype Data = Blank | Malformed | Text(doc: Doc)

  // ---------------------------------------------------------------------------
  // One plugin over another, and what YAML with `omitempty` forgets
  // ---------------------------------------------------------------------------

  function OverlayPlugin(existing: Plugin, p: Plugin): (r: Plugin)
    ensures r.package == existing.package
  {
    Plugin(
      existing.package,
      if p.integrity != "" then p.integrity else existing.integrity,
      if p.enabled.Some? then p.enabled else if p.disabled then None else existing.enabled,
      if p.enabled.Some? then false else p.disabled || existing.disabled,
      if p.config.Some? then p.config else existing.config,
      if p.dependencies.Some? then p.dependencies else existing.dependencies)
  }

  function NonEmptyConfig(c: Option<Tree>): Option<Tree> {
    if c == Some(Node(map[])) then None else c
  }

  function NonEmptyList(d: Option<seq<string>>): Option<seq<string>> {
    if d == Some([]) then None else d
  }

  /** Marshalling drops an explicitly empty map or list; reading back gives "absent". */
  function Erase(p: Plugin): (r: Plugin)
    ensures r.package == p.package
  {
    Plugin(p.package, p.integrity, p.enabled, p.disabled, NonEmptyConfig(p.config), NonEmptyList(p.dependencies))
  }

  /** Dropping empties on the accumulated side does not show after the next merge and print. */
  lemma EraseBelow(existing: Plugin, p: Plugin)
    ensures Erase(OverlayPlugin(Erase(existing), p)) == Erase(OverlayPlugin(existing, p))
  {
  }

  /** Dropping empties on the overlay side shows exactly when an explicitly empty
      value of the overlay clears something. */
  lemma EraseAboveIff(existing: Plugin, p: Plugin)
    ensures Erase(OverlayPlugin(existing, Erase(p))) == Erase(OverlayPlugin(existing, p)) <==>
            && !(p.config == Some(Node(map[])) && existing.config.Some? && existing.config.value != Node(map[]))
            && !(p.dependencies == Some([]) && existing.dependencies.Some? && existing.dependencies.value != [])
  {
  }

  type ByName = map<string, Plugin>

  ghost predicate Keyed(m: ByName) {
    forall k :: k in m ==> m[k].package == k
  }

  /** `pluginMap` filled from a list: the last entry of a package wins. */
  function ByPackage(ps: seq<Plugin>): ByName {
    if ps == [] then map[]
    else
      var p := ps[|ps| - 1];
      ByPackage(ps[..|ps| - 1])[p.package := p]
  }

  function MergeOne(m: ByName, p: Plugin): ByName {
    m[p.package := if p.package in m then OverlayPlugin(m[p.package], p) else p]
  }

  function MergeInto(m: ByName, ps: seq<Plugin>): ByName {
    if ps == [] then m else MergeOne(MergeInto(m, ps[..|ps| - 1]), ps[|ps| - 1])
  }

  function EraseMap(m: ByName): ByName {
    map k | k in m :: Erase(m[k])
  }

  predicate Distinct(ps: seq<Plugin>) {
    forall i, j :: 0 <= i < j < |ps| ==> ps[i].package != ps[j].package
  }

  // ---------------------------------------------------------------------------
  // Packages
  // ---------------------------------------------------------------------------

  ghost function PackageSet(ps: seq<Plugin>): set<string> {
    set p | p in ps :: p.package
  }

  lemma Snoc(ps: seq<Plugin>, p: Plugin)
    ensures PackageSet(ps + [p]) == PackageSet(ps) + {p.package}
    ensures ByPackage(ps + [p]) == ByPackage(ps)[p.package := p]
    ensures Distinct(ps) && p.package !in PackageSet(ps) ==> Distinct(ps + [p])
  {
  }

  lemma {:induction false} ByPackageKeys(ps: seq<Plugin>)
    ensures ByPackage(ps).Keys == PackageSet(ps) && Keyed(ByPackage(ps))
    ensures forall k :: k in ByPackage(ps) ==> ByPackage(ps)[k] in ps
  {
    if ps != [] {
      var init, last := ps[..|ps| - 1], ps[|ps| - 1];
      ByPackageKeys(init);
      assert forall p :: p in ps <==> p in init || p == last;
    }
  }

  lemma {:induction false} MergeIntoKeys(m: ByName, ps: seq<Plugin>)
    requires Keyed(m)
    ensures MergeInto(m, ps).Keys == m.Keys + PackageSet(ps) && Keyed(MergeInto(m, ps))
  {
    if ps != [] {
      var init, last := ps[..|ps| - 1], ps[|ps| - 1];
      MergeIntoKeys(m, init);
      assert ps == init + [last];
      Snoc(init, last);
      var n := MergeInto(m, init);
      assert MergeOne(n, last).Keys == n.Keys + {last.package};
    }
  }

  // ---------------------------------------------------------------------------
  // One merge
  // ---------------------------------------------------------------------------

  ghost function IncludeSet(d: Data): set<string> {
    if d.Text? && d.doc.includes.Some? then (set x | x in d.doc.includes.value) else {}
  }

  /** A source that explicitly sets an empty `includes` list. */
  predicate Clears(d: Data) {
    d.Text? && d.doc.includes == Some([])
  }

  /** `overlay` is the second source's plugin list as it is merged. */
  ghost predicate IsOverlay(first: Doc, second: Doc, resolve: bool, overlay: seq<Plugin>) {
    if resolve then Resolved(second.plugins, first.plugins, overlay) else overlay == second.plugins
  }

  /** The outcomes of one successful merge. Go's map iteration fixes no order of
      the plugins and includes, so only their contents are determined. */
  ghost predicate Merges(first: Data, second: Data, resolve: bool, overlay: seq<Plugin>, out: Data) {
    if first.Blank? then
      out == second && overlay == if second.Text? then second.doc.plugins else []
    else if second.Blank? then
      out == first && overlay == []
    else
      && first.Text? && second.Text? && out.Text?
      && IsOverlay(first.doc, second.doc, resolve, overlay)
      && Distinct(out.doc.plugins)
      && ByPackage(out.doc.plugins) == EraseMap(MergeInto(ByPackage(first.doc.plugins), overlay))
      && IncludeSet(out) == (if Clears(second) then {} else IncludeSet(first) + IncludeSet(second))
      && !Clears(out)
  }

  /** A merge of two documents has an outcome whenever the second resolves. */
  lemma MergeExists(first: Data, second: Data, resolve: bool, overlay: seq<Plugin>)
    requires first.Text? && second.Text? && IsOverlay(first.doc, second.doc, resolve, overlay)
    ensures exists out :: Merges(first, second, resolve, overlay, out)
  {
    var m := ByPackage(first.doc.plugins);
    ByPackageKeys(first.doc.plugins);
    MergeIntoKeys(m, overlay);
    var merged := MergeInto(m, overlay);
    ListExists(merged, merged.Keys);
    var ps :| Listed(merged, merged.Keys, ps);
    ListedAll(merged, ps);
    var all := if Clears(second) then {} else IncludeSet(first) + IncludeSet(second);
    IncludesExist(all, ps);
    var includes :| includes != Some([]) && IncludeSet(Text(Doc(includes, ps))) == all;
    assert Merges(first, second, resolve, overlay, Text(Doc(includes, ps)));
  }

  /** The list has the entries of the map under the keys in `done`, each once. */
  ghost predicate Listed(m: ByName, done: set<string>, ps: seq<Plugin>) {
    && Distinct(ps) && PackageSet(ps) == done == ByPackage(ps).Keys <= m.Keys
    && forall k :: k in done ==> ByPackage(ps)[k] == Erase(m[k])
  }

  lemma ListedNext(m: ByName, done: set<string>, ps: seq<Plugin>, k: string)
    requires Keyed(m) && Listed(m, done, ps) && k in m && k !in done
    ensures Listed(m, done + {k}, ps + [Erase(m[k])])
  {
    Snoc(ps, Erase(m[k]));
  }

  lemma ListedAll(m: ByName, ps: seq<Plugin>)
    requires Listed(m, m.Keys, ps)
    ensures ByPackage(ps) == EraseMap(m)
  {
    assert EraseMap(m).Keys == m.Keys;
  }

  lemma {:induction false} ListExists(m: ByName, done: set<string>)
    requires Keyed(m) && done <= m.Keys
    ensures exists ps :: Listed(m, done, ps)
  {
    if done == {} {
      assert Listed(m, done, []);
    } else {
      var k :| k in done;
      ListExists(m, done - {k});
      var ps :| Listed(m, done - {k}, ps);
      ListedNext(m, done - {k}, ps, k);
      assert done - {k} + {k} == done;
    }
  }

  lemma IncludesExist(all: set<string>, ps: seq<Plugin>)
    ensures exists r :: r != Some([]) && IncludeSet(Text(Doc(r, ps))) == all
  {
    SetIsListed(all, ps);
    var list :| IncludeSet(Text(Doc(Some(list), ps))) == all;
    var r := if list == [] then None else Some(list);
    assert r != Some([]) && IncludeSet(Text(Doc(r, ps))) == all;
  }

  lemma {:induction false} SetIsListed(all: set<string>, ps: seq<Plugin>)
    ensures exists list :: IncludeSet(Text(Doc(Some(list), ps))) == all
  {
    if all == {} {
      assert IncludeSet(Text(Doc(Some([]), ps))) == all;
    } else {
      var x :| x in all;
      SetIsListed(all - {x}, ps);
      var list :| IncludeSet(Text(Doc(Some(list), ps))) == all - {x};
      assert (set y | y in list + [x]) == (set y | y in list) + {x} == all;
      assert IncludeSet(Text(Doc(Some(list + [x]), ps))) == all;
    }
  }

  datatype MergeResult = Merged(data: Data) | Unparsable | Unresolved(error: Error)

  /** Some package of the second source cannot be resolved against the first. */
  ghost predicate Unresolvable(first: Doc, second: Doc, e: Error) {
    exists i :: 0 <= i < |second.plugins|
                && ResolvePackage(second.plugins[i].package, Packages(first.plugins)) == Err(e)
  }

  /** Lists the plugins of a map in some order, as marshalled. */
  method List(m: ByName) returns (ps: seq<Plugin>)
    requires Keyed(m)
    ensures Distinct(ps) && ByPackage(ps) == EraseMap(m)
  {
    var todo := m.Keys;
    ghost var done := {};
    ps := [];
    while todo != {}
      invariant done + todo == m.Keys && done !! todo && Listed(m, done, ps)
      decreases todo
    {
      var k :| k in todo;
      ListedNext(m, done, ps, k);
      ps, todo, done := ps + [Erase(m[k])], todo - {k}, done + {k};
    }
    assert done == m.Keys;
    ListedAll(m, ps);
  }

  /** The union of two include lists in some order; absent when it is empty. */
  method Includes(first: Option<seq<string>>, second: Option<seq<string>>) returns (r: Option<seq<string>>)
    ensures r != Some([])
    ensures IncludeSet(Text(Doc(r, []))) ==
            if second == Some([]) then {} else IncludeSet(Text(Doc(first, []))) + IncludeSet(Text(Doc(second, [])))
  {
    if second == Some([]) {
      return None;
    }
    var a := if first.Some? then first.value else [];
    var b := if second.Some? then second.value else [];
    var todo: set<string> := (set x | x in a) + (set x | x in b);
    ghost var all := todo;
    var list: seq<string> := [];
    while todo != {}
      invariant todo <= all && (set x | x in list) == all - todo
      decreases todo
    {
      var x :| x in todo;
      assert (set y | y in list + [x]) == (set y | y in list) + {x};
      list, todo := list + [x], todo - {x};
    }
    r := if list == [] then None else Some(list);
  }

  /** `MergePluginsData`: parse both, resolve the second against the first if
      asked, overlay it package by package, print. */
  method MergePluginsData(first: Data, second: Data, resolve: bool) returns (r: MergeResult, ghost overlay: seq<Plugin>)
    ensures r.Merged? ==> Merges(first, second, resolve, overlay, r.data)
    ensures r.Unparsable? <==> first != Blank && second != Blank && (first.Malformed? || second.Malformed?)
    ensures r.Unresolved? ==> first.Text? && second.Text? && resolve && Unresolvable(first.doc, second.doc, r.error)
  {
    overlay := [];
    if first.Blank? {
      overlay := if second.Text? then second.doc.plugins else [];
      return Merged(second), overlay;
    }
    if second.Blank? {
      return Merged(first), overlay;
    }
    if first.Malformed? || second.Malformed? {
      return Unparsable, overlay;
    }
    var plugins := second.doc.plugins;
    if resolve {
      var resolved := ResolveReferences(plugins, first.doc.plugins);
      if resolved.Err? {
        return Unresolved(resolved.error), overlay;
      }
      plugins := resolved.value;
    }
    overlay := plugins;
    var pluginMap := MergeLists(first.doc.plugins, plugins);
    ByPackageKeys(first.doc.plugins);
    MergeIntoKeys(ByPackage(first.doc.plugins), plugins);
    var list := List(pluginMap);
    var includes := Includes(first.doc.includes, second.doc.includes);
    r := Merged(Text(Doc(includes, list)));
  }

  /** The two loops that fill `pluginMap`. */
  method MergeLists(first: seq<Plugin>, second: seq<Plugin>) returns (pluginMap: ByName)
    ensures pluginMap == MergeInto(ByPackage(first), second)
  {
    pluginMap := map[];
    for i := 0 to |first|
      invariant pluginMap == ByPackage(first[..i])
    {
      assert first[..i + 1][..i] == first[..i];
      pluginMap := pluginMap[first[i].package := first[i]];
    }
    assert first[..|first|] == first;
    ghost var m := pluginMap;
    for i := 0 to |second|
      invariant pluginMap == MergeInto(m, second[..i])
    {
      assert second[..i + 1][..i] == second[..i];
      var p := second[i];
      if p.package in pluginMap {
        var existing := pluginMap[p.package];
        if p.config.Some? {
          existing := existing.(config := p.config);
        }
        if p.dependencies.Some? {
          existing := existing.(dependencies := if |p.dependencies.value| > 0 then p.dependencies else Some([]));
        }
        if p.integrity != "" {
          existing := existing.(integrity := p.integrity);
        }
        if p.enabled.Some? {
          existing := existing.(enabled := p.enabled, disabled := false);
        } else if p.disabled {
          existing := existing.(disabled := true, enabled := None);
        }
        pluginMap := pluginMap[p.package := existing];
      } else {
        pluginMap := pluginMap[p.package := p];
      }
    }
    assert second[..|second|] == second;
  }
}
