/** The left fold of the merge over all sources, and what it gives each package
    (pkg/model/default-config.go, pkg/model/dynamic-plugins.go). */
module PluginFold {
  import opened GoStrings
  import opened PluginConfigTree
  import opened DynaPlugins
  import opened PluginReferences
  import opened PluginMerge

  // ---------------------------------------------------------------------------
  // The fold
  // ---------------------------------------------------------------------------

  /** The sources can be merged, in order, to `out`. `overlays` has the plugin
      list of every non-blank source as it was merged (references resolved). */
  ghost predicate Reaches(sources: seq<Data>, resolve: bool, overlays: seq<seq<Plugin>>, out: Data)
    decreases |sources|
  {
    if sources == [] then out.Blank? && overlays == []
    else
      var init, last := sources[..|sources| - 1], sources[|sources| - 1];
      if last.Blank? then Reaches(init, resolve, overlays, out)
      else
        && overlays != []
        && var before, overlay := overlays[..|overlays| - 1], overlays[|overlays| - 1];
        exists mid :: Reaches(init, resolve, before, mid) && Merges(mid, last, resolve, overlay, out)
  }

  /** The sources before position `i` merge to `mid`, and merging source `i` into that fails. */
  ghost predicate FailsAt(sources: seq<Data>, resolve: bool, overlays: seq<seq<Plugin>>,
                          i: int, mid: Data, r: MergeResult)
  {
    && 0 <= i < |sources| && Reaches(sources[..i], resolve, overlays, mid)
    && !mid.Blank? && !sources[i].Blank?
    && match r
       case Merged(_) => false
       case Unparsable => mid.Malformed? || sources[i].Malformed?
       case Unresolved(e) => resolve && mid.Text? && sources[i].Text? && Unresolvable(mid.doc, sources[i].doc, e)
  }

  lemma ReachesNext(init: seq<Data>, last: Data, resolve: bool, overlays: seq<seq<Plugin>>, mid: Data,
                    overlay: seq<Plugin>, out: Data)
    requires Reaches(init, resolve, overlays, mid) && Merges(mid, last, resolve, overlay, out)
    ensures Reaches(init + [last], resolve, if last.Blank? then overlays else overlays + [overlay], out)
  {
    var sources := init + [last];
    assert sources[..|sources| - 1] == init && sources[|sources| - 1] == last;
    if !last.Blank? {
      assert (overlays + [overlay])[..|overlays|] == overlays;
    }
  }

  /** The loop of `mergeDynamicPlugins`. It ends with an outcome of the fold, or
      at the first source that cannot be merged into what the sources before it
      gave. Without references the sources alone say which. */
  method MergeDynamicPlugins(sources: seq<Data>, resolve: bool)
    returns (r: MergeResult, ghost overlays: seq<seq<Plugin>>)
    ensures r.Merged? ==> Reaches(sources, resolve, overlays, r.data)
    ensures !r.Merged? ==> exists i, mid :: FailsAt(sources, resolve, overlays, i, mid, r)
    ensures !r.Unresolved? ==> (r.Unparsable? <==> CountNonBlank(sources) >= 2 && Malformed in sources)
    ensures (resolve ==> NoReferences(sources)) ==> (r.Merged? <==> Mergeable(sources, resolve))
  {
    var merged := Blank;
    overlays := [];
    for i := 0 to |sources|
      invariant Reaches(sources[..i], resolve, overlays, merged)
    {
      ghost var overlay;
      r, overlay := MergePluginsData(merged, sources[i], resolve);
      if !r.Merged? {
        assert FailsAt(sources, resolve, overlays, i, merged, r);
        FailureIsReal(sources, resolve, overlays, i, merged, r);
        return;
      }
      ReachesNext(sources[..i], sources[i], resolve, overlays, merged, overlay, r.data);
      assert sources[..i + 1] == sources[..i] + [sources[i]];
      overlays := if sources[i].Blank? then overlays else overlays + [overlay];
      merged := r.data;
    }
    assert sources[..|sources|] == sources;
    r := Merged(merged);
    SuccessIsReal(sources, resolve, overlays, merged);
  }

  // ---------------------------------------------------------------------------
  // When the fold succeeds
  // ---------------------------------------------------------------------------

  function PluginsOf(d: Data): seq<Plugin> {
    if d.Text? then d.doc.plugins else []
  }

  function CountNonBlank(sources: seq<Data>): nat {
    if sources == [] then 0
    else CountNonBlank(sources[..|sources| - 1]) + if sources[|sources| - 1].Blank? then 0 else 1
  }

  /** No package of the sources is a reference. */
  ghost predicate NoReferences(sources: seq<Data>) {
    forall d, p :: d in sources && p in PluginsOf(d) ==> !IsRef(p.package) && !IsInherit(p.package)
  }

  /** Every package is empty or has one of the supported URL formats. */
  ghost predicate Supported(d: Data) {
    forall p :: p in PluginsOf(d) ==> p.package == "" || IsDirectLink(p.package)
  }

  /** The sources after the first one with data have supported packages. */
  ghost predicate LaterSupported(sources: seq<Data>) {
    forall i, j :: 0 <= i < j < |sources| && !sources[i].Blank? ==> Supported(sources[j])
  }

  ghost predicate Mergeable(sources: seq<Data>, resolve: bool) {
    && (CountNonBlank(sources) >= 2 ==> Malformed !in sources)
    && (resolve ==> LaterSupported(sources))
  }

  ghost predicate Succeeds(sources: seq<Data>, resolve: bool) {
    exists overlays, out :: Reaches(sources, resolve, overlays, out)
  }

  lemma {:induction false} CountIff(sources: seq<Data>)
    ensures CountNonBlank(sources) >= 1 <==> exists i :: 0 <= i < |sources| && !sources[i].Blank?
    ensures CountNonBlank(sources) >= 2 <==>
            exists i, j :: 0 <= i < j < |sources| && !sources[i].Blank? && !sources[j].Blank?
  {
    if sources != [] {
      var n := |sources| - 1;
      var init := sources[..n];
      CountIff(init);
      assert forall i :: 0 <= i < n ==> init[i] == sources[i];
    }
  }

  /** The fold is blank only when all sources are, and a malformed source passes only alone. */
  lemma {:induction false} ReachesShape(sources: seq<Data>, resolve: bool, overlays: seq<seq<Plugin>>, out: Data)
    requires Reaches(sources, resolve, overlays, out)
    ensures |overlays| == CountNonBlank(sources) && (out.Blank? <==> overlays == [])
    ensures out.Malformed? <==> Malformed in sources
    ensures out.Malformed? ==> |overlays| == 1 && overlays[0] == []
  {
    if sources != [] {
      var init, last := sources[..|sources| - 1], sources[|sources| - 1];
      assert sources == init + [last];
      if last.Blank? {
        ReachesShape(init, resolve, overlays, out);
      } else {
        var before, overlay := overlays[..|overlays| - 1], overlays[|overlays| - 1];
        var mid :| Reaches(init, resolve, before, mid) && Merges(mid, last, resolve, overlay, out);
        ReachesShape(init, resolve, before, mid);
      }
    }
  }

  lemma SupportedResolves(d: Data, base: seq<Plugin>)
    requires NoReferences([d])
    ensures Supported(d) <==> Resolved(PluginsOf(d), base, PluginsOf(d))
    ensures Supported(d) <==> forall i :: 0 <= i < |PluginsOf(d)| ==>
                                ResolvePackage(PluginsOf(d)[i].package, Packages(base)).Ok?
  {
    var ps := PluginsOf(d);
    forall i | 0 <= i < |ps|
      ensures IsResolved(ps[i], Packages(base), ps[i]) <==> ps[i].package == "" || IsDirectLink(ps[i].package)
      ensures ResolvePackage(ps[i].package, Packages(base)).Ok? <==> ps[i].package == "" || IsDirectLink(ps[i].package)
    {
      assert d in [d] && ps[i] in ps;
    }
  }

  lemma MergeableStep(init: seq<Data>, last: Data, resolve: bool)
    ensures Mergeable(init + [last], resolve) <==>
            && Mergeable(init, resolve)
            && (CountNonBlank(init) >= 1 && !last.Blank? ==>
                Malformed !in init && !last.Malformed? && (resolve ==> Supported(last)))
  {
    var n, sources := |init|, init + [last];
    assert sources[..n] == init;
    CountIff(init);
    CountIff(sources);
    if LaterSupported(sources) {
      assert forall i :: 0 <= i < n ==> init[i] == sources[i];
    }
    if LaterSupported(init) && (CountNonBlank(init) >= 1 ==> Supported(last)) {
      assert LaterSupported(sources);
    }
  }

  /** Without references, sources can be merged exactly when at most one of them
      has data or all of them parse, and, with resolution on, every source after
      the first one with data has supported packages. */
  lemma {:induction false} SucceedsIff(sources: seq<Data>, resolve: bool)
    requires resolve ==> NoReferences(sources)
    ensures Succeeds(sources, resolve) <==> Mergeable(sources, resolve)
  {
    if sources == [] {
      assert Reaches([], resolve, [], Blank);
    } else {
      var init, last := sources[..|sources| - 1], sources[|sources| - 1];
      assert sources == init + [last];
      SucceedsIff(init, resolve);
      MergeableStep(init, last, resolve);
      if Succeeds(sources, resolve) {
        SuccessNeeds(init, last, resolve);
      }
      if Mergeable(sources, resolve) {
        var overlays, mid :| Reaches(init, resolve, overlays, mid);
        NextSource(init, last, resolve, overlays, mid);
      }
    }
  }

  lemma SuccessNeeds(init: seq<Data>, last: Data, resolve: bool)
    requires Succeeds(init + [last], resolve) && (resolve ==> NoReferences(init + [last]))
    ensures Succeeds(init, resolve)
    ensures CountNonBlank(init) >= 1 && !last.Blank? ==>
            Malformed !in init && !last.Malformed? && (resolve ==> Supported(last))
  {
    var sources := init + [last];
    assert sources[..|sources| - 1] == init;
    var overlays, out :| Reaches(sources, resolve, overlays, out);
    if !last.Blank? {
      var before, overlay := overlays[..|overlays| - 1], overlays[|overlays| - 1];
      var mid :| Reaches(init, resolve, before, mid) && Merges(mid, last, resolve, overlay, out);
      ReachesShape(init, resolve, before, mid);
      if mid.Text? && resolve {
        assert last in sources;
        SupportedResolves(last, mid.doc.plugins);
      }
    } else {
      assert Reaches(init, resolve, overlays, out);
    }
  }

  lemma NextSource(init: seq<Data>, last: Data, resolve: bool, overlays: seq<seq<Plugin>>, mid: Data)
    requires Reaches(init, resolve, overlays, mid) && (resolve ==> NoReferences([last]))
    requires CountNonBlank(init) >= 1 && !last.Blank? ==>
             Malformed !in init && !last.Malformed? && (resolve ==> Supported(last))
    ensures Succeeds(init + [last], resolve)
  {
    var overlay := if last.Blank? then [] else PluginsOf(last);
    ReachesShape(init, resolve, overlays, mid);
    if mid.Blank? {
      assert Merges(mid, last, resolve, overlay, last);
    } else if last.Blank? {
      assert Merges(mid, last, resolve, overlay, mid);
    } else {
      if resolve {
        SupportedResolves(last, mid.doc.plugins);
      }
      MergeExists(mid, last, resolve, overlay);
    }
    var out :| Merges(mid, last, resolve, overlay, out);
    ReachesNext(init, last, resolve, overlays, mid, overlay, out);
  }

  /** A run that succeeded, or failed, is one that the sources predict. */
  lemma SuccessIsReal(sources: seq<Data>, resolve: bool, overlays: seq<seq<Plugin>>, out: Data)
    requires Reaches(sources, resolve, overlays, out)
    ensures !(CountNonBlank(sources) >= 2 && Malformed in sources)
    ensures (resolve ==> NoReferences(sources)) ==> Mergeable(sources, resolve)
  {
    ReachesShape(sources, resolve, overlays, out);
    if resolve ==> NoReferences(sources) {
      SucceedsIff(sources, resolve);
    }
  }

  lemma FailureIsReal(sources: seq<Data>, resolve: bool, overlays: seq<seq<Plugin>>, i: int, mid: Data, r: MergeResult)
    requires FailsAt(sources, resolve, overlays, i, mid, r)
    ensures r.Unparsable? ==> CountNonBlank(sources) >= 2 && Malformed in sources
    ensures (resolve ==> NoReferences(sources)) ==> !Mergeable(sources, resolve)
  {
    ReachesShape(sources[..i], resolve, overlays, mid);
    CountIff(sources[..i]);
    var h :| 0 <= h < i && !sources[..i][h].Blank?;
    assert !sources[h].Blank?;
    CountIff(sources);
    if r.Unresolved? && NoReferences(sources) {
      assert sources[i] in sources;
      SupportedResolves(sources[i], mid.doc.plugins);
    }
  }

  // ---------------------------------------------------------------------------
  // Flattening the fold: printing between the merges loses nothing
  // ---------------------------------------------------------------------------

  function Flatten(lists: seq<seq<Plugin>>): seq<Plugin> {
    if lists == [] then [] else Flatten(lists[..|lists| - 1]) + lists[|lists| - 1]
  }

  lemma {:induction false} EraseMapBelow(m: ByName, n: ByName, ps: seq<Plugin>)
    requires EraseMap(m) == EraseMap(n)
    ensures EraseMap(MergeInto(m, ps)) == EraseMap(MergeInto(n, ps))
  {
    if ps != [] {
      var init, p := ps[..|ps| - 1], ps[|ps| - 1];
      EraseMapBelow(m, n, init);
      EraseMapBelowOne(MergeInto(m, init), MergeInto(n, init), p);
    }
  }

  lemma EraseMapBelowOne(m: ByName, n: ByName, p: Plugin)
    requires EraseMap(m) == EraseMap(n)
    ensures EraseMap(MergeOne(m, p)) == EraseMap(MergeOne(n, p))
  {
    assert forall k :: k in m <==> k in EraseMap(m);
    assert forall k :: k in n <==> k in EraseMap(n);
    assert forall k :: k in m ==> Erase(m[k]) == EraseMap(m)[k] == EraseMap(n)[k] == Erase(n[k]);
    if p.package in m {
      EraseBelow(m[p.package], p);
      EraseBelow(n[p.package], p);
    }
  }

  lemma EraseMapTwice(m: ByName)
    ensures EraseMap(EraseMap(m)) == EraseMap(m)
  {
  }

  lemma {:induction false} MergeIntoConcat(m: ByName, a: seq<Plugin>, b: seq<Plugin>)
    ensures MergeInto(m, a + b) == MergeInto(MergeInto(m, a), b)
  {
    if b == [] {
      assert a + b == a;
    } else {
      InitOfConcat(a, b);
      MergeIntoConcat(m, a, b[..|b| - 1]);
    }
  }

  /** Where the fold stands, told by the overlays alone. */
  ghost predicate Folded(overlays: seq<seq<Plugin>>, out: Data) {
    match |overlays|
    case 0 => out.Blank?
    case 1 => !out.Blank? && (out.Text? ==> out.doc.plugins == overlays[0])
    case _ =>
      && out.Text? && Distinct(out.doc.plugins)
      && ByPackage(out.doc.plugins) == EraseMap(MergeInto(ByPackage(overlays[0]), Flatten(overlays[1..])))
  }

  /** The whole fold, with a print and a parse between the merges, is one merge
      of all later entries into the first source, printed once. */
  lemma {:induction false} ReachesFolded(sources: seq<Data>, resolve: bool, overlays: seq<seq<Plugin>>, out: Data)
    requires Reaches(sources, resolve, overlays, out)
    ensures Folded(overlays, out)
  {
    if sources != [] {
      var init, last := sources[..|sources| - 1], sources[|sources| - 1];
      if last.Blank? {
        ReachesFolded(init, resolve, overlays, out);
      } else {
        var before, overlay := overlays[..|overlays| - 1], overlays[|overlays| - 1];
        var mid :| Reaches(init, resolve, before, mid) && Merges(mid, last, resolve, overlay, out);
        ReachesFolded(init, resolve, before, mid);
        if |overlays| == 2 {
          assert overlays[1..] == [overlay] && [overlay][..0] == [];
          assert [] + overlay == overlay;
          assert mid.doc.plugins == overlays[0];
        } else if |overlays| > 2 {
          FoldedStep(overlays, mid, out);
        }
      }
    }
  }

  /** A single source is taken over as it is. */
  lemma {:induction false} SingleSource(sources: seq<Data>, resolve: bool, overlays: seq<seq<Plugin>>, out: Data)
    requires Reaches(sources, resolve, overlays, out) && |overlays| == 1
    ensures PluginsOf(out) == overlays[0]
  {
    var init, last := sources[..|sources| - 1], sources[|sources| - 1];
    if last.Blank? {
      SingleSource(init, resolve, overlays, out);
    } else {
      var mid :| Reaches(init, resolve, overlays[..0], mid) && Merges(mid, last, resolve, overlays[0], out);
      ReachesFolded(init, resolve, overlays[..0], mid);
    }
  }

  lemma FoldedStep(overlays: seq<seq<Plugin>>, mid: Data, out: Data)
    requires |overlays| > 2 && Folded(overlays[..|overlays| - 1], mid)
    requires out.Text? && Distinct(out.doc.plugins)
    requires ByPackage(out.doc.plugins) == EraseMap(MergeInto(ByPackage(mid.doc.plugins), overlays[|overlays| - 1]))
    ensures Folded(overlays, out)
  {
    var before, overlay := overlays[..|overlays| - 1], overlays[|overlays| - 1];
    assert overlays[1..][..|overlays| - 2] == before[1..] && before[0] == overlays[0];
    var m := MergeInto(ByPackage(overlays[0]), Flatten(before[1..]));
    MergeIntoConcat(ByPackage(overlays[0]), Flatten(before[1..]), overlay);
    EraseMapTwice(m);
    EraseMapBelow(EraseMap(m), m, overlay);
  }

  // ---------------------------------------------------------------------------
  // The layers of one package
  // ---------------------------------------------------------------------------

  /** The entries of a list for one package, in order. */
  function Entries(ps: seq<Plugin>, k: string): seq<Plugin> {
    if ps == [] then []
    else Entries(ps[..|ps| - 1], k) + (if ps[|ps| - 1].package == k then [ps[|ps| - 1]] else [])
  }

  /** The entries that count for a package: the last one of the first source
      (which is de-duplicated, not overlaid), then all later ones. */
  function Layers(overlays: seq<seq<Plugin>>, k: string): seq<Plugin>
    requires overlays != []
  {
    var m := ByPackage(overlays[0]);
    (if k in m then [m[k]] else []) + Entries(Flatten(overlays[1..]), k)
  }

  function Stack(layers: seq<Plugin>): Plugin
    requires layers != []
  {
    if |layers| == 1 then layers[0] else OverlayPlugin(Stack(layers[..|layers| - 1]), layers[|layers| - 1])
  }

  lemma StackSnoc(below: seq<Plugin>, p: Plugin)
    ensures Stack(below + [p]) == if below == [] then p else OverlayPlugin(Stack(below), p)
  {
  }

  lemma {:induction false} MergeIntoStacks(m: ByName, ps: seq<Plugin>, k: string)
    ensures var layers := (if k in m then [m[k]] else []) + Entries(ps, k);
            && (k in MergeInto(m, ps) <==> layers != [])
            && (layers != [] ==> MergeInto(m, ps)[k] == Stack(layers))
  {
    var bottom := if k in m then [m[k]] else [];
    if ps == [] {
      assert bottom + [] == bottom;
    } else {
      var init, p := ps[..|ps| - 1], ps[|ps| - 1];
      MergeIntoStacks(m, init, k);
      var below := bottom + Entries(init, k);
      if p.package == k {
        assert bottom + Entries(ps, k) == below + [p];
        StackSnoc(below, p);
      } else {
        assert bottom + Entries(ps, k) == below;
      }
    }
  }

  /** The last entry that sets a configuration. */
  function LastConfig(layers: seq<Plugin>): (r: Option<Tree>)
    ensures r.Some? ==> exists i :: 0 <= i < |layers| && layers[i].config == r
                                    && forall j :: i < j < |layers| ==> layers[j].config.None?
    ensures r.None? ==> forall i :: 0 <= i < |layers| ==> layers[i].config.None?
  {
    if layers == [] then None
    else if layers[|layers| - 1].config.Some? then layers[|layers| - 1].config
    else
      assert forall i :: 0 <= i < |layers| - 1 ==> layers[..|layers| - 1][i] == layers[i];
      LastConfig(layers[..|layers| - 1])
  }

  /** The last entry that sets dependencies. */
  function LastDependencies(layers: seq<Plugin>): (r: Option<seq<string>>)
    ensures r.Some? ==> exists i :: 0 <= i < |layers| && layers[i].dependencies == r
                                    && forall j :: i < j < |layers| ==> layers[j].dependencies.None?
    ensures r.None? ==> forall i :: 0 <= i < |layers| ==> layers[i].dependencies.None?
  {
    if layers == [] then None
    else if layers[|layers| - 1].dependencies.Some? then layers[|layers| - 1].dependencies
    else
      assert forall i :: 0 <= i < |layers| - 1 ==> layers[..|layers| - 1][i] == layers[i];
      LastDependencies(layers[..|layers| - 1])
  }

  /** The last non-empty integrity. */
  function LastIntegrity(layers: seq<Plugin>): (r: string)
    ensures r != "" ==> exists i :: 0 <= i < |layers| && layers[i].integrity == r
                                    && forall j :: i < j < |layers| ==> layers[j].integrity == ""
    ensures r == "" ==> forall i :: 0 <= i < |layers| ==> layers[i].integrity == ""
  {
    if layers == [] then ""
    else if layers[|layers| - 1].integrity != "" then layers[|layers| - 1].integrity
    else
      assert forall i :: 0 <= i < |layers| - 1 ==> layers[..|layers| - 1][i] == layers[i];
      LastIntegrity(layers[..|layers| - 1])
  }

  /** The effective state by the last entry that sets `enabled` or `disabled: true`
      (`enabled` counts when it sets both); enabled when none does. */
  predicate DisabledByLast(layers: seq<Plugin>) {
    layers != [] &&
    match layers[|layers| - 1].enabled
    case Some(on) => !on
    case None => layers[|layers| - 1].disabled || DisabledByLast(layers[..|layers| - 1])
  }

  /** The entry says something about the activation. */
  predicate Sets(p: Plugin) {
    p.enabled.Some? || p.disabled
  }

  /** Entry `i` is the last one that says something about the activation. */
  ghost predicate LastSets(layers: seq<Plugin>, i: int) {
    0 <= i < |layers| && Sets(layers[i]) && forall j :: i < j < |layers| ==> !Sets(layers[j])
  }

  lemma {:induction false} DisabledByLastIff(layers: seq<Plugin>)
    ensures DisabledByLast(layers) <==>
            exists i :: LastSets(layers, i) && layers[i].enabled != Some(true)
    ensures forall i, j :: LastSets(layers, i) && LastSets(layers, j) ==> i == j
  {
    if layers != [] {
      var n := |layers| - 1;
      var init, last := layers[..n], layers[n];
      DisabledByLastIff(init);
      if Sets(last) {
        assert LastSets(layers, n);
      } else {
        forall i ensures LastSets(layers, i) <==> LastSets(init, i) {
          if LastSets(init, i) {
            assert forall j :: i < j < n ==> layers[j] == init[j];
          }
        }
      }
    }
  }

  /** The two activation fields as the merge leaves them: the entry that decides
      replaces both; when only the bottom entry decides, or none, they are the
      bottom's own. */
  ghost predicate ActivationOf(layers: seq<Plugin>, m: Plugin)
    requires layers != []
  {
    && (forall i :: 0 < i && LastSets(layers, i) ==>
          m.enabled == layers[i].enabled && (m.disabled <==> layers[i].enabled.None?))
    && ((forall i :: 0 < i < |layers| ==> !Sets(layers[i])) ==>
        m.enabled == layers[0].enabled && m.disabled == layers[0].disabled)
  }

  lemma {:induction false} StackDecided(layers: seq<Plugin>, i: int)
    requires 0 < i && LastSets(layers, i)
    ensures var m := Stack(layers); m.enabled == layers[i].enabled && (m.disabled <==> layers[i].enabled.None?)
  {
    var n := |layers| - 1;
    if i < n {
      assert !Sets(layers[n]);
      StackDecided(layers[..n], i);
    }
  }

  lemma {:induction false} StackUndecided(layers: seq<Plugin>)
    requires layers != [] && forall i :: 0 < i < |layers| ==> !Sets(layers[i])
    ensures var m := Stack(layers); m.enabled == layers[0].enabled && m.disabled == layers[0].disabled
  {
    var n := |layers| - 1;
    if n > 0 {
      assert !Sets(layers[n]);
      StackUndecided(layers[..n]);
    }
  }

  lemma {:induction false} StackActivation(layers: seq<Plugin>)
    requires layers != []
    ensures ActivationOf(layers, Stack(layers))
  {
    forall i | 0 < i && LastSets(layers, i)
      ensures var m := Stack(layers); m.enabled == layers[i].enabled && (m.disabled <==> layers[i].enabled.None?)
    {
      StackDecided(layers, i);
    }
    if forall i :: 0 < i < |layers| ==> !Sets(layers[i]) {
      StackUndecided(layers);
    }
  }

  lemma {:induction false} StackFields(layers: seq<Plugin>)
    requires layers != []
    ensures Stack(layers).config == LastConfig(layers)
    ensures Stack(layers).dependencies == LastDependencies(layers)
    ensures Stack(layers).integrity == LastIntegrity(layers)
    ensures IsDisabled(Stack(layers)) == DisabledByLast(layers)
  {
    if |layers| > 1 {
      StackFields(layers[..|layers| - 1]);
    } else {
      assert layers[..0] == [];
    }
  }

  /** In the result a package is its layers stacked, as printed. */
  lemma FoldStack(sources: seq<Data>, resolve: bool, overlays: seq<seq<Plugin>>, out: Data, k: string)
    requires Reaches(sources, resolve, overlays, out) && |overlays| >= 2
    ensures out.Text? && Distinct(out.doc.plugins)
    ensures var m, layers := ByPackage(out.doc.plugins), Layers(overlays, k);
            (k in m <==> layers != []) && (k in m ==> m[k] == Erase(Stack(layers)))
  {
    ReachesFolded(sources, resolve, overlays, out);
    MergeIntoStacks(ByPackage(overlays[0]), Flatten(overlays[1..]), k);
  }

  /** The merge law for two or more sources. A package is in the result exactly
      when some source has it; its config and dependencies are the last ones
      set (cleared when that is an explicitly empty value), its integrity the
      last non-empty one. Its activation is that of the last entry that sets
      `enabled` or `disabled: true`, enabled if there is none; that entry replaces
      both fields. */
  lemma FoldLaw(sources: seq<Data>, resolve: bool, overlays: seq<seq<Plugin>>, out: Data, k: string)
    requires Reaches(sources, resolve, overlays, out) && |overlays| >= 2
    ensures out.Text? && Distinct(out.doc.plugins)
    ensures var m, layers := ByPackage(out.doc.plugins), Layers(overlays, k);
            && (k in m <==> layers != [])
            && (k in m ==>
                && m[k].package == k
                && m[k].config == (if LastConfig(layers) == Some(Node(map[])) then None else LastConfig(layers))
                && m[k].dependencies ==
                   (if LastDependencies(layers) == Some([]) then None else LastDependencies(layers))
                && m[k].integrity == LastIntegrity(layers)
                && ActivationOf(layers, m[k])
                && (IsDisabled(m[k]) <==> exists i :: LastSets(layers, i) && layers[i].enabled != Some(true))
                && IsDisabled(m[k]) == DisabledByLast(layers))
  {
    FoldStack(sources, resolve, overlays, out, k);
    ByPackageKeys(out.doc.plugins);
    var layers := Layers(overlays, k);
    if layers != [] {
      StackFields(layers);
      StackActivation(layers);
      DisabledByLastIff(layers);
    }
  }

  // ---------------------------------------------------------------------------
  // Packages are conserved
  // ---------------------------------------------------------------------------

  /** A merge neither loses nor duplicates nor invents a package, and `ref://`
      or path-less `{{inherit}}` entries bring none that the first lacks. */
  lemma MergeConservesPackages(first: Data, second: Data, resolve: bool, overlay: seq<Plugin>, out: Data)
    requires Merges(first, second, resolve, overlay, out) && first.Text? && second.Text?
    ensures out.Text? && Distinct(out.doc.plugins)
    ensures PackageSet(out.doc.plugins) == PackageSet(first.doc.plugins) + PackageSet(overlay)
    ensures resolve ==> forall i :: 0 <= i < |overlay| ==>
              var url := second.doc.plugins[i].package;
              url != "" && (IsRef(url) || (IsInherit(url) && PluginPath(url) == "")) ==>
              overlay[i].package in PackageSet(first.doc.plugins)
  {
    var a, b := first.doc.plugins, out.doc.plugins;
    ByPackageKeys(a);
    ByPackageKeys(b);
    MergeIntoKeys(ByPackage(a), overlay);
    assert EraseMap(MergeInto(ByPackage(a), overlay)).Keys == MergeInto(ByPackage(a), overlay).Keys;
    if resolve {
      forall i | 0 <= i < |overlay| && second.doc.plugins[i].package != ""
        ensures var url := second.doc.plugins[i].package;
                IsRef(url) || (IsInherit(url) && PluginPath(url) == "") ==> overlay[i].package in PackageSet(a)
      {
        var url := second.doc.plugins[i].package;
        assert IsResolved(second.doc.plugins[i], Packages(a), overlay[i]);
        if IsRef(url) || (IsInherit(url) && PluginPath(url) == "") {
          PlainReferencesStayInBase(url, Packages(a));
          var j :| 0 <= j < |a| && Packages(a)[j] == overlay[i].package;
          assert a[j] in a;
        }
      }
    }
  }

  // ---------------------------------------------------------------------------
  // Includes
  // ---------------------------------------------------------------------------

  /** An include is in the result exactly when some source lists it and no later
      source sets an explicitly empty list. */
  lemma {:induction false} IncludesLaw(sources: seq<Data>, resolve: bool,
                                       overlays: seq<seq<Plugin>>, out: Data, x: string)
    requires Reaches(sources, resolve, overlays, out)
    ensures x in IncludeSet(out) <==>
            exists i :: 0 <= i < |sources| && x in IncludeSet(sources[i])
                        && forall j :: i < j < |sources| ==> !Clears(sources[j])
  {
    if sources != [] {
      var n := |sources| - 1;
      var init, last := sources[..n], sources[n];
      var mid := out;
      if last.Blank? {
        IncludesLaw(init, resolve, overlays, out, x);
      } else {
        var before, overlay := overlays[..|overlays| - 1], overlays[|overlays| - 1];
        var m :| Reaches(init, resolve, before, m) && Merges(m, last, resolve, overlay, out);
        mid := m;
        IncludesLaw(init, resolve, before, mid, x);
      }
      assert x in IncludeSet(out) <==> x in IncludeSet(last) || (x in IncludeSet(mid) && !Clears(last));
      if i :| 0 <= i < |init| && x in IncludeSet(init[i]) && forall j :: i < j < |init| ==> !Clears(init[j]) {
        if !Clears(last) {
          assert x in IncludeSet(sources[i]);
          assert forall j :: i < j < |sources| ==> sources[j] == if j < n then init[j] else last;
        }
      }
      if i :| 0 <= i < |sources| && x in IncludeSet(sources[i])
              && forall j :: i < j < |sources| ==> !Clears(sources[j]) {
        if i < n {
          assert x in IncludeSet(init[i]) && forall j :: i < j < |init| ==> init[j] == sources[j];
        }
      }
    }
  }
}
