/**
 When the merge of plugin configurations panics (pkg/model/appconfig.go).

 A nested map that yaml.v2 yields may have a key that is not a string, and the
 conversion to a string-keyed map panics on it. A `Node` is marked `bad` when it
 is such a map; its entries are those under its string keys.
 */
module MarkedConfigs {
  import Pure = PluginConfigTree

  datatype Config = Leaf(value: string) | Node(entries: map<string, Config>, bad: bool)

  type Tree = c: Config | c.Node? witness Node(map[], false)

  const EMPTY: Tree := Node(map[], false)

  predicate Bad(c: Config) {
    c.Node? && c.bad
  }

  /** The deep merge, with the marks carried along. */
  function Overlay(dst: Config, src: Config): Config
    decreases src
  {
    if dst.Node? && src.Node? then
      Node(map k | k in dst.entries.Keys + src.entries.Keys ::
             if k !in src.entries then dst.entries[k]
             else if k in dst.entries then Overlay(dst.entries[k], src.entries[k])
             else src.entries[k],
           dst.bad || src.bad)
    else
      src
  }

  function MergeAll(cs: seq<Tree>): Tree {
    if cs == [] then EMPTY else Overlay(MergeAll(cs[..|cs| - 1]), cs[|cs| - 1])
  }

  lemma MergeAllSnoc(cs: seq<Tree>, i: nat)
    requires i < |cs|
    ensures MergeAll(cs[..i + 1]) == Overlay(MergeAll(cs[..i]), cs[i])
  {
    assert cs[..i + 1][..i] == cs[..i];
  }

  // ---------------------------------------------------------------------------
  // Without the marks
  // ---------------------------------------------------------------------------

  function Plain(c: Config): (r: Pure.Config)
    ensures r.Node? <==> c.Node?
    ensures c.Node? ==> r.entries.Keys == c.entries.Keys
  {
    match c
    case Leaf(value) => Pure.Leaf(value)
    case Node(entries, _) => Pure.Node(map k | k in entries :: Plain(entries[k]))
  }

  function Plains(cs: seq<Tree>): (r: seq<Pure.Tree>)
    ensures |r| == |cs| && forall i :: 0 <= i < |cs| ==> r[i] == Plain(cs[i])
  {
    seq(|cs|, i requires 0 <= i < |cs| => Plain(cs[i]))
  }

  /** Forgetting the marks commutes with the merge ... */
  lemma {:induction false} PlainOverlay(dst: Config, src: Config)
    ensures Plain(Overlay(dst, src)) == Pure.Overlay(Plain(dst), Plain(src))
    decreases src
  {
    if dst.Node? && src.Node? {
      forall k | k in dst.entries && k in src.entries
        ensures Plain(Overlay(dst.entries[k], src.entries[k])) ==
                Pure.Overlay(Plain(dst.entries[k]), Plain(src.entries[k]))
      {
        PlainOverlay(dst.entries[k], src.entries[k]);
      }
      assert Plain(Overlay(dst, src)).entries == Pure.Overlay(Plain(dst), Plain(src)).entries;
    }
  }

  /** ... and with the fold. */
  lemma {:induction false} PlainMergeAll(cs: seq<Tree>)
    ensures Plain(MergeAll(cs)) == Pure.MergeAll(Plains(cs))
  {
    if cs != [] {
      var init, last := cs[..|cs| - 1], cs[|cs| - 1];
      PlainMergeAll(init);
      PlainOverlay(MergeAll(init), last);
      assert Plains(cs)[..|cs| - 1] == Plains(init);
    }
  }

  // ---------------------------------------------------------------------------
  // The panic
  // ---------------------------------------------------------------------------

  /** Merging `c` into `dst` at key `k` panics: one of the two values is converted
      although it has a bad key, or both are maps and merging them panics. */
  ghost predicate PanicsAtKey(dst: Tree, k: string, c: Config)
    decreases c, 1
  {
    Bad(c) || (k in dst.entries && (Bad(dst.entries[k]) || Panics(dst.entries[k], c)))
  }

  ghost predicate Panics(dst: Config, src: Config)
    decreases src, 0
  {
    dst.Node? && src.Node? && exists k :: k in src.entries && PanicsAtKey(dst, k, src.entries[k])
  }

  /** The fold over the plugins panics at plugin `i`, if it gets there. */
  ghost predicate PanicsWith(cs: seq<Tree>, i: nat)
    requires i < |cs|
  {
    Panics(MergeAll(cs[..i]), cs[i])
  }

  ghost predicate FoldPanics(cs: seq<Tree>) {
    exists i: nat :: i < |cs| && PanicsWith(cs, i)
  }

  // ---------------------------------------------------------------------------
  // The panic, path by path
  // ---------------------------------------------------------------------------

  type Path = seq<string>

  function ShapeAt(c: Config, p: Path): Pure.Shape {
    Pure.ShapeAt(Plain(c), p)
  }

  /** A map with a bad key is at the path. */
  ghost predicate BadAt(c: Config, p: Path) {
    if p == [] then Bad(c) else c.Node? && p[0] in c.entries && BadAt(c.entries[p[0]], p[1..])
  }

  /** Both have a map at `q`, `src` has the key `k` there, and one of the two has a bad map under it. */
  ghost predicate Clash(dst: Config, src: Config, q: Path, k: string) {
    && ShapeAt(dst, q) == Pure.Mapping && ShapeAt(src, q) == Pure.Mapping
    && ShapeAt(src, q + [k]) != Pure.Missing
    && (BadAt(src, q + [k]) || BadAt(dst, q + [k]))
  }

  lemma ShapeStep(c: Config, k: string, p: Path)
    ensures ShapeAt(c, [k] + p) ==
            if c.Node? && k in c.entries then ShapeAt(c.entries[k], p) else Pure.Missing
    ensures BadAt(c, [k] + p) <==> c.Node? && k in c.entries && BadAt(c.entries[k], p)
  {
    assert ([k] + p)[1..] == p;
  }

  lemma ClashStep(dst: Tree, src: Tree, l: string, q: Path, k: string)
    ensures Clash(dst, src, [l] + q, k) <==>
            l in dst.entries && l in src.entries && Clash(dst.entries[l], src.entries[l], q, k)
  {
    assert [l] + q + [k] == [l] + (q + [k]);
    ShapeStep(dst, l, q);
    ShapeStep(src, l, q);
    ShapeStep(dst, l, q + [k]);
    ShapeStep(src, l, q + [k]);
  }

  lemma ClashHere(dst: Tree, src: Tree, k: string)
    ensures Clash(dst, src, [], k) <==>
            k in src.entries && (Bad(src.entries[k]) || (k in dst.entries && Bad(dst.entries[k])))
  {
    assert [] + [k] == [k] == [k] + [];
    ShapeStep(dst, k, []);
    ShapeStep(src, k, []);
  }

  lemma {:induction false} ClashPanics(dst: Config, src: Config, q: Path, k: string)
    requires Clash(dst, src, q, k)
    ensures Panics(dst, src)
    decreases |q|
  {
    if q == [] {
      ClashHere(dst, src, k);
      assert PanicsAtKey(dst, k, src.entries[k]);
    } else {
      assert q == [q[0]] + q[1..];
      assert dst.Node? && src.Node?;
      ClashStep(dst, src, q[0], q[1..], k);
      ClashPanics(dst.entries[q[0]], src.entries[q[0]], q[1..], k);
      assert PanicsAtKey(dst, q[0], src.entries[q[0]]);
    }
  }

  lemma {:induction false} PanicClashes(dst: Config, src: Config)
    requires Panics(dst, src)
    ensures exists q, k :: Clash(dst, src, q, k)
    decreases src
  {
    var l :| l in src.entries && PanicsAtKey(dst, l, src.entries[l]);
    if Bad(src.entries[l]) || (l in dst.entries && Bad(dst.entries[l])) {
      ClashHere(dst, src, l);
      assert Clash(dst, src, [], l);
    } else {
      PanicClashes(dst.entries[l], src.entries[l]);
      var q, k :| Clash(dst.entries[l], src.entries[l], q, k);
      ClashStep(dst, src, l, q, k);
      assert Clash(dst, src, [l] + q, k);
    }
  }

  /** One merge panics exactly when, at some path where both sides have a map, the
      source has a key under which one of the two has a map with a bad key. */
  lemma PanicsIff(dst: Config, src: Config)
    ensures Panics(dst, src) <==> exists q, k :: Clash(dst, src, q, k)
  {
    if Panics(dst, src) {
      PanicClashes(dst, src);
    }
    if q, k :| Clash(dst, src, q, k) {
      ClashPanics(dst, src, q, k);
    }
  }

  // ---------------------------------------------------------------------------
  // Every order of the plugins
  // ---------------------------------------------------------------------------

  /** Plugin `i` has a map with a bad key directly at the top, or below a path
      where another plugin has a map too. */
  ghost predicate Meets(cs: seq<Tree>, i: nat, q: Path, k: string) {
    && i < |cs| && BadAt(cs[i], q + [k])
    && (q == [] || exists j: nat :: j < |cs| && j != i && ShapeAt(cs[j], q) == Pure.Mapping)
  }

  /** No plugin order makes the fold panic. */
  ghost predicate SafeInEveryOrder(cs: seq<Tree>) {
    forall ds: seq<Tree> :: multiset(ds) == multiset(cs) ==> !FoldPanics(ds)
  }

  lemma {:induction false} BadFromOne(dst: Config, src: Config, p: Path)
    requires BadAt(Overlay(dst, src), p)
    ensures BadAt(dst, p) || BadAt(src, p)
    decreases |p|
  {
    if p != [] && dst.Node? && src.Node? && p[0] in dst.entries && p[0] in src.entries {
      BadFromOne(dst.entries[p[0]], src.entries[p[0]], p[1..]);
    }
  }

  lemma {:induction false} BadFromSource(cs: seq<Tree>, p: Path) returns (i: nat)
    requires BadAt(MergeAll(cs), p)
    ensures i < |cs| && BadAt(cs[i], p)
  {
    var init, last := cs[..|cs| - 1], cs[|cs| - 1];
    BadFromOne(MergeAll(init), last, p);
    if BadAt(last, p) {
      i := |cs| - 1;
    } else {
      i := BadFromSource(init, p);
    }
  }

  lemma {:induction false} BadIsMapping(c: Config, q: Path, k: string)
    requires BadAt(c, q + [k])
    ensures ShapeAt(c, q) == Pure.Mapping && ShapeAt(c, q + [k]) != Pure.Missing
    decreases |q|
  {
    if q == [] {
      assert [] + [k] == [k] + [];
      ShapeStep(c, k, []);
    } else {
      var l, rest := q[0], q[1..];
      assert q == [l] + rest && q + [k] == [l] + (rest + [k]);
      ShapeStep(c, l, rest);
      ShapeStep(c, l, rest + [k]);
      BadIsMapping(c.entries[l], rest, k);
    }
  }

  lemma FoldPanicMeets(cs: seq<Tree>)
    requires FoldPanics(cs)
    ensures exists i, q, k :: Meets(cs, i, q, k)
  {
    var n: nat :| n < |cs| && PanicsWith(cs, n);
    PanicClashes(MergeAll(cs[..n]), cs[n]);
    var q, k :| Clash(MergeAll(cs[..n]), cs[n], q, k);
    if BadAt(cs[n], q + [k]) {
      if q != [] {
        var j := MappingFromSource(cs[..n], q);
        assert ShapeAt(cs[j], q) == Pure.Mapping;
      }
      assert Meets(cs, n, q, k);
    } else {
      var i := BadFromSource(cs[..n], q + [k]);
      assert cs[..n][i] == cs[i];
      assert Meets(cs, i, q, k);
    }
  }

  lemma MappingFromSource(cs: seq<Tree>, q: Path) returns (i: nat)
    requires q != [] && ShapeAt(MergeAll(cs), q) == Pure.Mapping
    ensures i < |cs| && ShapeAt(cs[i], q) == Pure.Mapping
  {
    PlainMergeAll(cs);
    i := Pure.MergedFromSource(Plains(cs), q);
  }

  function Rest(cs: seq<Tree>, i: nat): seq<Tree>
    requires i < |cs|
  {
    cs[..i] + cs[i + 1..]
  }

  lemma {:induction false} RestOf(cs: seq<Tree>, i: nat)
    requires i < |cs|
    ensures multiset(cs) == multiset{cs[i]} + multiset(Rest(cs, i))
    ensures multiset(Rest(cs, i)) == multiset(cs) - multiset{cs[i]}
  {
    assert cs == cs[..i] + [cs[i]] + cs[i + 1..];
  }

  /** Plugin `j` is still there when plugin `i` is taken out. */
  lemma {:induction false} StillThere(cs: seq<Tree>, i: nat, j: nat) returns (n: nat)
    requires i < |cs| && j < |cs| && i != j
    ensures n < |Rest(cs, i)| && Rest(cs, i)[n] == cs[j]
  {
    n := if j < i then j else j - 1;
  }

  /** Plugins `i` and `j` in front of the others. */
  lemma {:induction false} InFront(cs: seq<Tree>, i: nat, j: nat) returns (ds: seq<Tree>)
    requires i < |cs| && j < |cs| && i != j
    ensures multiset(ds) == multiset(cs) && |ds| >= 2 && ds[0] == cs[i] && ds[1] == cs[j]
  {
    var rest := Rest(cs, i);
    var n := StillThere(cs, i, j);
    RestOf(cs, i);
    RestOf(rest, n);
    ds := [cs[i]] + ([cs[j]] + Rest(rest, n));
    assert multiset(ds) == multiset{cs[i]} + (multiset{cs[j]} + multiset(Rest(rest, n)));
  }

  lemma MeetPanics(cs: seq<Tree>, i: nat, q: Path, k: string)
    requires Meets(cs, i, q, k)
    ensures !SafeInEveryOrder(cs)
  {
    BadIsMapping(cs[i], q, k);
    if q == [] {
      assert Clash(MergeAll(cs[..i]), cs[i], q, k);
      ClashPanics(MergeAll(cs[..i]), cs[i], q, k);
      assert PanicsWith(cs, i) && FoldPanics(cs);
    } else {
      var j: nat :| j < |cs| && j != i && ShapeAt(cs[j], q) == Pure.Mapping;
      var ds := InFront(cs, j, i);
      FirstIsItself(ds);
      assert Clash(MergeAll(ds[..1]), ds[1], q, k);
      ClashPanics(MergeAll(ds[..1]), ds[1], q, k);
      assert PanicsWith(ds, 1) && FoldPanics(ds);
    }
  }

  lemma {:induction false} PositionOf(cs: seq<Tree>, c: Tree) returns (i: nat)
    requires c in multiset(cs)
    ensures i < |cs| && cs[i] == c
  {
    i :| i < |cs| && cs[i] == c;
  }

  lemma {:induction false} PositionBesides(cs: seq<Tree>, i: nat, c: Tree) returns (j: nat)
    requires i < |cs| && c in multiset(Rest(cs, i))
    ensures j < |cs| && j != i && cs[j] == c
  {
    var n := PositionOf(Rest(cs, i), c);
    j := if n < i then n else n + 1;
  }

  lemma {:induction false} TwoPositions(cs: seq<Tree>, ds: seq<Tree>, i: nat, j: nat) returns (i': nat, j': nat)
    requires multiset(ds) == multiset(cs) && i < |ds| && j < |ds| && i != j
    ensures i' < |cs| && j' < |cs| && i' != j' && cs[i'] == ds[i] && cs[j'] == ds[j]
  {
    assert ds[i] in multiset(ds);
    i' := PositionOf(cs, ds[i]);
    RestOf(cs, i');
    RestOf(ds, i);
    var m := StillThere(ds, i, j);
    assert ds[j] in multiset(Rest(ds, i));
    j' := PositionBesides(cs, i', ds[j]);
  }

  lemma MeetsPermutes(cs: seq<Tree>, ds: seq<Tree>, i: nat, q: Path, k: string)
    requires multiset(ds) == multiset(cs) && Meets(ds, i, q, k)
    ensures exists i' :: Meets(cs, i', q, k)
  {
    if q == [] {
      assert ds[i] in multiset(cs);
      var i' :| 0 <= i' < |cs| && cs[i'] == ds[i];
      assert Meets(cs, i', q, k);
    } else {
      var j: nat :| j < |ds| && j != i && ShapeAt(ds[j], q) == Pure.Mapping;
      var i', j' := TwoPositions(cs, ds, i, j);
      assert Meets(cs, i', q, k);
    }
  }

  /** No plugin order makes the merge panic if and only if no plugin has a map with
      a bad key directly at the top, or below a path where another plugin has a map. */
  lemma SafeInEveryOrderIff(cs: seq<Tree>)
    ensures SafeInEveryOrder(cs) <==> forall i, q, k :: !Meets(cs, i, q, k)
  {
    if i, q, k :| Meets(cs, i, q, k) {
      MeetPanics(cs, i, q, k);
    } else {
      forall ds: seq<Tree> | multiset(ds) == multiset(cs) ensures !FoldPanics(ds) {
        if FoldPanics(ds) {
          FoldPanicMeets(ds);
          var i, q, k :| Meets(ds, i, q, k);
          MeetsPermutes(cs, ds, i, q, k);
          assert false;
        }
      }
    }
  }

  // A map with a bad key at k.x, a scalar at k.x, and a scalar at k.
  const BAD_X: Tree := Node(map["k" := Node(map["x" := Node(map[], true)], false)], false)
  const SCALAR_X: Tree := Node(map["k" := Node(map["x" := Leaf("1")], false)], false)
  const SCALAR_K: Tree := Node(map["k" := Leaf("off")], false)

  /** Whether the merge panics depends on the order of the plugins. */
  lemma PanicOrderMatters()
    ensures FoldPanics([BAD_X, SCALAR_X, SCALAR_K]) && !FoldPanics([BAD_X, SCALAR_K, SCALAR_X])
  {
    var l, r := [BAD_X, SCALAR_X, SCALAR_K], [BAD_X, SCALAR_K, SCALAR_X];
    FirstIsItself(l);
    FirstIsItself(r);
    assert PanicsAtKey(BAD_X.entries["k"], "x", SCALAR_X.entries["k"].entries["x"]);
    assert PanicsAtKey(BAD_X, "k", SCALAR_X.entries["k"]);
    assert PanicsWith(l, 1);
    MergeAllSnoc(r, 1);
    assert MergeAll(r[..2]) == SCALAR_K;
    assert !PanicsWith(r, 0) && !PanicsWith(r, 1) && !PanicsWith(r, 2);
  }

  lemma FirstIsItself(cs: seq<Tree>)
    requires cs != []
    ensures MergeAll(cs[..0]) == EMPTY && MergeAll(cs[..1]) == cs[0]
  {
    assert cs[..1][..0] == [];
    assert Overlay(EMPTY, cs[0]).entries == cs[0].entries;
  }
}
