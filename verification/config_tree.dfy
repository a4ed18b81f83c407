/**
 Plugin configuration as a pure tree, and the deep merge that
 `mergePluginConfigs` performs on it (pkg/model/appconfig.go).

 A `Leaf` is any YAML value that is not a map (a scalar or a list); a `Node` is
 a map. The two Go map representations are told apart in `PluginConfigHeap`
 only: they carry the same tree.
 */
module PluginConfigTree {

  datatype Config = Leaf(value: string) | Node(entries: map<string, Config>)

  /** A plugin's `pluginConfig` is a map; a missing one counts as the empty map. */
  type Tree = c: Config | c.Node? witness Node(map[])

  /** Overlays `src` on `dst`: maps merge key by key, anything else is replaced by `src`. */
  function Overlay(dst: Config, src: Config): Config
    decreases src
  {
    if dst.Node? && src.Node? then
      Node(map k | k in dst.entries.Keys + src.entries.Keys ::
             if k !in src.entries then dst.entries[k]
             else if k in dst.entries then Overlay(dst.entries[k], src.entries[k])
             else src.entries[k])
    else
      src
  }

  /** The left fold over the plugin list, starting from an empty map. */
  function MergeAll(cs: seq<Tree>): Tree {
    if cs == [] then Node(map[])
    else Overlay(MergeAll(cs[..|cs| - 1]), cs[|cs| - 1])
  }

  // ---------------------------------------------------------------------------
  // Paths: an independent way to look at a tree
  // ---------------------------------------------------------------------------

  type Path = seq<string>

  /** What a tree holds at a path. */
  datatype Shape = Missing | Scalar(value: string) | Mapping

  function ShapeAt(c: Config, p: Path): Shape {
    if p == [] then (if c.Leaf? then Scalar(c.value) else Mapping)
    else if c.Node? && p[0] in c.entries then ShapeAt(c.entries[p[0]], p[1..])
    else Missing
  }

  /** Some strict prefix of `p` holds a value that is not a map. */
  ghost predicate ScalarAbove(c: Config, p: Path) {
    exists n: nat :: n < |p| && ShapeAt(c, p[..n]).Scalar?
  }

  lemma {:induction false} ScalarAboveStep(c: Config, p: Path)
    requires p != []
    ensures c.Leaf? ==> ScalarAbove(c, p)
    ensures c.Node? && p[0] !in c.entries ==> !ScalarAbove(c, p)
    ensures c.Node? && p[0] in c.entries ==> (ScalarAbove(c, p) <==> ScalarAbove(c.entries[p[0]], p[1..]))
  {
    if c.Leaf? {
      assert ShapeAt(c, p[..0]).Scalar?;
    } else {
      forall n: nat | 0 < n <= |p|
        ensures p[..n][0] == p[0] && p[..n][1..] == p[1..][..n - 1]
      {
      }
      if p[0] in c.entries {
        var d := c.entries[p[0]];
        if ScalarAbove(c, p) {
          var n: nat :| n < |p| && ShapeAt(c, p[..n]).Scalar?;
          assert ShapeAt(d, p[1..][..n - 1]).Scalar?;
        }
        if ScalarAbove(d, p[1..]) {
          var n: nat :| n < |p[1..]| && ShapeAt(d, p[1..][..n]).Scalar?;
          assert p[..n + 1][1..] == p[1..][..n];
          assert ShapeAt(c, p[..n + 1]).Scalar?;
        }
      }
    }
  }

  lemma ScalarAbovePrefix(c: Config, p: Path, n: nat)
    requires n <= |p|
    ensures ScalarAbove(c, p[..n]) ==> ScalarAbove(c, p)
  {
    if m: nat :| m < |p[..n]| && ShapeAt(c, p[..n][..m]).Scalar? {
      assert p[..n][..m] == p[..m];
    }
  }

  /** Nothing lives below a scalar. */
  lemma {:induction false} MissingBelowScalar(c: Config, p: Path)
    requires ScalarAbove(c, p)
    ensures ShapeAt(c, p) == Missing
    decreases |p|
  {
    ScalarAboveStep(c, p);
    if c.Node? && p[0] in c.entries {
      MissingBelowScalar(c.entries[p[0]], p[1..]);
    }
  }

  /** What is above a present value is a map. */
  lemma {:induction false} MappingAbovePresent(c: Config, p: Path, n: nat)
    requires n < |p| && ShapeAt(c, p) != Missing
    ensures ShapeAt(c, p[..n]) == Mapping
  {
    if n > 0 {
      assert p[..n][1..] == p[1..][..n - 1];
      MappingAbovePresent(c.entries[p[0]], p[1..], n - 1);
    }
  }

  lemma KeyShape(c: Config, k: string)
    requires c.Node?
    ensures ShapeAt(c, [k]) == Missing <==> k !in c.entries
  {
    assert [k][1..] == [];
  }

  lemma BelowKey(c: Config, k: string, p: Path)
    requires c.Node? && k in c.entries
    ensures ShapeAt(c, [k] + p) == ShapeAt(c.entries[k], p)
  {
    assert ([k] + p)[1..] == p;
  }

  /** Two trees that look the same at every path are the same tree. */
  lemma {:induction false} Extensional(a: Config, b: Config)
    requires forall p :: ShapeAt(a, p) == ShapeAt(b, p)
    ensures a == b
    decreases a
  {
    assert ShapeAt(a, []) == ShapeAt(b, []);
    if a.Node? {
      forall k: string
        ensures k in a.entries <==> k in b.entries
        ensures k in a.entries ==> a.entries[k] == b.entries[k]
      {
        KeyShape(a, k);
        KeyShape(b, k);
        assert ShapeAt(a, [k]) == ShapeAt(b, [k]);
        if k in a.entries {
          forall p: Path ensures ShapeAt(a.entries[k], p) == ShapeAt(b.entries[k], p) {
            BelowKey(a, k, p);
            BelowKey(b, k, p);
            assert ShapeAt(a, [k] + p) == ShapeAt(b, [k] + p);
          }
          Extensional(a.entries[k], b.entries[k]);
        }
      }
      assert a.entries == b.entries;
    }
  }

  // ---------------------------------------------------------------------------
  // Path law for one merge and for the whole fold
  // ---------------------------------------------------------------------------

  /** One merge, path by path: `src` wins where it has a value, hides what is
      under its scalars, and leaves everything else of `dst` in place. */
  lemma {:induction false} OverlayAt(dst: Config, src: Config, p: Path)
    ensures ShapeAt(Overlay(dst, src), p) ==
            if ShapeAt(src, p) != Missing then ShapeAt(src, p)
            else if ScalarAbove(src, p) then Missing
            else ShapeAt(dst, p)
    decreases |p|
  {
    if p != [] {
      ScalarAboveStep(src, p);
      if dst.Node? && src.Node? && p[0] in dst.entries && p[0] in src.entries {
        OverlayAt(dst.entries[p[0]], src.entries[p[0]], p[1..]);
      } else if src.Node? && p[0] in src.entries && ScalarAbove(src.entries[p[0]], p[1..]) {
        MissingBelowScalar(src, p);
      }
    }
  }

  /** No source from index `i` on has a say at `p`. */
  ghost predicate SilentFrom(cs: seq<Tree>, i: nat, p: Path) {
    forall j :: i <= j < |cs| ==> ShapeAt(cs[j], p) == Missing && !ScalarAbove(cs[j], p)
  }

  /** Source `i` is the one that decides what the merge holds at `p`. */
  ghost predicate Decides(cs: seq<Tree>, i: nat, p: Path) {
    i < |cs| && ShapeAt(cs[i], p) != Missing && SilentFrom(cs, i + 1, p)
  }

  /** The n-plugin path law: a value (scalar or map) is at `p` in the merged
      configuration exactly when some source has it there and no later source
      has a value at `p` or a scalar above it. */
  lemma {:induction false} MergeAllAt(cs: seq<Tree>, p: Path, s: Shape)
    requires p != [] && s != Missing
    ensures ShapeAt(MergeAll(cs), p) == s <==> exists i: nat :: Decides(cs, i, p) && ShapeAt(cs[i], p) == s
  {
    if cs != [] {
      var init, last := cs[..|cs| - 1], cs[|cs| - 1];
      OverlayAt(MergeAll(init), last, p);
      if ShapeAt(last, p) != Missing {
        assert Decides(cs, |cs| - 1, p);
      } else {
        MergeAllAt(init, p, s);
        DecidesEarlier(cs, p);
      }
    }
  }

  /** A last source without a value at `p` either hides it or leaves the decision to the others. */
  lemma DecidesEarlier(cs: seq<Tree>, p: Path)
    requires cs != [] && ShapeAt(cs[|cs| - 1], p) == Missing
    ensures forall i: nat :: Decides(cs, i, p) <==> Decides(cs[..|cs| - 1], i, p) && !ScalarAbove(cs[|cs| - 1], p)
  {
  }

  /** The merge of all sources is empty only when they all are. */
  lemma {:induction false} MergeAllKeys(cs: seq<Tree>)
    ensures MergeAll(cs).entries == map[] <==> forall i :: 0 <= i < |cs| ==> cs[i].entries == map[]
  {
    if cs != [] {
      var init, last := cs[..|cs| - 1], cs[|cs| - 1];
      MergeAllKeys(init);
      var m, r := MergeAll(init), MergeAll(cs);
      assert r.entries.Keys == m.entries.Keys + last.entries.Keys;
      assert forall t: Tree :: t.entries == map[] <==> t.entries.Keys == {};
      assert forall i :: 0 <= i < |cs| ==> cs[i] == if i < |init| then init[i] else last;
      if r.entries == map[] {
        assert m.entries.Keys == {} && last.entries.Keys == {};
      }
    }
  }

  // ---------------------------------------------------------------------------
  // Order of the plugin list
  // ---------------------------------------------------------------------------

  /** No path is a scalar in one tree and a different scalar, or a map, in the other. */
  ghost predicate Agree(a: Config, b: Config) {
    forall p :: ShapeAt(a, p) != Missing && ShapeAt(b, p) != Missing ==> ShapeAt(a, p) == ShapeAt(b, p)
  }

  ghost predicate PairwiseAgree(cs: seq<Tree>) {
    forall i, j :: 0 <= i < j < |cs| ==> Agree(cs[i], cs[j])
  }

  /** Every permutation of the plugin list merges to the same configuration. */
  ghost predicate OrderIndependent(cs: seq<Tree>) {
    forall ds: seq<Tree> :: multiset(ds) == multiset(cs) ==> MergeAll(ds) == MergeAll(cs)
  }

  lemma AgreeAt(cs: seq<Tree>, i: nat, j: nat, p: Path)
    requires PairwiseAgree(cs) && i < |cs| && j < |cs|
    requires ShapeAt(cs[i], p) != Missing && ShapeAt(cs[j], p) != Missing
    ensures ShapeAt(cs[i], p) == ShapeAt(cs[j], p)
  {
  }

  /** Among agreeing sources, whatever one source has survives the merge. */
  lemma {:induction false} AgreeingMergeAt(cs: seq<Tree>, p: Path, i: nat)
    requires PairwiseAgree(cs) && p != [] && i < |cs| && ShapeAt(cs[i], p) != Missing
    ensures ShapeAt(MergeAll(cs), p) == ShapeAt(cs[i], p)
    decreases |cs| - i
  {
    if SilentFrom(cs, i + 1, p) {
      assert Decides(cs, i, p);
      MergeAllAt(cs, p, ShapeAt(cs[i], p));
    } else {
      var j :| i + 1 <= j < |cs| && !(ShapeAt(cs[j], p) == Missing && !ScalarAbove(cs[j], p));
      if ScalarAbove(cs[j], p) {
        var n: nat :| n < |p| && ShapeAt(cs[j], p[..n]).Scalar?;
        MappingAbovePresent(cs[i], p, n);
        AgreeAt(cs, i, j, p[..n]);
        assert false;
      }
      AgreeAt(cs, i, j, p);
      AgreeingMergeAt(cs, p, j);
    }
  }

  lemma PermutationIndex(cs: seq<Tree>, ds: seq<Tree>, i: nat) returns (j: nat)
    requires multiset(ds) == multiset(cs) && i < |cs|
    ensures j < |ds| && ds[j] == cs[i]
  {
    assert cs[i] in multiset(cs);
    assert cs[i] in ds;
    j :| j < |ds| && ds[j] == cs[i];
  }

  /** Agreement does not depend on the order of the list. */
  lemma PairwiseAgreePermutes(cs: seq<Tree>, ds: seq<Tree>)
    requires PairwiseAgree(cs) && multiset(ds) == multiset(cs)
    ensures PairwiseAgree(ds)
  {
    forall i, j | 0 <= i < j < |ds| ensures Agree(ds[i], ds[j]) {
      var i' := PermutationIndex(ds, cs, i);
      var j' := PermutationIndex(ds, cs, j);
      forall p | ShapeAt(ds[i], p) != Missing && ShapeAt(ds[j], p) != Missing
        ensures ShapeAt(ds[i], p) == ShapeAt(ds[j], p)
      {
        AgreeAt(cs, i', j', p);
      }
    }
  }

  /** Whatever the merge holds comes from some source. */
  lemma MergedFromSource(cs: seq<Tree>, p: Path) returns (i: nat)
    requires p != [] && ShapeAt(MergeAll(cs), p) != Missing
    ensures i < |cs| && ShapeAt(cs[i], p) == ShapeAt(MergeAll(cs), p)
  {
    var s := ShapeAt(MergeAll(cs), p);
    MergeAllAt(cs, p, s);
    i :| Decides(cs, i, p) && ShapeAt(cs[i], p) == s;
  }

  lemma AgreementIsSufficient(cs: seq<Tree>, ds: seq<Tree>)
    requires PairwiseAgree(cs) && multiset(ds) == multiset(cs)
    ensures MergeAll(ds) == MergeAll(cs)
  {
    PairwiseAgreePermutes(cs, ds);
    forall p: Path ensures ShapeAt(MergeAll(ds), p) == ShapeAt(MergeAll(cs), p) {
      if p != [] {
        if ShapeAt(MergeAll(cs), p) != Missing {
          var i := MergedFromSource(cs, p);
          var j := PermutationIndex(cs, ds, i);
          AgreeingMergeAt(ds, p, j);
        } else if ShapeAt(MergeAll(ds), p) != Missing {
          var j := MergedFromSource(ds, p);
          var i := PermutationIndex(ds, cs, j);
          AgreeingMergeAt(cs, p, i);
        }
      }
    }
    Extensional(MergeAll(ds), MergeAll(cs));
  }

  function MoveLast(cs: seq<Tree>, i: nat): seq<Tree>
    requires i < |cs|
  {
    cs[..i] + cs[i + 1..] + [cs[i]]
  }

  /** The source merged last has its way at every path where it has a value. */
  lemma LastWins(cs: seq<Tree>, i: nat, p: Path)
    requires i < |cs| && ShapeAt(cs[i], p) != Missing
    ensures multiset(MoveLast(cs, i)) == multiset(cs)
    ensures ShapeAt(MergeAll(MoveLast(cs, i)), p) == ShapeAt(cs[i], p)
  {
    assert cs == cs[..i] + [cs[i]] + cs[i + 1..];
    var ds := MoveLast(cs, i);
    assert ds[..|ds| - 1] == cs[..i] + cs[i + 1..];
    OverlayAt(MergeAll(ds[..|ds| - 1]), cs[i], p);
  }

  /** The merged app-config is independent of the order of the plugin list if
      and only if the plugin configurations agree pairwise. */
  lemma OrderIndependentIffAgree(cs: seq<Tree>)
    ensures OrderIndependent(cs) <==> PairwiseAgree(cs)
  {
    if PairwiseAgree(cs) {
      forall ds: seq<Tree> | multiset(ds) == multiset(cs) ensures MergeAll(ds) == MergeAll(cs) {
        AgreementIsSufficient(cs, ds);
      }
    }
    if OrderIndependent(cs) {
      forall i, j | 0 <= i < j < |cs| ensures Agree(cs[i], cs[j]) {
        forall p | ShapeAt(cs[i], p) != Missing && ShapeAt(cs[j], p) != Missing
          ensures ShapeAt(cs[i], p) == ShapeAt(cs[j], p)
        {
          LastWins(cs, i, p);
          LastWins(cs, j, p);
          assert MergeAll(MoveLast(cs, i)) == MergeAll(cs) == MergeAll(MoveLast(cs, j));
        }
      }
    }
  }

  // ---------------------------------------------------------------------------
  // Grouping
  // ---------------------------------------------------------------------------

  /** `b` cuts off what `a` has at `p` with a scalar, and `c` puts a map back
      where that scalar was without deciding `p` itself. */
  ghost predicate Resurfaces(a: Config, b: Config, c: Config, p: Path) {
    && ShapeAt(a, p) != Missing
    && ShapeAt(c, p) == Missing && !ScalarAbove(c, p)
    && exists n: nat :: n < |p| && ShapeAt(b, p[..n]).Scalar? && ShapeAt(c, p[..n]) == Mapping
  }

  /** Grouping the merges differently shows at `p` exactly when a value of `a`
      resurfaces there. */
  lemma GroupingAt(a: Config, b: Config, c: Config, p: Path)
    ensures ShapeAt(Overlay(Overlay(a, b), c), p) == ShapeAt(Overlay(a, Overlay(b, c)), p)
            <==> !Resurfaces(a, b, c, p)
  {
    var bc := Overlay(b, c);
    OverlayAt(Overlay(a, b), c, p);
    OverlayAt(a, b, p);
    OverlayAt(a, bc, p);
    OverlayAt(b, c, p);
    forall n: nat | n < |p|
      ensures ShapeAt(bc, p[..n]) ==
              if ShapeAt(c, p[..n]) != Missing then ShapeAt(c, p[..n])
              else if ScalarAbove(c, p[..n]) then Missing else ShapeAt(b, p[..n])
    {
      OverlayAt(b, c, p[..n]);
    }
    if ScalarAbove(b, p) {
      MissingBelowScalar(b, p);
    }
    if ScalarAbove(c, p) {
      var n: nat :| n < |p| && ShapeAt(c, p[..n]).Scalar?;
      assert ShapeAt(bc, p[..n]).Scalar?;
      assert ScalarAbove(bc, p);
    } else {
      forall n: nat | n < |p| ensures !ScalarAbove(c, p[..n]) {
        ScalarAbovePrefix(c, p, n);
      }
      if ScalarAbove(b, p) {
        var n: nat :| n < |p| && ShapeAt(b, p[..n]).Scalar?;
        OneScalarAbove(b, p, n);
        if ShapeAt(c, p[..n]) == Missing {
          assert ShapeAt(bc, p[..n]).Scalar?;
          assert ScalarAbove(bc, p);
        } else {
          assert ShapeAt(c, p[..n]) == Mapping;
          assert forall m: nat :: m < |p| && ShapeAt(bc, p[..m]).Scalar? ==> ShapeAt(b, p[..m]).Scalar?;
          assert !ScalarAbove(bc, p);
        }
      } else {
        assert forall m: nat :: m < |p| && ShapeAt(bc, p[..m]).Scalar? ==> ShapeAt(b, p[..m]).Scalar?;
        assert !ScalarAbove(bc, p);
      }
    }
  }

  lemma PrefixIsMapping(c: Config, p: Path, m: nat, n: nat)
    requires m < n <= |p| && ShapeAt(c, p[..n]) != Missing
    ensures ShapeAt(c, p[..m]) == Mapping
  {
    assert p[..n][..m] == p[..m];
    MappingAbovePresent(c, p[..n], m);
  }

  /** At most one strict prefix of a path holds a scalar. */
  lemma OneScalarAbove(c: Config, p: Path, n: nat)
    requires n < |p| && ShapeAt(c, p[..n]).Scalar?
    ensures forall m: nat :: m < |p| && ShapeAt(c, p[..m]).Scalar? ==> m == n
  {
    forall m: nat | m < |p| && ShapeAt(c, p[..m]).Scalar? ensures m == n {
      if m < n {
        PrefixIsMapping(c, p, m, n);
      } else if n < m {
        PrefixIsMapping(c, p, n, m);
      }
    }
  }

  /** The merge is associative on three configurations if and only if nothing
      of the first resurfaces. */
  lemma AssociativeIff(a: Config, b: Config, c: Config)
    ensures Overlay(Overlay(a, b), c) == Overlay(a, Overlay(b, c)) <==> forall p :: !Resurfaces(a, b, c, p)
  {
    forall p ensures ShapeAt(Overlay(Overlay(a, b), c), p) == ShapeAt(Overlay(a, Overlay(b, c)), p)
                     <==> !Resurfaces(a, b, c, p)
    {
      GroupingAt(a, b, c, p);
    }
    if forall p :: !Resurfaces(a, b, c, p) {
      Extensional(Overlay(Overlay(a, b), c), Overlay(a, Overlay(b, c)));
    }
  }

  // The map / scalar / map triple.
  const MAP_X: Tree := Node(map["k" := Node(map["x" := Leaf("1")])])
  const SCALAR: Tree := Node(map["k" := Leaf("off")])
  const MAP_Y: Tree := Node(map["k" := Node(map["y" := Leaf("2")])])

  /** What the triple holds at `k` and at `k.x`. */
  lemma TripleShapes()
    ensures var p := ["k", "x"];
            && ShapeAt(MAP_X, p) == Scalar("1") && ShapeAt(MAP_Y, p) == Missing && ShapeAt(SCALAR, p) == Missing
            && ShapeAt(SCALAR, p[..1]) == Scalar("off")
            && ShapeAt(MAP_X, p[..1]) == ShapeAt(MAP_Y, p[..1]) == Mapping
            && !ScalarAbove(MAP_X, p) && !ScalarAbove(MAP_Y, p) && ScalarAbove(SCALAR, p)
  {
  }

  /** Map, then scalar, then map: grouping the merges differently gives another configuration. */
  lemma MapScalarMapRegroups()
    ensures Overlay(Overlay(MAP_X, SCALAR), MAP_Y) != Overlay(MAP_X, Overlay(SCALAR, MAP_Y))
  {
    TripleShapes();
    assert Resurfaces(MAP_X, SCALAR, MAP_Y, ["k", "x"]);
    GroupingAt(MAP_X, SCALAR, MAP_Y, ["k", "x"]);
  }

  /** The same triple merges differently in another order: its members do not agree. */
  lemma MapScalarMapReorders()
    ensures MergeAll([MAP_X, SCALAR, MAP_Y]) != MergeAll([SCALAR, MAP_X, MAP_Y])
    ensures !PairwiseAgree([MAP_X, SCALAR, MAP_Y])
  {
    var p := ["k", "x"];
    var l, r := [MAP_X, SCALAR, MAP_Y], [SCALAR, MAP_X, MAP_Y];
    TripleShapes();
    assert SilentFrom(r, 2, p);
    assert Decides(r, 1, p);
    MergeAllAt(r, p, Scalar("1"));
    MergeAllAt(l, p, Scalar("1"));
    assert ScalarAbove(l[1], p);
    assert !Agree(l[0], l[1]);
  }
}
