/**
 The in-place plugin-config merge on a heap of Go maps (pkg/model/appconfig.go).

 Go holds a nested map either as `map[string]interface{}` (`StringMap`) or, as
 yaml.v2 yields it below the top level, as `map[interface{}]interface{}`
 (`InterfaceMap`). Both are references: assigning one shares it. The model
 proves that the destructive merge computes `PluginConfigTree.Overlay` whatever
 the iteration order of the Go maps is, writes only to maps that are part of
 the merged config, and panics exactly when `MarkedConfigs.Panics` says so.
 */
module PluginConfigHeap {
  import opened MarkedConfigs
  import Pure = PluginConfigTree

  datatype Value = Text(value: string) | StringKeyed(strings: StringMap) | InterfaceKeyed(interfaces: InterfaceMap)

  /** A key of an interface-keyed map; YAML allows numbers and other values too. */
  datatype Key = Str(text: string) | Other(text: string)

  /** A nested map of a source, in the yaml.v2 representation. `tree` is what it
      holds under its string keys, marked when it has another key. */
  class InterfaceMap {
    var entries: map<Key, Value>
    ghost var tree: Tree

    ghost predicate OnlyStrings()
      reads this
    {
      forall k :: k in entries ==> k.Str?
    }
  }

  /** The interface-keyed maps of the sources: interface-keyed all the way down, each holding its `tree`. */
  ghost predicate Parsed(maps: set<InterfaceMap>)
    reads maps
  {
    forall m :: m in maps ==>
      && (m.tree.bad <==> !m.OnlyStrings())
      && (forall s :: s in m.tree.entries <==> Str(s) in m.entries)
      && forall s :: Str(s) in m.entries ==>
           match m.entries[Str(s)]
           case Text(v) => m.tree.entries[s] == Leaf(v)
           case StringKeyed(_) => false
           case InterfaceKeyed(n) => n in maps && m.tree.entries[s] == n.tree
  }

  /** A string-keyed map: a plugin's top-level config, or a part of the merged
      config. `owned` is the set of string-keyed maps from here down. */
  class StringMap {
    var entries: map<string, Value>
    ghost var tree: Tree
    ghost var owned: set<StringMap>

    constructor (from: map<string, Value>, ghost holds: Tree)
      ensures entries == from && tree == holds && owned == {this}
    {
      entries, tree, owned := from, holds, {this};
    }

    /** The maps from here down form a tree, hold `tree`, and end in `maps`. */
    ghost predicate Valid(maps: set<InterfaceMap>)
      reads this, owned, maps
      decreases owned
    {
      && this in owned
      && tree.entries.Keys == entries.Keys && !tree.bad
      && (forall k :: k in entries ==>
            match entries[k]
            case Text(v) => tree.entries[k] == Leaf(v)
            case StringKeyed(m) => m in owned && m.owned <= owned - {this} && m.Valid(maps) && tree.entries[k] == m.tree
            case InterfaceKeyed(m) => m in maps && tree.entries[k] == m.tree)
      && (forall k, l :: k in entries && l in entries && k != l && entries[k].StringKeyed? && entries[l].StringKeyed?
            ==> entries[k].strings.owned !! entries[l].strings.owned)
    }

    /** `Valid`, leaving out what is at key `k`. */
    ghost predicate ValidBut(k: string, maps: set<InterfaceMap>)
      reads this, owned, maps
    {
      && this in owned
      && tree.entries.Keys == entries.Keys && !tree.bad
      && (forall l :: l in entries && l != k ==>
            match entries[l]
            case Text(v) => tree.entries[l] == Leaf(v)
            case StringKeyed(m) => m in owned && m.owned <= owned - {this} && m.Valid(maps) && tree.entries[l] == m.tree
            case InterfaceKeyed(m) => m in maps && tree.entries[l] == m.tree)
      && (forall j, l :: j in entries && l in entries && j != l && j != k && l != k
                         && entries[j].StringKeyed? && entries[l].StringKeyed?
            ==> entries[j].strings.owned !! entries[l].strings.owned)
    }

    /** `dst[k] = m` for a map `m` that shares nothing with the other keys. */
    method PutMap(k: string, m: StringMap, ghost maps: set<InterfaceMap>)
      requires ValidBut(k, maps) && m.Valid(maps) && this !in m.owned
      requires forall l :: l in entries && l != k && entries[l].StringKeyed? ==> entries[l].strings.owned !! m.owned
      modifies this
      ensures entries == old(entries)[k := StringKeyed(m)]
      ensures Valid(maps) && tree == Node(old(tree).entries[k := m.tree], false) && owned == old(owned) + m.owned
    {
      entries := entries[k := StringKeyed(m)];
      tree, owned := Node(tree.entries[k := m.tree], false), owned + m.owned;
    }

    /** `dst[k] = v` for a value that is not a map. */
    method PutText(k: string, v: Value, ghost maps: set<InterfaceMap>)
      requires ValidBut(k, maps) && v.Text?
      modifies this
      ensures entries == old(entries)[k := v]
      ensures Valid(maps) && tree == Node(old(tree).entries[k := Leaf(v.value)], false) && owned == old(owned)
    {
      entries := entries[k := v];
      tree := Node(tree.entries[k := Leaf(v.value)], false);
    }

    /** The string-keyed maps at and below key `k`. */
    ghost function OwnedAt(k: string): set<StringMap>
      reads this, if k in entries then OwnerOf(entries[k]) else {}
    {
      if k in entries then OwnedBy(entries[k]) else {}
    }
  }

  ghost function OwnerOf(v: Value): set<StringMap> {
    if v.StringKeyed? then {v.strings} else {}
  }

  ghost function OwnedBy(v: Value): set<StringMap>
    reads OwnerOf(v)
  {
    if v.StringKeyed? then v.strings.owned else {}
  }

  ghost function OwnSet(m: StringMap?): set<StringMap> {
    if m != null then {m} else {}
  }

  /** The string-keyed maps from `m` down. */
  ghost function OwnedFrom(m: StringMap?): set<StringMap>
    reads OwnSet(m)
  {
    if m != null then m.owned else {}
  }

  /** The loop of the conversion: a key that is not a string makes it panic. */
  method StringKeys(entries: map<Key, Value>) returns (panics: bool, r: map<string, Value>)
    ensures panics <==> exists k :: k in entries && !k.Str?
    ensures !panics ==> forall s :: (s in r <==> Str(s) in entries) && (s in r ==> r[s] == entries[Str(s)])
  {
    panics, r := false, map[];
    var todo := entries.Keys;
    while todo != {}
      invariant todo <= entries.Keys && forall k :: k in entries && k !in todo ==> k.Str?
      invariant forall s :: s in r <==> Str(s) in entries && Str(s) !in todo
      invariant forall s :: s in r ==> r[s] == entries[Str(s)]
      decreases todo
    {
      var k :| k in todo;
      if k.Other? {
        return true, r;
      }
      r, todo := r[k.text := entries[k]], todo - {k};
    }
  }

  /** The map itself when it is string-keyed already, a fresh copy of an
      interface-keyed map, nothing for a value that is not a map. */
  method ToStringKeyedMap(v: Value, ghost maps: set<InterfaceMap>) returns (panics: bool, m: StringMap?)
    requires Parsed(maps) && (v.InterfaceKeyed? ==> v.interfaces in maps)
    ensures panics <==> v.InterfaceKeyed? && !v.interfaces.OnlyStrings()
    ensures !panics ==> (m == null <==> v.Text?)
    ensures v.StringKeyed? ==> m == v.strings
    ensures !panics && v.InterfaceKeyed? ==>
              fresh(m) && m.Valid(maps) && m.owned == {m} && m.tree == v.interfaces.tree
  {
    panics, m := false, null;
    if v.StringKeyed? {
      m := v.strings;
    } else if v.InterfaceKeyed? {
      var entries;
      panics, entries := StringKeys(v.interfaces.entries);
      if !panics {
        m := new StringMap(entries, v.interfaces.tree);
      }
    }
  }

  /** `dst` with the keys in `done` already overlaid by `src`. */
  ghost function OverlayKeys(dst: Tree, src: Tree, done: set<string>): Tree
    requires done <= src.entries.Keys
  {
    Node(map k | k in dst.entries.Keys + done ::
           if k !in done then dst.entries[k] else OverlayKey(dst, src, k),
         dst.bad)
  }

  ghost function OverlayKey(dst: Tree, src: Tree, k: string): Config
    requires k in src.entries
  {
    if k in dst.entries then Overlay(dst.entries[k], src.entries[k]) else src.entries[k]
  }

  lemma OverlayKeysStep(dst: Tree, src: Tree, todo: set<string>, k: string)
    requires todo <= src.entries.Keys && k in todo && !dst.bad
    ensures var t, done := OverlayKeys(dst, src, src.entries.Keys - todo), src.entries.Keys - (todo - {k});
            && OverlayKeys(dst, src, done) == Node(t.entries[k := OverlayKey(t, src, k)], false)
            && (PanicsAtKey(t, k, src.entries[k]) <==> PanicsAtKey(dst, k, src.entries[k]))
  {
  }

  lemma OverlayKeysAll(dst: Tree, src: Tree)
    requires !dst.bad && !src.bad
    ensures OverlayKeys(dst, src, src.entries.Keys - {}) == Overlay(dst, src)
  {
  }

  /** `v` is a value of a source, standing for `c`. */
  ghost predicate SourceValue(v: Value, c: Config, maps: set<InterfaceMap>)
    reads OwnerOf(v), OwnedBy(v), maps
  {
    match v
    case Text(s) => c == Leaf(s)
    case StringKeyed(m) => m.Valid(maps) && c == m.tree
    case InterfaceKeyed(m) => m in maps && c == m.tree
  }

  /** The entries of a source, standing for `tree`. `parts` are the string-keyed
      maps below each key, separate from each other and all in `all`. */
  ghost predicate Offered(entries: map<string, Value>, tree: Tree, parts: map<string, set<StringMap>>,
                          all: set<StringMap>, maps: set<InterfaceMap>)
    reads all, maps
  {
    && entries.Keys == tree.entries.Keys == parts.Keys && !tree.bad
    && (forall k :: k in entries ==>
          && OwnerOf(entries[k]) <= all && OwnedBy(entries[k]) == parts[k] <= all
          && SourceValue(entries[k], tree.entries[k], maps))
    && (forall k, l :: k in parts && l in parts && k != l ==> parts[k] !! parts[l])
  }

  lemma EntryAt(dst: StringMap, k: string, maps: set<InterfaceMap>)
    requires dst.Valid(maps) && k in dst.entries
    ensures SourceValue(dst.entries[k], dst.tree.entries[k], maps)
    ensures dst.OwnedAt(k) <= dst.owned - {dst}
    ensures forall l :: l in dst.entries && l != k ==> dst.OwnedAt(l) !! dst.OwnedAt(k)
  {
  }

  /** The recursive in-place merge. Only maps that belong to `dst` are written; the
      string-keyed maps below `src` may become part of `dst`. */
  method MergePluginConfigs(dst: StringMap, src: StringMap, ghost maps: set<InterfaceMap>) returns (panics: bool)
    requires Parsed(maps) && dst.Valid(maps) && src.Valid(maps) && dst.owned !! src.owned
    modifies dst.owned
    ensures !panics ==> dst.Valid(maps) && dst.tree == Overlay(old(dst.tree), src.tree)
    ensures !panics ==> fresh(dst.owned - old(dst.owned) - (src.owned - {src}))
    ensures !panics ==> Plain(dst.tree) == Pure.Overlay(old(Plain(dst.tree)), Plain(src.tree))
    ensures panics <==> Panics(old(dst.tree), src.tree)
    decreases src.tree, 2
  {
    ghost var parts := map k | k in src.entries :: src.OwnedAt(k);
    assert Offered(src.entries, src.tree, parts, src.owned - {src}, maps) by {
      forall k | k in src.entries ensures
        && OwnerOf(src.entries[k]) <= src.owned - {src} && OwnedBy(src.entries[k]) == parts[k] <= src.owned - {src}
        && SourceValue(src.entries[k], src.tree.entries[k], maps)
      {
        EntryAt(src, k, maps);
      }
    }
    PlainOverlay(dst.tree, src.tree);
    panics := MergeEntries(dst, src.entries, src.tree, parts, src.owned - {src}, maps);
  }

  /** The loop over the entries of the source. `todo` is served in an arbitrary
      order, as Go's map iteration is. */
  method MergeEntries(dst: StringMap, entries: map<string, Value>, ghost tree: Tree,
                      ghost parts: map<string, set<StringMap>>, ghost all: set<StringMap>,
                      ghost maps: set<InterfaceMap>)
    returns (panics: bool)
    requires Parsed(maps) && dst.Valid(maps) && Offered(entries, tree, parts, all, maps) && dst.owned !! all
    modifies dst.owned
    ensures !panics ==> dst.Valid(maps) && dst.tree == Overlay(old(dst.tree), tree)
    ensures !panics ==> fresh(dst.owned - old(dst.owned) - all)
    ensures panics <==> Panics(old(dst.tree), tree)
    decreases tree, 1
  {
    var todo := entries.Keys;
    ghost var tree0, owned0, rest := dst.tree, dst.owned, all;
    while todo != {}
      invariant todo <= tree.entries.Keys && rest <= all
      invariant forall k :: k in tree.entries && k !in todo ==> !PanicsAtKey(tree0, k, tree.entries[k])
      invariant dst.Valid(maps) && dst.tree == OverlayKeys(tree0, tree, tree.entries.Keys - todo)
      invariant fresh(dst.owned - owned0 - all)
      invariant Room(dst, todo, parts, rest, owned0)
      decreases todo
    {
      var k :| k in todo;
      OverlayKeysStep(tree0, tree, todo, k);
      panics := MergeNext(dst, entries, tree, parts, all, k, todo, rest, owned0, maps);
      if panics {
        return;
      }
      todo, rest := todo - {k}, rest - parts[k];
    }
    OverlayKeysAll(tree0, tree);
    panics := false;
  }

  /** What the loop still has to do: the source's maps that may yet be handed over
      are in `rest`, and what it will write was in `dst` from the start. */
  ghost predicate Room(dst: StringMap, todo: set<string>, parts: map<string, set<StringMap>>,
                       rest: set<StringMap>, owned0: set<StringMap>)
    reads dst, dst.owned
    requires dst in dst.owned && forall k :: k in dst.entries ==> OwnerOf(dst.entries[k]) <= dst.owned
  {
    && dst in owned0 && rest !! dst.owned
    && forall k :: k in todo ==> k in parts && parts[k] <= rest && dst.OwnedAt(k) <= owned0
  }

  /** Serves one key of the source. */
  method MergeNext(dst: StringMap, entries: map<string, Value>, ghost tree: Tree,
                   ghost parts: map<string, set<StringMap>>, ghost all: set<StringMap>,
                   k: string, ghost todo: set<string>, ghost rest: set<StringMap>, ghost owned0: set<StringMap>,
                   ghost maps: set<InterfaceMap>)
    returns (panics: bool)
    requires Parsed(maps) && dst.Valid(maps) && Offered(entries, tree, parts, all, maps) && owned0 !! all
    requires k in todo && todo <= entries.Keys && rest <= all && Room(dst, todo, parts, rest, owned0)
    modifies {dst} + dst.OwnedAt(k)
    ensures !panics ==> dst.Valid(maps) && Room(dst, todo - {k}, parts, rest - parts[k], owned0)
    ensures !panics ==>
              dst.tree == Node(old(dst.tree).entries[k := OverlayKey(old(dst.tree), tree, k)], false)
    ensures !panics ==> fresh(dst.owned - old(dst.owned) - parts[k])
    ensures panics <==> PanicsAtKey(old(dst.tree), k, tree.entries[k])
    decreases tree, 0
  {
    panics := MergeKey(dst, k, entries[k], tree.entries[k], maps);
  }

  /** Merges `srcMap` into the map at key `k` and stores the result there. */
  method MergeSubmap(dst: StringMap, k: string, dstMap: StringMap, srcMap: StringMap, ghost maps: set<InterfaceMap>)
    returns (panics: bool)
    requires Parsed(maps) && dst.Valid(maps) && dstMap.Valid(maps) && dst !in dstMap.owned
    requires srcMap.Valid(maps) && srcMap.owned !! dst.owned && srcMap.owned !! dstMap.owned
    requires forall l :: l in dst.entries && l != k && dst.entries[l].StringKeyed? ==>
                           dst.entries[l].strings.owned !! dstMap.owned
    modifies dst, dstMap.owned
    ensures !panics ==> dst.Valid(maps) && dst.entries == old(dst.entries)[k := StringKeyed(dstMap)]
    ensures !panics ==> dst.tree == Node(old(dst.tree).entries[k := Overlay(old(dstMap.tree), srcMap.tree)], false)
    ensures !panics ==> fresh(dst.owned - old(dst.owned) - old(dstMap.owned) - srcMap.owned)
    ensures panics <==> Panics(old(dstMap.tree), srcMap.tree)
    decreases srcMap.tree, 3
  {
    panics := MergePluginConfigs(dstMap, srcMap, maps);
    if !panics {
      dst.PutMap(k, dstMap, maps);
    }
  }

  /** Assigns the source's value at key `k`: its converted map, or the value itself. */
  method AssignKey(dst: StringMap, k: string, srcVal: Value, srcMap: StringMap?, ghost maps: set<InterfaceMap>)
    requires dst.Valid(maps) && (srcMap == null <==> srcVal.Text?)
    requires srcMap != null ==> srcMap.Valid(maps) && srcMap.owned !! dst.owned
    modifies dst
    ensures dst.Valid(maps)
    ensures dst.entries == old(dst.entries)[k := if srcMap != null then StringKeyed(srcMap) else srcVal]
    ensures dst.tree ==
            Node(old(dst.tree).entries[k := if srcMap != null then srcMap.tree else Leaf(srcVal.value)], false)
    ensures dst.owned == old(dst.owned) + OwnedFrom(srcMap)
  {
    if srcMap != null {
      dst.PutMap(k, srcMap, maps);
    } else {
      dst.PutText(k, srcVal, maps);
    }
  }

  /** Merges two maps, or assigns the source's value. */
  method StoreKey(dst: StringMap, k: string, srcVal: Value, dstMap: StringMap?, srcMap: StringMap?,
                  ghost maps: set<InterfaceMap>)
    returns (panics: bool)
    requires Parsed(maps) && dst.Valid(maps) && (srcMap == null <==> srcVal.Text?)
    requires srcMap != null ==>
               srcMap.Valid(maps) && srcMap.owned !! dst.owned && srcMap.owned !! OwnedFrom(dstMap)
    requires dstMap != null ==>
               && dstMap.Valid(maps) && dst !in dstMap.owned
               && forall l :: l in dst.entries && l != k && dst.entries[l].StringKeyed? ==>
                                dst.entries[l].strings.owned !! dstMap.owned
    modifies {dst} + OwnedFrom(dstMap)
    ensures !panics ==> dst.Valid(maps)
    ensures !panics ==>
              dst.tree == Node(old(dst.tree).entries[
                k := if srcMap == null then Leaf(srcVal.value)
                     else if dstMap == null then srcMap.tree
                     else Overlay(old(dstMap.tree), srcMap.tree)], false)
    ensures !panics ==> fresh(dst.owned - old(dst.owned) - old(OwnedFrom(dstMap)) - OwnedFrom(srcMap))
    ensures !panics ==> forall l :: l != k ==> dst.OwnedAt(l) == old(dst.OwnedAt(l))
    ensures panics <==> srcMap != null && dstMap != null && Panics(old(dstMap.tree), srcMap.tree)
    decreases if srcMap != null then srcMap.tree else Leaf(srcVal.value), 4
  {
    panics := false;
    if srcMap != null && dstMap != null {
      panics := MergeSubmap(dst, k, dstMap, srcMap, maps);
    } else {
      AssignKey(dst, k, srcVal, srcMap, maps);
    }
  }

  /** The key is there already: its value is converted, too. */
  method MergeExisting(dst: StringMap, k: string, srcVal: Value, srcMap: StringMap?, ghost maps: set<InterfaceMap>)
    returns (panics: bool)
    requires Parsed(maps) && dst.Valid(maps) && k in dst.entries && (srcMap == null <==> srcVal.Text?)
    requires srcMap != null ==> srcMap.Valid(maps) && srcMap.owned !! dst.owned
    modifies {dst} + dst.OwnedAt(k)
    ensures !panics ==> dst.Valid(maps)
    ensures !panics ==>
              var c: Config := if srcMap != null then srcMap.tree else Leaf(srcVal.value);
              dst.tree == Node(old(dst.tree).entries[k := Overlay(old(dst.tree).entries[k], c)], false)
    ensures !panics ==> fresh(dst.owned - old(dst.owned) - OwnedFrom(srcMap))
    ensures !panics ==> forall l :: l != k ==> dst.OwnedAt(l) == old(dst.OwnedAt(l))
    ensures panics <==> PanicsAtKey(old(dst.tree), k, if srcMap != null then srcMap.tree else Leaf(srcVal.value))
    decreases if srcMap != null then srcMap.tree else Leaf(srcVal.value), 5
  {
    var dstMap;
    EntryAt(dst, k, maps);
    panics, dstMap := ToStringKeyedMap(dst.entries[k], maps);
    if !panics {
      panics := StoreKey(dst, k, srcVal, dstMap, srcMap, maps);
    }
  }

  /** An iteration of the merge loop, with the source's value converted. */
  method MergeConverted(dst: StringMap, k: string, srcVal: Value, srcMap: StringMap?, ghost maps: set<InterfaceMap>)
    returns (panics: bool)
    requires Parsed(maps) && dst.Valid(maps) && (srcMap == null <==> srcVal.Text?)
    requires srcMap != null ==> srcMap.Valid(maps) && srcMap.owned !! dst.owned
    modifies {dst} + dst.OwnedAt(k)
    ensures !panics ==> dst.Valid(maps)
    ensures !panics ==>
              var c: Config := if srcMap != null then srcMap.tree else Leaf(srcVal.value);
              dst.tree == Node(old(dst.tree).entries[
                k := if k in old(dst.tree).entries then Overlay(old(dst.tree).entries[k], c) else c], false)
    ensures !panics ==> fresh(dst.owned - old(dst.owned) - OwnedFrom(srcMap))
    ensures !panics ==> forall l :: l != k ==> dst.OwnedAt(l) == old(dst.OwnedAt(l))
    ensures panics <==> PanicsAtKey(old(dst.tree), k, if srcMap != null then srcMap.tree else Leaf(srcVal.value))
    decreases if srcMap != null then srcMap.tree else Leaf(srcVal.value), 6
  {
    if k in dst.entries {
      panics := MergeExisting(dst, k, srcVal, srcMap, maps);
    } else {
      AssignKey(dst, k, srcVal, srcMap, maps);
      panics := false;
    }
  }

  /** One iteration of the merge loop. It writes `dst` and what is at key `k` only. */
  method MergeKey(dst: StringMap, k: string, srcVal: Value, ghost c: Config, ghost maps: set<InterfaceMap>)
    returns (panics: bool)
    requires Parsed(maps) && dst.Valid(maps) && SourceValue(srcVal, c, maps) && OwnedBy(srcVal) !! dst.owned
    modifies {dst} + dst.OwnedAt(k)
    ensures !panics ==> dst.Valid(maps)
    ensures !panics ==>
              dst.tree == Node(old(dst.tree).entries[
                k := if k in old(dst.tree).entries then Overlay(old(dst.tree).entries[k], c) else c], false)
    ensures !panics ==> fresh(dst.owned - old(dst.owned) - OwnedBy(srcVal))
    ensures !panics ==> forall l :: l != k ==> dst.OwnedAt(l) == old(dst.OwnedAt(l))
    ensures panics <==> PanicsAtKey(old(dst.tree), k, c)
    decreases c, 7
  {
    var srcMap;
    panics, srcMap := ToStringKeyedMap(srcVal, maps);
    if !panics {
      panics := MergeConverted(dst, k, srcVal, srcMap, maps);
    }
  }

  ghost function Trees(plugins: seq<StringMap>): (ts: seq<Tree>)
    reads plugins
    ensures |ts| == |plugins| && forall i :: 0 <= i < |ts| ==> ts[i] == plugins[i].tree
  {
    seq(|plugins|, i requires 0 <= i < |plugins| reads plugins => plugins[i].tree)
  }

  /** The string-keyed maps below the top level of the plugin configs. Configs as
      yaml.v2 yields them have none. */
  ghost function Nested(plugins: seq<StringMap>): set<StringMap>
    reads plugins
  {
    set p, m | p in plugins && m in p.owned && m !in plugins :: m
  }

  /** The configs share no string-keyed map; a config without nested ones may occur twice. */
  ghost predicate Separate(plugins: seq<StringMap>)
    reads plugins
  {
    && (forall p :: p in plugins ==> p in p.owned)
    && forall i, j :: 0 <= i < j < |plugins| ==>
                        || plugins[i].owned !! plugins[j].owned
                        || (plugins[i] == plugins[j] && plugins[i].owned == {plugins[i]})
  }

  lemma BelowIsNested(plugins: seq<StringMap>, i: nat)
    requires Separate(plugins) && i < |plugins|
    ensures plugins[i].owned - {plugins[i]} <= Nested(plugins)
  {
    forall m | m in plugins[i].owned && m in plugins ensures m == plugins[i] {
      var j :| 0 <= j < |plugins| && plugins[j] == m;
      assert m in plugins[j].owned;
    }
  }

  /** The fold of `addPluginsAppConfig` over the enabled plugins: the merged
      config holds the pure merge of the sources, and gives a ConfigMap unless it
      is empty. No top-level map and no interface-keyed map of a source is
      written; it is all new when the sources have no nested string-keyed maps. */
  method AddPluginsAppConfig(plugins: seq<StringMap>, ghost maps: set<InterfaceMap>)
    returns (panics: bool, merged: StringMap, added: bool)
    requires Parsed(maps) && Separate(plugins) && forall p :: p in plugins ==> p.Valid(maps)
    modifies Nested(plugins)
    ensures panics <==> FoldPanics(old(Trees(plugins)))
    ensures !panics ==> merged.Valid(maps) && fresh(merged.owned - old(Nested(plugins)))
    ensures !panics ==> merged.tree == MergeAll(old(Trees(plugins)))
    ensures !panics ==> Plain(merged.tree) == Pure.MergeAll(Plains(old(Trees(plugins))))
    ensures !panics ==> (added <==> Plain(merged.tree).entries != map[])
  {
    ghost var trees, nested := Trees(plugins), Nested(plugins);
    merged := new StringMap(map[], EMPTY);
    added := false;
    ghost var own := merged.owned;
    panics := MergePlugins(merged, plugins, trees, nested, maps);
    if !panics {
      assert fresh(own) && fresh(merged.owned - own - nested);
      PlainMergeAll(trees);
      EmptyIff(merged.tree);
      added := merged.entries.Keys != {};
    }
  }

  /** The loop over the plugins. */
  method MergePlugins(merged: StringMap, plugins: seq<StringMap>, ghost trees: seq<Tree>, ghost nested: set<StringMap>,
                      ghost maps: set<InterfaceMap>)
    returns (panics: bool)
    requires Parsed(maps) && Separate(plugins) && Waiting(plugins, 0, merged.owned, maps)
    requires trees == Trees(plugins) && nested == Nested(plugins)
    requires merged.Valid(maps) && merged.tree == EMPTY
    modifies merged.owned, nested
    ensures panics <==> FoldPanics(trees)
    ensures !panics ==> merged.Valid(maps) && merged.tree == MergeAll(trees)
    ensures !panics ==> fresh(merged.owned - old(merged.owned) - nested)
  {
    ghost var owned0 := merged.owned;
    assert trees[..0] == [];
    for i := 0 to |plugins|
      invariant merged.Valid(maps) && fresh(merged.owned - owned0 - nested)
      invariant merged.tree == MergeAll(trees[..i]) && Waiting(plugins, i, merged.owned, maps)
      invariant forall j: nat :: j < i ==> !PanicsWith(trees, j)
    {
      BelowIsNested(plugins, i);
      panics := AddPlugin(merged, plugins, i, maps);
      if panics {
        assert PanicsWith(trees, i);
        return;
      }
      MergeAllSnoc(trees, i);
    }
    assert trees[..|plugins|] == trees;
    panics := false;
  }

  /** The configs from position `i` on are as they were and separate from the merged config. */
  ghost predicate Waiting(plugins: seq<StringMap>, i: int, merged: set<StringMap>, maps: set<InterfaceMap>)
    reads plugins, maps, set p, m | p in plugins && m in p.owned :: m
  {
    0 <= i && forall j :: i <= j < |plugins| ==> plugins[j].Valid(maps) && plugins[j].owned !! merged
  }

  method AddPlugin(merged: StringMap, plugins: seq<StringMap>, i: nat, ghost maps: set<InterfaceMap>)
    returns (panics: bool)
    requires Parsed(maps) && merged.Valid(maps) && i < |plugins|
    requires Separate(plugins) && Waiting(plugins, i, merged.owned, maps)
    modifies merged.owned
    ensures panics <==> Panics(old(merged.tree), plugins[i].tree)
    ensures !panics ==> merged.Valid(maps) && merged.tree == Overlay(old(merged.tree), plugins[i].tree)
    ensures !panics ==> fresh(merged.owned - old(merged.owned) - (plugins[i].owned - {plugins[i]}))
    ensures !panics ==> Waiting(plugins, i + 1, merged.owned, maps)
  {
    panics := MergePluginConfigs(merged, plugins[i], maps);
  }

  lemma EmptyIff(t: Tree)
    ensures Plain(t).entries == map[] <==> t.entries.Keys == {}
  {
    assert Plain(t).entries == map[] <==> Plain(t).entries.Keys == {};
  }
}
