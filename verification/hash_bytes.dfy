/** The bytes that are hashed over the watched external objects of a spec
    (internal/controller/spec_preprocessor.go). Texts stand for their bytes. */
module HashBytes {
  import opened GoStrings

  type Bytes = string

  /** Contents of a ConfigMap (`Data`, `BinaryData`) or of a Secret (`StringData`, `Data`). */
  datatype Content = Content(strings: map<string, Bytes>, binaries: map<string, Bytes>)

  // ---------------------------------------------------------------------------
  // Sorted keys
  // ---------------------------------------------------------------------------

  /** Byte-wise lexicographic order, as `sort.Strings` uses. */
  predicate Less(a: string, b: string) {
    b != "" && (a == "" || a[0] < b[0] || (a[0] == b[0] && Less(a[1..], b[1..])))
  }

  /** The order of Go's strings: the first difference decides, and a prefix comes first. */
  lemma {:induction false} LessIff(a: string, b: string)
    ensures Less(a, b) <==>
            a < b || exists i :: 0 <= i < |a| && i < |b| && a[..i] == b[..i] && a[i] < b[i]
  {
    if a != "" && b != "" {
      LessIff(a[1..], b[1..]);
      if a[0] == b[0] {
        assert a < b <==> a[1..] < b[1..];
        forall i | 0 <= i < |a| && i < |b|
          ensures i > 0 ==> (a[..i] == b[..i] <==> a[1..][..i - 1] == b[1..][..i - 1])
        {
          assert i > 0 ==> a[..i] == [a[0]] + a[1..][..i - 1] && b[..i] == [b[0]] + b[1..][..i - 1];
        }
        if i :| 0 <= i < |a| - 1 && i < |b| - 1 && a[1..][..i] == b[1..][..i] && a[1..][i] < b[1..][i] {
          assert a[..i + 1] == b[..i + 1] && a[i + 1] < b[i + 1];
        }
        if i :| 0 <= i < |a| && i < |b| && a[..i] == b[..i] && a[i] < b[i] {
          assert a[1..][..i - 1] == b[1..][..i - 1] && a[1..][i - 1] < b[1..][i - 1];
        }
      } else {
        assert a[0] < b[0] ==> a[..0] == b[..0];
        assert forall i :: 0 < i < |a| && i < |b| ==> a[..i][0] != b[..i][0];
      }
    }
  }

  lemma {:induction false} LessTotal(a: string, b: string)
    ensures Less(a, b) || a == b || Less(b, a)
    ensures !(Less(a, b) && Less(b, a)) && !Less(a, a)
  {
    if a != "" {
      LessTotal(a[1..], a[1..]);
    }
    if a != "" && b != "" {
      LessTotal(a[1..], b[1..]);
      if a[0] == b[0] && a[1..] == b[1..] {
        assert a == [a[0]] + a[1..] && b == [b[0]] + b[1..];
      }
    }
  }

  lemma {:induction false} LessTransitive(a: string, b: string, c: string)
    requires Less(a, b) && Less(b, c)
    ensures Less(a, c)
  {
    if a != "" && a[0] == b[0] && b[0] == c[0] {
      LessTransitive(a[1..], b[1..], c[1..]);
    }
  }

  /** Strictly increasing, so without duplicates. */
  ghost predicate Sorted(ks: seq<string>) {
    forall i, j :: 0 <= i < j < |ks| ==> Less(ks[i], ks[j])
  }

  ghost function Elements(ks: seq<string>): set<string> {
    set k | k in ks
  }

  lemma SortedHeadIsLeast(ks: seq<string>, k: string)
    requires Sorted(ks) && ks != [] && k in ks
    ensures k == ks[0] || Less(ks[0], k)
  {
  }

  lemma SortedTail(ks: seq<string>)
    requires Sorted(ks) && ks != []
    ensures Sorted(ks[1..]) && Elements(ks[1..]) == Elements(ks) - {ks[0]}
  {
    forall k | k in ks[1..] ensures k != ks[0] {
      var i :| 0 <= i < |ks[1..]| && ks[1..][i] == k;
      assert Less(ks[0], ks[i + 1]);
      LessTotal(k, k);
    }
    assert forall k :: k in ks <==> k == ks[0] || k in ks[1..];
  }

  lemma NonEmptyElements(ks: seq<string>)
    ensures ks != [] ==> Elements(ks) != {}
  {
    if ks != [] {
      assert ks[0] in Elements(ks);
    }
  }

  /** There is only one sorted list of a set of keys. */
  lemma {:induction false} SortedUnique(a: seq<string>, b: seq<string>)
    requires Sorted(a) && Sorted(b) && Elements(a) == Elements(b)
    ensures a == b
  {
    if a == [] {
      NonEmptyElements(b);
    } else {
      assert a[0] in Elements(a);
      assert b != [] && b[0] in Elements(b);
      SortedHeadIsLeast(a, b[0]);
      SortedHeadIsLeast(b, a[0]);
      LessTotal(a[0], b[0]);
      SortedTail(a);
      SortedTail(b);
      SortedUnique(a[1..], b[1..]);
      assert a == [a[0]] + a[1..] && b == [b[0]] + b[1..];
    }
  }

  /** `ks` with `k` put in its place. */
  function Insert(ks: seq<string>, k: string): seq<string> {
    if ks == [] then [k]
    else if Less(k, ks[0]) then [k] + ks
    else [ks[0]] + Insert(ks[1..], k)
  }

  lemma SortedCons(k: string, ks: seq<string>)
    requires Sorted(ks) && forall x :: x in ks ==> Less(k, x)
    ensures Sorted([k] + ks) && Elements([k] + ks) == {k} + Elements(ks)
  {
  }

  lemma {:induction false} InsertSorts(ks: seq<string>, k: string)
    requires Sorted(ks) && k !in ks
    ensures Sorted(Insert(ks, k)) && Elements(Insert(ks, k)) == Elements(ks) + {k}
  {
    if ks == [] {
      SortedCons(k, []);
    } else if Less(k, ks[0]) {
      forall x | x in ks ensures Less(k, x) {
        SortedHeadIsLeast(ks, x);
        if x != ks[0] { LessTransitive(k, ks[0], x); }
      }
      SortedCons(k, ks);
    } else {
      LessTotal(k, ks[0]);
      SortedTail(ks);
      assert forall x :: x in ks[1..] ==> x in ks;
      InsertSorts(ks[1..], k);
      InsertedBehind(ks, k, Insert(ks[1..], k));
    }
  }

  lemma InsertedBehind(ks: seq<string>, k: string, rest: seq<string>)
    requires ks != [] && Sorted(ks) && Less(ks[0], k)
    requires Sorted(rest) && Elements(rest) == Elements(ks[1..]) + {k}
    ensures Sorted([ks[0]] + rest) && Elements([ks[0]] + rest) == Elements(ks) + {k}
  {
    forall x | x in rest ensures Less(ks[0], x) {
      assert x in Elements(rest);
      if x != k {
        assert x in Elements(ks[1..]) && x in ks;
        SortedHeadIsLeast(ks, x);
      }
    }
    SortedCons(ks[0], rest);
    assert ks == [ks[0]] + ks[1..];
    assert Elements(ks) == {ks[0]} + Elements(ks[1..]);
  }

  /** The keys of a map, collected in Go's arbitrary map order and sorted. */
  method SortedKeysOf(m: map<string, Bytes>) returns (ks: seq<string>)
    ensures Sorted(ks) && Elements(ks) == m.Keys
  {
    ks := [];
    var todo := m.Keys;
    while todo != {}
      invariant todo <= m.Keys && Sorted(ks) && Elements(ks) == m.Keys - todo
      decreases todo
    {
      var k :| k in todo;
      assert k !in Elements(ks);
      InsertSorts(ks, k);
      ks, todo := Insert(ks, k), todo - {k};
    }
  }

  lemma {:induction false} SortedExists(keys: set<string>) returns (ks: seq<string>)
    ensures Sorted(ks) && Elements(ks) == keys
    decreases keys
  {
    if keys == {} {
      ks := [];
    } else {
      var k :| k in keys;
      ks := SortedExists(keys - {k});
      assert k !in Elements(ks);
      InsertSorts(ks, k);
      ks := Insert(ks, k);
    }
  }

  ghost function SortedKeys(keys: set<string>): (ks: seq<string>)
    ensures Sorted(ks) && Elements(ks) == keys
  {
    assert exists ks :: Sorted(ks) && Elements(ks) == keys by {
      var ks := SortedExists(keys);
    }
    var ks :| Sorted(ks) && Elements(ks) == keys;
    ks
  }

  // ---------------------------------------------------------------------------
  // One object
  // ---------------------------------------------------------------------------

  function Concat(pieces: seq<Bytes>): Bytes {
    if pieces == [] then [] else Concat(pieces[..|pieces| - 1]) + pieces[|pieces| - 1]
  }

  lemma {:induction false} ConcatAppend(a: seq<Bytes>, b: seq<Bytes>)
    ensures Concat(a + b) == Concat(a) + Concat(b)
  {
    if b == [] {
      assert a + b == a;
    } else {
      InitOfConcat(a, b);
      ConcatAppend(a, b[..|b| - 1]);
    }
  }

  /** Keys and values in key order. */
  function Pieces(m: map<string, Bytes>, ks: seq<string>): (r: seq<Bytes>)
    requires forall k :: k in ks ==> k in m
    ensures |r| == 2 * |ks|
    ensures forall i :: 0 <= i < |ks| ==> r[2 * i] == ks[i] && r[2 * i + 1] == m[ks[i]]
  {
    if ks == [] then []
    else
      var k := ks[|ks| - 1];
      assert k in ks;
      Pieces(m, ks[..|ks| - 1]) + [k, m[k]]
  }

  ghost function MapPieces(m: map<string, Bytes>): seq<Bytes> {
    var ks := SortedKeys(m.Keys);
    assert forall k :: k in ks ==> k in Elements(ks);
    Pieces(m, ks)
  }

  ghost function ContentPieces(c: Content): seq<Bytes> {
    MapPieces(c.strings) + MapPieces(c.binaries)
  }

  lemma OnePair(k: Bytes, v: Bytes)
    ensures Concat([k, v]) == k + v
  {
    assert [k, v][..1] == [k] && [k][..0] == [];
    assert Concat([k]) == [] + k == k;
  }

  /** The loop that appends every key and its value. */
  method AppendKeys(original: Bytes, m: map<string, Bytes>, keys: seq<string>) returns (data: Bytes)
    requires forall k :: k in keys ==> k in m
    ensures data == original + Concat(Pieces(m, keys))
  {
    data := original;
    for i := 0 to |keys|
      invariant data == original + Concat(Pieces(m, keys[..i]))
    {
      assert keys[..i + 1][..i] == keys[..i];
      var k, v := keys[i], m[keys[i]];
      ConcatAppend(Pieces(m, keys[..i]), [k, v]);
      OnePair(k, v);
      data := data + (k + v);
    }
    assert keys[..|keys|] == keys;
  }

  method AppendMap(original: Bytes, m: map<string, Bytes>) returns (data: Bytes)
    ensures data == original + Concat(MapPieces(m))
  {
    var keys := SortedKeysOf(m);
    assert forall k :: k in keys ==> k in Elements(keys);
    SortedUnique(keys, SortedKeys(m.Keys));
    data := AppendKeys(original, m, keys);
  }

  /** `concatData`: whatever the map order, the bytes are those of the sorted pieces. */
  method ConcatData(original: Bytes, c: Content) returns (data: Bytes)
    ensures data == original + Concat(MapPieces(c.strings)) + Concat(MapPieces(c.binaries))
    ensures data == original + Concat(ContentPieces(c))
  {
    data := AppendMap(original, c.strings);
    data := AppendMap(data, c.binaries);
    ConcatAppend(MapPieces(c.strings), MapPieces(c.binaries));
  }

  // ---------------------------------------------------------------------------
  // A whole spec
  // ---------------------------------------------------------------------------

  datatype ObjectKey = ConfigMapKey(name: string) | SecretKey(name: string)

  function KeyFor(name: string, secret: bool): ObjectKey {
    if secret then SecretKey(name) else ConfigMapKey(name)
  }

  datatype FileRef = FileRef(name: string, mountPath: string, key: string)

  /** The references of a CR spec to external objects that are hashed. */
  datatype Spec = Spec(
    appConfigs: seq<FileRef>, configMapFiles: seq<FileRef>, secretFiles: seq<FileRef>,
    configMapEnvs: seq<string>, secretEnvs: seq<string>, dynamicPlugins: string)

  datatype Reference = Reference(key: ObjectKey, watched: bool)

  /** Files mounted one by one (with a sub-path) are watched; a mounted directory is not. */
  predicate AddToWatch(r: FileRef, watchEnabled: bool) {
    (r.mountPath == "" || r.key != "") && watchEnabled
  }

  function FileReferences(refs: seq<FileRef>, secret: bool, watchEnabled: bool): seq<Reference> {
    seq(|refs|, i requires 0 <= i < |refs| =>
      Reference(KeyFor(refs[i].name, secret), AddToWatch(refs[i], watchEnabled)))
  }

  function EnvReferences(names: seq<string>, secret: bool): seq<Reference> {
    seq(|names|, i requires 0 <= i < |names| => Reference(KeyFor(names[i], secret), true))
  }

  /** All references in the order in which `preprocessSpec` visits them. */
  function References(spec: Spec, watchEnabled: bool): seq<Reference> {
    FileReferences(spec.appConfigs, false, watchEnabled) +
    FileReferences(spec.configMapFiles, false, watchEnabled) +
    FileReferences(spec.secretFiles, true, watchEnabled) +
    EnvReferences(spec.configMapEnvs, false) +
    EnvReferences(spec.secretEnvs, true) +
    if spec.dynamicPlugins != "" then [Reference(ConfigMapKey(spec.dynamicPlugins), true)] else []
  }

  /** The order of the references: app-configs, files of ConfigMaps, files of
      Secrets, environments from ConfigMaps and from Secrets, dynamic plugins. */
  lemma ReferencesInOrder(spec: Spec, watchEnabled: bool)
    ensures var rs := References(spec, watchEnabled);
            var a := |spec.appConfigs|;
            var b := a + |spec.configMapFiles|;
            var c := b + |spec.secretFiles|;
            var d := c + |spec.configMapEnvs|;
            var e := d + |spec.secretEnvs|;
            && |rs| == e + (if spec.dynamicPlugins == "" then 0 else 1)
            && (forall i :: 0 <= i < a ==> rs[i].key == ConfigMapKey(spec.appConfigs[i].name))
            && (forall i :: a <= i < b ==> rs[i].key == ConfigMapKey(spec.configMapFiles[i - a].name))
            && (forall i :: b <= i < c ==> rs[i].key == SecretKey(spec.secretFiles[i - b].name))
            && (forall i :: c <= i < d ==> rs[i] == Reference(ConfigMapKey(spec.configMapEnvs[i - c]), true))
            && (forall i :: d <= i < e ==> rs[i] == Reference(SecretKey(spec.secretEnvs[i - d]), true))
            && (spec.dynamicPlugins != "" ==> rs[e] == Reference(ConfigMapKey(spec.dynamicPlugins), true))
  {
  }

  /** A ConfigMap is watched exactly when the spec uses it for environment
      variables or dynamic plugins, or mounts files of it one by one while
      watching is enabled; a Secret likewise. */
  lemma WatchedIff(spec: Spec, watchEnabled: bool, name: string)
    ensures Reference(ConfigMapKey(name), true) in References(spec, watchEnabled) <==>
            || name in spec.configMapEnvs || (name != "" && name == spec.dynamicPlugins)
            || exists f :: (f in spec.appConfigs || f in spec.configMapFiles)
                           && f.name == name && (f.mountPath == "" || f.key != "") && watchEnabled
    ensures Reference(SecretKey(name), true) in References(spec, watchEnabled) <==>
            || name in spec.secretEnvs
            || exists f :: f in spec.secretFiles
                           && f.name == name && (f.mountPath == "" || f.key != "") && watchEnabled
  {
    FileReferenceIff(spec.appConfigs, false, watchEnabled, name);
    FileReferenceIff(spec.configMapFiles, false, watchEnabled, name);
    FileReferenceIff(spec.secretFiles, true, watchEnabled, name);
    EnvReferenceIff(spec.configMapEnvs, false, name);
    EnvReferenceIff(spec.secretEnvs, true, name);
  }

  lemma FileReferenceIff(refs: seq<FileRef>, secret: bool, watchEnabled: bool, name: string)
    ensures Reference(KeyFor(name, secret), true) in FileReferences(refs, secret, watchEnabled) <==>
            exists f :: f in refs && f.name == name && AddToWatch(f, watchEnabled)
    ensures Reference(KeyFor(name, !secret), true) !in FileReferences(refs, secret, watchEnabled)
  {
    var rs := FileReferences(refs, secret, watchEnabled);
    var key := KeyFor(name, secret);
    if Reference(key, true) in rs {
      var i :| 0 <= i < |rs| && rs[i] == Reference(key, true);
      assert refs[i] in refs && refs[i].name == name && AddToWatch(refs[i], watchEnabled);
    }
    if f :| f in refs && f.name == name && AddToWatch(f, watchEnabled) {
      var i :| 0 <= i < |refs| && refs[i] == f;
      assert rs[i] == Reference(key, true);
    }
  }

  lemma EnvReferenceIff(names: seq<string>, secret: bool, name: string)
    ensures Reference(KeyFor(name, secret), true) in EnvReferences(names, secret) <==> name in names
    ensures Reference(KeyFor(name, !secret), true) !in EnvReferences(names, secret)
  {
    var rs := EnvReferences(names, secret);
    if name in names {
      var i :| 0 <= i < |names| && names[i] == name;
      assert rs[i] == Reference(KeyFor(name, secret), true);
    }
  }

  ghost predicate AllPresent(refs: seq<Reference>, store: map<ObjectKey, Content>) {
    forall i :: 0 <= i < |refs| ==> refs[i].key in store
  }

  ghost function SpecPieces(refs: seq<Reference>, store: map<ObjectKey, Content>): seq<Bytes>
    requires AllPresent(refs, store)
  {
    if refs == [] then []
    else
      SpecPieces(refs[..|refs| - 1], store) + ReferencePieces(refs[|refs| - 1], store)
  }

  ghost function ReferencePieces(r: Reference, store: map<ObjectKey, Content>): seq<Bytes>
    requires r.key in store
  {
    if r.watched then ContentPieces(store[r.key]) else []
  }

  /** The bytes over a whole spec; an object that cannot be read is an error. */
  method PreprocessSpec(spec: Spec, watchEnabled: bool, store: map<ObjectKey, Content>) returns (r: Option<Bytes>)
    ensures r.Some? <==> AllPresent(References(spec, watchEnabled), store)
    ensures r.Some? ==> r.value == Concat(SpecPieces(References(spec, watchEnabled), store))
  {
    r := HashReferences(References(spec, watchEnabled), store);
  }

  lemma OneMoreReference(refs: seq<Reference>, i: nat, store: map<ObjectKey, Content>)
    requires i < |refs| && AllPresent(refs[..i], store) && refs[i].key in store
    ensures AllPresent(refs[..i + 1], store)
    ensures Concat(SpecPieces(refs[..i + 1], store)) ==
            Concat(SpecPieces(refs[..i], store)) +
            if refs[i].watched then Concat(ContentPieces(store[refs[i].key])) else []
  {
    var all := refs[..i + 1];
    assert all[..i] == refs[..i];
    assert forall j :: 0 <= j < i ==> all[j] == refs[..i][j];
    ConcatAppend(SpecPieces(refs[..i], store), ReferencePieces(refs[i], store));
  }

  method HashReferences(refs: seq<Reference>, store: map<ObjectKey, Content>) returns (r: Option<Bytes>)
    ensures r.Some? <==> AllPresent(refs, store)
    ensures r.Some? ==> r.value == Concat(SpecPieces(refs, store))
  {
    var hashingData: Bytes := [];
    for i := 0 to |refs|
      invariant AllPresent(refs[..i], store)
      invariant hashingData == Concat(SpecPieces(refs[..i], store))
    {
      if refs[i].key !in store {
        return None;
      }
      OneMoreReference(refs, i, store);
      if refs[i].watched {
        hashingData := ConcatData(hashingData, store[refs[i].key]);
      }
    }
    assert refs[..|refs|] == refs;
    r := Some(hashingData);
  }

  // ---------------------------------------------------------------------------
  // One change always shows
  // ---------------------------------------------------------------------------

  /** `qs` is `ps` with some pieces `v` turned into `w`. */
  ghost predicate Swap(ps: seq<Bytes>, qs: seq<Bytes>, v: Bytes, w: Bytes) {
    |ps| == |qs| && forall i :: 0 <= i < |ps| ==> ps[i] == qs[i] || (ps[i] == v && qs[i] == w)
  }

  ghost predicate Hit(ps: seq<Bytes>, qs: seq<Bytes>, v: Bytes, w: Bytes) {
    exists i :: 0 <= i < |ps| && i < |qs| && ps[i] == v && qs[i] == w
  }

  lemma {:induction false} SwapLengths(ps: seq<Bytes>, qs: seq<Bytes>, v: Bytes, w: Bytes)
    requires Swap(ps, qs, v, w) && |v| < |w|
    ensures |Concat(ps)| <= |Concat(qs)|
    ensures Hit(ps, qs, v, w) ==> |Concat(ps)| < |Concat(qs)|
  {
    if ps != [] {
      var p, q := ps[..|ps| - 1], qs[..|qs| - 1];
      assert Swap(p, q, v, w);
      SwapLengths(p, q, v, w);
      if i :| 0 <= i < |ps| && ps[i] == v && qs[i] == w {
        if i < |p| {
          assert p[i] == v && q[i] == w;
        }
      }
    }
  }

  ghost predicate SameLengths(ps: seq<Bytes>, qs: seq<Bytes>) {
    |ps| == |qs| && forall i :: 0 <= i < |ps| ==> |ps[i]| == |qs[i]|
  }

  lemma {:induction false} SameLengthPieces(ps: seq<Bytes>, qs: seq<Bytes>)
    requires SameLengths(ps, qs)
    ensures |Concat(ps)| == |Concat(qs)|
    ensures Concat(ps) == Concat(qs) ==> ps == qs
  {
    if ps != [] {
      var n := |ps| - 1;
      SameLengthPieces(ps[..n], qs[..n]);
      var a, b := Concat(ps[..n]), Concat(qs[..n]);
      assert ps == ps[..n] + [ps[n]] && qs == qs[..n] + [qs[n]];
      if Concat(ps) == Concat(qs) {
        assert a == (a + ps[n])[..|a|] == (b + qs[n])[..|b|] == b;
        assert ps[n] == (a + ps[n])[|a|..] == (b + qs[n])[|b|..] == qs[n];
      }
    }
  }

  lemma SwapDiffers(ps: seq<Bytes>, qs: seq<Bytes>, v: Bytes, w: Bytes)
    requires Swap(ps, qs, v, w) && Hit(ps, qs, v, w) && v != w
    ensures Concat(ps) != Concat(qs)
  {
    if |v| < |w| {
      SwapLengths(ps, qs, v, w);
    } else if |w| < |v| {
      assert Swap(qs, ps, w, v) && Hit(qs, ps, w, v);
      SwapLengths(qs, ps, w, v);
    } else {
      SameLengthPieces(ps, qs);
    }
  }

  lemma SwapConcat(a: seq<Bytes>, a': seq<Bytes>, b: seq<Bytes>, b': seq<Bytes>, v: Bytes, w: Bytes)
    requires Swap(a, a', v, w) && Swap(b, b', v, w)
    ensures Swap(a + b, a' + b', v, w)
    ensures Hit(a, a', v, w) || Hit(b, b', v, w) ==> Hit(a + b, a' + b', v, w)
  {
    if i :| 0 <= i < |a| && a[i] == v && a'[i] == w {
      assert (a + b)[i] == v && (a' + b')[i] == w;
    }
    if i :| 0 <= i < |b| && b[i] == v && b'[i] == w {
      assert (a + b)[|a| + i] == v && (a' + b')[|a| + i] == w;
    }
  }

  lemma SwapNothing(a: seq<Bytes>, v: Bytes, w: Bytes)
    ensures Swap(a, a, v, w)
  {
  }

  /** Changing the value of one key swaps one piece. */
  lemma MapSwap(m: map<string, Bytes>, k: string, w: Bytes)
    requires k in m
    ensures Swap(MapPieces(m), MapPieces(m[k := w]), m[k], w) && Hit(MapPieces(m), MapPieces(m[k := w]), m[k], w)
  {
    var m', ks := m[k := w], SortedKeys(m.Keys);
    assert m'.Keys == m.Keys;
    assert k in Elements(ks);
    var ps, qs := MapPieces(m), MapPieces(m');
    forall j | 0 <= j < |ps| ensures ps[j] == qs[j] || (ps[j] == m[k] && qs[j] == w) {
      var i := j / 2;
      assert 0 <= i < |ks| && (j == 2 * i || j == 2 * i + 1);
      assert ps[2 * i] == ks[i] == qs[2 * i];
      assert ps[2 * i + 1] == m[ks[i]] && qs[2 * i + 1] == m'[ks[i]];
    }
    var i :| 0 <= i < |ks| && ks[i] == k;
    assert ps[2 * i + 1] == m[k] && qs[2 * i + 1] == w;
  }

  /** `c'` is `c` with the value at one key changed from `v` to `w`; the keys stay. */
  ghost predicate OneChange(c: Content, c': Content, v: Bytes, w: Bytes) {
    && v != w
    && (|| (exists k :: k in c.strings && c.strings[k] == v && c' == c.(strings := c.strings[k := w]))
        || (exists k :: k in c.binaries && c.binaries[k] == v && c' == c.(binaries := c.binaries[k := w])))
  }

  lemma ContentSwap(c: Content, c': Content, v: Bytes, w: Bytes)
    requires OneChange(c, c', v, w)
    ensures Swap(ContentPieces(c), ContentPieces(c'), v, w) && Hit(ContentPieces(c), ContentPieces(c'), v, w)
  {
    if k :| k in c.strings && c.strings[k] == v && c' == c.(strings := c.strings[k := w]) {
      MapSwap(c.strings, k, w);
      SwapNothing(MapPieces(c.binaries), v, w);
    } else {
      var k :| k in c.binaries && c.binaries[k] == v && c' == c.(binaries := c.binaries[k := w]);
      MapSwap(c.binaries, k, w);
      SwapNothing(MapPieces(c.strings), v, w);
    }
    SwapConcat(MapPieces(c.strings), MapPieces(c'.strings), MapPieces(c.binaries), MapPieces(c'.binaries), v, w);
  }

  lemma StillPresent(refs: seq<Reference>, store: map<ObjectKey, Content>, key: ObjectKey, c': Content)
    requires AllPresent(refs, store)
    ensures AllPresent(refs, store[key := c'])
  {
  }

  lemma ReferenceSwap(r: Reference, store: map<ObjectKey, Content>, key: ObjectKey, c': Content, v: Bytes, w: Bytes)
    requires r.key in store && key in store && OneChange(store[key], c', v, w)
    ensures Swap(ReferencePieces(r, store), ReferencePieces(r, store[key := c']), v, w)
    ensures r == Reference(key, true) ==> Hit(ReferencePieces(r, store), ReferencePieces(r, store[key := c']), v, w)
  {
    if r.key == key && r.watched {
      ContentSwap(store[key], c', v, w);
    } else {
      SwapNothing(ReferencePieces(r, store), v, w);
    }
  }

  lemma {:induction false} SpecSwap(refs: seq<Reference>, store: map<ObjectKey, Content>,
                                    key: ObjectKey, c': Content, v: Bytes, w: Bytes)
    requires AllPresent(refs, store) && key in store && OneChange(store[key], c', v, w)
    ensures AllPresent(refs, store[key := c'])
    ensures Swap(SpecPieces(refs, store), SpecPieces(refs, store[key := c']), v, w)
    ensures Reference(key, true) in refs ==> Hit(SpecPieces(refs, store), SpecPieces(refs, store[key := c']), v, w)
  {
    var store' := store[key := c'];
    StillPresent(refs, store, key, c');
    if refs != [] {
      var init, r := refs[..|refs| - 1], refs[|refs| - 1];
      StillPresent(init, store, key, c');
      SpecSwap(init, store, key, c', v, w);
      ReferenceSwap(r, store, key, c', v, w);
      SwapConcat(SpecPieces(init, store), SpecPieces(init, store'),
                 ReferencePieces(r, store), ReferencePieces(r, store'), v, w);
      assert Reference(key, true) in refs ==> Reference(key, true) in init || r == Reference(key, true);
    }
  }

  /** Changing exactly one value of one watched object changes the hashed bytes,
      however often the object is referenced. */
  lemma OneChangeShows(refs: seq<Reference>, store: map<ObjectKey, Content>, key: ObjectKey,
                       c': Content, v: Bytes, w: Bytes)
    requires AllPresent(refs, store) && key in store && OneChange(store[key], c', v, w)
    requires Reference(key, true) in refs
    ensures AllPresent(refs, store[key := c'])
    ensures Concat(SpecPieces(refs, store)) != Concat(SpecPieces(refs, store[key := c']))
  {
    SpecSwap(refs, store, key, c', v, w);
    SwapDiffers(SpecPieces(refs, store), SpecPieces(refs, store[key := c']), v, w);
  }

  /** Changing an object that no reference watches changes nothing. */
  lemma {:induction false} UnwatchedIsSilent(refs: seq<Reference>, store: map<ObjectKey, Content>,
                                             key: ObjectKey, c': Content)
    requires AllPresent(refs, store) && key in store && Reference(key, true) !in refs
    ensures AllPresent(refs, store[key := c'])
    ensures SpecPieces(refs, store[key := c']) == SpecPieces(refs, store)
  {
    assert AllPresent(refs, store[key := c']);
    if refs != [] {
      var init, r := refs[..|refs| - 1], refs[|refs| - 1];
      assert r in refs && forall x :: x in init ==> x in refs;
      assert r.watched ==> r.key != key;
      UnwatchedIsSilent(init, store, key, c');
    }
  }

  // ---------------------------------------------------------------------------
  // Any number of changes that keep the lengths of the values show
  // ---------------------------------------------------------------------------

  /** The same keys with values of the same lengths. */
  ghost predicate SameSizes(m: map<string, Bytes>, n: map<string, Bytes>) {
    m.Keys == n.Keys && forall k :: k in m ==> |m[k]| == |n[k]|
  }

  ghost predicate SameSize(c: Content, c': Content) {
    SameSizes(c.strings, c'.strings) && SameSizes(c.binaries, c'.binaries)
  }

  lemma MapPiecesSizes(m: map<string, Bytes>, n: map<string, Bytes>)
    requires SameSizes(m, n)
    ensures SameLengths(MapPieces(m), MapPieces(n))
    ensures MapPieces(m) == MapPieces(n) ==> m == n
  {
    var ks, ps, qs := SortedKeys(m.Keys), MapPieces(m), MapPieces(n);
    assert forall k :: k in ks <==> k in Elements(ks);
    forall j | 0 <= j < |ps| ensures |ps[j]| == |qs[j]| {
      var i := j / 2;
      assert 0 <= i < |ks| && (j == 2 * i || j == 2 * i + 1);
      assert ps[2 * i] == ks[i] == qs[2 * i];
      assert ps[2 * i + 1] == m[ks[i]] && qs[2 * i + 1] == n[ks[i]];
    }
    if ps == qs {
      forall k | k in m ensures m[k] == n[k] {
        assert k in Elements(ks);
        var i :| 0 <= i < |ks| && ks[i] == k;
        assert ps[2 * i + 1] == m[k] && qs[2 * i + 1] == n[k];
      }
    }
  }

  lemma SameLengthsConcat(a: seq<Bytes>, a': seq<Bytes>, b: seq<Bytes>, b': seq<Bytes>)
    requires SameLengths(a, a') && SameLengths(b, b')
    ensures SameLengths(a + b, a' + b')
    ensures a + b == a' + b' ==> a == a' && b == b'
  {
    if a + b == a' + b' {
      assert a == (a + b)[..|a|] == (a' + b')[..|a|] == a';
      assert b == (a + b)[|a|..] == (a' + b')[|a|..] == b';
    }
  }

  lemma ContentSizes(c: Content, c': Content)
    requires SameSize(c, c')
    ensures SameLengths(ContentPieces(c), ContentPieces(c'))
    ensures ContentPieces(c) == ContentPieces(c') ==> c == c'
  {
    MapPiecesSizes(c.strings, c'.strings);
    MapPiecesSizes(c.binaries, c'.binaries);
    SameLengthsConcat(MapPieces(c.strings), MapPieces(c'.strings), MapPieces(c.binaries), MapPieces(c'.binaries));
  }

  lemma {:induction false} SpecSizes(refs: seq<Reference>, store: map<ObjectKey, Content>,
                                     store': map<ObjectKey, Content>)
    requires AllPresent(refs, store) && AllPresent(refs, store')
    requires forall r :: r in refs && r.watched ==> SameSize(store[r.key], store'[r.key])
    ensures SameLengths(SpecPieces(refs, store), SpecPieces(refs, store'))
    ensures SpecPieces(refs, store) == SpecPieces(refs, store') <==>
            forall r :: r in refs && r.watched ==> store[r.key] == store'[r.key]
  {
    if refs != [] {
      var init, last := refs[..|refs| - 1], refs[|refs| - 1];
      assert forall r :: r in refs <==> r in init || r == last;
      SpecSizes(init, store, store');
      if last.watched {
        ContentSizes(store[last.key], store'[last.key]);
      }
      SameLengthsConcat(SpecPieces(init, store), SpecPieces(init, store'),
                        ReferencePieces(last, store), ReferencePieces(last, store'));
    }
  }

  /** When every watched object keeps its keys and the lengths of its values, the
      hashed bytes are the same if and only if the watched objects are. */
  lemma SameLengthChangesShow(refs: seq<Reference>, store: map<ObjectKey, Content>, store': map<ObjectKey, Content>)
    requires AllPresent(refs, store) && AllPresent(refs, store')
    requires forall r :: r in refs && r.watched ==> SameSize(store[r.key], store'[r.key])
    ensures Concat(SpecPieces(refs, store)) == Concat(SpecPieces(refs, store')) <==>
            forall r :: r in refs && r.watched ==> store[r.key] == store'[r.key]
  {
    SpecSizes(refs, store, store');
    SameLengthPieces(SpecPieces(refs, store), SpecPieces(refs, store'));
  }

  lemma TwoKeyPieces(x: Bytes, y: Bytes)
    ensures MapPieces(map["a" := x, "b" := y]) == ["a", x, "b", y]
  {
    var m, ks := map["a" := x, "b" := y], ["a", "b"];
    assert Less("a", "b");
    assert Sorted(ks) && Elements(ks) == m.Keys;
    SortedUnique(ks, SortedKeys(m.Keys));
    var ps := Pieces(m, ks);
    assert ps[0] == ks[0] && ps[2 * 0 + 1] == m[ks[0]] && ps[2 * 1] == ks[1] && ps[2 * 1 + 1] == m[ks[1]];
  }

  /** Two changes at once can cancel out: nothing separates a value from the next key. */
  lemma TwoChangesCanCollide()
    ensures var c, d := Content(map["a" := "", "b" := "b"], map[]), Content(map["a" := "b", "b" := ""], map[]);
            c.strings.Keys == d.strings.Keys && c != d && Concat(ContentPieces(c)) == Concat(ContentPieces(d))
  {
    var m, n, none: map<string, Bytes> := map["a" := "", "b" := "b"], map["a" := "b", "b" := ""], map[];
    assert m["a"] != n["a"] && m.Keys == n.Keys;
    TwoKeyPieces("", "b");
    TwoKeyPieces("b", "");
    NonEmptyElements(SortedKeys(none.Keys));
    ConcatAppend(MapPieces(m), MapPieces(none));
    ConcatAppend(MapPieces(n), MapPieces(none));
    FourPieces("a", "", "b", "b");
    FourPieces("a", "b", "b", "");
    assert "a" + "" + "b" + "b" == "a" + "b" + "b" + "";
  }

  lemma FourPieces(a: Bytes, b: Bytes, c: Bytes, d: Bytes)
    ensures Concat([a, b, c, d]) == a + b + c + d
  {
    assert [a, b, c, d] == [a, b] + [c, d];
    ConcatAppend([a, b], [c, d]);
    OnePair(a, b);
    OnePair(c, d);
    assert a + b + (c + d) == a + b + c + d;
  }
}
