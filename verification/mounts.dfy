/** Replacing or appending volume mounts of one container
    (`mountFilesFrom`, pkg/model/deployment.go). */
module Mounts {
  import opened GoStrings
  import opened GoPath

  datatype Mount = Mount(volume: string, path: string, subPath: string, readOnly: bool)

  ghost function Paths(ms: seq<Mount>): set<string> {
    set m | m in ms :: m.path
  }

  ghost predicate DistinctPaths(ms: seq<Mount>) {
    forall i, j :: 0 <= i < j < |ms| ==> ms[i].path != ms[j].path
  }

  /** The first requested mount with the given path. */
  function Match(requested: seq<Mount>, path: string): (r: Option<Mount>)
    ensures r.Some? ==> r.value in requested && r.value.path == path
    ensures r.None? ==> forall m :: m in requested ==> m.path != path
  {
    if requested == [] then None
    else if requested[0].path == path then Some(requested[0])
    else Match(requested[1..], path)
  }

  function Replaced(m: Mount, requested: seq<Mount>): Mount {
    match Match(requested, m.path)
    case Some(r) => r
    case None => m
  }

  function ReplaceAll(existing: seq<Mount>, requested: seq<Mount>): (r: seq<Mount>)
    ensures |r| == |existing| && forall i :: 0 <= i < |r| ==> r[i] == Replaced(existing[i], requested)
  {
    seq(|existing|, i requires 0 <= i < |existing| => Replaced(existing[i], requested))
  }

  predicate Overlaps(existing: seq<Mount>, requested: seq<Mount>) {
    exists m :: m in existing && Match(requested, m.path).Some?
  }

  /** The mount list after a step: matching paths are replaced in place; the
      requested mounts are appended only when nothing was replaced. */
  function Remount(existing: seq<Mount>, requested: seq<Mount>): seq<Mount> {
    ReplaceAll(existing, requested) + if Overlaps(existing, requested) then [] else requested
  }

  /** The inner loop: the first requested mount at a path. */
  method FindMatch(mountsToAdd: seq<Mount>, path: string) returns (r: Option<Mount>)
    ensures r == Match(mountsToAdd, path)
  {
    for j := 0 to |mountsToAdd|
      invariant Match(mountsToAdd, path) == Match(mountsToAdd[j..], path)
    {
      if path == mountsToAdd[j].path {
        return Some(mountsToAdd[j]);
      }
    }
    return None;
  }

  /** The "replace or append" loop. */
  method ReplaceOrAppend(existing: seq<Mount>, mountsToAdd: seq<Mount>) returns (newMounts: seq<Mount>)
    ensures newMounts == Remount(existing, mountsToAdd)
  {
    newMounts := [];
    var replaced := false;
    for i := 0 to |existing|
      invariant |newMounts| == i && forall j :: 0 <= j < i ==> newMounts[j] == Replaced(existing[j], mountsToAdd)
      invariant replaced <==> exists j :: 0 <= j < i && Match(mountsToAdd, existing[j].path).Some?
    {
      var newMount := FindMatch(mountsToAdd, existing[i].path);
      if newMount.Some? {
        newMounts := newMounts + [newMount.value];
        replaced := true;
      } else {
        newMounts := newMounts + [existing[i]];
      }
    }
    assert newMounts == ReplaceAll(existing, mountsToAdd);
    if !replaced {
      newMounts := newMounts + mountsToAdd;
    }
  }

  // ---------------------------------------------------------------------------
  // Laws
  // ---------------------------------------------------------------------------

  lemma ReplacedPath(m: Mount, requested: seq<Mount>)
    ensures Replaced(m, requested).path == m.path
    ensures Replaced(m, requested) == m || Replaced(m, requested) in requested
  {
  }

  lemma MatchDistinct(requested: seq<Mount>, r: Mount)
    requires DistinctPaths(requested) && r in requested
    ensures Match(requested, r.path) == Some(r)
  {
  }

  /** A path is taken afterwards exactly when it was taken before, or is
      requested and no requested path was taken before. */
  lemma RemountPaths(existing: seq<Mount>, requested: seq<Mount>)
    ensures Paths(Remount(existing, requested)) ==
            Paths(existing) + if Paths(existing) * Paths(requested) == {} then Paths(requested) else {}
    ensures Overlaps(existing, requested) <==> Paths(existing) * Paths(requested) != {}
  {
    OverlapsIff(existing, requested);
    var rep := ReplaceAll(existing, requested);
    assert Paths(rep) == Paths(existing) by {
      forall p | p in Paths(existing) ensures p in Paths(rep) {
        var i :| 0 <= i < |existing| && existing[i].path == p;
        ReplacedPath(existing[i], requested);
        assert rep[i] in rep;
      }
      forall p | p in Paths(rep) ensures p in Paths(existing) {
        var i :| 0 <= i < |rep| && rep[i].path == p;
        ReplacedPath(existing[i], requested);
        assert existing[i] in existing;
      }
    }
    assert Paths(rep + requested) == Paths(rep) + Paths(requested);
    assert rep + [] == rep;
  }

  lemma OverlapsIff(existing: seq<Mount>, requested: seq<Mount>)
    ensures Overlaps(existing, requested) <==> Paths(existing) * Paths(requested) != {}
  {
    if Overlaps(existing, requested) {
      var m :| m in existing && Match(requested, m.path).Some?;
      assert m.path in Paths(existing) * Paths(requested);
    }
    if p :| p in Paths(existing) * Paths(requested) {
      var m :| m in existing && m.path == p;
      assert Match(requested, m.path).Some?;
    }
  }

  /** Mounts at other paths stay where they are, unchanged; taken paths hold the requested mount. */
  lemma RemountKeepsPositions(existing: seq<Mount>, requested: seq<Mount>, i: nat)
    requires i < |existing|
    ensures |Remount(existing, requested)| >= |existing|
    ensures var after := Remount(existing, requested)[i];
            && after.path == existing[i].path
            && (existing[i].path !in Paths(requested) ==> after == existing[i])
            && (existing[i].path in Paths(requested) ==> after in requested)
  {
  }

  lemma RemountDistinct(existing: seq<Mount>, requested: seq<Mount>)
    requires DistinctPaths(existing) && DistinctPaths(requested)
    ensures DistinctPaths(Remount(existing, requested))
  {
  }

  lemma NonEmptyPaths(ms: seq<Mount>)
    ensures ms != [] ==> Paths(ms) != {}
  {
    if ms != [] {
      assert ms[0].path in Paths(ms);
    }
  }

  /** Repeating a step does not change the mount list again. */
  lemma RemountIdempotent(existing: seq<Mount>, requested: seq<Mount>)
    requires DistinctPaths(requested)
    ensures Remount(Remount(existing, requested), requested) == Remount(existing, requested)
  {
    var after := Remount(existing, requested);
    forall i | 0 <= i < |after| ensures Replaced(after[i], requested) == after[i] {
      if i < |existing| {
        ReplacedPath(existing[i], requested);
      } else {
        MatchDistinct(requested, after[i]);
      }
    }
    assert ReplaceAll(after, requested) == after;
    RemountPaths(existing, requested);
    RemountPaths(after, requested);
    if !Overlaps(after, requested) {
      assert Paths(requested) == {} by {
        assert Paths(requested) <= Paths(after);
      }
      NonEmptyPaths(requested);
    }
  }

  /** A requested mount is there afterwards exactly when its path was taken
      before or no requested path was. */
  lemma RequestedPresentIff(existing: seq<Mount>, requested: seq<Mount>, r: Mount)
    requires DistinctPaths(requested) && r in requested
    ensures r in Remount(existing, requested) <==> r.path in Paths(existing) || Paths(existing) * Paths(requested) == {}
  {
    var after := Remount(existing, requested);
    RemountPaths(existing, requested);
    if r in after {
      assert r.path in Paths(after);
    }
    if r.path in Paths(existing) {
      var i :| 0 <= i < |existing| && existing[i].path == r.path;
      MatchDistinct(requested, r);
      assert after[i] == r;
    }
  }

  /** All requested mounts are there afterwards if and only if their paths were
      all new or all taken: with a partial overlap the other ones are dropped. */
  lemma AllRequestedPresentIff(existing: seq<Mount>, requested: seq<Mount>)
    requires DistinctPaths(requested)
    ensures (forall r :: r in requested ==> r in Remount(existing, requested)) <==>
            Paths(requested) <= Paths(existing) || Paths(existing) * Paths(requested) == {}
  {
    forall r | r in requested
      ensures r.path in Paths(requested)
      ensures r in Remount(existing, requested) <==>
              r.path in Paths(existing) || Paths(existing) * Paths(requested) == {}
    {
      RequestedPresentIff(existing, requested, r);
    }
  }

  /** A partial overlap loses a requested mount. */
  lemma PartialOverlapDrops()
    ensures var a, b := Mount("v", "/a", "a", true), Mount("v", "/b", "b", true);
            Remount([Mount("old", "/a", "", false)], [a, b]) == [a]
  {
  }

  // ---------------------------------------------------------------------------
  // The mounts that a step asks for
  // ---------------------------------------------------------------------------

  /** One mount of the directory, or one read-only mount per file. */
  function Requested(volume: string, mountPath: string, fileName: string, withSubPath: bool,
                     dataKeys: seq<string>): seq<Mount>
  {
    if !withSubPath then [Mount(volume, mountPath, "", false)]
    else if |dataKeys| > 0 then FileMounts(volume, mountPath, fileName, dataKeys)
    else [Mount(volume, Join(mountPath, fileName), fileName, true)]
  }

  function FileMounts(volume: string, mountPath: string, fileName: string, dataKeys: seq<string>): seq<Mount> {
    if dataKeys == [] then []
    else
      var file := dataKeys[|dataKeys| - 1];
      FileMounts(volume, mountPath, fileName, dataKeys[..|dataKeys| - 1]) +
      if fileName == "" || fileName == file then [Mount(volume, Join(mountPath, file), file, true)] else []
  }

  method MountsToAdd(volume: string, mountPath: string, fileName: string, withSubPath: bool,
                     dataKeys: seq<string>)
    returns (ms: seq<Mount>)
    ensures ms == Requested(volume, mountPath, fileName, withSubPath, dataKeys)
  {
    if !withSubPath {
      ms := [Mount(volume, mountPath, "", false)];
    } else if |dataKeys| > 0 {
      ms := [];
      for i := 0 to |dataKeys|
        invariant ms == FileMounts(volume, mountPath, fileName, dataKeys[..i])
      {
        assert dataKeys[..i + 1][..i] == dataKeys[..i];
        if fileName == "" || fileName == dataKeys[i] {
          ms := ms + [Mount(volume, Join(mountPath, dataKeys[i]), dataKeys[i], true)];
        }
      }
      assert dataKeys[..|dataKeys|] == dataKeys;
    } else {
      ms := [Mount(volume, Join(mountPath, fileName), fileName, true)];
    }
  }

  lemma {:induction false} FileMountsVolume(volume: string, mountPath: string, fileName: string, dataKeys: seq<string>)
    ensures forall m :: m in FileMounts(volume, mountPath, fileName, dataKeys) ==> m.volume == volume
  {
    if dataKeys != [] {
      FileMountsVolume(volume, mountPath, fileName, dataKeys[..|dataKeys| - 1]);
    }
  }

  /** Exactly the wanted keys are mounted, each as a read-only file under its own name. */
  lemma {:induction false} FileMountsIff(volume: string, mountPath: string, fileName: string,
                                         dataKeys: seq<string>, m: Mount)
    ensures m in FileMounts(volume, mountPath, fileName, dataKeys) <==>
            && m.subPath in dataKeys && (fileName == "" || fileName == m.subPath)
            && m.volume == volume && m.path == Join(mountPath, m.subPath) && m.readOnly
  {
    if dataKeys != [] {
      var init, file := dataKeys[..|dataKeys| - 1], dataKeys[|dataKeys| - 1];
      FileMountsIff(volume, mountPath, fileName, init, m);
      assert m.subPath in dataKeys <==> m.subPath in init || m.subPath == file;
      assert m.subPath == file && m.volume == volume && m.path == Join(mountPath, file) && m.readOnly
             <==> m == Mount(volume, Join(mountPath, file), file, true);
    }
  }

  /** The requested mounts, one by one: the whole directory, writable; or each wanted
      key as a read-only file; or, when the keys are not known, the named file. */
  lemma RequestedIff(volume: string, mountPath: string, fileName: string, withSubPath: bool, dataKeys: seq<string>,
                     m: Mount)
    ensures m in Requested(volume, mountPath, fileName, withSubPath, dataKeys) <==>
            && m.volume == volume
            && if !withSubPath then m.path == mountPath && m.subPath == "" && !m.readOnly
               else
                 && m.path == Join(mountPath, m.subPath) && m.readOnly
                 && if dataKeys == [] then m.subPath == fileName
                    else m.subPath in dataKeys && (fileName == "" || fileName == m.subPath)
  {
    if withSubPath && dataKeys != [] {
      FileMountsIff(volume, mountPath, fileName, dataKeys, m);
    } else {
      var only := if !withSubPath then Mount(volume, mountPath, "", false)
                  else Mount(volume, Join(mountPath, fileName), fileName, true);
      assert Requested(volume, mountPath, fileName, withSubPath, dataKeys) == [only];
      assert m in [only] <==> m == only;
    }
  }

  /** Distinct keys ask for distinct paths, so the laws above apply to every step. */
  lemma {:induction false} RequestedDistinct(volume: string, mountPath: string, fileName: string,
                                             withSubPath: bool, dataKeys: seq<string>)
    requires forall i, j :: 0 <= i < j < |dataKeys| ==> dataKeys[i] != dataKeys[j]
    requires forall k :: k in dataKeys ==> IsKey(k)
    ensures DistinctPaths(Requested(volume, mountPath, fileName, withSubPath, dataKeys))
    ensures forall m :: m in FileMounts(volume, mountPath, fileName, dataKeys) ==>
                          m.subPath in dataKeys && m.path == Join(mountPath, m.subPath)
  {
    if dataKeys != [] {
      var init, file := dataKeys[..|dataKeys| - 1], dataKeys[|dataKeys| - 1];
      assert file in dataKeys && forall k :: k in init ==> k in dataKeys;
      RequestedDistinct(volume, mountPath, fileName, withSubPath, init);
      var ms := FileMounts(volume, mountPath, fileName, init);
      if init == [] { assert ms == []; }
      forall m | m in ms ensures m.path != Join(mountPath, file) {
        assert m.subPath in init && m.subPath != file;
        JoinUnder(mountPath, m.subPath);
        JoinUnder(mountPath, file);
        assert Elements(m.path) != Elements(Join(mountPath, file)) by {
          var e := Elements(mountPath);
          assert (e + [m.subPath])[|e|] != (e + [file])[|e|];
        }
      }
      assert withSubPath && init != [] ==> DistinctPaths(ms);
    }
  }
}
