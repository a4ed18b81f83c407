/** The mutable deployment: containers are objects that the filters hand out by
    reference, and the assembly steps change them in place
    (pkg/model/deployment.go, pkg/model/containers-filter.go, pkg/model/pvcs.go,
    pkg/model/appconfig.go). Every method is proved against its step of `Pods`. */
module Deployments {
  import opened GoStrings
  import opened GoPath
  import opened Mounts
  import opened Pods
  import Rfc1123

  class Container {
    const name: string
    var mounts: seq<Mount>
    var args: seq<string>

    constructor (name: string, mounts: seq<Mount>, args: seq<string>)
      ensures this.name == name && this.mounts == mounts && this.args == args
    {
      this.name, this.mounts, this.args := name, mounts, args;
    }
  }

  /** Object names are ASCII, so the lower-case table beyond ASCII does not matter here. */
  function VolumeName(objectName: string): string {
    Rfc1123.Label(objectName, Same)
  }

  function Same(c: char): char { c }

  method NewVolume(source: Source) returns (v: Volume)
    ensures v == Volume(VolumeName(source.name), source)
  {
    var name := Rfc1123.ToRFC1123Label(source.name, Same);
    v := Volume(name, source);
  }

  /** Names that are labels already keep their own volume name ... */
  lemma LabelsKeepVolumesApart(a: string, b: string)
    requires Rfc1123.IsLabel(a) && Rfc1123.IsLabel(b)
    ensures VolumeName(a) == VolumeName(b) <==> a == b
  {
    Rfc1123.LabelIdentity(a, Same);
    Rfc1123.LabelIdentity(b, Same);
  }

  /** ... but a dot and a dash give the same one. */
  lemma DotAndDashClash(x: string, y: string)
    ensures VolumeName(x + "." + y) == VolumeName(x + "-" + y)
  {
    assert Rfc1123.SanitizeAll(x + "." + y, Same) == Rfc1123.SanitizeAll(x + "-" + y, Same);
  }

  function VolumeOf(configMap: string): Volume {
    Volume(VolumeName(configMap), ConfigMap(configMap))
  }

  /** Mounting two such ConfigMaps declares one volume name twice, with two sources. */
  lemma OneNameTwoSources(pod: Pod, x: string, y: string, path: string, path': string)
    requires Ready(pod)
    ensures var a, b := VolumeOf(x + "." + y), VolumeOf(x + "-" + y);
            var final := Run(pod, [MountFiles([], a, path, "", false, []), MountFiles([], b, path', "", false, [])]);
            a.name == b.name && a.source != b.source && final.volumes == pod.volumes + [a, b]
  {
    DotAndDashClash(x, y);
    assert (x + "." + y)[|x|] != (x + "-" + y)[|x|];
    var a, b := VolumeOf(x + "." + y), VolumeOf(x + "-" + y);
    var s, t := MountFiles([], a, path, "", false, []), MountFiles([], b, path', "", false, []);
    assert [s, t][..1] == [s] && [s][..0] == [];
    var mid := Apply(pod, s).pod;
    assert Run(pod, [s]) == mid;
    assert mid.volumes == pod.volumes + [a];
    assert Apply(mid, t).pod.volumes == pod.volumes + [a] + [b] == pod.volumes + [a, b];
  }

  class BackstageDeployment {
    var volumes: seq<Volume>
    const containers: seq<Container>  // the main containers, then the init containers
    const mains: nat                  // how many are main containers

    function Names(): (r: seq<string>)
      ensures |r| == |containers| && forall i :: 0 <= i < |r| ==> r[i] == containers[i].name
    {
      seq(|containers|, i requires 0 <= i < |containers| => containers[i].name)
    }

    /** Containers are separate objects, one of the main ones is Backstage's. */
    ghost predicate Valid() {
      && (forall i, j :: 0 <= i < j < |containers| ==> containers[i] != containers[j])
      && HasBackstage(Names(), mains)
    }

    ghost function View(): (pod: Pod)
      reads this, containers
      ensures pod.volumes == volumes && pod.names == Names() && pod.mains == mains
      ensures |pod.mounts| == |pod.args| == |containers|
      ensures forall i :: 0 <= i < |containers| ==>
                            pod.mounts[i] == containers[i].mounts && pod.args[i] == containers[i].args
    {
      Pod(volumes, Names(), mains,
          seq(|containers|, i requires 0 <= i < |containers| reads containers => containers[i].mounts),
          seq(|containers|, i requires 0 <= i < |containers| reads containers => containers[i].args))
    }

    constructor (volumes: seq<Volume>, containers: seq<Container>, initContainers: seq<Container>)
      requires var all := containers + initContainers; forall i, j :: 0 <= i < j < |all| ==> all[i] != all[j]
      requires exists c :: c in containers && c.name == BACKSTAGE
      ensures Valid() && this.volumes == volumes
      ensures this.containers == containers + initContainers && mains == |containers|
    {
      this.volumes, this.containers, this.mains := volumes, containers + initContainers, |containers|;
      new;
      var i :| 0 <= i < |containers| && containers[i].name == BACKSTAGE;
      assert Names()[..mains][i] == BACKSTAGE;
    }

    /** Writes the mounts of the container at position `t`. */
    method SetMounts(c: Container, ghost t: nat, ms: seq<Mount>)
      requires Valid() && t < |containers| && containers[t] == c
      modifies c`mounts
      ensures View() == old(View()).(mounts := old(View()).mounts[t := ms])
    {
      c.mounts := ms;
      assert View().mounts == old(View()).mounts[t := ms];
      assert View().args == old(View()).args;
    }

    method AddVolume(v: Volume)
      modifies this`volumes
      ensures View() == old(View()).(volumes := old(View()).volumes + [v])
    {
      volumes := volumes + [v];
      assert View().mounts == old(View()).mounts;
      assert View().args == old(View()).args;
    }

    // -------------------------------------------------------------------------
    // Selection
    // -------------------------------------------------------------------------

    /** Looks through the main containers and then the init containers. */
    method ContainerByName(name: string) returns (c: Container?)
      ensures match IndexByName(Names(), name)
              case None => c == null
              case Some(t) => c == containers[t]
    {
      for i := 0 to |containers|
        invariant forall j :: 0 <= j < i ==> Names()[j] != name
      {
        if containers[i].name == name {
          FirstOf(Names(), name, i);
          return containers[i];
        }
      }
      return null;
    }

    /** `selected` are the containers of the selection by the wanted names. */
    ghost predicate IsSelection(selected: Option<seq<Container>>, wanted: seq<string>)
      requires Valid()
    {
      match Select(Names(), mains, wanted)
      case None => selected.None?
      case Some(targets) => selected.Some? && AreAt(selected.value, targets)
    }

    ghost predicate AreAt(selected: seq<Container>, targets: seq<nat>) {
      && InRange(targets, |containers|) && |selected| == |targets|
      && forall i :: 0 <= i < |targets| ==> selected[i] == containers[targets[i]]
    }

    /** The container is the first one of that name, main containers before init containers. */
    ghost predicate IsFirstCalled(c: Container, name: string) {
      exists t :: IsFirst(Names(), t, name) && c == containers[t]
    }

    ghost predicate AreFirstCalled(cs: seq<Container>, names: seq<string>) {
      |cs| == |names| && forall i :: 0 <= i < |cs| ==> IsFirstCalled(cs[i], names[i])
    }

    /** Resolves a filter to container references, in the order of its names. The
        annotation wins over the names; no name gives the first main container
        called `backstage-backend`, a single `*` a container for every position. */
    method GetContainers(filter: Filter) returns (r: Option<seq<Container>>)
      requires Valid()
      ensures IsSelection(r, WantedNames(filter))
      ensures var wanted := if filter.annotation == "" then filter.names
                            else NonEmptyParts(Split(filter.annotation, ','));
              && (wanted == [] ==>
                  && r.Some? && AreFirstCalled(r.value, ["backstage-backend"])
                  && exists t :: 0 <= t < mains <= |containers| && r.value[0] == containers[t])
              && (wanted == ["*"] ==>
                  && r.Some? && AreFirstCalled(r.value, Names())
                  && ((forall i, j :: 0 <= i < j < |containers| ==> containers[i].name != containers[j].name) ==>
                      r.value == containers))
              && (wanted != [] && wanted != ["*"] ==>
                  && (r.None? <==> exists w :: w in wanted && w !in Names())
                  && (r.Some? ==> AreFirstCalled(r.value, wanted)))
    {
      var wanted := filter.names;
      if filter.annotation != "" {
        wanted := ParseCommaSeparated(filter.annotation);
      }
      r := SelectContainers(wanted);
      if wanted == [] {
        NothingWanted(r);
      } else if wanted == ["*"] {
        AllWanted(r);
      } else {
        SomeWanted(r, wanted);
      }
    }

    lemma FirstCalledAt(cs: seq<Container>, targets: seq<nat>, names: seq<string>)
      requires AreAt(cs, targets) && |names| == |targets|
      requires forall i :: 0 <= i < |targets| ==> IsFirst(Names(), targets[i], names[i])
      ensures AreFirstCalled(cs, names)
    {
    }

    lemma {:induction false} NothingWanted(r: Option<seq<Container>>)
      requires Valid() && IsSelection(r, [])
      ensures r.Some? && AreFirstCalled(r.value, ["backstage-backend"])
      ensures exists t :: 0 <= t < mains <= |containers| && r.value[0] == containers[t]
    {
      SelectLaw(Names(), mains, []);
      var targets := Select(Names(), mains, []).value;
      FirstCalledAt(r.value, targets, ["backstage-backend"]);
      assert r.value[0] == containers[targets[0]];
    }

    lemma {:induction false} AllWanted(r: Option<seq<Container>>)
      requires Valid() && IsSelection(r, ["*"])
      ensures r.Some? && AreFirstCalled(r.value, Names())
      ensures (forall i, j :: 0 <= i < j < |containers| ==> containers[i].name != containers[j].name) ==>
                r.value == containers
    {
      SelectLaw(Names(), mains, ["*"]);
      var targets := Select(Names(), mains, ["*"]).value;
      FirstCalledAt(r.value, targets, Names());
      if forall i, j :: 0 <= i < j < |containers| ==> containers[i].name != containers[j].name {
        assert forall i, j :: 0 <= i < j < |Names()| ==> Names()[i] != Names()[j];
        EveryPosition(r.value, targets);
      }
    }

    lemma EveryPosition(cs: seq<Container>, targets: seq<nat>)
      requires AreAt(cs, targets) && |targets| == |containers| && forall i :: 0 <= i < |targets| ==> targets[i] == i
      ensures cs == containers
    {
    }

    lemma {:induction false} SomeWanted(r: Option<seq<Container>>, wanted: seq<string>)
      requires Valid() && IsSelection(r, wanted) && wanted != [] && wanted != ["*"]
      ensures r.None? <==> exists w :: w in wanted && w !in Names()
      ensures r.Some? ==> AreFirstCalled(r.value, wanted)
    {
      SelectLaw(Names(), mains, wanted);
      if r.Some? {
        FirstCalledAt(r.value, Select(Names(), mains, wanted).value, wanted);
      }
    }

    /** No name selects the Backstage container, a single `*` all containers. */
    method SelectContainers(names: seq<string>) returns (r: Option<seq<Container>>)
      requires Valid()
      ensures IsSelection(r, names)
    {
      if |names| == 0 {
        var b := BackstageIndex(Names(), mains);
        return Some([containers[b]]);
      }
      if |names| == 1 && names[0] == "*" {
        assert names == ["*"];
        r := Lookup(Names());
      } else {
        assert names != ["*"];
        r := Lookup(names);
      }
    }

    method Lookup(wanted: seq<string>) returns (r: Option<seq<Container>>)
      ensures match IndicesByName(Names(), wanted)
              case None => r.None?
              case Some(targets) => r.Some? && AreAt(r.value, targets)
    {
      var found := [];
      for i := 0 to |wanted|
        invariant var targets := IndicesByName(Names(), wanted[..i]);
                  targets.Some? && |found| == i && forall j :: 0 <= j < i ==> found[j] == containers[targets.value[j]]
      {
        IndicesSnoc(Names(), wanted, i);
        var c := ContainerByName(wanted[i]);
        if c == null {
          assert wanted[i] in wanted && wanted[i] !in Names();
          return None;
        }
        found := found + [c];
      }
      assert wanted[..|wanted|] == wanted;
      r := Some(found);
    }

    // -------------------------------------------------------------------------
    // Steps
    // -------------------------------------------------------------------------

    /** `mountFilesFrom` */
    method MountFilesFrom(filter: Filter, source: Source, mountPath: string, fileName: string,
                          withSubPath: bool, dataKeys: seq<string>)
      returns (ok: bool)
      requires Valid()
      modifies this`volumes, containers`mounts
      ensures Outcome(View(), ok) ==
              Apply(old(View()), MountFiles(WantedNames(filter), Volume(VolumeName(source.name), source),
                                            mountPath, fileName, withSubPath, dataKeys))
    {
      var volume := NewVolume(source);
      ok := MountObject(filter, volume, mountPath, fileName, withSubPath, dataKeys);
    }

    method MountObject(filter: Filter, volume: Volume, mountPath: string, fileName: string,
                       withSubPath: bool, dataKeys: seq<string>)
      returns (ok: bool)
      requires Valid()
      modifies this`volumes, containers`mounts
      ensures Outcome(View(), ok) ==
              Mounted(old(View()), WantedNames(filter), volume, mountPath, fileName, withSubPath, dataKeys)
    {
      ghost var pod, wanted := View(), WantedNames(filter);
      var selected := GetContainers(filter);
      var mountsToAdd := MountsToAdd(volume.name, mountPath, fileName, withSubPath, dataKeys);
      ok := MountVolume(selected, wanted, volume, mountsToAdd);
      assert Outcome(View(), ok) == MountedWith(pod, wanted, volume, mountsToAdd);
    }

    method MountVolume(selected: Option<seq<Container>>, ghost wanted: seq<string>, volume: Volume,
                       mountsToAdd: seq<Mount>)
      returns (ok: bool)
      requires Valid() && IsSelection(selected, wanted)
      modifies this`volumes, containers`mounts
      ensures Outcome(View(), ok) == MountedWith(old(View()), wanted, volume, mountsToAdd)
    {
      if selected.None? {
        return false;
      }
      AddVolume(volume);
      RemountSelected(selected.value, mountsToAdd, Select(Names(), mains, wanted).value);
      ok := true;
    }

    /** The loop over the selected containers; a container selected twice is served twice. */
    method RemountSelected(selected: seq<Container>, requested: seq<Mount>, ghost targets: seq<nat>)
      requires Valid() && AreAt(selected, targets)
      modifies containers`mounts
      ensures View() == old(View()).(mounts := RemountAt(old(View()).mounts, targets, requested))
    {
      ghost var pod := View();
      for i := 0 to |selected|
        invariant View() == pod.(mounts := RemountAt(pod.mounts, targets[..i], requested))
      {
        RemountAtStep(pod.mounts, targets, i, requested);
        RemountOne(selected[i], targets[i], requested);
      }
      assert targets[..|targets|] == targets;
    }

    method RemountOne(c: Container, ghost t: nat, requested: seq<Mount>)
      requires Valid() && t < |containers| && containers[t] == c
      modifies c`mounts
      ensures var before := old(View()).mounts;
              View() == old(View()).(mounts := before[t := Remount(before[t], requested)])
    {
      var newMounts := ReplaceOrAppend(c.mounts, requested);
      SetMounts(c, t, newMounts);
    }

    /** `addPvc`: the volume is added before the containers are looked up. */
    method AddPvc(filter: Filter, claim: string, mountPath: string, subPath: string) returns (ok: bool)
      requires Valid()
      modifies this`volumes, containers`mounts
      ensures Outcome(View(), ok) ==
              Apply(old(View()), Step.AddPvc(WantedNames(filter), Volume(VolumeName(claim), Claim(claim)),
                                             mountPath, subPath))
    {
      var volume := NewVolume(Claim(claim));
      AddVolume(volume);
      ghost var wanted := WantedNames(filter);
      var selected := GetContainers(filter);
      if selected.None? {
        return false;
      }
      var m := Mount(volume.name, mountPath, subPath, false);
      AppendSelected(selected.value, m, Select(Names(), mains, wanted).value);
      ok := true;
    }

    method AppendSelected(selected: seq<Container>, m: Mount, ghost targets: seq<nat>)
      requires Valid() && AreAt(selected, targets)
      modifies containers`mounts
      ensures View() == old(View()).(mounts := AppendAt(old(View()).mounts, targets, m))
    {
      ghost var mounts := View().mounts;
      for i := 0 to |selected|
        invariant View() == old(View()).(mounts := AppendAt(mounts, targets[..i], m))
      {
        assert targets[..i + 1][..i] == targets[..i];
        SetMounts(selected[i], targets[i], selected[i].mounts + [m]);
      }
      assert targets[..|targets|] == targets;
    }

    /** `updatePodWithAppConfig` */
    method UpdatePodWithAppConfig(cmName: string, mountPath: string, key: string, withSubPath: bool,
                                  cmData: seq<string>)
      returns (ok: bool)
      requires Valid()
      modifies this`volumes, containers
      ensures Outcome(View(), ok) ==
              Apply(old(View()), AppConfig(VolumeOf(cmName), mountPath, key, withSubPath, cmData))
    {
      if |cmData| > 1 {
        return false;
      }
      var volume := NewVolume(ConfigMap(cmName));
      MountAppConfig(volume, mountPath, key, withSubPath, cmData);
      ok := true;
    }

    method MountAppConfig(volume: Volume, mountPath: string, key: string, withSubPath: bool, cmData: seq<string>)
      requires Valid() && |cmData| <= 1
      modifies this`volumes, containers
      ensures View() == WithAppConfig(old(View()), volume, mountPath, key, withSubPath, cmData).pod
    {
      ghost var mounted := Mounted(View(), [], volume, mountPath, key, withSubPath, cmData).pod;
      var _ := MountObject(Filter([], ""), volume, mountPath, key, withSubPath, cmData);
      assert View() == mounted;
      var b := BackstageIndex(Names(), mains);
      var more := ConfigArgs(mountPath, key, cmData);
      AppendArgs(containers[b], b, more);
    }

    method AppendArgs(c: Container, ghost b: nat, more: seq<string>)
      requires Valid() && b < |containers| && containers[b] == c
      modifies c`args
      ensures View() == old(View()).(args := old(View()).args[b := old(View()).args[b] + more])
    {
      c.args := c.args + more;
      assert View().mounts == old(View()).mounts;
      assert View().args == old(View()).args[b := c.args];
    }
  }

  /** The arguments that the loop over the app-config files appends. */
  method ConfigArgs(mountPath: string, key: string, cmData: seq<string>) returns (args: seq<string>)
    ensures args == Flags(ConfigFiles(mountPath, key, cmData))
  {
    args := [];
    ghost var files: seq<string> := [];
    for i := 0 to |cmData|
      invariant files == ConfigFiles(mountPath, key, cmData[..i]) && args == Flags(files)
    {
      assert cmData[..i + 1][..i] == cmData[..i];
      if key == "" || key == cmData[i] {
        var file := Join(mountPath, cmData[i]);
        FlagsConcat(files, [file]);
        OneFlag(file);
        args, files := args + ["--config", file], files + [file];
      }
    }
    assert cmData[..|cmData|] == cmData;
  }

  lemma IndicesSnoc(names: seq<string>, wanted: seq<string>, i: nat)
    requires i < |wanted|
    ensures var before, t := IndicesByName(names, wanted[..i]), IndexByName(names, wanted[i]);
            IndicesByName(names, wanted[..i + 1]) ==
            if t.None? || before.None? then None else Some(before.value + [t.value])
  {
    assert wanted[..i + 1][..i] == wanted[..i];
  }

  lemma FirstOf(names: seq<string>, name: string, i: nat)
    requires i < |names| && names[i] == name && forall j :: 0 <= j < i ==> names[j] != name
    ensures IndexByName(names, name) == Some(i)
  {
  }

  lemma OneFlag(file: string)
    ensures Flags([file]) == ["--config", file]
  {
  }
}
