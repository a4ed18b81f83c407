/** The pod as a value: container selection, the assembly steps, and what every
    sequence of steps keeps (pkg/model/deployment.go, pkg/model/pvcs.go,
    pkg/model/appconfig.go, pkg/model/containers-filter.go). */
module Pods {
  import opened GoStrings
  import opened GoPath
  import opened Mounts

  const BACKSTAGE := "backstage-backend"

  datatype Source = ConfigMap(name: string) | Secret(name: string) | Claim(name: string)
  datatype Volume = Volume(name: string, source: Source)

  /** The containers side by side: `names`, with the main containers first
      (`mains` of them) and then the init containers, and for each its volume
      mounts and its arguments. */
  datatype Pod = Pod(
    volumes: seq<Volume>, names: seq<string>, mains: nat, mounts: seq<seq<Mount>>, args: seq<seq<string>>)

  // ---------------------------------------------------------------------------
  // Container selection
  // ---------------------------------------------------------------------------

  /** `names` of the CR or the default config, or a comma-separated annotation, which wins. */
  datatype Filter = Filter(names: seq<string>, annotation: string)

  /** `unicode.IsSpace`. */
  predicate IsSpace(c: char) {
    || '\t' <= c <= '\r' || c == ' ' || c == '\U{85}' || c == '\U{A0}'
    || c == '\U{1680}' || '\U{2000}' <= c <= '\U{200A}'
    || c in {'\U{2028}', '\U{2029}', '\U{202F}', '\U{205F}', '\U{3000}'}
  }

  /** The white space of Unicode, by code point. */
  lemma WhiteSpace(c: char)
    ensures IsSpace(c) <==>
            || c as int in {9, 10, 11, 12, 13, 32, 133, 160, 5760, 8232, 8233, 8239, 8287, 12288}
            || 8192 <= c as int <= 8202
  {
  }

  function TrimSpace(s: string): string {
    if s != "" && IsSpace(s[0]) then TrimSpace(s[1..])
    else if s != "" && IsSpace(s[|s| - 1]) then TrimSpace(s[..|s| - 1])
    else s
  }

  /** Outside of `i..j` there is only white space. */
  ghost predicate SpaceAround(s: string, i: int, j: int) {
    0 <= i <= j <= |s| && forall k :: 0 <= k < i || j <= k < |s| ==> IsSpace(s[k])
  }

  lemma SpaceBefore(c: char, s: string, i: int, j: int)
    requires SpaceAround(s, i, j) && IsSpace(c)
    ensures SpaceAround([c] + s, i + 1, j + 1) && ([c] + s)[i + 1..j + 1] == s[i..j]
  {
  }

  lemma SpaceBehind(c: char, s: string, i: int, j: int)
    requires SpaceAround(s, i, j) && IsSpace(c)
    ensures SpaceAround(s + [c], i, j) && (s + [c])[i..j] == s[i..j]
  {
  }

  /** Trimming cuts white space off both ends, ... */
  lemma {:induction false} TrimSpaceCuts(s: string) returns (i: nat, j: nat)
    ensures SpaceAround(s, i, j) && TrimSpace(s) == s[i..j]
    decreases |s|
  {
    if s != "" && IsSpace(s[0]) {
      var a, b := TrimSpaceCuts(s[1..]);
      SpaceBefore(s[0], s[1..], a, b);
      assert s == [s[0]] + s[1..];
      i, j := a + 1, b + 1;
    } else if s != "" && IsSpace(s[|s| - 1]) {
      var n := |s| - 1;
      i, j := TrimSpaceCuts(s[..n]);
      SpaceBehind(s[n], s[..n], i, j);
      assert s == s[..n] + [s[n]];
    } else {
      i, j := 0, |s|;
    }
  }

  /** ... and all of it. */
  lemma {:induction false} TrimmedEnds(s: string)
    ensures var r := TrimSpace(s); r != "" ==> !IsSpace(r[0]) && !IsSpace(r[|r| - 1])
    decreases |s|
  {
    if s != "" && IsSpace(s[0]) {
      TrimmedEnds(s[1..]);
    } else if s != "" && IsSpace(s[|s| - 1]) {
      TrimmedEnds(s[..|s| - 1]);
    }
  }

  /** The non-empty trimmed parts, in order. */
  function NonEmptyParts(parts: seq<string>): (r: seq<string>)
    ensures forall t :: t in r ==> t != ""
  {
    if parts == [] then []
    else
      var t := TrimSpace(parts[|parts| - 1]);
      NonEmptyParts(parts[..|parts| - 1]) + if t != "" then [t] else []
  }

  /** Part by part, in order. */
  lemma PartsInOrder(parts: seq<string>, part: string)
    ensures NonEmptyParts([]) == []
    ensures NonEmptyParts(parts + [part]) ==
            if TrimSpace(part) == "" then NonEmptyParts(parts) else NonEmptyParts(parts) + [TrimSpace(part)]
  {
    assert (parts + [part])[..|parts|] == parts;
  }

  method ParseCommaSeparated(input: string) returns (result: seq<string>)
    ensures result == NonEmptyParts(Split(input, ','))
  {
    result := TrimmedParts(Split(input, ','));
  }

  method TrimmedParts(parts: seq<string>) returns (result: seq<string>)
    ensures result == NonEmptyParts(parts)
  {
    result := [];
    for i := 0 to |parts|
      invariant result == NonEmptyParts(parts[..i])
    {
      assert parts[..i + 1][..i] == parts[..i];
      var t := TrimSpace(parts[i]);
      if t != "" {
        result := result + [t];
      }
    }
    assert parts[..|parts|] == parts;
  }

  /** The first container with a name, main containers before init containers. */
  function IndexByName(names: seq<string>, name: string): (r: Option<nat>)
    ensures r.Some? ==> r.value < |names| && names[r.value] == name && name !in names[..r.value]
    ensures r.None? ==> name !in names
  {
    if names == [] then None
    else if names[0] == name then Some(0)
    else
      match IndexByName(names[1..], name)
      case None => None
      case Some(i) =>
        assert names[..i + 1] == [names[0]] + names[1..][..i];
        Some(i + 1)
  }

  function IndicesByName(names: seq<string>, wanted: seq<string>): (r: Option<seq<nat>>)
    ensures r.Some? ==> |r.value| == |wanted|
                        && forall i :: 0 <= i < |wanted| ==> r.value[i] < |names| && names[r.value[i]] == wanted[i]
    ensures r.None? <==> exists w :: w in wanted && w !in names
  {
    if wanted == [] then Some([])
    else
      var w := wanted[|wanted| - 1];
      var before := IndicesByName(names, wanted[..|wanted| - 1]);
      assert forall x :: x in wanted <==> x in wanted[..|wanted| - 1] || x == w;
      match IndexByName(names, w)
      case None => None
      case Some(i) => if before.None? then None else Some(before.value + [i])
  }

  /** The main Backstage container exists (checked when the deployment is added to the model). */
  predicate HasBackstage(names: seq<string>, mains: nat) {
    mains <= |names| && BACKSTAGE in names[..mains]
  }

  function BackstageIndex(names: seq<string>, mains: nat): (r: nat)
    requires HasBackstage(names, mains)
    ensures r < mains && names[r] == BACKSTAGE
  {
    IndexByName(names[..mains], BACKSTAGE).value
  }

  ghost predicate InRange(targets: seq<nat>, n: nat) {
    forall j :: 0 <= j < |targets| ==> targets[j] < n
  }

  function WantedNames(filter: Filter): seq<string> {
    if filter.annotation != "" then NonEmptyParts(Split(filter.annotation, ',')) else filter.names
  }

  /** The selected containers as positions; `None` when a name is not found. */
  function Select(names: seq<string>, mains: nat, wanted: seq<string>): (r: Option<seq<nat>>)
    requires HasBackstage(names, mains)
    ensures r.Some? ==> InRange(r.value, |names|)
  {
    if wanted == [] then Some([BackstageIndex(names, mains)])
    else IndicesByName(names, if wanted == ["*"] then names else wanted)
  }

  /** Container `t` is the first one of that name. */
  ghost predicate IsFirst(names: seq<string>, t: int, name: string) {
    0 <= t < |names| && names[t] == name && forall j :: 0 <= j < t ==> names[j] != name
  }

  lemma {:induction false} FirstByName(names: seq<string>, name: string)
    ensures match IndexByName(names, name)
            case None => name !in names
            case Some(t) => IsFirst(names, t, name)
  {
    if IndexByName(names, name).Some? {
      var t := IndexByName(names, name).value;
      assert forall j :: 0 <= j < t ==> names[j] == names[..t][j] && names[j] in names[..t];
    }
  }

  lemma {:induction false} FirstByNames(names: seq<string>, wanted: seq<string>)
    ensures var r := IndicesByName(names, wanted);
            r.Some? ==> |r.value| == |wanted| && forall i :: 0 <= i < |wanted| ==> IsFirst(names, r.value[i], wanted[i])
  {
    if wanted != [] {
      FirstByNames(names, wanted[..|wanted| - 1]);
      FirstByName(names, wanted[|wanted| - 1]);
    }
  }

  /** What a list of wanted names selects: nothing wanted gives the first main
      container called `backstage-backend`; a single `*` gives, for every position
      of the pod, the first container of that position's name, which is every
      container when the names differ; otherwise it is the first container of each
      wanted name, or an error when a name is missing. */
  lemma {:induction false} SelectLaw(names: seq<string>, mains: nat, wanted: seq<string>)
    requires HasBackstage(names, mains)
    ensures var r := Select(names, mains, wanted);
            && (wanted == [] ==>
                r.Some? && |r.value| == 1 && r.value[0] < mains && IsFirst(names, r.value[0], "backstage-backend"))
            && (wanted == ["*"] ==>
                && r.Some? && |r.value| == |names|
                && (forall i :: 0 <= i < |names| ==> IsFirst(names, r.value[i], names[i]))
                && ((forall i, j :: 0 <= i < j < |names| ==> names[i] != names[j]) ==>
                    forall i :: 0 <= i < |names| ==> r.value[i] == i))
            && (wanted != [] && wanted != ["*"] ==>
                && (r.None? <==> exists w :: w in wanted && w !in names)
                && (r.Some? ==> |r.value| == |wanted|
                                && forall i :: 0 <= i < |wanted| ==> IsFirst(names, r.value[i], wanted[i])))
  {
    FirstByNames(names, names);
    FirstByNames(names, wanted);
    FirstByName(names[..mains], BACKSTAGE);
    assert forall j :: 0 <= j < mains ==> names[..mains][j] == names[j];
  }

  // ---------------------------------------------------------------------------
  // Steps
  // ---------------------------------------------------------------------------

  /** `wanted` are the container names of the step's filter and `volume` is the
      volume it adds; the laws below hold whatever the volumes are called. */
  datatype Step =
    | MountFiles(wanted: seq<string>, volume: Volume, mountPath: string, fileName: string,
                 withSubPath: bool, dataKeys: seq<string>)
    | AddPvc(wanted: seq<string>, volume: Volume, mountPath: string, subPath: string)
    | AppConfig(volume: Volume, mountPath: string, key: string, withSubPath: bool, cmData: seq<string>)

  function RemountAt(mounts: seq<seq<Mount>>, targets: seq<nat>, requested: seq<Mount>): (r: seq<seq<Mount>>)
    requires InRange(targets, |mounts|)
    ensures |r| == |mounts|
  {
    if targets == [] then mounts
    else
      var t := targets[|targets| - 1];
      var before := RemountAt(mounts, targets[..|targets| - 1], requested);
      before[t := Remount(before[t], requested)]
  }

  lemma RemountAtStep(mounts: seq<seq<Mount>>, targets: seq<nat>, i: nat, requested: seq<Mount>)
    requires InRange(targets, |mounts|) && i < |targets|
    ensures var before := RemountAt(mounts, targets[..i], requested);
            var t := targets[i];
            RemountAt(mounts, targets[..i + 1], requested) == before[t := Remount(before[t], requested)]
  {
    assert targets[..i + 1][..i] == targets[..i];
  }

  function AppendAt(mounts: seq<seq<Mount>>, targets: seq<nat>, m: Mount): (r: seq<seq<Mount>>)
    requires InRange(targets, |mounts|)
    ensures |r| == |mounts|
  {
    if targets == [] then mounts
    else
      var t := targets[|targets| - 1];
      var before := AppendAt(mounts, targets[..|targets| - 1], m);
      before[t := before[t] + [m]]
  }

  /** `--config` flags for the files of an app-config. */
  function ConfigFiles(mountPath: string, key: string, cmData: seq<string>): seq<string> {
    if cmData == [] then []
    else
      var file := cmData[|cmData| - 1];
      ConfigFiles(mountPath, key, cmData[..|cmData| - 1]) +
      if key == "" || key == file then [Join(mountPath, file)] else []
  }

  function Flags(files: seq<string>): seq<string> {
    if files == [] then [] else Flags(files[..|files| - 1]) + ["--config", files[|files| - 1]]
  }

  /** Every file comes behind its own `--config`. */
  lemma {:induction false} FlagsAt(files: seq<string>, i: nat)
    requires i < |files|
    ensures |Flags(files)| == 2 * |files| && Flags(files)[2 * i] == "--config" && Flags(files)[2 * i + 1] == files[i]
  {
    var n := |files| - 1;
    if i < n {
      FlagsAt(files[..n], i);
    } else if n > 0 {
      FlagsAt(files[..n], 0);
    }
  }

  /** The files of an app-config are its wanted keys below the mount path. */
  lemma {:induction false} ConfigFilesIff(mountPath: string, key: string, cmData: seq<string>, file: string)
    ensures file in ConfigFiles(mountPath, key, cmData) <==>
            exists k :: k in cmData && (key == "" || key == k) && file == Join(mountPath, k)
  {
    if cmData != [] {
      var init, last := cmData[..|cmData| - 1], cmData[|cmData| - 1];
      ConfigFilesIff(mountPath, key, init, file);
      assert last in cmData && forall k :: k in cmData <==> k in init || k == last;
    }
  }

  predicate Ready(pod: Pod) {
    |pod.mounts| == |pod.args| == |pod.names| && HasBackstage(pod.names, pod.mains)
  }

  predicate SameContainers(pod: Pod, after: Pod) {
    after.names == pod.names && after.mains == pod.mains && |after.mounts| == |pod.mounts| && |after.args| == |pod.args|
  }

  function Targets(pod: Pod, wanted: seq<string>): (r: Option<seq<nat>>)
    requires Ready(pod)
    ensures r.Some? ==> InRange(r.value, |pod.mounts|)
  {
    Select(pod.names, pod.mains, wanted)
  }

  /** The wanted containers as positions; none when a name is not found. */
  ghost function Chosen(pod: Pod, wanted: seq<string>): (r: seq<nat>)
    requires Ready(pod)
    ensures InRange(r, |pod.mounts|)
  {
    if Targets(pod, wanted).Some? then Targets(pod, wanted).value else []
  }

  function Backstage(pod: Pod): (r: nat)
    requires Ready(pod)
    ensures r < |pod.names|
  {
    BackstageIndex(pod.names, pod.mains)
  }

  datatype Outcome = Outcome(pod: Pod, ok: bool)

  /** Adds a volume and the requested mounts to the wanted containers, or fails. */
  function MountedWith(pod: Pod, wanted: seq<string>, volume: Volume, requested: seq<Mount>): (r: Outcome)
    requires Ready(pod)
    ensures SameContainers(pod, r.pod)
  {
    match Targets(pod, wanted)
    case None => Outcome(pod, false)
    case Some(targets) =>
      Outcome(pod.(volumes := pod.volumes + [volume], mounts := RemountAt(pod.mounts, targets, requested)), true)
  }

  /** `mountFilesFrom` */
  function Mounted(pod: Pod, wanted: seq<string>, volume: Volume, mountPath: string,
                   fileName: string, withSubPath: bool, dataKeys: seq<string>): (r: Outcome)
    requires Ready(pod)
    ensures SameContainers(pod, r.pod)
  {
    MountedWith(pod, wanted, volume, Requested(volume.name, mountPath, fileName, withSubPath, dataKeys))
  }

  /** `addPvc`: the volume is added before the containers are looked up. */
  function WithPvc(pod: Pod, wanted: seq<string>, volume: Volume, mountPath: string, subPath: string): (r: Outcome)
    requires Ready(pod)
    ensures SameContainers(pod, r.pod)
  {
    var pod' := pod.(volumes := pod.volumes + [volume]);
    match Targets(pod, wanted)
    case None => Outcome(pod', false)
    case Some(targets) =>
      var m := Mount(volume.name, mountPath, subPath, false);
      Outcome(pod'.(mounts := AppendAt(pod.mounts, targets, m)), true)
  }

  /** `updatePodWithAppConfig` */
  function WithAppConfig(pod: Pod, volume: Volume, mountPath: string, key: string,
                         withSubPath: bool, cmData: seq<string>): (r: Outcome)
    requires Ready(pod)
    ensures SameContainers(pod, r.pod)
  {
    if |cmData| > 1 then Outcome(pod, false)
    else
      var mounted := Mounted(pod, [], volume, mountPath, key, withSubPath, cmData).pod;
      var b := Backstage(pod);
      Outcome(mounted.(args := mounted.args[b := mounted.args[b] + Flags(ConfigFiles(mountPath, key, cmData))]), true)
  }

  /** A step, and whether it reports no error. */
  function Apply(pod: Pod, step: Step): (r: Outcome)
    requires Ready(pod)
    ensures SameContainers(pod, r.pod)
  {
    match step
    case MountFiles(wanted, volume, mountPath, fileName, withSubPath, dataKeys) =>
      Mounted(pod, wanted, volume, mountPath, fileName, withSubPath, dataKeys)
    case AddPvc(wanted, volume, mountPath, subPath) =>
      WithPvc(pod, wanted, volume, mountPath, subPath)
    case AppConfig(volume, mountPath, key, withSubPath, cmData) =>
      WithAppConfig(pod, volume, mountPath, key, withSubPath, cmData)
  }

  function Run(pod: Pod, steps: seq<Step>): (r: Pod)
    requires Ready(pod)
    ensures SameContainers(pod, r)
  {
    if steps == [] then pod else Apply(Run(pod, steps[..|steps| - 1]), steps[|steps| - 1]).pod
  }

  // ---------------------------------------------------------------------------
  // What one step keeps
  // ---------------------------------------------------------------------------

  ghost function VolumeNames(volumes: seq<Volume>): set<string> {
    set v | v in volumes :: v.name
  }

  /** Every mount of every container names one of the volumes. */
  ghost predicate DeclaredIn(mounts: seq<seq<Mount>>, volumes: set<string>) {
    forall i, m :: 0 <= i < |mounts| && m in mounts[i] ==> m.volume in volumes
  }

  ghost predicate Declared(pod: Pod) {
    DeclaredIn(pod.mounts, VolumeNames(pod.volumes))
  }

  /** No container lost a mount path. */
  ghost predicate PathsKept(before: seq<seq<Mount>>, after: seq<seq<Mount>>) {
    |before| == |after| && forall i :: 0 <= i < |before| ==> Paths(before[i]) <= Paths(after[i])
  }

  ghost predicate AllVolume(ms: seq<Mount>, volume: string) {
    forall m :: m in ms ==> m.volume == volume
  }

  lemma RequestedVolume(volume: string, mountPath: string, fileName: string, withSubPath: bool, dataKeys: seq<string>)
    ensures AllVolume(Requested(volume, mountPath, fileName, withSubPath, dataKeys), volume)
  {
    FileMountsVolume(volume, mountPath, fileName, dataKeys);
  }

  lemma RemountSources(existing: seq<Mount>, requested: seq<Mount>)
    ensures forall m :: m in Remount(existing, requested) ==> m in existing || m in requested
  {
  }

  /** `after` keeps mounts declared, loses no path and differs from `before` at `targets` only. */
  ghost predicate MountsKept(before: seq<seq<Mount>>, after: seq<seq<Mount>>, targets: seq<nat>, volumes: set<string>) {
    && DeclaredIn(after, volumes) && PathsKept(before, after)
    && forall i :: 0 <= i < |before| && i !in targets ==> after[i] == before[i]
  }

  lemma OneMoreTarget(before: seq<seq<Mount>>, mid: seq<seq<Mount>>, targets: seq<nat>,
                      volumes: set<string>, ms: seq<Mount>)
    requires targets != [] && InRange(targets, |before|)
    requires MountsKept(before, mid, targets[..|targets| - 1], volumes)
    requires var t := targets[|targets| - 1]; Paths(mid[t]) <= Paths(ms) && forall m :: m in ms ==> m.volume in volumes
    ensures MountsKept(before, mid[targets[|targets| - 1] := ms], targets, volumes)
  {
  }

  lemma {:induction false} RemountAtKeeps(mounts: seq<seq<Mount>>, targets: seq<nat>,
                                          requested: seq<Mount>, volume: string,
                                          volumes: set<string>)
    requires InRange(targets, |mounts|)
    requires DeclaredIn(mounts, volumes) && volume in volumes && AllVolume(requested, volume)
    ensures MountsKept(mounts, RemountAt(mounts, targets, requested), targets, volumes)
  {
    if targets != [] {
      var init, t := targets[..|targets| - 1], targets[|targets| - 1];
      RemountAtKeeps(mounts, init, requested, volume, volumes);
      var mid := RemountAt(mounts, init, requested);
      RemountSources(mid[t], requested);
      RemountPaths(mid[t], requested);
      OneMoreTarget(mounts, mid, targets, volumes, Remount(mid[t], requested));
    }
  }

  lemma {:induction false} AppendAtKeeps(mounts: seq<seq<Mount>>, targets: seq<nat>, m: Mount, volumes: set<string>)
    requires InRange(targets, |mounts|)
    requires DeclaredIn(mounts, volumes) && m.volume in volumes
    ensures MountsKept(mounts, AppendAt(mounts, targets, m), targets, volumes)
  {
    if targets != [] {
      var init, t := targets[..|targets| - 1], targets[|targets| - 1];
      AppendAtKeeps(mounts, init, m, volumes);
      var mid := AppendAt(mounts, init, m);
      assert forall x :: x in mid[t] + [m] <==> x in mid[t] || x == m;
      OneMoreTarget(mounts, mid, targets, volumes, mid[t] + [m]);
    }
  }

  lemma MoreVolumes(mounts: seq<seq<Mount>>, volumes: seq<Volume>, v: Volume)
    requires DeclaredIn(mounts, VolumeNames(volumes))
    ensures v.name in VolumeNames(volumes + [v]) && DeclaredIn(mounts, VolumeNames(volumes + [v]))
  {
  }

  ghost predicate Kept(pod: Pod, after: Pod, targets: seq<nat>) {
    pod.volumes <= after.volumes && MountsKept(pod.mounts, after.mounts, targets, VolumeNames(after.volumes))
  }

  lemma MountedKeeps(pod: Pod, wanted: seq<string>, volume: Volume, mountPath: string,
                     fileName: string, withSubPath: bool, dataKeys: seq<string>)
    requires Ready(pod) && Declared(pod)
    ensures var after := Mounted(pod, wanted, volume, mountPath, fileName, withSubPath, dataKeys).pod;
            after.args == pod.args && Kept(pod, after, Chosen(pod, wanted))
  {
    if Targets(pod, wanted).Some? {
      var requested := Requested(volume.name, mountPath, fileName, withSubPath, dataKeys);
      MoreVolumes(pod.mounts, pod.volumes, volume);
      RequestedVolume(volume.name, mountPath, fileName, withSubPath, dataKeys);
      var volumes := VolumeNames(pod.volumes + [volume]);
      RemountAtKeeps(pod.mounts, Targets(pod, wanted).value, requested, volume.name, volumes);
    }
  }

  lemma PvcKeeps(pod: Pod, wanted: seq<string>, volume: Volume, mountPath: string, subPath: string)
    requires Ready(pod) && Declared(pod)
    ensures var after := WithPvc(pod, wanted, volume, mountPath, subPath).pod;
            after.args == pod.args && Kept(pod, after, Chosen(pod, wanted))
  {
    MoreVolumes(pod.mounts, pod.volumes, volume);
    if Targets(pod, wanted).Some? {
      var m, volumes := Mount(volume.name, mountPath, subPath, false), VolumeNames(pod.volumes + [volume]);
      AppendAtKeeps(pod.mounts, Targets(pod, wanted).value, m, volumes);
    }
  }

  lemma AppConfigKeeps(pod: Pod, volume: Volume, mountPath: string, key: string, withSubPath: bool, cmData: seq<string>)
    requires Ready(pod) && Declared(pod)
    ensures var after, b := WithAppConfig(pod, volume, mountPath, key, withSubPath, cmData).pod, Backstage(pod);
            && Kept(pod, after, [b])
            && after.args == pod.args[
                 b := pod.args[b] + if |cmData| <= 1 then Flags(ConfigFiles(mountPath, key, cmData)) else []]
  {
    MountedKeeps(pod, [], volume, mountPath, key, withSubPath, cmData);
    var b := Backstage(pod);
    assert pod.args[b] + [] == pod.args[b];
  }

  /** The containers that a step changes, as positions. */
  ghost function Touched(pod: Pod, step: Step): seq<nat>
    requires Ready(pod)
  {
    if step.AppConfig? then [Backstage(pod)] else Chosen(pod, step.wanted)
  }

  /** `after` differs from `pod` in the containers at `targets` only. */
  ghost predicate Untouched(pod: Pod, after: Pod, targets: seq<nat>)
    requires |pod.mounts| == |pod.args| == |after.mounts| == |after.args|
  {
    forall i: nat :: i < |pod.mounts| && i !in targets ==>
                       after.mounts[i] == pod.mounts[i] && after.args[i] == pod.args[i]
  }

  /** A step keeps mounts declared, loses no volume and no mount path, and
      leaves the containers outside its selection alone. */
  lemma {:induction false} StepKeeps(pod: Pod, step: Step)
    requires Ready(pod) && Declared(pod)
    ensures var after := Apply(pod, step).pod;
            && Declared(after) && pod.volumes <= after.volumes && PathsKept(pod.mounts, after.mounts)
            && Untouched(pod, after, Touched(pod, step))
  {
    StepKept(pod, step);
    KeptMeans(pod, Apply(pod, step).pod, Touched(pod, step));
  }

  lemma StepKept(pod: Pod, step: Step)
    requires Ready(pod) && Declared(pod)
    ensures var after := Apply(pod, step).pod;
            Kept(pod, after, Touched(pod, step)) && ArgsKept(pod, after, Touched(pod, step))
  {
    match step
    case MountFiles(wanted, volume, mountPath, fileName, withSubPath, dataKeys) =>
      MountedKeeps(pod, wanted, volume, mountPath, fileName, withSubPath, dataKeys);
    case AddPvc(wanted, volume, mountPath, subPath) =>
      PvcKeeps(pod, wanted, volume, mountPath, subPath);
    case AppConfig(volume, mountPath, key, withSubPath, cmData) =>
      AppConfigKeeps(pod, volume, mountPath, key, withSubPath, cmData);
  }

  ghost predicate ArgsKept(pod: Pod, after: Pod, targets: seq<nat>) {
    |after.args| == |pod.args| && forall i: nat :: i < |pod.args| && i !in targets ==> after.args[i] == pod.args[i]
  }

  lemma KeptMeans(pod: Pod, after: Pod, targets: seq<nat>)
    requires Kept(pod, after, targets) && ArgsKept(pod, after, targets) && |pod.mounts| == |pod.args|
    ensures Declared(after) && pod.volumes <= after.volumes && PathsKept(pod.mounts, after.mounts)
    ensures |after.mounts| == |after.args| == |pod.args| && Untouched(pod, after, targets)
  {
  }

  // ---------------------------------------------------------------------------
  // Every sequence of steps
  // ---------------------------------------------------------------------------

  /** Over every sequence of steps, failing ones included: every mount of every
      container names a declared volume, no volume and no mount path is lost,
      and a container that no step selects is untouched. */
  lemma {:induction false} RunKeeps(pod: Pod, steps: seq<Step>)
    requires Ready(pod) && Declared(pod)
    ensures var final := Run(pod, steps);
            && Declared(final) && pod.volumes <= final.volumes && PathsKept(pod.mounts, final.mounts)
            && forall i: nat :: i < |pod.names| && (forall s :: s in steps ==> i !in Touched(pod, s))
                                ==> final.mounts[i] == pod.mounts[i] && final.args[i] == pod.args[i]
  {
    if steps != [] {
      var init, last := steps[..|steps| - 1], steps[|steps| - 1];
      RunKeeps(pod, init);
      var mid := Run(pod, init);
      StepKeeps(mid, last);
      assert last in steps && forall s :: s in init ==> s in steps;
      assert Touched(mid, last) == Touched(pod, last);
    }
  }

  /** The app-config files that the steps put on the command line. */
  function AppendedFiles(steps: seq<Step>): seq<string> {
    if steps == [] then []
    else
      AppendedFiles(steps[..|steps| - 1]) + StepFiles(steps[|steps| - 1])
  }

  /** The file is at or under one of the mount paths. */
  ghost predicate Reachable(mounts: seq<Mount>, file: string) {
    exists p :: p in Paths(mounts) && AtOrUnder(file, p)
  }

  /** Keys of an app-config ConfigMap are ordinary file names. */
  predicate GoodKeys(step: Step) {
    step.AppConfig? ==> forall k :: k in step.cmData ==> IsKey(k)
  }

  lemma {:induction false} FlagsConcat(a: seq<string>, b: seq<string>)
    ensures Flags(a + b) == Flags(a) + Flags(b)
  {
    if b == [] {
      assert a + b == a;
    } else {
      InitOfConcat(a, b);
      FlagsConcat(a, b[..|b| - 1]);
    }
  }

  lemma SingleMountPresent(existing: seq<Mount>, requested: seq<Mount>)
    requires |requested| == 1
    ensures requested[0].path in Paths(Remount(existing, requested))
  {
  }

  lemma SingleTarget(mounts: seq<seq<Mount>>, b: nat, requested: seq<Mount>)
    requires b < |mounts|
    ensures RemountAt(mounts, [b], requested) == mounts[b := Remount(mounts[b], requested)]
  {
  }

  /** The one mount of an app-config with a single key covers the file. */
  lemma SingleKey(volume: string, mountPath: string, key: string, withSubPath: bool, file: string)
    requires IsKey(file) && (key == "" || key == file)
    ensures ConfigFiles(mountPath, key, [file]) == [Join(mountPath, file)]
    ensures var requested := Requested(volume, mountPath, key, withSubPath, [file]);
            |requested| == 1 && AtOrUnder(Join(mountPath, file), requested[0].path)
  {
    assert [file][..0] == [];
    assert FileMounts(volume, mountPath, key, []) == [] && ConfigFiles(mountPath, key, []) == [];
    AtItself(Join(mountPath, file));
    JoinUnder(mountPath, file);
  }

  /** An app-config step mounts what it puts on the command line. */
  lemma AppConfigMounts(pod: Pod, volume: Volume, mountPath: string, key: string, withSubPath: bool, file: string)
    requires Ready(pod) && IsKey(file) && (key == "" || key == file)
    ensures ConfigFiles(mountPath, key, [file]) == [Join(mountPath, file)]
    ensures var after := WithAppConfig(pod, volume, mountPath, key, withSubPath, [file]).pod;
            Reachable(after.mounts[Backstage(pod)], Join(mountPath, file))
  {
    var requested, b := Requested(volume.name, mountPath, key, withSubPath, [file]), Backstage(pod);
    SingleKey(volume.name, mountPath, key, withSubPath, file);
    SingleMountPresent(pod.mounts[b], requested);
    AppConfigRemounts(pod, volume, mountPath, key, withSubPath, [file]);
  }

  /** An app-config step remounts in the Backstage container. */
  lemma AppConfigRemounts(pod: Pod, volume: Volume, mountPath: string, key: string, withSubPath: bool,
                          cmData: seq<string>)
    requires Ready(pod) && |cmData| <= 1
    ensures var b := Backstage(pod);
            WithAppConfig(pod, volume, mountPath, key, withSubPath, cmData).pod.mounts[b] ==
            Remount(pod.mounts[b], Requested(volume.name, mountPath, key, withSubPath, cmData))
  {
    var b := Backstage(pod);
    SingleTarget(pod.mounts, b, Requested(volume.name, mountPath, key, withSubPath, cmData));
    assert Targets(pod, []) == Some([b]);
  }

  lemma NoConfigFile(mountPath: string, key: string, cmData: seq<string>)
    requires |cmData| <= 1 && (|cmData| == 1 ==> key != "" && key != cmData[0])
    ensures ConfigFiles(mountPath, key, cmData) == []
  {
  }

  /** After every sequence of steps the Backstage command line is the original
      one followed by `--config` for each appended file, and each of these files
      is at or under a mount path of the final Backstage container. */
  lemma {:induction false} ConfigFilesReachable(pod: Pod, steps: seq<Step>)
    requires Ready(pod) && Declared(pod) && forall s :: s in steps ==> GoodKeys(s)
    ensures var b, final := Backstage(pod), Run(pod, steps);
            && final.args[b] == pod.args[b] + Flags(AppendedFiles(steps))
            && forall file :: file in AppendedFiles(steps) ==> Reachable(final.mounts[b], file)
  {
    var b := Backstage(pod);
    if steps == [] {
      assert pod.args[b] + [] == pod.args[b];
    } else {
      var init, last := steps[..|steps| - 1], steps[|steps| - 1];
      assert last in steps && forall s :: s in init ==> s in steps;
      ConfigFilesReachable(pod, init);
      RunKeeps(pod, init);
      OneMoreStep(Run(pod, init), last, pod.args[b], AppendedFiles(init));
    }
  }

  /** The files that one step puts on the command line. */
  function StepFiles(step: Step): seq<string> {
    if step.AppConfig? && |step.cmData| <= 1 then ConfigFiles(step.mountPath, step.key, step.cmData) else []
  }

  lemma StepArgs(pod: Pod, step: Step)
    requires Ready(pod) && Declared(pod)
    ensures var b := Backstage(pod); Apply(pod, step).pod.args[b] == pod.args[b] + Flags(StepFiles(step))
  {
  }

  lemma StepFilesReachable(pod: Pod, step: Step, file: string)
    requires Ready(pod) && GoodKeys(step) && file in StepFiles(step)
    ensures Reachable(Apply(pod, step).pod.mounts[Backstage(pod)], file)
  {
    match step
    case MountFiles(_, _, _, _, _, _) =>
    case AddPvc(_, _, _, _) =>
    case AppConfig(volume, mountPath, key, withSubPath, cmData) =>
      ConfigFileReachable(pod, volume, mountPath, key, withSubPath, cmData, file);
  }

  lemma ConfigFileReachable(pod: Pod, volume: Volume, mountPath: string, key: string,
                            withSubPath: bool, cmData: seq<string>, file: string)
    requires Ready(pod) && |cmData| <= 1 && forall k :: k in cmData ==> IsKey(k)
    requires file in ConfigFiles(mountPath, key, cmData)
    ensures Reachable(WithAppConfig(pod, volume, mountPath, key, withSubPath, cmData).pod.mounts[Backstage(pod)], file)
  {
    if cmData == [] || (key != "" && key != cmData[0]) {
      NoConfigFile(mountPath, key, cmData);
    } else {
      var k := cmData[0];
      assert cmData == [k];
      AppConfigMounts(pod, volume, mountPath, key, withSubPath, k);
    }
  }

  lemma StillReachable(before: seq<seq<Mount>>, after: seq<seq<Mount>>, b: nat, file: string)
    requires PathsKept(before, after) && b < |before| && Reachable(before[b], file)
    ensures Reachable(after[b], file)
  {
  }

  /** One step on top of a pod whose appended files are reachable. */
  lemma OneMoreStep(pod: Pod, step: Step, args: seq<string>, files: seq<string>)
    requires Ready(pod) && Declared(pod) && GoodKeys(step)
    requires pod.args[Backstage(pod)] == args + Flags(files)
    requires forall file :: file in files ==> Reachable(pod.mounts[Backstage(pod)], file)
    ensures var b, after := Backstage(pod), Apply(pod, step).pod;
            && after.args[b] == args + Flags(files + StepFiles(step))
            && forall file :: file in files + StepFiles(step) ==> Reachable(after.mounts[b], file)
  {
    var b, after := Backstage(pod), Apply(pod, step).pod;
    StepKeeps(pod, step);
    StepArgs(pod, step);
    FlagsConcat(files, StepFiles(step));
    assert args + Flags(files) + Flags(StepFiles(step)) == args + (Flags(files) + Flags(StepFiles(step)));
    MoreFilesReachable(pod, step, files);
  }

  lemma MoreFilesReachable(pod: Pod, step: Step, files: seq<string>)
    requires Ready(pod) && Declared(pod) && GoodKeys(step)
    requires forall file :: file in files ==> Reachable(pod.mounts[Backstage(pod)], file)
    ensures forall file :: file in files + StepFiles(step) ==>
                             Reachable(Apply(pod, step).pod.mounts[Backstage(pod)], file)
  {
    StepKeeps(pod, step);
    forall file | file in files + StepFiles(step)
      ensures Reachable(Apply(pod, step).pod.mounts[Backstage(pod)], file)
    {
      if file in files {
        StillReachable(pod.mounts, Apply(pod, step).pod.mounts, Backstage(pod), file);
      } else {
        StepFilesReachable(pod, step, file);
      }
    }
  }
}
