/** When the volume names and the mount paths of a pod stay distinct over a
    sequence of assembly steps (pkg/model/deployment.go, pkg/model/pvcs.go). */
module PodClashes {
  import opened GoStrings
  import opened GoPath
  import opened Mounts
  import opened Pods
  import opened Deployments
  import Rfc1123

  // ---------------------------------------------------------------------------
  // Volumes
  // ---------------------------------------------------------------------------

  ghost predicate DistinctVolumes(volumes: seq<Volume>) {
    forall i, j :: 0 <= i < j < |volumes| ==> volumes[i].name != volumes[j].name
  }

  /** The step adds its volume. `addPvc` does so even when it then fails. */
  predicate Adds(pod: Pod, step: Step)
    requires Ready(pod)
  {
    match step
    case MountFiles(wanted, _, _, _, _, _) => Targets(pod, wanted).Some?
    case AddPvc(_, _, _, _) => true
    case AppConfig(_, _, _, _, cmData) => |cmData| <= 1
  }

  function Added(pod: Pod, steps: seq<Step>): seq<Volume>
    requires Ready(pod)
  {
    if steps == [] then []
    else
      var last := steps[|steps| - 1];
      Added(pod, steps[..|steps| - 1]) + if Adds(pod, last) then [last.volume] else []
  }

  lemma StepVolumes(pod: Pod, step: Step)
    requires Ready(pod)
    ensures Apply(pod, step).pod.volumes == pod.volumes + if Adds(pod, step) then [step.volume] else []
  {
  }

  /** A mount or PVC step fails exactly when a wanted container is missing, an
      app-config step exactly when it has several keys. A failing step changes
      nothing, except that `addPvc` has added its volume already; every other step
      adds its volume. */
  lemma FailedSteps(pod: Pod, step: Step)
    requires Ready(pod)
    ensures var after, ok := Apply(pod, step).pod, Apply(pod, step).ok;
            && (!step.AppConfig? ==>
                (!ok <==> step.wanted != [] && step.wanted != ["*"] && exists w :: w in step.wanted && w !in pod.names))
            && (step.AppConfig? ==> (!ok <==> |step.cmData| >= 2))
            && (ok || step.AddPvc? ==> after.volumes == pod.volumes + [step.volume])
            && (!ok && !step.AddPvc? ==> after == pod)
            && (!ok && step.AddPvc? ==> after == pod.(volumes := pod.volumes + [step.volume]))
  {
    SelectLaw(pod.names, pod.mains, []);
    if !step.AppConfig? {
      SelectLaw(pod.names, pod.mains, step.wanted);
    }
  }

  /** A run appends the volume of every adding step, whether or not the name is taken. */
  lemma {:induction false} RunVolumes(pod: Pod, steps: seq<Step>)
    requires Ready(pod)
    ensures Run(pod, steps).volumes == pod.volumes + Added(pod, steps)
  {
    if steps != [] {
      var init, last := steps[..|steps| - 1], steps[|steps| - 1];
      RunVolumes(pod, init);
      StepVolumes(Run(pod, init), last);
      assert Adds(Run(pod, init), last) == Adds(pod, last);
    }
  }

  /** The mount names exactly one of the volumes. */
  ghost predicate NamesOne(volumes: seq<Volume>, m: Mount) {
    exists i :: NamesOnly(volumes, m, i)
  }

  ghost predicate NamesOnly(volumes: seq<Volume>, m: Mount, i: int) {
    0 <= i < |volumes| && forall j :: 0 <= j < |volumes| ==> (volumes[j].name == m.volume <==> i == j)
  }

  lemma OneVolume(volumes: seq<Volume>, m: Mount)
    requires DistinctVolumes(volumes) && m.volume in VolumeNames(volumes)
    ensures NamesOne(volumes, m)
  {
    var i :| 0 <= i < |volumes| && volumes[i].name == m.volume;
    assert NamesOnly(volumes, m, i);
  }

  lemma DistinctVolumesConcat(a: seq<Volume>, b: seq<Volume>)
    ensures DistinctVolumes(a + b) <==>
            && DistinctVolumes(a) && DistinctVolumes(b)
            && forall i, j :: 0 <= i < |a| && 0 <= j < |b| ==> a[i].name != b[j].name
  {
    var all := a + b;
    if DistinctVolumes(all) {
      assert forall i :: 0 <= i < |a| ==> all[i] == a[i];
      assert forall j :: 0 <= j < |b| ==> all[|a| + j] == b[j];
      forall i, j | 0 <= i < j < |b| ensures b[i].name != b[j].name {
        assert all[|a| + i].name != all[|a| + j].name;
      }
      forall i, j | 0 <= i < |a| && 0 <= j < |b| ensures a[i].name != b[j].name {
        assert all[i].name != all[|a| + j].name;
      }
    }
  }

  /** The steps name their volumes after their objects, as the operator does. */
  ghost predicate NamedAfterObjects(steps: seq<Step>) {
    forall s :: s in steps ==> s.volume.name == VolumeName(s.volume.source.name)
  }

  lemma {:induction false} AddedNames(pod: Pod, steps: seq<Step>)
    requires Ready(pod) && NamedAfterObjects(steps)
    ensures forall v :: v in Added(pod, steps) ==> v.name == VolumeName(v.source.name)
  {
    if steps != [] {
      var init, last := steps[..|steps| - 1], steps[|steps| - 1];
      assert last in steps && forall s :: s in init ==> s in steps;
      AddedNames(pod, init);
    }
  }

  /** Volume names are distinct after a run if and only if they were before, the
      names of the mounted objects give different labels, and no such label is
      the name of a volume of the pod. */
  lemma VolumesDistinctIff(pod: Pod, steps: seq<Step>)
    requires Ready(pod) && NamedAfterObjects(steps)
    ensures var added := Added(pod, steps);
            DistinctVolumes(Run(pod, steps).volumes) <==>
            && DistinctVolumes(pod.volumes)
            && (forall i, j :: 0 <= i < j < |added| ==>
                  VolumeName(added[i].source.name) != VolumeName(added[j].source.name))
            && (forall i, j :: 0 <= i < |pod.volumes| && 0 <= j < |added| ==>
                  pod.volumes[i].name != VolumeName(added[j].source.name))
  {
    var added := Added(pod, steps);
    RunVolumes(pod, steps);
    AddedNames(pod, steps);
    assert forall i :: 0 <= i < |added| ==> added[i] in added;
    DistinctVolumesConcat(pod.volumes, added);
  }

  /** When the mounted objects' names are labels, the objects' names decide. */
  lemma LabelledVolumesDistinctIff(pod: Pod, steps: seq<Step>)
    requires Ready(pod) && NamedAfterObjects(steps) && pod.volumes == []
    requires forall s :: s in steps ==> Rfc1123.IsLabel(s.volume.source.name)
    ensures var added := Added(pod, steps);
            DistinctVolumes(Run(pod, steps).volumes) <==>
            forall i, j :: 0 <= i < j < |added| ==> added[i].source.name != added[j].source.name
  {
    var added := Added(pod, steps);
    VolumesDistinctIff(pod, steps);
    AddedFromSteps(pod, steps);
    forall i, j | 0 <= i < j < |added|
      ensures VolumeName(added[i].source.name) == VolumeName(added[j].source.name) <==>
              added[i].source.name == added[j].source.name
    {
      assert added[i] in added && added[j] in added;
      LabelsKeepVolumesApart(added[i].source.name, added[j].source.name);
    }
  }

  lemma {:induction false} AddedFromSteps(pod: Pod, steps: seq<Step>)
    requires Ready(pod)
    ensures forall v :: v in Added(pod, steps) ==> exists s :: s in steps && s.volume == v
  {
    if steps != [] {
      var init, last := steps[..|steps| - 1], steps[|steps| - 1];
      AddedFromSteps(pod, init);
      assert last in steps && forall s :: s in init ==> s in steps;
    }
  }

  /** With distinct volume names every mount names exactly one volume. */
  lemma MountsNameOneVolume(pod: Pod, steps: seq<Step>)
    requires Ready(pod) && Declared(pod) && DistinctVolumes(Run(pod, steps).volumes)
    ensures var final := Run(pod, steps);
            forall i, m :: 0 <= i < |final.mounts| && m in final.mounts[i] ==> NamesOne(final.volumes, m)
  {
    var final := Run(pod, steps);
    RunKeeps(pod, steps);
    forall i, m | 0 <= i < |final.mounts| && m in final.mounts[i] ensures NamesOne(final.volumes, m) {
      OneVolume(final.volumes, m);
    }
  }

  // ---------------------------------------------------------------------------
  // Mount paths
  // ---------------------------------------------------------------------------

  lemma DistinctConcat(a: seq<Mount>, b: seq<Mount>)
    ensures DistinctPaths(a + b) <==> DistinctPaths(a) && DistinctPaths(b) && Paths(a) !! Paths(b)
  {
    if DistinctPaths(a + b) {
      forall i, j | 0 <= i < j < |a| ensures a[i].path != a[j].path {
        assert (a + b)[i].path != (a + b)[j].path;
      }
      forall i, j | 0 <= i < j < |b| ensures b[i].path != b[j].path {
        assert (a + b)[|a| + i].path != (a + b)[|a| + j].path;
      }
      forall p | p in Paths(a) ensures p !in Paths(b) {
        var i :| 0 <= i < |a| && a[i].path == p;
        forall j | 0 <= j < |b| ensures b[j].path != p {
          assert (a + b)[i].path != (a + b)[|a| + j].path;
        }
      }
    }
    if DistinctPaths(a) && DistinctPaths(b) && Paths(a) !! Paths(b) {
      forall i, j | 0 <= i < j < |a + b| ensures (a + b)[i].path != (a + b)[j].path {
        if i < |a| <= j {
          assert a[i].path in Paths(a) && b[j - |a|].path in Paths(b);
        }
      }
    }
  }

  lemma ReplacedDistinctIff(existing: seq<Mount>, requested: seq<Mount>)
    ensures DistinctPaths(ReplaceAll(existing, requested)) <==> DistinctPaths(existing)
    ensures Paths(ReplaceAll(existing, requested)) == Paths(existing)
  {
    var rep := ReplaceAll(existing, requested);
    assert forall i :: 0 <= i < |existing| ==> rep[i].path == existing[i].path;
    forall p ensures p in Paths(rep) <==> p in Paths(existing) {
      if p in Paths(existing) {
        var i :| 0 <= i < |existing| && existing[i].path == p;
        assert rep[i] in rep;
      }
    }
  }

  /** One mount step on one container: requested paths can only clash among themselves. */
  lemma RemountDistinctIff(existing: seq<Mount>, requested: seq<Mount>)
    ensures DistinctPaths(Remount(existing, requested)) <==>
            DistinctPaths(existing) && (Paths(existing) * Paths(requested) != {} || DistinctPaths(requested))
  {
    ReplacedDistinctIff(existing, requested);
    OverlapsIff(existing, requested);
    var rep := ReplaceAll(existing, requested);
    assert rep + [] == rep;
    DistinctConcat(rep, requested);
  }

  lemma {:induction false} RemountAtDistinctIff(mounts: seq<seq<Mount>>, targets: seq<nat>,
                                                requested: seq<Mount>, i: nat)
    requires InRange(targets, |mounts|) && i < |mounts|
    ensures var after := RemountAt(mounts, targets, requested)[i];
            && Paths(after) == Paths(mounts[i]) +
                 (if i in targets && Paths(mounts[i]) * Paths(requested) == {} then Paths(requested) else {})
            && (DistinctPaths(after) <==>
                && DistinctPaths(mounts[i])
                && (i !in targets || Paths(mounts[i]) * Paths(requested) != {} || DistinctPaths(requested)))
  {
    if targets != [] {
      var init, t := targets[..|targets| - 1], targets[|targets| - 1];
      RemountAtDistinctIff(mounts, init, requested, i);
      assert i in targets <==> i in init || i == t;
      if i == t {
        var mid := RemountAt(mounts, init, requested)[i];
        RemountPaths(mid, requested);
        RemountDistinctIff(mid, requested);
        NonEmptyPaths(requested);
      }
    }
  }

  /** How often a container is selected. */
  ghost function Times(targets: seq<nat>, i: nat): nat {
    multiset(targets)[i]
  }

  lemma TimesSnoc(targets: seq<nat>, i: nat)
    requires targets != []
    ensures var init, t := targets[..|targets| - 1], targets[|targets| - 1];
            Times(targets, i) == Times(init, i) + if i == t then 1 else 0
  {
    assert targets == targets[..|targets| - 1] + [targets[|targets| - 1]];
  }

  lemma {:induction false} AppendAtDistinctIff(mounts: seq<seq<Mount>>, targets: seq<nat>, m: Mount, i: nat)
    requires InRange(targets, |mounts|) && i < |mounts|
    ensures var after := AppendAt(mounts, targets, m)[i];
            && Paths(after) == Paths(mounts[i]) + (if Times(targets, i) > 0 then {m.path} else {})
            && (DistinctPaths(after) <==>
                && DistinctPaths(mounts[i])
                && (Times(targets, i) == 0 || (Times(targets, i) == 1 && m.path !in Paths(mounts[i]))))
  {
    if targets != [] {
      var init, t := targets[..|targets| - 1], targets[|targets| - 1];
      AppendAtDistinctIff(mounts, init, m, i);
      TimesSnoc(targets, i);
      if i == t {
        OneMoreMount(AppendAt(mounts, init, m)[i], m);
      }
    }
  }

  lemma OneMoreMount(ms: seq<Mount>, m: Mount)
    ensures Paths(ms + [m]) == Paths(ms) + {m.path}
    ensures DistinctPaths(ms + [m]) <==> DistinctPaths(ms) && m.path !in Paths(ms)
  {
    DistinctConcat(ms, [m]);
    assert Paths([m]) == {m.path};
  }

  /** The mounts that a file or app-config step asks for in container `i`. */
  ghost function Asked(pod: Pod, step: Step, i: nat): seq<Mount>
    requires Ready(pod)
  {
    match step
    case MountFiles(wanted, volume, mountPath, fileName, withSubPath, dataKeys) =>
      if i in Chosen(pod, wanted) then Requested(volume.name, mountPath, fileName, withSubPath, dataKeys) else []
    case AddPvc(_, _, _, _) => []
    case AppConfig(volume, mountPath, key, withSubPath, cmData) =>
      if |cmData| <= 1 && i == Backstage(pod) then Requested(volume.name, mountPath, key, withSubPath, cmData) else []
  }

  /** The paths taken in container `i` after a step, told by those before. A file
      step takes all its paths or none; `addPvc` always takes its path. */
  ghost function TakenNext(pod: Pod, taken: set<string>, step: Step, i: nat): set<string>
    requires Ready(pod)
  {
    var more := if !step.AddPvc? then Paths(Asked(pod, step, i))
                else if i in Chosen(pod, step.wanted) then {step.mountPath} else {};
    if step.AddPvc? || taken * more == {} then taken + more else taken
  }

  /** The paths taken in container `i` after a run, by the pod and the steps alone. */
  ghost function Taken(pod: Pod, steps: seq<Step>, i: nat): set<string>
    requires Ready(pod) && i < |pod.mounts|
  {
    if steps == [] then Paths(pod.mounts[i])
    else TakenNext(pod, Taken(pod, steps[..|steps| - 1], i), steps[|steps| - 1], i)
  }

  /** The step brings no second mount at a path to container `i`, whose paths are
      `taken`. A file step replaces what is at a taken path; `addPvc` appends
      without looking, once for each time that the container is named. */
  ghost predicate NoClash(pod: Pod, taken: set<string>, step: Step, i: nat)
    requires Ready(pod)
  {
    if step.AddPvc? then
      i in Chosen(pod, step.wanted) ==> Times(Chosen(pod, step.wanted), i) == 1 && step.mountPath !in taken
    else
      taken * Paths(Asked(pod, step, i)) != {} || DistinctPaths(Asked(pod, step, i))
  }

  /** No step of a run brings a second mount at a path to container `i`. */
  ghost predicate NoClashes(pod: Pod, steps: seq<Step>, i: nat)
    requires Ready(pod) && i < |pod.mounts|
  {
    steps != [] ==>
      var init, last := steps[..|steps| - 1], steps[|steps| - 1];
      NoClashes(pod, init, i) && NoClash(pod, Taken(pod, init, i), last, i)
  }

  lemma StepPaths(pod: Pod, step: Step, i: nat)
    requires Ready(pod) && i < |pod.mounts|
    ensures var taken, after := Paths(pod.mounts[i]), Apply(pod, step).pod.mounts[i];
            && Paths(after) == TakenNext(pod, taken, step, i)
            && (DistinctPaths(after) <==> DistinctPaths(pod.mounts[i]) && NoClash(pod, taken, step, i))
  {
    match step
    case MountFiles(wanted, volume, mountPath, fileName, withSubPath, dataKeys) =>
      FileStepPaths(pod, wanted, Requested(volume.name, mountPath, fileName, withSubPath, dataKeys), i);
    case AddPvc(wanted, volume, mountPath, subPath) =>
      TimesIff(Chosen(pod, wanted), i);
      AppendAtDistinctIff(pod.mounts, Chosen(pod, wanted), Mount(volume.name, mountPath, subPath, false), i);
    case AppConfig(volume, mountPath, key, withSubPath, cmData) =>
      if |cmData| <= 1 {
        FileStepPaths(pod, [], Requested(volume.name, mountPath, key, withSubPath, cmData), i);
      }
  }

  lemma FileStepPaths(pod: Pod, wanted: seq<string>, requested: seq<Mount>, i: nat)
    requires Ready(pod) && i < |pod.mounts|
    ensures var taken, after := Paths(pod.mounts[i]), RemountAt(pod.mounts, Chosen(pod, wanted), requested)[i];
            var asked := if i in Chosen(pod, wanted) then requested else [];
            && Paths(after) == (if taken * Paths(asked) == {} then taken + Paths(asked) else taken)
            && (DistinctPaths(after) <==>
                DistinctPaths(pod.mounts[i]) && (taken * Paths(asked) != {} || DistinctPaths(asked)))
  {
    RemountAtDistinctIff(pod.mounts, Chosen(pod, wanted), requested, i);
  }

  lemma TimesIff(targets: seq<nat>, i: nat)
    ensures Times(targets, i) > 0 <==> i in targets
  {
  }

  lemma AtMostOneRequested(volume: string, mountPath: string, key: string, withSubPath: bool, cmData: seq<string>)
    requires |cmData| <= 1
    ensures |Requested(volume, mountPath, key, withSubPath, cmData)| <= 1
  {
    if |cmData| == 1 {
      assert cmData[..0] == [];
      assert FileMounts(volume, mountPath, key, cmData[..0]) == [];
    }
  }

  /** Containers are the same at every point of a run, so are the choices. */
  lemma SameChoices(pod: Pod, mid: Pod, taken: set<string>, step: Step, i: nat)
    requires Ready(pod) && Ready(mid) && SameContainers(pod, mid)
    ensures Asked(mid, step, i) == Asked(pod, step, i)
    ensures TakenNext(mid, taken, step, i) == TakenNext(pod, taken, step, i)
    ensures NoClash(mid, taken, step, i) == NoClash(pod, taken, step, i)
  {
  }

  /** The exact set of mount paths of a container after a run. Paths are distinct
      if and only if they were before and no step brings a second mount at a taken
      path: what clashes once is never repaired. */
  lemma {:induction false} RunDistinctIff(pod: Pod, steps: seq<Step>, i: nat)
    requires Ready(pod) && i < |pod.mounts|
    ensures Paths(Run(pod, steps).mounts[i]) == Taken(pod, steps, i)
    ensures DistinctPaths(Run(pod, steps).mounts[i]) <==> DistinctPaths(pod.mounts[i]) && NoClashes(pod, steps, i)
  {
    if steps != [] {
      var init, last := steps[..|steps| - 1], steps[|steps| - 1];
      var mid := Run(pod, init);
      RunDistinctIff(pod, init, i);
      StepPaths(mid, last, i);
      SameChoices(pod, mid, Taken(pod, init, i), last, i);
    }
  }

  /** Two PVCs at one path: the container gets two mounts there. */
  lemma PvcAtTakenPath(v: Volume, w: Volume)
    ensures var pod := Pod([], [BACKSTAGE], 1, [[]], [[]]);
            var steps := [AddPvc([], v, "/data", ""), AddPvc([], w, "/data", "")];
            Ready(pod) && DistinctPaths(pod.mounts[0]) && !DistinctPaths(Run(pod, steps).mounts[0])
  {
    var pod := Pod([], [BACKSTAGE], 1, [[]], [[]]);
    var s, t := AddPvc([], v, "/data", ""), AddPvc([], w, "/data", "");
    assert pod.names[..1] == [BACKSTAGE];
    assert Chosen(pod, []) == [0];
    assert [s, t][..1] == [s] && [s][..0] == [];
    assert "/data" in Taken(pod, [s], 0);
    assert !NoClash(pod, Taken(pod, [s], 0), t, 0);
    RunDistinctIff(pod, [s, t], 0);
  }

  /** App-configs and files with distinct ordinary keys never clash, so that only PVCs can. */
  lemma FilesNeverClash(pod: Pod, taken: set<string>, step: Step, i: nat)
    requires Ready(pod) && !step.AddPvc?
    requires step.MountFiles? ==> forall k, l :: 0 <= k < l < |step.dataKeys| ==> step.dataKeys[k] != step.dataKeys[l]
    requires step.MountFiles? ==> forall k :: k in step.dataKeys ==> IsKey(k)
    ensures NoClash(pod, taken, step, i)
  {
    if step.MountFiles? {
      RequestedDistinct(step.volume.name, step.mountPath, step.fileName, step.withSubPath, step.dataKeys);
    } else if |step.cmData| <= 1 {
      AtMostOneRequested(step.volume.name, step.mountPath, step.key, step.withSubPath, step.cmData);
    }
  }
}
