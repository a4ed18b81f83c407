/** Which volume serves a mount path after a sequence of assembly steps
    (pkg/model/deployment.go, pkg/model/appconfig.go). */
module PodServed {
  import opened GoStrings
  import opened GoPath
  import opened Mounts
  import opened Pods
  import opened PodClashes

  /** The mount that a file or app-config step asks for at a path of container `i`. */
  ghost function AskedAt(pod: Pod, step: Step, i: nat, path: string): Option<Mount>
    requires Ready(pod)
  {
    Match(Asked(pod, step, i), path)
  }

  /** The mount that the last step from position `n` on asks for at a path. */
  ghost function LastAsked(pod: Pod, steps: seq<Step>, n: nat, i: nat, path: string): Option<Mount>
    requires Ready(pod)
  {
    if |steps| <= n then None
    else
      var asked := AskedAt(pod, steps[|steps| - 1], i, path);
      if asked.Some? then asked else LastAsked(pod, steps[..|steps| - 1], n, i, path)
  }

  // ---------------------------------------------------------------------------
  // One step
  // ---------------------------------------------------------------------------

  lemma {:induction false} MatchTaken(ms: seq<Mount>, path: string)
    ensures Match(ms, path).Some? <==> path in Paths(ms)
  {
    if path in Paths(ms) {
      var m :| m in ms && m.path == path;
    }
  }

  lemma {:induction false} MatchConcat(a: seq<Mount>, b: seq<Mount>, path: string)
    ensures Match(a + b, path) == if Match(a, path).Some? then Match(a, path) else Match(b, path)
  {
    if a == [] {
      assert a + b == b;
    } else if a[0].path != path {
      assert (a + b)[1..] == a[1..] + b;
      MatchConcat(a[1..], b, path);
    }
  }

  lemma {:induction false} MatchReplaced(existing: seq<Mount>, requested: seq<Mount>, path: string)
    ensures Match(ReplaceAll(existing, requested), path) ==
            if Match(existing, path).Some? && Match(requested, path).Some? then Match(requested, path)
            else Match(existing, path)
  {
    if existing != [] {
      ReplacedPath(existing[0], requested);
      assert ReplaceAll(existing, requested)[1..] == ReplaceAll(existing[1..], requested);
      MatchReplaced(existing[1..], requested, path);
    }
  }

  /** At a taken path, a mount step leaves the requested mount, or what was there. */
  lemma MatchRemount(existing: seq<Mount>, requested: seq<Mount>, path: string)
    requires path in Paths(existing)
    ensures Match(Remount(existing, requested), path) ==
            if Match(requested, path).Some? then Match(requested, path) else Match(existing, path)
  {
    MatchTaken(existing, path);
    MatchReplaced(existing, requested, path);
    MatchConcat(ReplaceAll(existing, requested), if Overlaps(existing, requested) then [] else requested, path);
  }

  lemma {:induction false} MatchRemountAt(mounts: seq<seq<Mount>>, targets: seq<nat>, requested: seq<Mount>,
                                          i: nat, path: string)
    requires InRange(targets, |mounts|) && i < |mounts| && path in Paths(mounts[i])
    ensures var after := RemountAt(mounts, targets, requested)[i];
            && path in Paths(after)
            && Match(after, path) ==
               if i in targets && Match(requested, path).Some? then Match(requested, path) else Match(mounts[i], path)
  {
    if targets != [] {
      var init, t := targets[..|targets| - 1], targets[|targets| - 1];
      MatchRemountAt(mounts, init, requested, i, path);
      assert i in targets <==> i in init || i == t;
      if i == t {
        var mid := RemountAt(mounts, init, requested)[i];
        RemountPaths(mid, requested);
        MatchRemount(mid, requested, path);
      }
    }
  }

  lemma {:induction false} MatchAppendAt(mounts: seq<seq<Mount>>, targets: seq<nat>, m: Mount, i: nat, path: string)
    requires InRange(targets, |mounts|) && i < |mounts| && Match(mounts[i], path).Some?
    ensures Match(AppendAt(mounts, targets, m)[i], path) == Match(mounts[i], path)
  {
    if targets != [] {
      var init, t := targets[..|targets| - 1], targets[|targets| - 1];
      MatchAppendAt(mounts, init, m, i, path);
      if i == t {
        MatchConcat(AppendAt(mounts, init, m)[i], [m], path);
      }
    }
  }

  /** At a taken path, a step leaves the mount it asks for, or what was there. */
  lemma StepServes(pod: Pod, step: Step, i: nat, path: string)
    requires Ready(pod) && i < |pod.mounts| && path in Paths(pod.mounts[i])
    ensures Match(Apply(pod, step).pod.mounts[i], path) ==
            if AskedAt(pod, step, i, path).Some? then AskedAt(pod, step, i, path) else Match(pod.mounts[i], path)
  {
    match step
    case MountFiles(wanted, volume, mountPath, fileName, withSubPath, dataKeys) =>
      FileStepServes(pod, wanted, Requested(volume.name, mountPath, fileName, withSubPath, dataKeys), i, path);
    case AddPvc(wanted, volume, mountPath, subPath) =>
      MatchTaken(pod.mounts[i], path);
      MatchAppendAt(pod.mounts, Chosen(pod, wanted), Mount(volume.name, mountPath, subPath, false), i, path);
    case AppConfig(volume, mountPath, key, withSubPath, cmData) =>
      FileStepServes(pod, [], Requested(volume.name, mountPath, key, withSubPath, cmData), i, path);
  }

  lemma FileStepServes(pod: Pod, wanted: seq<string>, requested: seq<Mount>, i: nat, path: string)
    requires Ready(pod) && i < |pod.mounts| && path in Paths(pod.mounts[i])
    ensures var asked := if i in Chosen(pod, wanted) then requested else [];
            Match(RemountAt(pod.mounts, Chosen(pod, wanted), requested)[i], path) ==
            if Match(asked, path).Some? then Match(asked, path) else Match(pod.mounts[i], path)
  {
    MatchRemountAt(pod.mounts, Chosen(pod, wanted), requested, i, path);
  }

  // ---------------------------------------------------------------------------
  // Every run
  // ---------------------------------------------------------------------------

  /** A path that is taken after the first `n` steps is served, in the end, by the
      mount of the last later step that asks for it, or by the one that was there. */
  lemma {:induction false} LastAskedServes(pod: Pod, steps: seq<Step>, n: nat, i: nat, path: string)
    requires Ready(pod) && i < |pod.mounts| && n <= |steps| && path in Paths(Run(pod, steps[..n]).mounts[i])
    ensures path in Paths(Run(pod, steps).mounts[i])
    ensures Match(Run(pod, steps).mounts[i], path) ==
            if LastAsked(pod, steps, n, i, path).Some? then LastAsked(pod, steps, n, i, path)
            else Match(Run(pod, steps[..n]).mounts[i], path)
  {
    if n == |steps| {
      assert steps[..n] == steps;
    } else {
      var init, last := steps[..|steps| - 1], steps[|steps| - 1];
      assert init[..n] == steps[..n];
      LastAskedServes(pod, init, n, i, path);
      var mid := Run(pod, init);
      StepServes(mid, last, i, path);
      StepPaths(mid, last, i);
      SameChoices(pod, mid, {}, last, i);
    }
  }

  /** The one mount of an app-config step for its file. */
  ghost function FileMount(step: Step, file: string): Mount
    requires step.AppConfig?
  {
    if step.withSubPath then Mount(step.volume.name, Join(step.mountPath, file), file, true)
    else Mount(step.volume.name, step.mountPath, "", false)
  }

  /** The step puts exactly this file on the command line. */
  predicate Offers(step: Step, file: string) {
    step.AppConfig? && step.cmData == [file] && (step.key == "" || step.key == file)
  }

  lemma OfferedMount(pod: Pod, step: Step, file: string)
    requires Ready(pod) && Offers(step, file)
    ensures Asked(pod, step, Backstage(pod)) == [FileMount(step, file)]
  {
    assert [file][..0] == [];
    assert FileMounts(step.volume.name, step.mountPath, step.key, []) == [];
  }

  lemma AfterOffer(pod: Pod, step: Step, file: string)
    requires Ready(pod) && Offers(step, file)
    ensures var m, after := FileMount(step, file), Apply(pod, step).pod.mounts[Backstage(pod)];
            m.path in Paths(after) && Match(after, m.path) == Some(m)
  {
    var b, m := Backstage(pod), FileMount(step, file);
    OfferedMount(pod, step, file);
    AppConfigRemounts(pod, step.volume, step.mountPath, step.key, step.withSubPath, step.cmData);
    assert Apply(pod, step).pod.mounts[b] == Remount(pod.mounts[b], [m]);
    MatchOne(pod.mounts[b], m);
    MatchTaken(Remount(pod.mounts[b], [m]), m.path);
  }

  /** The mount that serves an app-config file in the end: the step's own, unless a
      later step asks for the same path; then the last such step's. So the file
      comes from the step's own volume if and only if no later step asks for the
      path, or the last one that does uses a volume of the same name. */
  lemma AppConfigServedIff(pod: Pod, steps: seq<Step>, n: nat, file: string)
    requires Ready(pod) && n < |steps| && Offers(steps[n], file)
    ensures var b, m := Backstage(pod), FileMount(steps[n], file);
            var later, served := LastAsked(pod, steps, n + 1, b, m.path), Match(Run(pod, steps).mounts[b], m.path);
            && served == (if later.Some? then later else Some(m))
            && (served.value.volume == steps[n].volume.name <==>
                later.None? || later.value.volume == steps[n].volume.name)
  {
    var b, m := Backstage(pod), FileMount(steps[n], file);
    var mid := Run(pod, steps[..n]);
    assert steps[..n + 1][..n] == steps[..n];
    assert Run(pod, steps[..n + 1]) == Apply(mid, steps[n]).pod;
    AfterOffer(mid, steps[n], file);
    assert Backstage(mid) == b;
    LastAskedServes(pod, steps, n + 1, b, m.path);
  }

  /** A file step without keys mounts one thing: the directory, or the named file
      read-only under its own name. */
  lemma OneMountServes(pod: Pod, wanted: seq<string>, volume: Volume, mountPath: string, fileName: string,
                       withSubPath: bool, i: nat)
    requires Ready(pod) && i in Chosen(pod, wanted)
    ensures var after := Mounted(pod, wanted, volume, mountPath, fileName, withSubPath, []).pod.mounts[i];
            var m := if withSubPath then Mount(volume.name, Join(mountPath, fileName), fileName, true)
                     else Mount(volume.name, mountPath, "", false);
            Match(after, m.path) == Some(m)
  {
    var m := if withSubPath then Mount(volume.name, Join(mountPath, fileName), fileName, true)
             else Mount(volume.name, mountPath, "", false);
    OneRequestServes(pod.mounts, Chosen(pod, wanted), m, i);
  }

  lemma {:induction false} OneRequestServes(mounts: seq<seq<Mount>>, targets: seq<nat>, m: Mount, i: nat)
    requires InRange(targets, |mounts|) && i in targets
    ensures Match(RemountAt(mounts, targets, [m])[i], m.path) == Some(m)
  {
    var init, t := targets[..|targets| - 1], targets[|targets| - 1];
    if i != t {
      assert i in init;
      OneRequestServes(mounts, init, m, i);
    } else {
      MatchOne(RemountAt(mounts, init, [m])[i], m);
    }
  }

  lemma {:induction false} MatchOne(existing: seq<Mount>, m: Mount)
    ensures Match(Remount(existing, [m]), m.path) == Some(m)
  {
    MatchConcat(ReplaceAll(existing, [m]), if Overlaps(existing, [m]) then [] else [m], m.path);
    MatchReplaced(existing, [m], m.path);
    MatchTaken(existing, m.path);
    OverlapsIff(existing, [m]);
    assert m in [m] && m.path in Paths([m]) && forall p :: p in Paths([m]) ==> p == m.path;
  }

  /** A PVC is mounted at its path, with its sub-path and writable, behind the other mounts. */
  lemma PvcIsMounted(pod: Pod, wanted: seq<string>, volume: Volume, mountPath: string, subPath: string, i: nat)
    requires Ready(pod) && i < |pod.mounts|
    ensures var after := WithPvc(pod, wanted, volume, mountPath, subPath).pod.mounts[i];
            && pod.mounts[i] <= after && |after| == |pod.mounts[i]| + Times(Chosen(pod, wanted), i)
            && forall n :: |pod.mounts[i]| <= n < |after| ==> after[n] == Mount(volume.name, mountPath, subPath, false)
  {
    AppendedMounts(pod.mounts, Chosen(pod, wanted), Mount(volume.name, mountPath, subPath, false), i);
  }

  lemma {:induction false} AppendedMounts(mounts: seq<seq<Mount>>, targets: seq<nat>, m: Mount, i: nat)
    requires InRange(targets, |mounts|) && i < |mounts|
    ensures var after := AppendAt(mounts, targets, m)[i];
            && mounts[i] <= after && |after| == |mounts[i]| + Times(targets, i)
            && forall n :: |mounts[i]| <= n < |after| ==> after[n] == m
  {
    if targets != [] {
      AppendedMounts(mounts, targets[..|targets| - 1], m, i);
      TimesSnoc(targets, i);
    }
  }

  /** Two app-configs with the same key in the same directory: the file is on the
      command line twice, and both times it is the second one's. */
  lemma SameKeyServesSecond(pod: Pod, v: Volume, w: Volume, mountPath: string, file: string)
    requires Ready(pod)
    ensures var steps := [AppConfig(v, mountPath, "", true, [file]), AppConfig(w, mountPath, "", true, [file])];
            var x, served := Join(mountPath, file), Run(pod, steps).mounts[Backstage(pod)];
            AppendedFiles(steps) == [x, x] && Match(served, x) == Some(Mount(w.name, x, file, true))
  {
    var s, t := AppConfig(v, mountPath, "", true, [file]), AppConfig(w, mountPath, "", true, [file]);
    OneFile(s, file);
    OneFile(t, file);
    FilesOfTwo(s, t);
    assert LastAsked(pod, [s, t], 2, Backstage(pod), Join(mountPath, file)) == None;
    AppConfigServedIff(pod, [s, t], 1, file);
  }

  lemma OneFile(step: Step, file: string)
    requires Offers(step, file)
    ensures StepFiles(step) == [Join(step.mountPath, file)]
  {
    assert [file][..0] == [];
    assert ConfigFiles(step.mountPath, step.key, []) == [];
  }

  lemma FilesOfTwo(s: Step, t: Step)
    ensures AppendedFiles([s, t]) == StepFiles(s) + StepFiles(t)
  {
    assert [s, t][..1] == [s] && [s][..0] == [];
    assert AppendedFiles([s]) == [] + StepFiles(s);
  }
}
