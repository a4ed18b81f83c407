/** Labelling of a shared external ConfigMap or Secret by any number of
    concurrent reconciles (`addExtConfig`, internal/controller/spec_preprocessor.go),
    as a state machine over the object's versions. */
module ExtConfigProtocol {

  /** `retry.DefaultRetry` of client-go makes this many attempts. */
  const RETRY_STEPS := 5

  /** What the protocol looks at: the sync label, the CR-name annotation, and the content. */
  datatype Object = Object(syncLabel: string, annotation: string, data: string)

  /** A call of `addExtConfig`: before a read, holding the version it read, or
      finished (`ok` is false after an error or too many conflicts). */
  datatype Phase = Reading(attempt: nat) | Holding(attempt: nat, version: nat) | Done(ok: bool)

  datatype Call = Call(cr: string, phase: Phase)

  /** `versions` are all versions the object ever had, the last one is current.
      `updates` lists the CRs whose update succeeded, in order. */
  datatype State = State(versions: seq<Object>, calls: map<nat, Call>, updates: seq<string>)

  datatype Action =
    | Start(id: nat, cr: string)        // a reconcile enters addExtConfig
    | Get(id: nat, version: nat)        // it reads the object, possibly a stale version
    | GetError(id: nat)                 // the read fails
    | Finish(id: nat)                   // nothing to update
    | Update(id: nat)                   // version-checked update
    | UpdateError(id: nat)              // the update fails for a reason other than a conflict
    | Edit(data: string)                // somebody else changes the content

  /** The guard of the update: the label or the annotation is missing, or the
      label differs from the current auto-sync setting. */
  predicate NeedsUpdate(o: Object, autoSync: string) {
    o.syncLabel == "" || o.annotation == "" || o.syncLabel != autoSync
  }

  function Current(s: State): Object
    requires s.versions != []
  {
    s.versions[|s.versions| - 1]
  }

  function SetPhase(s: State, id: nat, phase: Phase): State
    requires id in s.calls
  {
    s.(calls := s.calls[id := s.calls[id].(phase := phase)])
  }

  /** One step. An action that is not possible in the state changes nothing. */
  function Step(s: State, a: Action, autoSync: string): (r: State)
    requires s.versions != []
    ensures r.versions != []
  {
    match a
    case Start(id, cr) =>
      if id in s.calls || cr == "" then s else s.(calls := s.calls[id := Call(cr, Reading(0))])
    case Get(id, version) =>
      if id in s.calls && s.calls[id].phase.Reading? && version < |s.versions|
      then SetPhase(s, id, Holding(s.calls[id].phase.attempt, version)) else s
    case GetError(id) =>
      if id in s.calls && s.calls[id].phase.Reading? then SetPhase(s, id, Done(false)) else s
    case Finish(id) =>
      if CanWrite(s, id) && !NeedsUpdate(Held(s, id), autoSync) then SetPhase(s, id, Done(true)) else s
    case UpdateError(id) =>
      if CanWrite(s, id) && NeedsUpdate(Held(s, id), autoSync) then SetPhase(s, id, Done(false)) else s
    case Update(id) =>
      if CanWrite(s, id) && NeedsUpdate(Held(s, id), autoSync) then Write(s, id, autoSync) else s
    case Edit(data) =>
      s.(versions := s.versions + [Current(s).(data := data)])
  }

  predicate CanWrite(s: State, id: nat) {
    id in s.calls && s.calls[id].phase.Holding? && s.calls[id].phase.version < |s.versions|
  }

  /** The version that a call has read. */
  function Held(s: State, id: nat): Object
    requires CanWrite(s, id)
  {
    s.versions[s.calls[id].phase.version]
  }

  /** The API server accepts the update only for the current version; otherwise
      the call reads again, unless it has used up its attempts. */
  function Write(s: State, id: nat, autoSync: string): State
    requires CanWrite(s, id)
  {
    var Call(cr, Holding(attempt, version)) := s.calls[id];
    if version == |s.versions| - 1 then
      var written := s.versions[version].(syncLabel := autoSync, annotation := cr);
      SetPhase(s.(versions := s.versions + [written], updates := s.updates + [cr]), id, Done(true))
    else if attempt + 1 < RETRY_STEPS then SetPhase(s, id, Reading(attempt + 1))
    else SetPhase(s, id, Done(false))
  }

  function Initial(o: Object): State {
    State([o], map[], [])
  }

  function Run(o: Object, actions: seq<Action>, autoSync: string): (r: State)
    ensures r.versions != []
  {
    if actions == [] then Initial(o)
    else Step(Run(o, actions[..|actions| - 1], autoSync), actions[|actions| - 1], autoSync)
  }

  // ---------------------------------------------------------------------------
  // Safety over every interleaving
  // ---------------------------------------------------------------------------

  /** The version carries the label and the annotation of the object it started from. */
  ghost predicate SameTags(o: Object, p: Object) {
    o.syncLabel == p.syncLabel && o.annotation == p.annotation
  }

  /** Every version up to the first update carries the original tags, every later
      one the auto-sync label and the first writer's name. */
  ghost predicate Inv(o: Object, s: State, autoSync: string) {
    && s.versions != []
    && (forall id :: id in s.calls ==> s.calls[id].cr != "")
    && match |s.updates|
       case 0 => forall i :: 0 <= i < |s.versions| ==> SameTags(s.versions[i], o)
       case 1 =>
         && s.updates[0] != "" && NeedsUpdate(o, autoSync)
         && SameTags(Current(s), Object(autoSync, s.updates[0], ""))
         && forall i :: 0 <= i < |s.versions| ==>
              SameTags(s.versions[i], o) || SameTags(s.versions[i], Object(autoSync, s.updates[0], ""))
       case _ => false
  }

  lemma StepKeepsInv(o: Object, s: State, a: Action, autoSync: string)
    requires Inv(o, s, autoSync) && autoSync != ""
    ensures Inv(o, Step(s, a, autoSync), autoSync)
  {
  }

  lemma {:induction false} RunKeepsInv(o: Object, actions: seq<Action>, autoSync: string)
    requires autoSync != ""
    ensures Inv(o, Run(o, actions, autoSync), autoSync)
  {
    if actions != [] {
      RunKeepsInv(o, actions[..|actions| - 1], autoSync);
      StepKeepsInv(o, Run(o, actions[..|actions| - 1], autoSync), actions[|actions| - 1], autoSync);
    }
  }

  /** Under every interleaving of any number of calls, with stale or fresh reads,
      conflicts, errors and outside changes of the content, at most one operator
      update succeeds, none if the object was tagged already; and once one has,
      its CR's name stays in the annotation of the current version. */
  lemma AtMostOneUpdate(o: Object, actions: seq<Action>, autoSync: string)
    requires autoSync != ""
    ensures var s := Run(o, actions, autoSync);
            && |s.updates| <= 1
            && (!NeedsUpdate(o, autoSync) ==> s.updates == [])
            && (s.updates == [] ==> SameTags(Current(s), o))
            && (s.updates != [] ==> Current(s).annotation == s.updates[0] && Current(s).syncLabel == autoSync)
  {
    RunKeepsInv(o, actions, autoSync);
  }

  lemma StepExtends(s: State, a: Action, autoSync: string)
    requires s.versions != []
    ensures s.versions <= Step(s, a, autoSync).versions && s.updates <= Step(s, a, autoSync).updates
  {
  }

  /** A run only extends what a shorter run did: versions and the list of updates
      are append-only, so the first writer is the only one for ever. */
  lemma {:induction false} RunExtends(o: Object, actions: seq<Action>, n: nat, autoSync: string)
    requires n <= |actions|
    ensures Run(o, actions[..n], autoSync).versions <= Run(o, actions, autoSync).versions
    ensures Run(o, actions[..n], autoSync).updates <= Run(o, actions, autoSync).updates
  {
    if n == |actions| {
      assert actions[..n] == actions;
    } else {
      var init := actions[..|actions| - 1];
      assert init[..n] == actions[..n];
      RunExtends(o, init, n, autoSync);
      StepExtends(Run(o, init, autoSync), actions[|actions| - 1], autoSync);
    }
  }

  lemma FirstWriterStays(o: Object, actions: seq<Action>, n: nat, autoSync: string)
    requires n <= |actions| && autoSync != "" && Run(o, actions[..n], autoSync).updates != []
    ensures Run(o, actions, autoSync).updates == Run(o, actions[..n], autoSync).updates
    ensures Current(Run(o, actions, autoSync)).annotation == Run(o, actions[..n], autoSync).updates[0]
  {
    RunExtends(o, actions, n, autoSync);
    AtMostOneUpdate(o, actions, autoSync);
    AtMostOneUpdate(o, actions[..n], autoSync);
  }

  /** A call that ended without an error leaves the object tagged: the current
      version has the auto-sync label and names a CR. */
  lemma {:induction false} CompletedMeansTagged(o: Object, actions: seq<Action>, autoSync: string, id: nat)
    requires autoSync != "" && var s := Run(o, actions, autoSync); id in s.calls && s.calls[id].phase == Done(true)
    ensures var c := Current(Run(o, actions, autoSync)); c.syncLabel == autoSync && c.annotation != ""
  {
    if actions != [] {
      var init, last := actions[..|actions| - 1], actions[|actions| - 1];
      var before := Run(o, init, autoSync);
      RunKeepsInv(o, init, autoSync);
      RunKeepsInv(o, actions, autoSync);
      if id in before.calls && before.calls[id].phase == Done(true) {
        CompletedMeansTagged(o, init, autoSync, id);
        TagsAreKept(o, before, last, autoSync);
      } else if last.Finish? {
        assert SameTags(Current(before), before.versions[before.calls[id].phase.version]) || before.updates != [];
      }
    }
  }

  lemma TagsAreKept(o: Object, s: State, a: Action, autoSync: string)
    requires Inv(o, s, autoSync) && autoSync != "" && !NeedsUpdate(Current(s), autoSync)
    ensures !NeedsUpdate(Current(Step(s, a, autoSync)), autoSync)
  {
  }

  // ---------------------------------------------------------------------------
  // Content
  // ---------------------------------------------------------------------------

  /** The content that the last outside change wrote, or the original one. */
  function LastEdit(o: Object, actions: seq<Action>): string {
    if actions == [] then o.data
    else if actions[|actions| - 1].Edit? then actions[|actions| - 1].data
    else LastEdit(o, actions[..|actions| - 1])
  }

  lemma StepData(s: State, a: Action, autoSync: string)
    requires s.versions != []
    ensures Current(Step(s, a, autoSync)).data == if a.Edit? then a.data else Current(s).data
  {
  }

  /** Although an update writes the whole object it read, the version check
      makes sure that no outside change is lost. */
  lemma {:induction false} NoLostEdit(o: Object, actions: seq<Action>, autoSync: string)
    ensures Current(Run(o, actions, autoSync)).data == LastEdit(o, actions)
  {
    if actions != [] {
      NoLostEdit(o, actions[..|actions| - 1], autoSync);
      StepData(Run(o, actions[..|actions| - 1], autoSync), actions[|actions| - 1], autoSync);
    }
  }

  // ---------------------------------------------------------------------------
  // Termination of the retry loop
  // ---------------------------------------------------------------------------

  /** Every read of the run sees the current version, and nobody else changes the object. */
  ghost predicate FreshAndAlone(o: Object, actions: seq<Action>, autoSync: string)
    decreases |actions|
  {
    actions != [] ==>
      var init, last := actions[..|actions| - 1], actions[|actions| - 1];
      && FreshAndAlone(o, init, autoSync)
      && !last.Edit?
      && (last.Get? ==> last.version == |Run(o, init, autoSync).versions| - 1)
  }

  /** A call in its second attempt has seen, or will see, a tagged object. */
  ghost predicate SecondAttemptIsLast(s: State, autoSync: string) {
    && |s.versions| == 1 + |s.updates|
    && forall id :: id in s.calls ==>
         match s.calls[id].phase
         case Reading(attempt) => attempt == 0 || (attempt == 1 && s.updates != [])
         case Holding(attempt, version) =>
           version < |s.versions| && (attempt == 0 || (attempt == 1 && !NeedsUpdate(s.versions[version], autoSync)))
         case Done(_) => true
  }

  /** With fresh reads and no outside changes every call ends within two
      attempts: a second attempt has nothing to update and cannot conflict. */
  lemma {:induction false} TwoAttempts(o: Object, actions: seq<Action>, autoSync: string)
    requires autoSync != "" && FreshAndAlone(o, actions, autoSync)
    ensures SecondAttemptIsLast(Run(o, actions, autoSync), autoSync)
  {
    if actions != [] {
      var init, last := actions[..|actions| - 1], actions[|actions| - 1];
      TwoAttempts(o, init, autoSync);
      RunKeepsInv(o, init, autoSync);
      TwoAttemptsStep(o, Run(o, init, autoSync), last, autoSync);
    }
  }

  lemma TwoAttemptsStep(o: Object, s: State, a: Action, autoSync: string)
    requires autoSync != "" && Inv(o, s, autoSync) && SecondAttemptIsLast(s, autoSync)
    requires !a.Edit? && (a.Get? ==> a.version == |s.versions| - 1)
    ensures SecondAttemptIsLast(Step(s, a, autoSync), autoSync)
  {
  }

  // ---------------------------------------------------------------------------
  // Conflicts are retried
  // ---------------------------------------------------------------------------

  /** The action is an update of the call that the API server refuses as a conflict. */
  predicate IsConflict(s: State, a: Action, id: nat, autoSync: string) {
    && a == Update(id) && CanWrite(s, id) && NeedsUpdate(Held(s, id), autoSync)
    && s.calls[id].phase.version + 1 < |s.versions|
  }

  /** A conflict changes no version and records no update; the call reads again,
      up to its fifth attempt. */
  lemma ConflictRetries(s: State, id: nat, autoSync: string)
    requires s.versions != [] && IsConflict(s, Update(id), id, autoSync)
    ensures var t, attempt := Step(s, Update(id), autoSync), s.calls[id].phase.attempt;
            && t.versions == s.versions && t.updates == s.updates && t.calls.Keys == s.calls.Keys
            && t.calls[id] == Call(s.calls[id].cr, if attempt < 4 then Reading(attempt + 1) else Done(false))
            && forall other :: other in s.calls && other != id ==> t.calls[other] == s.calls[other]
  {
  }

  /** An update of the current version writes the label and the CR's name, keeps
      the content, and ends the call. */
  lemma UpdateWrites(s: State, id: nat, autoSync: string)
    requires s.versions != [] && CanWrite(s, id) && NeedsUpdate(Held(s, id), autoSync)
    requires s.calls[id].phase.version == |s.versions| - 1
    ensures var t, cr := Step(s, Update(id), autoSync), s.calls[id].cr;
            && t.versions == s.versions + [Object(autoSync, cr, Current(s).data)]
            && t.updates == s.updates + [cr] && t.calls == s.calls[id := Call(cr, Done(true))]
  {
  }

  /** A read may see any version so far, and the call then holds that one; errors end the call. */
  lemma ReadsAndErrors(s: State, id: nat, version: nat, autoSync: string)
    requires s.versions != [] && id in s.calls && s.calls[id].phase.Reading? && version < |s.versions|
    ensures var cr, attempt := s.calls[id].cr, s.calls[id].phase.attempt;
            var t := Step(s, Get(id, version), autoSync);
            && t == s.(calls := s.calls[id := Call(cr, Holding(attempt, version))])
            && Step(s, GetError(id), autoSync) == s.(calls := s.calls[id := Call(cr, Done(false))])
            && (if NeedsUpdate(s.versions[version], autoSync)
                then Step(t, UpdateError(id), autoSync) == s.(calls := s.calls[id := Call(cr, Done(false))])
                else Step(t, Finish(id), autoSync) == s.(calls := s.calls[id := Call(cr, Done(true))]))
  {
    var cr, attempt := s.calls[id].cr, s.calls[id].phase.attempt;
    var t := Step(s, Get(id, version), autoSync);
    assert t.calls == s.calls[id := Call(cr, Holding(attempt, version))];
    assert t.calls[id := Call(cr, Done(true))] == s.calls[id := Call(cr, Done(true))];
    assert t.calls[id := Call(cr, Done(false))] == s.calls[id := Call(cr, Done(false))];
  }

  /** How many conflicts a call met in a run. */
  ghost function Conflicts(o: Object, actions: seq<Action>, id: nat, autoSync: string): nat {
    if actions == [] then 0
    else
      var init, last := actions[..|actions| - 1], actions[|actions| - 1];
      Conflicts(o, init, id, autoSync) + if IsConflict(Run(o, init, autoSync), last, id, autoSync) then 1 else 0
  }

  ghost predicate NoErrors(actions: seq<Action>, id: nat) {
    GetError(id) !in actions && UpdateError(id) !in actions
  }

  /** The attempts of a call are its conflicts, and without other errors a call fails
      exactly at its fifth conflict. */
  ghost predicate AttemptsAreConflicts(s: State, id: nat, conflicts: nat) {
    if id !in s.calls then conflicts == 0
    else
      match s.calls[id].phase
      case Reading(attempt) => attempt == conflicts < 5
      case Holding(attempt, version) => attempt == conflicts < 5 && version < |s.versions|
      case Done(ok) => if ok then conflicts < 5 else conflicts == 5
  }

  lemma AttemptsStep(s: State, a: Action, id: nat, autoSync: string, conflicts: nat)
    requires s.versions != [] && AttemptsAreConflicts(s, id, conflicts)
    requires a != GetError(id) && a != UpdateError(id)
    ensures AttemptsAreConflicts(Step(s, a, autoSync), id, conflicts + if IsConflict(s, a, id, autoSync) then 1 else 0)
  {
  }

  /** Without read and update errors a call ends with an error if and only if it
      met five conflicts; before that it goes on. */
  lemma {:induction false} FiveConflictsFail(o: Object, actions: seq<Action>, id: nat, autoSync: string)
    requires NoErrors(actions, id)
    ensures AttemptsAreConflicts(Run(o, actions, autoSync), id, Conflicts(o, actions, id, autoSync))
  {
    if actions != [] {
      var init, last := actions[..|actions| - 1], actions[|actions| - 1];
      assert last in actions && forall a :: a in init ==> a in actions;
      FiveConflictsFail(o, init, id, autoSync);
      AttemptsStep(Run(o, init, autoSync), last, id, autoSync, Conflicts(o, init, id, autoSync));
    }
  }

  /** With fresh reads, no outside changes and no errors no call ever fails. */
  lemma NeverFails(o: Object, actions: seq<Action>, id: nat, autoSync: string)
    requires autoSync != "" && FreshAndAlone(o, actions, autoSync) && NoErrors(actions, id)
    ensures id in Run(o, actions, autoSync).calls ==> Run(o, actions, autoSync).calls[id].phase != Done(false)
  {
    FiveConflictsFail(o, actions, id, autoSync);
    FewConflicts(o, actions, id, autoSync);
  }

  lemma {:induction false} FewConflicts(o: Object, actions: seq<Action>, id: nat, autoSync: string)
    requires autoSync != "" && FreshAndAlone(o, actions, autoSync) && NoErrors(actions, id)
    ensures Conflicts(o, actions, id, autoSync) <= 1
  {
    if actions != [] {
      var init, last := actions[..|actions| - 1], actions[|actions| - 1];
      assert last in actions && forall a :: a in init ==> a in actions;
      FewConflicts(o, init, id, autoSync);
      FiveConflictsFail(o, init, id, autoSync);
      TwoAttempts(o, init, autoSync);
      var s := Run(o, init, autoSync);
      if IsConflict(s, last, id, autoSync) {
        assert s.calls[id].phase.attempt == 0;
      }
    }
  }

  /** A fresh, undisturbed call by `cr` while the auto-sync setting is `autoSync`. */
  function Reconcile(s: State, id: nat, cr: string, autoSync: string): (r: State)
    requires s.versions != []
    ensures r.versions != []
  {
    var held := Step(Step(s, Start(id, cr), autoSync), Get(id, |s.versions| - 1), autoSync);
    Step(Step(held, Update(id), autoSync), Finish(id), autoSync)
  }

  /** The setting may change between two operator runs. On an object that is
      tagged already, another CR's call keeps the annotation and makes no update
      if and only if the label equals the setting of that moment; otherwise the
      CR overwrites the annotation. Either way the call ends without error. */
  lemma ChangedSettingRewrites(s: State, id: nat, cr: string, autoSync: string)
    requires s.versions != [] && Current(s).syncLabel != "" && Current(s).annotation != ""
    requires id !in s.calls && cr != ""
    ensures var t := Reconcile(s, id, cr, autoSync);
            && t.calls == s.calls[id := Call(cr, Done(true))]
            && Current(t).annotation == (if Current(s).syncLabel == autoSync then Current(s).annotation else cr)
            && Current(t).syncLabel == autoSync
            && (t.updates == s.updates <==> Current(s).syncLabel == autoSync)
            && (t.updates != s.updates ==> t.updates == s.updates + [cr])
  {
  }

  /** Two CRs, with the setting switched in between: both update the object. */
  lemma {:induction false} TwoSettingsTwoWriters(o: Object, a: string, b: string)
    requires o.syncLabel == "" && a != "" && b != ""
    ensures var s := Run(o, [Start(0, a), Get(0, 0), Update(0)], "true");
            var t := Reconcile(s, 1, b, "false");
            Current(s).annotation == a && Current(t).annotation == b && t.updates == [a, b]
  {
    var a0, a1, a2 := Start(0, a), Get(0, 0), Update(0);
    assert [a0, a1, a2][..2] == [a0, a1] && [a0, a1][..1] == [a0] && [a0][..0] == [];
    var s0 := Run(o, [], "true");
    var s1 := Step(s0, a0, "true");
    assert Run(o, [a0], "true") == s1;
    var s2 := Step(s1, a1, "true");
    assert Run(o, [a0, a1], "true") == s2;
    assert s2.calls[0] == Call(a, Holding(0, 0)) && s2.versions == [o];
    var s3 := Step(s2, a2, "true");
    assert s3 == Run(o, [a0, a1, a2], "true");
    assert s3.updates == [a] && |s3.versions| == 2;
    ChangedSettingRewrites(s3, 1, b, "false");
  }
}
