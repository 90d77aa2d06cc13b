/**
 * The silent typechecker pass: it selects the definitions of a group that are
 * neither blacklisted nor typechecked yet, and, depending on the typechecking
 * mode, typechecks them one by one under the blacklist service's time limit
 * (SMART), runs only the desugarer and the dumb typechecker on them (DUMB), or
 * does nothing (OFF).
 *
 * The typechecking engine together with the time limit is an oracle `engine`
 * that says, per definition, whether the run finished (and without errors) or
 * was interrupted. The warnings, the daemon restarts and the engine calls are
 * recorded in an event log, in the order the pass issues them.
 */
module SilentTypechecking {
  import opened ArendCore

  /** `ArendOptions.TypecheckingMode`. */
  datatype Mode = Smart | Dumb | Off

  /**
   * What `runTimed` around `typecheckDefinitions` yields for one definition:
   * whether the run finished (and then whether without errors), together with
   * the results of the dependencies the engine typechecked on the way. A
   * dependency that is already typechecked keeps its entry.
   */
  datatype Outcome =
    | Finished(withoutErrors: bool, dependencies: map<DefId, bool>)
    | Interrupted(dependencies: map<DefId, bool>)

  datatype Event =
    | TypecheckStarted(def: DefId)     // the engine is run on the definition under the time limit
    | InterruptedWarning(def: DefId)   // "Typechecking of ... was interrupted after ... second(s)"
    | RestartRequested                 // `DaemonCodeAnalyzer.restart(file)` after an interruption
    | DumbChecked(def: DefId)          // `visitDefinition`: desugaring and the dumb typechecker
    | LineMarkersRestart               // the final `daemon.restart(file)` of SMART mode

  /** `countDefinition`'s test: not blacklisted and not typechecked yet. */
  predicate IsCandidate(def: DefId, blacklist: set<DefId>, typechecked: map<DefId, bool>)
  {
    def !in blacklist && def !in typechecked
  }

  /** The candidates among `defs`, in order: what repeated `countDefinition` calls append. */
  function Candidates(defs: seq<DefId>, blacklist: set<DefId>, typechecked: map<DefId, bool>): seq<DefId>
  {
    if defs == [] then []
    else
      Candidates(defs[..|defs| - 1], blacklist, typechecked)
      + (if IsCandidate(defs[|defs| - 1], blacklist, typechecked) then [defs[|defs| - 1]] else [])
  }

  /** A definition is selected iff it is in the group and is a candidate; so none is blacklisted or typechecked. */
  lemma {:induction false} CandidatesMembers(defs: seq<DefId>, blacklist: set<DefId>, typechecked: map<DefId, bool>)
    ensures |Candidates(defs, blacklist, typechecked)| <= |defs|
    ensures forall d :: d in Candidates(defs, blacklist, typechecked) <==>
              d in defs && d !in blacklist && d !in typechecked
    decreases |defs|
  {
    if defs != [] {
      var init := defs[..|defs| - 1];
      assert defs == init + [defs[|defs| - 1]];
      CandidatesMembers(init, blacklist, typechecked);
    }
  }

  lemma CandidatesStep(defs: seq<DefId>, i: nat, blacklist: set<DefId>, typechecked: map<DefId, bool>)
    requires i < |defs|
    ensures Candidates(defs[..i + 1], blacklist, typechecked)
            == Candidates(defs[..i], blacklist, typechecked)
               + (if IsCandidate(defs[i], blacklist, typechecked) then [defs[i]] else [])
  {
    assert defs[..i + 1][..i] == defs[..i];
  }

  /**
   * The events of one `typecheckDefinition` call, when `last` is the last
   * element of the pending list: nothing without a concrete definition;
   * otherwise the engine run and, if it was interrupted, one warning and a
   * restart request unless the definition is the last pending one.
   */
  function CheckEvents(def: DefId, last: DefId, concrete: set<DefId>, engine: DefId -> Outcome): seq<Event>
  {
    if def !in concrete then []
    else
      [TypecheckStarted(def)]
      + (if engine(def).Interrupted? then [InterruptedWarning(def)] + (if def != last then [RestartRequested] else [])
         else [])
  }

  /**
   * One call issues at most one warning, for an interrupted run, and requests
   * a restart exactly when the interrupted definition is not the last pending one.
   */
  lemma CheckEventsFacts(def: DefId, last: DefId, concrete: set<DefId>, engine: DefId -> Outcome)
    ensures def !in concrete ==> CheckEvents(def, last, concrete, engine) == []
    ensures def in concrete ==> CheckEvents(def, last, concrete, engine)[0] == TypecheckStarted(def)
    ensures InterruptedWarning(def) in CheckEvents(def, last, concrete, engine)
            <==> def in concrete && engine(def).Interrupted?
    ensures RestartRequested in CheckEvents(def, last, concrete, engine)
            <==> def in concrete && engine(def).Interrupted? && def != last
  {
  }

  /**
   * The typechecked map after one definition: a run records the dependencies
   * it typechecked, and a finished run also records whether the definition had
   * errors.
   */
  function AfterCheck(typechecked: map<DefId, bool>, def: DefId, concrete: set<DefId>, engine: DefId -> Outcome): map<DefId, bool>
  {
    if def !in concrete then typechecked
    else
      var withDependencies := engine(def).dependencies + typechecked;
      if engine(def).Finished? then withDependencies[def := engine(def).withoutErrors] else withDependencies
  }

  /** The events of typechecking `defs` one after another. */
  function RunEvents(defs: seq<DefId>, last: DefId, concrete: set<DefId>, engine: DefId -> Outcome): seq<Event>
  {
    if defs == [] then []
    else RunEvents(defs[..|defs| - 1], last, concrete, engine) + CheckEvents(defs[|defs| - 1], last, concrete, engine)
  }

  /** The typechecked map after typechecking `defs` one after another. */
  function AfterRun(typechecked: map<DefId, bool>, defs: seq<DefId>, concrete: set<DefId>, engine: DefId -> Outcome): map<DefId, bool>
  {
    if defs == [] then typechecked
    else AfterCheck(AfterRun(typechecked, defs[..|defs| - 1], concrete, engine), defs[|defs| - 1], concrete, engine)
  }

  /** The events of DUMB mode: one dumb check per pending definition. */
  function DumbEvents(defs: seq<DefId>): seq<Event>
  {
    if defs == [] then [] else DumbEvents(defs[..|defs| - 1]) + [DumbChecked(defs[|defs| - 1])]
  }

  /** The definitions the engine was started on, in order. */
  function Started(events: seq<Event>): seq<DefId>
  {
    if events == [] then []
    else Started(events[..|events| - 1])
         + (if events[|events| - 1].TypecheckStarted? then [events[|events| - 1].def] else [])
  }

  /** The definitions a warning was issued for, in order. */
  function Warned(events: seq<Event>): seq<DefId>
  {
    if events == [] then []
    else Warned(events[..|events| - 1])
         + (if events[|events| - 1].InterruptedWarning? then [events[|events| - 1].def] else [])
  }

  function Filter(defs: seq<DefId>, p: DefId -> bool): seq<DefId>
  {
    if defs == [] then [] else Filter(defs[..|defs| - 1], p) + (if p(defs[|defs| - 1]) then [defs[|defs| - 1]] else [])
  }

  lemma {:induction false} StartedAppend(a: seq<Event>, b: seq<Event>)
    ensures Started(a + b) == Started(a) + Started(b)
    ensures Warned(a + b) == Warned(a) + Warned(b)
    decreases |b|
  {
    if b == [] {
      assert a + b == a;
    } else {
      assert (a + b)[..|a + b| - 1] == a + b[..|b| - 1];
      StartedAppend(a, b[..|b| - 1]);
    }
  }

  lemma CheckEventsStarted(def: DefId, last: DefId, concrete: set<DefId>, engine: DefId -> Outcome)
    ensures Started(CheckEvents(def, last, concrete, engine)) == (if def in concrete then [def] else [])
    ensures Warned(CheckEvents(def, last, concrete, engine))
            == (if def in concrete && engine(def).Interrupted? then [def] else [])
  {
    var e := CheckEvents(def, last, concrete, engine);
    if def in concrete {
      var tail := if engine(def).Interrupted? then [InterruptedWarning(def)] + (if def != last then [RestartRequested] else []) else [];
      assert e == [TypecheckStarted(def)] + tail;
      StartedAppend([TypecheckStarted(def)], tail);
      assert [TypecheckStarted(def)][..0] == [];
      if engine(def).Interrupted? {
        var more := if def != last then [RestartRequested] else [];
        StartedAppend([InterruptedWarning(def)], more);
        assert [InterruptedWarning(def)][..0] == [];
        if def != last {
          assert more[..0] == [];
        }
      }
    }
  }

  lemma RunStep(events: seq<Event>, typechecked: map<DefId, bool>, defs: seq<DefId>, i: nat, last: DefId, concrete: set<DefId>, engine: DefId -> Outcome)
    requires i < |defs|
    ensures events + RunEvents(defs[..i + 1], last, concrete, engine)
            == (events + RunEvents(defs[..i], last, concrete, engine)) + CheckEvents(defs[i], last, concrete, engine)
    ensures AfterRun(typechecked, defs[..i + 1], concrete, engine)
            == AfterCheck(AfterRun(typechecked, defs[..i], concrete, engine), defs[i], concrete, engine)
  {
    var prefix := defs[..i + 1];
    assert prefix[..|prefix| - 1] == defs[..i];
    var before, step := RunEvents(defs[..i], last, concrete, engine), CheckEvents(defs[i], last, concrete, engine);
    assert RunEvents(prefix, last, concrete, engine) == before + step;
    assert events + (before + step) == (events + before) + step;
  }

  lemma RunEmpty(events: seq<Event>, typechecked: map<DefId, bool>, defs: seq<DefId>, last: DefId, concrete: set<DefId>, engine: DefId -> Outcome)
    ensures events + RunEvents(defs[..0], last, concrete, engine) == events
    ensures AfterRun(typechecked, defs[..0], concrete, engine) == typechecked
  {
    assert defs[..0] == [];
    assert events + [] == events;
  }

  lemma RunWhole(typechecked: map<DefId, bool>, defs: seq<DefId>, last: DefId, concrete: set<DefId>, engine: DefId -> Outcome)
    ensures RunEvents(defs[..|defs|], last, concrete, engine) == RunEvents(defs, last, concrete, engine)
    ensures AfterRun(typechecked, defs[..|defs|], concrete, engine) == AfterRun(typechecked, defs, concrete, engine)
  {
    assert defs[..|defs|] == defs;
  }

  lemma DumbStep(defs: seq<DefId>, i: nat)
    requires i < |defs|
    ensures DumbEvents(defs[..i + 1]) == DumbEvents(defs[..i]) + [DumbChecked(defs[i])]
  {
    assert defs[..i + 1][..i] == defs[..i];
  }

  /**
   * A SMART run starts the engine once per pending definition that has a
   * concrete definition, in list order, and warns exactly once per such
   * definition whose run was interrupted.
   */
  lemma {:induction false} RunEventsInOrder(defs: seq<DefId>, last: DefId, concrete: set<DefId>, engine: DefId -> Outcome)
    ensures Started(RunEvents(defs, last, concrete, engine)) == Filter(defs, d => d in concrete)
    ensures Warned(RunEvents(defs, last, concrete, engine)) == Filter(defs, d => d in concrete && engine(d).Interrupted?)
    decreases |defs|
  {
    if defs != [] {
      var init := defs[..|defs| - 1];
      var d := defs[|defs| - 1];
      RunEventsInOrder(init, last, concrete, engine);
      StartedAppend(RunEvents(init, last, concrete, engine), CheckEvents(d, last, concrete, engine));
      CheckEventsStarted(d, last, concrete, engine);
    }
  }

  /**
   * A restart is requested during a run iff some pending definition with a
   * concrete definition was interrupted and is not the last pending one.
   */
  lemma {:induction false} RunRestarts(defs: seq<DefId>, last: DefId, concrete: set<DefId>, engine: DefId -> Outcome)
    ensures RestartRequested in RunEvents(defs, last, concrete, engine) <==>
              exists i :: 0 <= i < |defs| && defs[i] in concrete && engine(defs[i]).Interrupted? && defs[i] != last
    decreases |defs|
  {
    if defs != [] {
      var init := defs[..|defs| - 1];
      var d := defs[|defs| - 1];
      RunRestarts(init, last, concrete, engine);
      CheckEventsFacts(d, last, concrete, engine);
      assert RunEvents(defs, last, concrete, engine)
             == RunEvents(init, last, concrete, engine) + CheckEvents(d, last, concrete, engine);
      if exists i :: 0 <= i < |defs| && defs[i] in concrete && engine(defs[i]).Interrupted? && defs[i] != last {
        var i :| 0 <= i < |defs| && defs[i] in concrete && engine(defs[i]).Interrupted? && defs[i] != last;
        if i < |init| {
          assert init[i] == defs[i];
        }
      }
      if exists i :: 0 <= i < |init| && init[i] in concrete && engine(init[i]).Interrupted? && init[i] != last {
        var i :| 0 <= i < |init| && init[i] in concrete && engine(init[i]).Interrupted? && init[i] != last;
        assert defs[i] == init[i];
      }
    }
  }

  /**
   * Typechecking never forgets a result: every earlier entry is kept unless the
   * definition was re-run, every pending definition whose run finished is
   * recorded afterwards, and so is every dependency a run typechecked; no
   * other definition is added.
   */
  lemma {:induction false} AfterRunRecords(typechecked: map<DefId, bool>, defs: seq<DefId>, concrete: set<DefId>, engine: DefId -> Outcome)
    ensures typechecked.Keys <= AfterRun(typechecked, defs, concrete, engine).Keys
    ensures forall d :: d in defs && d in concrete && engine(d).Finished? ==>
              d in AfterRun(typechecked, defs, concrete, engine)
              && AfterRun(typechecked, defs, concrete, engine)[d] == engine(d).withoutErrors
    ensures forall d :: d in typechecked && d !in defs ==>
              AfterRun(typechecked, defs, concrete, engine)[d] == typechecked[d]
    ensures forall i, d :: 0 <= i < |defs| && defs[i] in concrete && d in engine(defs[i]).dependencies ==>
              d in AfterRun(typechecked, defs, concrete, engine)
    ensures forall d :: d in AfterRun(typechecked, defs, concrete, engine) && d !in typechecked && d !in defs ==>
              exists i :: 0 <= i < |defs| && defs[i] in concrete && d in engine(defs[i]).dependencies
    decreases |defs|
  {
    if defs != [] {
      var init, last := defs[..|defs| - 1], defs[|defs| - 1];
      assert defs == init + [last];
      AfterRunRecords(typechecked, init, concrete, engine);
      var before := AfterRun(typechecked, init, concrete, engine);
      var after := AfterRun(typechecked, defs, concrete, engine);
      assert after == AfterCheck(before, last, concrete, engine);
      forall i, d | 0 <= i < |defs| && defs[i] in concrete && d in engine(defs[i]).dependencies
        ensures d in after
      {
        if i < |init| {
          assert init[i] == defs[i];
        }
      }
      forall d | d in after && d !in typechecked && d !in defs
        ensures exists i :: 0 <= i < |defs| && defs[i] in concrete && d in engine(defs[i]).dependencies
      {
        if d in before {
          var i :| 0 <= i < |init| && init[i] in concrete && d in engine(init[i]).dependencies;
          assert defs[i] == init[i];
        } else {
          assert defs[|defs| - 1] == last;
        }
      }
    }
  }

  /**
   * A dependency typechecked by the run of a definition is no longer a
   * candidate when the group is counted again afterwards.
   */
  lemma RecountSkipsDependencies(defs: seq<DefId>, blacklist: set<DefId>, typechecked: map<DefId, bool>,
                                 def: DefId, concrete: set<DefId>, engine: DefId -> Outcome, d: DefId)
    requires def in concrete && d in engine(def).dependencies
    ensures d !in Candidates(defs, blacklist, AfterCheck(typechecked, def, concrete, engine))
  {
    CandidatesMembers(defs, blacklist, AfterCheck(typechecked, def, concrete, engine));
  }

  class SilentTypecheckerPass {
    const file: ArendFile
    /** The definitions of the pass's group, in the order the base pass visits them. */
    const groupDefinitions: seq<DefId>
    /** The definitions the blacklist service currently excludes. */
    const blacklist: set<DefId>
    /** The typechecker state: which definitions are typechecked, and whether without errors. */
    var typechecked: map<DefId, bool>
    var definitionsToTypecheck: seq<DefId>
    var progress: nat
    var progressLimit: nat
    var events: seq<Event>

    constructor (file: ArendFile, groupDefinitions: seq<DefId>, blacklist: set<DefId>, typechecked: map<DefId, bool>)
      ensures this.file == file && this.groupDefinitions == groupDefinitions
      ensures this.blacklist == blacklist && this.typechecked == typechecked
      ensures definitionsToTypecheck == [] && progress == 0 && progressLimit == 0 && events == []
    {
      this.file := file;
      this.groupDefinitions := groupDefinitions;
      this.blacklist := blacklist;
      this.typechecked := typechecked;
      definitionsToTypecheck := [];
      progress, progressLimit := 0, 0;
      events := [];
    }

    /** `countDefinition`: a candidate is appended to the pending list and counted. */
    method CountDefinition(def: DefId) returns (counted: bool)
      modifies this`definitionsToTypecheck
      ensures counted <==> def !in blacklist && def !in typechecked
      ensures definitionsToTypecheck == old(definitionsToTypecheck) + (if counted then [def] else [])
    {
      if def !in blacklist && def !in typechecked {
        definitionsToTypecheck := definitionsToTypecheck + [def];
        counted := true;
      } else {
        counted := false;
      }
    }

    /** The base pass's count: `countDefinition` on every definition of the group. */
    method BaseNumberOfDefinitions() returns (n: nat)
      modifies this`definitionsToTypecheck
      ensures definitionsToTypecheck == old(definitionsToTypecheck) + Candidates(groupDefinitions, blacklist, typechecked)
      ensures n == |Candidates(groupDefinitions, blacklist, typechecked)|
    {
      n := 0;
      for i := 0 to |groupDefinitions|
        invariant definitionsToTypecheck == old(definitionsToTypecheck) + Candidates(groupDefinitions[..i], blacklist, typechecked)
        invariant n == |Candidates(groupDefinitions[..i], blacklist, typechecked)|
      {
        CandidatesStep(groupDefinitions, i, blacklist, typechecked);
        var counted := CountDefinition(groupDefinitions[i]);
        if counted {
          n := n + 1;
        }
      }
      assert groupDefinitions[..|groupDefinitions|] == groupDefinitions;
    }

    /**
     * `numberOfDefinitions`: 0 when off; in SMART mode with a last-modified
     * definition only that one is considered (so the count is 0 or 1);
     * otherwise the whole group is counted.
     */
    method NumberOfDefinitions(mode: Mode) returns (n: nat)
      modifies this`definitionsToTypecheck
      ensures mode == Off ==> n == 0 && definitionsToTypecheck == old(definitionsToTypecheck)
      ensures mode == Smart && file.lastModifiedDefinition.Some? ==>
                var def := file.lastModifiedDefinition.value;
                && n == (if IsCandidate(def, blacklist, typechecked) then 1 else 0)
                && definitionsToTypecheck
                   == old(definitionsToTypecheck) + (if IsCandidate(def, blacklist, typechecked) then [def] else [])
      ensures mode == Dumb || (mode == Smart && file.lastModifiedDefinition.None?) ==>
                && n == |Candidates(groupDefinitions, blacklist, typechecked)|
                && definitionsToTypecheck
                   == old(definitionsToTypecheck) + Candidates(groupDefinitions, blacklist, typechecked)
    {
      match mode
      case Off =>
        n := 0;
      case Smart =>
        var def := file.lastModifiedDefinition;
        if def.Some? {
          var counted := CountDefinition(def.value);
          n := if counted then 1 else 0;
        } else {
          n := BaseNumberOfDefinitions();
        }
      case Dumb =>
        n := BaseNumberOfDefinitions();
    }

    /**
     * `typecheckDefinition`: with a concrete definition, run the engine under
     * the time limit; on interruption warn, and request a restart unless the
     * definition is the last pending one. Progress advances by one either way.
     */
    method TypecheckDefinition(def: DefId, concrete: set<DefId>, engine: DefId -> Outcome) returns (result: Option<DefId>)
      requires definitionsToTypecheck != []
      modifies this`typechecked, this`events, this`progress
      ensures result == (if def in concrete then Some(def) else None)
      ensures events == old(events)
                        + CheckEvents(def, definitionsToTypecheck[|definitionsToTypecheck| - 1], concrete, engine)
      ensures typechecked == AfterCheck(old(typechecked), def, concrete, engine)
      ensures progress == old(progress) + 1
    {
      result := None;
      if def in concrete {
        events := events + [TypecheckStarted(def)];
        var outcome := engine(def);
        typechecked := outcome.dependencies + typechecked;
        if outcome.Finished? {
          typechecked := typechecked[def := outcome.withoutErrors];
        } else {
          events := events + [InterruptedWarning(def)];
          if definitionsToTypecheck[|definitionsToTypecheck| - 1] != def {
            events := events + [RestartRequested];
          }
        }
        result := Some(def);
      }
      progress := progress + 1;
    }

    /** SMART mode's loop: every pending definition once, in list order. */
    method TypecheckPending(concrete: set<DefId>, engine: DefId -> Outcome)
      requires definitionsToTypecheck != []
      modifies this`typechecked, this`events, this`progress
      ensures var pending := definitionsToTypecheck;
              && events == old(events) + RunEvents(pending, pending[|pending| - 1], concrete, engine)
              && typechecked == AfterRun(old(typechecked), pending, concrete, engine)
              && progress == old(progress) + |pending|
    {
      RunEmpty(events, typechecked, definitionsToTypecheck, definitionsToTypecheck[|definitionsToTypecheck| - 1], concrete, engine);
      for i := 0 to |definitionsToTypecheck|
        invariant var pending := definitionsToTypecheck;
                  && events == old(events) + RunEvents(pending[..i], pending[|pending| - 1], concrete, engine)
                  && typechecked == AfterRun(old(typechecked), pending[..i], concrete, engine)
        invariant progress == old(progress) + i
      {
        TypecheckNext(i, old(events), old(typechecked), concrete, engine);
      }
      RunWhole(old(typechecked), definitionsToTypecheck, definitionsToTypecheck[|definitionsToTypecheck| - 1], concrete, engine);
    }

    /** One iteration of SMART mode's loop: the `i`-th pending definition. */
    method TypecheckNext(i: nat, ghost events0: seq<Event>, ghost typechecked0: map<DefId, bool>,
                         concrete: set<DefId>, engine: DefId -> Outcome)
      requires i < |definitionsToTypecheck|
      requires var pending := definitionsToTypecheck;
               && events == events0 + RunEvents(pending[..i], pending[|pending| - 1], concrete, engine)
               && typechecked == AfterRun(typechecked0, pending[..i], concrete, engine)
      modifies this`typechecked, this`events, this`progress
      ensures var pending := definitionsToTypecheck;
              && events == events0 + RunEvents(pending[..i + 1], pending[|pending| - 1], concrete, engine)
              && typechecked == AfterRun(typechecked0, pending[..i + 1], concrete, engine)
              && progress == old(progress) + 1
    {
      RunStep(events0, typechecked0, definitionsToTypecheck, i, definitionsToTypecheck[|definitionsToTypecheck| - 1], concrete, engine);
      var _ := TypecheckDefinition(definitionsToTypecheck[i], concrete, engine);
    }

    /** DUMB mode's loop: `visitDefinition` on every pending definition, in list order. */
    method VisitPending()
      modifies this`events
      ensures events == old(events) + DumbEvents(definitionsToTypecheck)
    {
      for i := 0 to |definitionsToTypecheck|
        invariant events == old(events) + DumbEvents(definitionsToTypecheck[..i])
      {
        DumbStep(definitionsToTypecheck, i);
        events := events + [DumbChecked(definitionsToTypecheck[i])];
      }
      assert definitionsToTypecheck[..|definitionsToTypecheck|] == definitionsToTypecheck;
    }

    /**
     * SMART mode's fast path for a single pending definition: typecheck it;
     * if it typechecked without errors and is the file's last-modified
     * definition, clear the latter and recompute the progress limit over the
     * whole group; then empty the pending list.
     */
    method TypecheckSingle(concrete: set<DefId>, engine: DefId -> Outcome)
      requires |definitionsToTypecheck| == 1
      modifies this`typechecked, this`events, this`progress, this`progressLimit, this`definitionsToTypecheck,
               file`lastModifiedDefinition
      ensures var def := old(definitionsToTypecheck)[0];
              var clears := def in concrete && def in typechecked && typechecked[def]
                            && old(file.lastModifiedDefinition) == Some(def);
              && events == old(events) + CheckEvents(def, def, concrete, engine)
              && typechecked == AfterCheck(old(typechecked), def, concrete, engine)
              && progress == old(progress) + 1
              && definitionsToTypecheck == []
              && file.lastModifiedDefinition == (if clears then None else old(file.lastModifiedDefinition))
              && progressLimit == (if clears then |Candidates(groupDefinitions, blacklist, typechecked)|
                                   else old(progressLimit))
    {
      var only := definitionsToTypecheck[0];
      var onlyDef := TypecheckDefinition(only, concrete, engine);
      if onlyDef.Some? && onlyDef.value in typechecked && typechecked[onlyDef.value]
         && file.lastModifiedDefinition == Some(only) {
        file.lastModifiedDefinition := None;
        var n := BaseNumberOfDefinitions();
        progressLimit := n;
      }
      definitionsToTypecheck := [];
    }

    /** The SMART branch of `collectInfo`. */
    method CollectSmart(concrete: set<DefId>, engine: DefId -> Outcome)
      modifies this`typechecked, this`events, this`progress, this`progressLimit, this`definitionsToTypecheck,
               file`lastModifiedDefinition
      ensures old(definitionsToTypecheck) == [] ==>
                && events == old(events) && typechecked == old(typechecked) && progress == old(progress)
                && progressLimit == old(progressLimit) && definitionsToTypecheck == []
                && file.lastModifiedDefinition == old(file.lastModifiedDefinition)
      ensures |old(definitionsToTypecheck)| == 1 ==>
                var def := old(definitionsToTypecheck)[0];
                var clears := def in concrete && def in typechecked && typechecked[def]
                              && old(file.lastModifiedDefinition) == Some(def);
                && events == old(events) + CheckEvents(def, def, concrete, engine) + [LineMarkersRestart]
                && typechecked == AfterCheck(old(typechecked), def, concrete, engine)
                && progress == old(progress) + 1
                && definitionsToTypecheck == []
                && file.lastModifiedDefinition == (if clears then None else old(file.lastModifiedDefinition))
                && progressLimit == (if clears then |Candidates(groupDefinitions, blacklist, typechecked)|
                                     else old(progressLimit))
      ensures |old(definitionsToTypecheck)| > 1 ==>
                var pending := old(definitionsToTypecheck);
                && events == old(events) + RunEvents(pending, pending[|pending| - 1], concrete, engine)
                             + [LineMarkersRestart]
                && typechecked == AfterRun(old(typechecked), pending, concrete, engine)
                && progress == old(progress) + |pending|
                && progressLimit == old(progressLimit)
                && definitionsToTypecheck == pending
                && file.lastModifiedDefinition == old(file.lastModifiedDefinition)
    {
      if definitionsToTypecheck != [] {
        if |definitionsToTypecheck| == 1 {
          TypecheckSingle(concrete, engine);
        }
        if definitionsToTypecheck != [] {
          TypecheckPending(concrete, engine);
        }
        events := events + [LineMarkersRestart];
      }
    }

    /**
     * `collectInfo`: dispatch on the mode; in every mode the file's concrete
     * provider is reset to the empty provider at the end.
     */
    method CollectInfo(mode: Mode, concrete: set<DefId>, engine: DefId -> Outcome)
      modifies this`typechecked, this`events, this`progress, this`progressLimit, this`definitionsToTypecheck,
               file`lastModifiedDefinition, file`concreteProviderIsEmpty
      ensures file.concreteProviderIsEmpty
      ensures mode == Off ==>
                && events == old(events) && typechecked == old(typechecked) && progress == old(progress)
                && progressLimit == old(progressLimit) && definitionsToTypecheck == old(definitionsToTypecheck)
                && file.lastModifiedDefinition == old(file.lastModifiedDefinition)
      ensures mode == Dumb ==>
                && events == old(events) + DumbEvents(old(definitionsToTypecheck))
                && typechecked == old(typechecked) && progress == old(progress)
                && progressLimit == old(progressLimit) && definitionsToTypecheck == old(definitionsToTypecheck)
                && file.lastModifiedDefinition == old(file.lastModifiedDefinition)
      ensures mode == Smart && old(definitionsToTypecheck) == [] ==>
                && events == old(events) && typechecked == old(typechecked) && progress == old(progress)
                && progressLimit == old(progressLimit) && definitionsToTypecheck == []
                && file.lastModifiedDefinition == old(file.lastModifiedDefinition)
      ensures mode == Smart && |old(definitionsToTypecheck)| == 1 ==>
                var def := old(definitionsToTypecheck)[0];
                var clears := def in concrete && def in typechecked && typechecked[def]
                              && old(file.lastModifiedDefinition) == Some(def);
                && events == old(events) + CheckEvents(def, def, concrete, engine) + [LineMarkersRestart]
                && typechecked == AfterCheck(old(typechecked), def, concrete, engine)
                && progress == old(progress) + 1
                && definitionsToTypecheck == []
                && file.lastModifiedDefinition == (if clears then None else old(file.lastModifiedDefinition))
                && progressLimit == (if clears then |Candidates(groupDefinitions, blacklist, typechecked)|
                                     else old(progressLimit))
      ensures mode == Smart && |old(definitionsToTypecheck)| > 1 ==>
                var pending := old(definitionsToTypecheck);
                && events == old(events) + RunEvents(pending, pending[|pending| - 1], concrete, engine)
                             + [LineMarkersRestart]
                && typechecked == AfterRun(old(typechecked), pending, concrete, engine)
                && progress == old(progress) + |pending|
                && progressLimit == old(progressLimit)
                && definitionsToTypecheck == pending
                && file.lastModifiedDefinition == old(file.lastModifiedDefinition)
    {
      match mode {
        case Smart => CollectSmart(concrete, engine);
        case Dumb => VisitPending();
        case Off =>
      }
      file.concreteProviderIsEmpty := true;
    }
  }
}
