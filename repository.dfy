/**
 * The agent's process registry: the records it keeps, the agent object they
 * belong to, and the reconciliation with each new OS snapshot. Every call is
 * one atomic step, as the registry's lock makes it.
 *
 * A Java reference to a registry record is its index in `procezzes`; a
 * reference to a snapshot entry is its index in the snapshot list.
 */
module Repository {
  import opened Base
  import opened Model
  import opened RepositorySpec

  class InternalRepository {
    var agentObject: Agent?
    var procezzes: seq<Procezz>

    /** An empty registry with no agent object yet. */
    constructor ()
      ensures agentObject == null && procezzes == []
    {
      agentObject := null;
      procezzes := [];
    }

    /** `findProcezzInListByPID`: the first entry of `list` with that pid, if any. */
    static method FindProcezzInListByPID(pid: int, list: seq<Procezz>) returns (r: Option<nat>)
      ensures r == FirstWithPid(list, pid)
    {
      var i := 0;
      while i < |list|
        invariant 0 <= i <= |list|
        invariant forall j :: 0 <= j < i ==> list[j].pid != pid
      {
        if list[i].pid == pid {
          return Some(i);
        }
        i := i + 1;
      }
      return None;
    }

    /**
     * `findProcezzInListByExecCMD`: the first entry of `list` whose OS command
     * equals the known user command, if any.
     */
    static method FindProcezzInListByExecCMD(userExecutionCommand: Option<string>, list: seq<Procezz>)
      returns (r: Option<nat>)
      ensures r == FirstWithCommand(list, userExecutionCommand)
    {
      var i := 0;
      while i < |list|
        invariant 0 <= i <= |list|
        invariant forall j :: 0 <= j < i ==> !CommandMatches(userExecutionCommand, list[j])
      {
        var osExecCmd := list[i].osExecutionCommand;
        if userExecutionCommand.Some? && userExecutionCommand == osExecCmd {
          return Some(i);
        }
        i := i + 1;
      }
      return None;
    }

    /**
     * `removeDuplicatesInProcezzList`: the snapshot with every value once.
     * The source goes through a hash set, so the order of the result is not
     * promised.
     */
    static method RemoveDuplicatesInProcezzList(list: seq<Procezz>) returns (r: seq<Procezz>)
      ensures NoDuplicates(r)
      ensures forall x :: x in r <==> x in list
      ensures |r| <= |list|
    {
      r := [];
      var i := 0;
      while i < |list|
        invariant 0 <= i <= |list|
        invariant NoDuplicates(r)
        invariant forall x :: x in r <==> x in list[..i]
        invariant |r| <= i
      {
        assert list[..i + 1] == list[..i] + [list[i]];
        if list[i] !in r {
          r := r + [list[i]];
        }
        i := i + 1;
      }
      assert list[..i] == list;
    }

    /** `findProcezzByID`: the first record with that id, or NotFound. */
    function FindProcezzByID(id: string): (r: Result<nat>)
      reads this
      ensures r.Ok? ==> r.value < |procezzes| && procezzes[r.value].id == id
                        && forall j :: 0 <= j < r.value ==> procezzes[j].id != id
      ensures r.Err? <==> forall j :: 0 <= j < |procezzes| ==> procezzes[j].id != id
      ensures r.Err? ==> r.error == NotFound
    {
      match FirstWithId(procezzes, id)
      case None => Err(NotFound)
      case Some(k) => Ok(k)
    }

    /**
     * `getNewProcezzesFromOS`: without an agent object nothing is detected;
     * otherwise each management type's list, in factory order. Each
     * management type's OS query is a parameter.
     */
    method GetNewProcezzesFromOS(managementTypes: seq<Agent -> seq<Procezz>>) returns (newList: seq<Procezz>)
      ensures agentObject == null ==> newList == []
      ensures agentObject != null ==> newList == ConcatSnapshots(managementTypes, agentObject)
    {
      if agentObject == null {
        return [];
      }
      newList := [];
      var i := 0;
      while i < |managementTypes|
        invariant 0 <= i <= |managementTypes|
        invariant newList == ConcatSnapshots(managementTypes[..i], agentObject)
      {
        assert managementTypes[..i + 1][..i] == managementTypes[..i];
        newList := newList + managementTypes[i](agentObject);
        i := i + 1;
      }
      assert managementTypes[..i] == managementTypes;
    }

    /**
     * `getStoppedProcezzesOfInternalList`: the pid phase. Each record whose
     * pid is still in the snapshot takes its entry out of it (first marked as
     * running, as the source does, which has no lasting effect); any other
     * record is listed as stopped. Every record gets the current agent object.
     */
    method GetStoppedProcezzesOfInternalList(newProcezzList: seq<Procezz>)
      returns (stoppedProcezzes: seq<nat>, rest: seq<Procezz>)
      modifies this
      ensures agentObject == old(agentObject)
      ensures stoppedProcezzes == PidPhase(old(procezzes), newProcezzList, |old(procezzes)|).stopped
      ensures rest == PidPhase(old(procezzes), newProcezzList, |old(procezzes)|).rest
      ensures procezzes == AttachAgent(old(procezzes), agentObject)
    {
      var registry := procezzes;
      var agent := agentObject;
      var records := registry;
      stoppedProcezzes := [];
      rest := newProcezzList;
      var i := 0;
      while i < |records|
        modifies {}
        invariant 0 <= i <= |records| == |registry|
        invariant PidPhase(registry, newProcezzList, i) == PidPhaseResult(stoppedProcezzes, rest)
        invariant forall k :: 0 <= k < i ==> records[k] == registry[k].(agent := agent)
        invariant forall k :: i <= k < |records| ==> records[k] == registry[k]
      {
        PidPhaseTurn(registry, newProcezzList, i, stoppedProcezzes, rest);
        var found := FindProcezzInListByPID(records[i].pid, rest);
        if found.None? {
          stoppedProcezzes := stoppedProcezzes + [i];
        } else {
          var k := found.value;
          rest := rest[k := rest[k].(stopped := false)];
          rest := RemoveFirst(rest, rest[k]);
        }
        records := records[i := records[i].(agent := agent)];
        i := i + 1;
      }
      ghost var attached := AttachAgent(registry, agent);
      forall k | 0 <= k < |records|
        ensures records[k] == attached[k]
      {
      }
      procezzes := records;
    }

    /**
     * `updateStoppedProcezzes`: the restart phase over the listed records.
     * It reports whether some running record was newly flagged as lost.
     */
    method UpdateStoppedProcezzes(stoppedProcezzes: seq<nat>, newProcezzList: seq<Procezz>)
      returns (unexpectedStoppedProcezzFound: bool, rest: seq<Procezz>)
      requires IndicesBelow(stoppedProcezzes, |procezzes|)
      modifies this
      ensures agentObject == old(agentObject)
      ensures procezzes == RestartPhase(old(procezzes), stoppedProcezzes, newProcezzList, |stoppedProcezzes|).records
      ensures rest == RestartPhase(old(procezzes), stoppedProcezzes, newProcezzList, |stoppedProcezzes|).rest
      ensures unexpectedStoppedProcezzFound
              == RestartPhase(old(procezzes), stoppedProcezzes, newProcezzList, |stoppedProcezzes|).lossFound
    {
      var registry := procezzes;
      var records := registry;
      unexpectedStoppedProcezzFound := false;
      rest := newProcezzList;
      var n := 0;
      while n < |stoppedProcezzes|
        modifies {}
        invariant 0 <= n <= |stoppedProcezzes|
        invariant RestartPhase(registry, stoppedProcezzes, newProcezzList, n)
                  == RestartPhaseResult(records, rest, unexpectedStoppedProcezzFound)
      {
        ghost var prev := RestartPhaseResult(records, rest, unexpectedStoppedProcezzFound);
        RestartPhaseTurn(registry, stoppedProcezzes, newProcezzList, n, prev);
        var i := stoppedProcezzes[n];
        var procezz := records[i];
        var possibleProcezz := FindProcezzInListByExecCMD(procezz.userExecutionCommand, rest);
        if possibleProcezz.None? {
          if !procezz.stopped {
            procezz := procezz.(stopped := true);
            procezz := procezz.(errorOccured := true);
            procezz := procezz.(errorMessage := Some(LOSS_MESSAGE));
            assert procezz == FlagLost(records[i]);
            records := records[i := procezz];
            unexpectedStoppedProcezzFound := true;
          }
        } else {
          var k := possibleProcezz.value;
          var entry := rest[k];
          procezz := procezz.(stopped := false);
          procezz := procezz.(errorOccured := false);
          procezz := procezz.(errorMessage := None);
          procezz := procezz.(pid := entry.pid);
          procezz := procezz.(userExecutionCommand := entry.osExecutionCommand);
          procezz := procezz.(monitoredFlag := true);
          assert procezz == Reattach(records[i], entry);
          records := records[i := procezz];
          rest := RemoveFirst(rest, entry);
        }
        n := n + 1;
      }
      procezzes := records;
    }

    /**
     * `mergeProcezzListWithInternalList`: deduplicate the snapshot, run the pid
     * phase and the restart phase, and hand what is left of the snapshot to
     * `initializeAndAddNewProcezzes`, which is a parameter here: it maps the
     * registry and the new entries to the registry it leaves.
     */
    method MergeProcezzListWithInternalList(newProcezzListFromOS: seq<Procezz>,
                                            initializeAndAddNewProcezzes: (seq<Procezz>, seq<Procezz>) -> seq<Procezz>)
      returns (ghost deduped: seq<Procezz>)
      modifies this
      ensures NoDuplicates(deduped) && forall x :: x in deduped <==> x in newProcezzListFromOS
      ensures |deduped| <= |newProcezzListFromOS|
      ensures agentObject == old(agentObject)
      ensures var merged := MergePhases(old(procezzes), deduped, agentObject);
              procezzes == initializeAndAddNewProcezzes(merged.records, merged.rest)
    {
      var withoutDuplicates := RemoveDuplicatesInProcezzList(newProcezzListFromOS);
      deduped := withoutDuplicates;
      var stoppedProcezzes, rest := GetStoppedProcezzesOfInternalList(withoutDuplicates);
      var _, remaining := UpdateStoppedProcezzes(stoppedProcezzes, rest);
      procezzes := initializeAndAddNewProcezzes(procezzes, remaining);
    }

    /** `updateInternalProcezzList`: merge the registry with a new snapshot from the OS. */
    method UpdateInternalProcezzList(managementTypes: seq<Agent -> seq<Procezz>>,
                                     initializeAndAddNewProcezzes: (seq<Procezz>, seq<Procezz>) -> seq<Procezz>)
      returns (ghost deduped: seq<Procezz>)
      modifies this
      ensures agentObject == old(agentObject)
      ensures agentObject == null ==> deduped == []
      ensures agentObject != null ==>
                NoDuplicates(deduped) && forall x :: x in deduped <==> x in ConcatSnapshots(managementTypes, agentObject)
      ensures var merged := MergePhases(old(procezzes), deduped, agentObject);
              procezzes == initializeAndAddNewProcezzes(merged.records, merged.rest)
    {
      var newList := GetNewProcezzesFromOS(managementTypes);
      deduped := MergeProcezzListWithInternalList(newList, initializeAndAddNewProcezzes);
    }

    /**
     * `updateRestartedProcezz`: after a restart, the flagged process found in
     * a new snapshot gives the registry record with the same id its new pid
     * and command, the discovery time `now`, and a clear error state. The
     * search for the flagged process is a parameter; its failure propagates,
     * and a record that is no longer registered is NotFound.
     */
    method UpdateRestartedProcezz(oldProcezz: Procezz, managementTypes: seq<Agent -> seq<Procezz>>,
                                  findFlaggedProcezzInList: (string, seq<Procezz>) -> Result<Procezz>, now: int)
      returns (r: Result<nat>)
      modifies this
      ensures agentObject == old(agentObject)
      ensures var flagged := findFlaggedProcezzInList(oldProcezz.id,
                               if agentObject == null then [] else ConcatSnapshots(managementTypes, agentObject));
              && (flagged.Err? ==> r == Err(flagged.error) && procezzes == old(procezzes))
              && (flagged.Ok? && old(FindProcezzByID(oldProcezz.id)).Err? ==> r == Err(NotFound) && procezzes == old(procezzes))
              && (flagged.Ok? && old(FindProcezzByID(oldProcezz.id)).Ok? ==>
                    var k := old(FindProcezzByID(oldProcezz.id)).value;
                    r == Ok(k) && procezzes == old(procezzes)[k := Restarted(old(procezzes)[k], flagged.value, now)])
    {
      var entityID := oldProcezz.id;
      var newList := GetNewProcezzesFromOS(managementTypes);
      var possibleRestartedProcezz := findFlaggedProcezzInList(entityID, newList);
      if possibleRestartedProcezz.Err? {
        return Err(possibleRestartedProcezz.error);
      }
      var relaunched := possibleRestartedProcezz.value;
      var found := FindProcezzByID(oldProcezz.id);
      if found.Err? {
        return Err(found.error);
      }
      var k := found.value;
      var internalProcezz := procezzes[k];
      internalProcezz := internalProcezz.(pid := relaunched.pid);
      internalProcezz := internalProcezz.(agentExecutionCommand := relaunched.osExecutionCommand);
      internalProcezz := internalProcezz.(lastDiscoveryTime := now);
      internalProcezz := internalProcezz.(errorOccured := false);
      internalProcezz := internalProcezz.(errorMessage := None);
      procezzes := procezzes[k := internalProcezz];
      return Ok(k);
    }

    /**
     * `handleProcezzPatchRequest`, as a skeleton: the registered record with
     * the request's id takes the request's attribute values, is stopped when
     * it now says so, and is restarted when it asks for it. Copying, stopping
     * and restarting are parameters. Stopping and restarting work on the
     * registered record itself, so each gives back the record as it leaves
     * it, which is written back to the registry whether or not it then throws;
     * `handleRestart` also gives the record it returns. A failure propagates.
     */
    method HandleProcezzPatchRequest(procezz: Procezz,
                                     copyProcezzAttributeValues: (Procezz, Procezz) -> Procezz,
                                     handleStop: Procezz -> (Procezz, Outcome),
                                     handleRestart: Procezz -> (Procezz, Result<Procezz>))
      returns (r: Result<Procezz>)
      modifies this
      ensures agentObject == old(agentObject)
      ensures old(FindProcezzByID(procezz.id)).Err? ==> r == Err(NotFound) && procezzes == old(procezzes)
      ensures old(FindProcezzByID(procezz.id)).Ok? ==>
                var k := old(FindProcezzByID(procezz.id)).value;
                var copied := copyProcezzAttributeValues(procezz, old(procezzes)[k]);
                var (afterStop, stopOutcome) := if copied.stopped then handleStop(copied) else (copied, Pass);
                var (afterRestart, restartResult) := handleRestart(afterStop);
                && (stopOutcome.Fail? ==> r == Err(stopOutcome.error) && procezzes == old(procezzes)[k := afterStop])
                && (stopOutcome.Pass? && !afterStop.restart ==>
                      r == Ok(afterStop) && procezzes == old(procezzes)[k := afterStop])
                && (stopOutcome.Pass? && afterStop.restart ==>
                      r == restartResult && procezzes == old(procezzes)[k := afterRestart])
    {
      var found := FindProcezzByID(procezz.id);
      if found.Err? {
        return Err(found.error);
      }
      var k := found.value;
      var procezzInCache := copyProcezzAttributeValues(procezz, procezzes[k]);
      procezzes := procezzes[k := procezzInCache];
      if procezzInCache.stopped {
        var (afterStop, stopOutcome) := handleStop(procezzInCache);
        procezzInCache := afterStop;
        procezzes := procezzes[k := procezzInCache];
        if stopOutcome.Fail? {
          return Err(stopOutcome.error);
        }
      }
      if procezzInCache.restart {
        var (afterRestart, returned) := handleRestart(procezzInCache);
        procezzes := procezzes[k := afterRestart];
        return returned;
      }
      return Ok(procezzInCache);
    }

    /**
     * `updateAgentProperties`: the agent object takes the given agent's name
     * and hidden flag and nothing else. A missing agent object or a null
     * argument is a NullPointerException, before anything changes.
     */
    method UpdateAgentProperties(agent: Agent?) returns (r: Result<Agent>)
      modifies agentObject
      ensures agentObject == old(agentObject) && procezzes == old(procezzes)
      ensures agentObject == null || agent == null ==> r == Err(NullReference)
      ensures agentObject == null || agent == null ==> agentObject == null || unchanged(agentObject)
      ensures agentObject != null && agent != null ==>
                && r == Ok(agentObject)
                && agentObject.name == old(agent.name) && agentObject.hidden == old(agent.hidden)
                && agentObject.ip == old(agentObject.ip) && agentObject.port == old(agentObject.port)
                && agentObject.processes == old(agentObject.processes)
    {
      if agentObject == null || agent == null {
        return Err(NullReference);
      }
      agentObject.name := agent.name;
      agentObject.hidden := agent.hidden;
      return Ok(agentObject);
    }
  }
}
