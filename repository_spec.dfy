/**
 * The reconciliation of the process registry with a fresh OS snapshot, as
 * functions of the values involved. The imperative registry proves that its
 * loops compute exactly these, and the lemmas below state what the phases
 * guarantee.
 *
 * The registry is a sequence of records. The "stopped" list of the source,
 * which holds references to registry records, is a list of registry indices.
 */
module RepositorySpec {
  import opened Base
  import opened Model

  const LOSS_MESSAGE := "Procezz could not be found in latest procezzList. Maybe an error occured."

  predicate NoDuplicates<T(==)>(s: seq<T>) {
    forall i, j :: 0 <= i < j < |s| ==> s[i] != s[j]
  }

  predicate StrictlyIncreasing(s: seq<nat>) {
    forall i, j :: 0 <= i < j < |s| ==> s[i] < s[j]
  }

  predicate IndicesBelow(s: seq<nat>, bound: nat) {
    forall i :: 0 <= i < |s| ==> s[i] < bound
  }

  // ---------------------------------------------------------------------------
  // List primitives
  // ---------------------------------------------------------------------------

  /** The list without its element at index `k`. */
  function Without<T>(s: seq<T>, k: nat): (r: seq<T>)
    requires k < |s|
    ensures |r| == |s| - 1
  {
    s[..k] + s[k + 1..]
  }

  /** Dropping a slot takes exactly one copy of its element out of the list. */
  lemma {:induction false} WithoutMultiset<T>(s: seq<T>, k: nat)
    requires k < |s|
    ensures multiset(Without(s, k)) + multiset{s[k]} == multiset(s)
  {
    assert s == s[..k] + [s[k]] + s[k + 1..];
  }

  /** `List.remove(Object)`: the first element equal to `x` is dropped; without one the list is unchanged. */
  function RemoveFirst<T(==)>(s: seq<T>, x: T): (r: seq<T>)
    ensures x !in s ==> r == s
  {
    if s == [] then []
    else if s[0] == x then s[1..]
    else [s[0]] + RemoveFirst(s[1..], x)
  }

  /** Past a different head, removal works on the tail. */
  lemma {:induction false} RemoveFirstCons<T>(s: seq<T>, x: T)
    requires s != [] && s[0] != x
    ensures RemoveFirst(s, x) == [s[0]] + RemoveFirst(s[1..], x)
  {
  }

  /** Dropping a slot past the head keeps the head. */
  lemma {:induction false} WithoutCons<T>(s: seq<T>, k: nat)
    requires 0 < k < |s|
    ensures Without(s, k) == [s[0]] + Without(s[1..], k - 1)
  {
    assert s[..k] == [s[0]] + s[1..][..k - 1];
    assert s[k + 1..] == s[1..][k..];
  }

  /** Removing an element by equality removes it at its first occurrence. */
  lemma {:induction false} RemoveFirstAt<T>(s: seq<T>, k: nat)
    requires k < |s|
    requires forall j :: 0 <= j < k ==> s[j] != s[k]
    ensures RemoveFirst(s, s[k]) == Without(s, k)
  {
    if k > 0 {
      var t := s[1..];
      forall j | 0 <= j < k - 1
        ensures t[j] != t[k - 1]
      {
        assert t[j] == s[j + 1];
      }
      RemoveFirstAt(t, k - 1);
      RemoveFirstCons(s, s[k]);
      WithoutCons(s, k);
    }
  }

  /** Dropping one slot leaves the count of every other value alone. */
  lemma {:induction false} WithoutCount<T>(s: seq<T>, k: nat, x: T)
    requires k < |s| && s[k] != x
    ensures multiset(Without(s, k))[x] == multiset(s)[x]
  {
    WithoutMultiset(s, k);
  }

  /** In a record-by-record update, a list changed at one index loses the same elements elsewhere. */
  lemma {:induction false} WithoutIgnoresRemovedSlot<T>(s: seq<T>, k: nat, x: T)
    requires k < |s|
    ensures Without(s[k := x], k) == Without(s, k)
  {
    assert s[k := x][..k] == s[..k];
    assert s[k := x][k + 1..] == s[k + 1..];
  }

  /** The index of the first entry whose key is the given value. */
  function FirstWithKey<K(==)>(list: seq<Procezz>, key: Procezz -> K, value: K): (r: Option<nat>)
    ensures r.Some? ==> r.value < |list| && key(list[r.value]) == value
                        && forall j :: 0 <= j < r.value ==> key(list[j]) != value
    ensures r.None? ==> forall j :: 0 <= j < |list| ==> key(list[j]) != value
  {
    if list == [] then None
    else if key(list[0]) == value then Some(0)
    else match FirstWithKey(list[1..], key, value)
      case None => None
      case Some(k) => Some(k + 1)
  }

  function PidOf(p: Procezz): int { p.pid }

  function IdOf(p: Procezz): string { p.id }

  /** The index of the first entry with that pid (`findProcezzInListByPID`). */
  function FirstWithPid(list: seq<Procezz>, pid: int): (r: Option<nat>)
    ensures r.Some? ==> r.value < |list| && list[r.value].pid == pid
                        && forall j :: 0 <= j < r.value ==> list[j].pid != pid
    ensures r.None? ==> forall j :: 0 <= j < |list| ==> list[j].pid != pid
  {
    var r := FirstWithKey(list, PidOf, pid);
    assert forall j :: 0 <= j < |list| ==> PidOf(list[j]) == list[j].pid;
    r
  }

  /** A known user command that is character for character an entry's OS command. */
  predicate CommandMatches(userExecutionCommand: Option<string>, entry: Procezz) {
    userExecutionCommand.Some? && entry.osExecutionCommand == userExecutionCommand
  }

  /** The index of the first entry whose OS command equals the user command (`findProcezzInListByExecCMD`). */
  function FirstWithCommand(list: seq<Procezz>, userExecutionCommand: Option<string>): (r: Option<nat>)
    ensures r.Some? ==> r.value < |list| && CommandMatches(userExecutionCommand, list[r.value])
                        && forall j :: 0 <= j < r.value ==> !CommandMatches(userExecutionCommand, list[j])
    ensures r.None? ==> forall j :: 0 <= j < |list| ==> !CommandMatches(userExecutionCommand, list[j])
  {
    if list == [] then None
    else if CommandMatches(userExecutionCommand, list[0]) then Some(0)
    else match FirstWithCommand(list[1..], userExecutionCommand)
      case None => None
      case Some(k) => Some(k + 1)
  }

  /** A null user command matches no entry. */
  lemma {:induction false} NullCommandMatchesNothing(list: seq<Procezz>)
    ensures FirstWithCommand(list, None) == None
  {
    if list != [] {
      NullCommandMatchesNothing(list[1..]);
    }
  }

  /** The index of the first record with that id (`findProcezzByID`). */
  function FirstWithId(list: seq<Procezz>, id: string): Option<nat> {
    FirstWithKey(list, IdOf, id)
  }

  /** The concatenation of each management type's snapshot, in factory order. */
  function ConcatSnapshots(managementTypes: seq<Agent -> seq<Procezz>>, agent: Agent): (r: seq<Procezz>)
    ensures forall i :: 0 <= i < |managementTypes| ==> multiset(managementTypes[i](agent)) <= multiset(r)
  {
    if managementTypes == [] then []
    else
      var front := managementTypes[..|managementTypes| - 1];
      assert forall i :: 0 <= i < |front| ==> front[i] == managementTypes[i];
      ConcatSnapshots(front, agent) + managementTypes[|managementTypes| - 1](agent)
  }

  /** Every entry of the combined snapshot was reported by some management type. */
  lemma {:induction false} ConcatSnapshotsOnlyReported(managementTypes: seq<Agent -> seq<Procezz>>, agent: Agent, x: Procezz)
    requires x in ConcatSnapshots(managementTypes, agent)
    ensures exists i :: 0 <= i < |managementTypes| && x in managementTypes[i](agent)
  {
    var last := |managementTypes| - 1;
    var front := managementTypes[..last];
    if x !in managementTypes[last](agent) {
      ConcatSnapshotsOnlyReported(front, agent, x);
      var i :| 0 <= i < |front| && x in front[i](agent);
      assert front[i] == managementTypes[i];
    }
  }

  // ---------------------------------------------------------------------------
  // Record updates
  // ---------------------------------------------------------------------------

  /** An unexplained loss: stopped, in error, with the fixed message. */
  function FlagLost(p: Procezz): (r: Procezz)
    ensures r.stopped && r.errorOccured && r.errorMessage == Some(LOSS_MESSAGE)
    ensures r.(stopped := p.stopped, errorOccured := p.errorOccured, errorMessage := p.errorMessage) == p
  {
    p.(stopped := true, errorOccured := true, errorMessage := Some(LOSS_MESSAGE))
  }

  /**
   * A record found again under its relaunched command: running, error-free,
   * monitored, with the new process's pid. The user command is overwritten
   * with the OS command it was matched against, so it stays as it was.
   */
  function Reattach(p: Procezz, entry: Procezz): (r: Procezz)
    ensures !r.stopped && !r.errorOccured && r.errorMessage.None? && r.monitoredFlag
    ensures r.pid == entry.pid && r.userExecutionCommand == entry.osExecutionCommand
    ensures CommandMatches(p.userExecutionCommand, entry) ==> r.userExecutionCommand == p.userExecutionCommand
    ensures r.(stopped := p.stopped, errorOccured := p.errorOccured, errorMessage := p.errorMessage, pid := p.pid,
               userExecutionCommand := p.userExecutionCommand, monitoredFlag := p.monitoredFlag) == p
  {
    p.(stopped := false, errorOccured := false, errorMessage := None, pid := entry.pid,
       userExecutionCommand := entry.osExecutionCommand, monitoredFlag := true)
  }

  /** `updateRestartedProcezz`'s update: the relaunched process's pid and command, the discovery time, no error. */
  function Restarted(p: Procezz, relaunched: Procezz, now: int): (r: Procezz)
    ensures r.pid == relaunched.pid && r.agentExecutionCommand == relaunched.osExecutionCommand
    ensures r.lastDiscoveryTime == now && !r.errorOccured && r.errorMessage.None?
    ensures r == p.(pid := r.pid, agentExecutionCommand := r.agentExecutionCommand,
                    lastDiscoveryTime := now, errorOccured := false, errorMessage := None)
  {
    p.(pid := relaunched.pid, agentExecutionCommand := relaunched.osExecutionCommand,
       lastDiscoveryTime := now, errorOccured := false, errorMessage := None)
  }

  /** Every record attributed to the current agent object. */
  function AttachAgent(registry: seq<Procezz>, agent: Agent?): (r: seq<Procezz>)
    ensures |r| == |registry|
    ensures forall i :: 0 <= i < |r| ==> r[i] == registry[i].(agent := agent)
  {
    seq(|registry|, i requires 0 <= i < |registry| => registry[i].(agent := agent))
  }

  // ---------------------------------------------------------------------------
  // The pid phase (`getStoppedProcezzesOfInternalList`)
  // ---------------------------------------------------------------------------

  datatype PidPhaseResult = PidPhaseResult(stopped: seq<nat>, rest: seq<Procezz>)

  /** One record's turn in the pid phase. */
  function PidStep(prev: PidPhaseResult, pid: int, index: nat): (r: PidPhaseResult)
    ensures FirstWithPid(prev.rest, pid).None? ==> r == PidPhaseResult(prev.stopped + [index], prev.rest)
    ensures FirstWithPid(prev.rest, pid).Some? ==>
              r == PidPhaseResult(prev.stopped, Without(prev.rest, FirstWithPid(prev.rest, pid).value))
  {
    match FirstWithPid(prev.rest, pid)
    case None => PidPhaseResult(prev.stopped + [index], prev.rest)
    case Some(k) => PidPhaseResult(prev.stopped, Without(prev.rest, k))
  }

  /** A turn leaves every entry with another pid in place, every copy of it. */
  lemma {:induction false} PidStepKeeps(prev: PidPhaseResult, pid: int, index: nat, x: Procezz)
    requires x.pid != pid
    ensures multiset(PidStep(prev, pid, index).rest)[x] == multiset(prev.rest)[x]
  {
    var found := FirstWithPid(prev.rest, pid);
    if found.Some? {
      WithoutCount(prev.rest, found.value, x);
    }
  }

  /** A turn only takes entries out of the snapshot. */
  lemma {:induction false} PidStepConsumes(prev: PidPhaseResult, pid: int, index: nat)
    ensures multiset(PidStep(prev, pid, index).rest) <= multiset(prev.rest)
  {
    var found := FirstWithPid(prev.rest, pid);
    if found.Some? {
      WithoutMultiset(prev.rest, found.value);
    }
  }

  /** A turn lists its own record when no remaining entry has its pid, and no other. */
  lemma {:induction false} PidStepStoppedAt(prev: PidPhaseResult, pid: int, index: nat, j: nat)
    ensures j in PidStep(prev, pid, index).stopped
            <==> j in prev.stopped || (j == index && FirstWithPid(prev.rest, pid).None?)
  {
  }

  /**
   * The pid phase over the first `n` registry records: a record whose pid is
   * still in the snapshot takes that entry out of it; any other record is
   * listed as stopped.
   */
  function PidPhase(registry: seq<Procezz>, snapshot: seq<Procezz>, n: nat): (r: PidPhaseResult)
    requires n <= |registry|
    ensures |r.stopped| <= n && IndicesBelow(r.stopped, n) && StrictlyIncreasing(r.stopped)
    ensures |r.rest| + n == |snapshot| + |r.stopped|
  {
    if n == 0 then PidPhaseResult([], snapshot)
    else PidStep(PidPhase(registry, snapshot, n - 1), registry[n - 1].pid, n - 1)
  }

  /**
   * One more record's turn, as the registry takes it: a matched entry is
   * first marked as running and then removed by equality, which removes it
   * at its own position.
   */
  lemma {:induction false} PidPhaseTurn(registry: seq<Procezz>, snapshot: seq<Procezz>, i: nat, stopped: seq<nat>, rest: seq<Procezz>)
    requires i < |registry| && PidPhase(registry, snapshot, i) == PidPhaseResult(stopped, rest)
    ensures FirstWithPid(rest, registry[i].pid).None? ==>
              PidPhase(registry, snapshot, i + 1) == PidPhaseResult(stopped + [i], rest)
    ensures FirstWithPid(rest, registry[i].pid).Some? ==>
              var k := FirstWithPid(rest, registry[i].pid).value;
              var marked := rest[k := rest[k].(stopped := false)];
              PidPhase(registry, snapshot, i + 1) == PidPhaseResult(stopped, RemoveFirst(marked, marked[k]))
  {
    var found := FirstWithPid(rest, registry[i].pid);
    if found.Some? {
      var k := found.value;
      var marked := rest[k := rest[k].(stopped := false)];
      RemoveFirstAt(marked, k);
      WithoutIgnoresRemovedSlot(rest, k, marked[k]);
    }
  }

  /** The pid phase only takes entries out of the snapshot. */
  lemma {:induction false} PidPhaseConsumes(registry: seq<Procezz>, snapshot: seq<Procezz>, n: nat)
    requires n <= |registry|
    ensures multiset(PidPhase(registry, snapshot, n).rest) <= multiset(snapshot)
  {
    if n > 0 {
      PidPhaseConsumes(registry, snapshot, n - 1);
      PidStepConsumes(PidPhase(registry, snapshot, n - 1), registry[n - 1].pid, n - 1);
    }
  }

  /** An entry whose pid no visited record has survives the pid phase, every copy of it. */
  lemma {:induction false} PidPhaseKeepsUnclaimed(registry: seq<Procezz>, snapshot: seq<Procezz>, n: nat, x: Procezz)
    requires n <= |registry|
    requires forall j :: 0 <= j < n ==> registry[j].pid != x.pid
    ensures multiset(PidPhase(registry, snapshot, n).rest)[x] == multiset(snapshot)[x]
  {
    if n > 0 {
      PidPhaseKeepsUnclaimed(registry, snapshot, n - 1, x);
      PidStepKeeps(PidPhase(registry, snapshot, n - 1), registry[n - 1].pid, n - 1, x);
    }
  }

  /** A record is listed as stopped exactly when, at its turn, no remaining entry has its pid. */
  lemma {:induction false} PidPhaseStoppedAt(registry: seq<Procezz>, snapshot: seq<Procezz>, n: nat, i: nat)
    requires i < n <= |registry|
    ensures i in PidPhase(registry, snapshot, n).stopped
            <==> FirstWithPid(PidPhase(registry, snapshot, i).rest, registry[i].pid).None?
  {
    var prev := PidPhase(registry, snapshot, n - 1);
    PidStepStoppedAt(prev, registry[n - 1].pid, n - 1, i);
    if i < n - 1 {
      PidPhaseStoppedAt(registry, snapshot, n - 1, i);
    } else {
      assert i !in prev.stopped by {
        assert IndicesBelow(prev.stopped, n - 1);
      }
    }
  }

  /**
   * With registry pids pairwise distinct, a record ends up in the stopped
   * list exactly when no snapshot entry has its pid.
   */
  lemma {:induction false} PidPhaseStoppedIff(registry: seq<Procezz>, snapshot: seq<Procezz>, i: nat)
    requires forall j, k :: 0 <= j < k < |registry| ==> registry[j].pid != registry[k].pid
    requires i < |registry|
    ensures i in PidPhase(registry, snapshot, |registry|).stopped
            <==> forall e :: e in snapshot ==> e.pid != registry[i].pid
  {
    PidPhaseStoppedAt(registry, snapshot, |registry|, i);
    var rest := PidPhase(registry, snapshot, i).rest;
    var pid := registry[i].pid;
    if e :| e in snapshot && e.pid == pid {
      PidPhaseKeepsUnclaimed(registry, snapshot, i, e);
      assert multiset(rest)[e] > 0;
      assert e in rest;
      var k :| 0 <= k < |rest| && rest[k] == e;
      assert FirstWithPid(rest, pid).Some?;
    } else {
      PidPhaseConsumes(registry, snapshot, i);
      forall k | 0 <= k < |rest|
        ensures rest[k].pid != pid
      {
        assert rest[k] in multiset(rest);
        assert rest[k] in snapshot;
      }
    }
  }

  /** Entries whose pid no registry record has are left over for the new records. */
  lemma {:induction false} PidPhaseLeavesNewEntries(registry: seq<Procezz>, snapshot: seq<Procezz>, x: Procezz)
    requires forall j :: 0 <= j < |registry| ==> registry[j].pid != x.pid
    ensures multiset(PidPhase(registry, snapshot, |registry|).rest)[x] == multiset(snapshot)[x]
  {
    PidPhaseKeepsUnclaimed(registry, snapshot, |registry|, x);
  }

  // ---------------------------------------------------------------------------
  // The restart phase (`updateStoppedProcezzes`)
  // ---------------------------------------------------------------------------

  datatype RestartPhaseResult = RestartPhaseResult(records: seq<Procezz>, rest: seq<Procezz>, lossFound: bool)

  /**
   * One listed record's turn in the restart phase: a record whose user
   * command is some remaining entry's OS command is reattached to the first
   * such entry, which leaves the snapshot; a record without one is flagged as
   * lost unless it is already stopped.
   */
  function RestartStep(prev: RestartPhaseResult, i: nat): (r: RestartPhaseResult)
    requires i < |prev.records|
    ensures |r.records| == |prev.records|
    ensures r.records[i].id == prev.records[i].id && r.records[i].agent == prev.records[i].agent
    ensures r.lossFound <==> prev.lossFound || (!prev.records[i].stopped && r.records[i].stopped)
  {
    var p := prev.records[i];
    match FirstWithCommand(prev.rest, p.userExecutionCommand)
    case None =>
      if !p.stopped then RestartPhaseResult(prev.records[i := FlagLost(p)], prev.rest, true)
      else prev
    case Some(k) =>
      RestartPhaseResult(prev.records[i := Reattach(p, prev.rest[k])], Without(prev.rest, k), prev.lossFound)
  }

  /** A turn only takes entries out of the snapshot. */
  lemma {:induction false} RestartStepConsumes(prev: RestartPhaseResult, i: nat)
    requires i < |prev.records|
    ensures multiset(RestartStep(prev, i).rest) <= multiset(prev.rest)
  {
    match FirstWithCommand(prev.rest, prev.records[i].userExecutionCommand)
    case None =>
    case Some(k) => WithoutMultiset(prev.rest, k);
  }

  /** A turn leaves every other record as it was. */
  lemma {:induction false} RestartStepKeepsOthers(prev: RestartPhaseResult, i: nat, j: nat)
    requires i < |prev.records| && j < |prev.records| && j != i
    ensures RestartStep(prev, i).records[j] == prev.records[j]
  {
    match FirstWithCommand(prev.rest, prev.records[i].userExecutionCommand)
    case None =>
    case Some(k) =>
  }

  /**
   * A turn leaves its record stopped and unchanged, flags it as lost, or
   * reattaches it to a remaining entry that carries its user command.
   */
  lemma {:induction false} RestartStepOutcome(prev: RestartPhaseResult, i: nat)
    requires i < |prev.records|
    ensures var p := prev.records[i];
            var r := RestartStep(prev, i);
            || (p.stopped && r.records[i] == p)
            || (!p.stopped && r.records[i] == FlagLost(p))
            || (exists e :: e in prev.rest && CommandMatches(p.userExecutionCommand, e) && r.records[i] == Reattach(p, e))
  {
    var p := prev.records[i];
    match FirstWithCommand(prev.rest, p.userExecutionCommand)
    case None =>
    case Some(k) =>
      assert prev.rest[k] in prev.rest;
  }

  /** The restart phase over the first `n` listed records. */
  function RestartPhase(registry: seq<Procezz>, stopped: seq<nat>, snapshot: seq<Procezz>, n: nat)
    : (r: RestartPhaseResult)
    requires n <= |stopped| && IndicesBelow(stopped, |registry|)
    ensures |r.records| == |registry|
  {
    if n == 0 then RestartPhaseResult(registry, snapshot, false)
    else RestartStep(RestartPhase(registry, stopped, snapshot, n - 1), stopped[n - 1])
  }

  /** The restart phase keeps every record's id and agent. */
  lemma {:induction false} RestartPhaseKeepsIds(registry: seq<Procezz>, stopped: seq<nat>, snapshot: seq<Procezz>,
                                                n: nat, i: nat)
    requires n <= |stopped| && IndicesBelow(stopped, |registry|) && i < |registry|
    ensures var r := RestartPhase(registry, stopped, snapshot, n);
            r.records[i].id == registry[i].id && r.records[i].agent == registry[i].agent
  {
    if n > 0 {
      var prev := RestartPhase(registry, stopped, snapshot, n - 1);
      RestartPhaseKeepsIds(registry, stopped, snapshot, n - 1, i);
      if stopped[n - 1] != i {
        RestartStepKeepsOthers(prev, stopped[n - 1], i);
      }
    }
  }

  /**
   * One more listed record's turn, as the registry takes it: the matched
   * entry is removed by equality, which removes it at its own position.
   */
  lemma {:induction false} RestartPhaseTurn(registry: seq<Procezz>, stopped: seq<nat>, snapshot: seq<Procezz>, n: nat,
                         prev: RestartPhaseResult)
    requires n < |stopped| && IndicesBelow(stopped, |registry|)
    requires RestartPhase(registry, stopped, snapshot, n) == prev
    ensures var i := stopped[n];
            var p := prev.records[i];
            FirstWithCommand(prev.rest, p.userExecutionCommand).None? ==>
              RestartPhase(registry, stopped, snapshot, n + 1)
              == if p.stopped then prev else RestartPhaseResult(prev.records[i := FlagLost(p)], prev.rest, true)
    ensures var i := stopped[n];
            var p := prev.records[i];
            FirstWithCommand(prev.rest, p.userExecutionCommand).Some? ==>
              var e := prev.rest[FirstWithCommand(prev.rest, p.userExecutionCommand).value];
              RestartPhase(registry, stopped, snapshot, n + 1)
              == RestartPhaseResult(prev.records[i := Reattach(p, e)], RemoveFirst(prev.rest, e), prev.lossFound)
  {
    var p := prev.records[stopped[n]];
    var found := FirstWithCommand(prev.rest, p.userExecutionCommand);
    if found.Some? {
      RemoveFirstAt(prev.rest, found.value);
    }
  }

  /** The restart phase only takes entries out of the snapshot. */
  lemma {:induction false} RestartPhaseConsumes(registry: seq<Procezz>, stopped: seq<nat>, snapshot: seq<Procezz>, n: nat)
    requires n <= |stopped| && IndicesBelow(stopped, |registry|)
    ensures multiset(RestartPhase(registry, stopped, snapshot, n).rest) <= multiset(snapshot)
  {
    if n > 0 {
      var prev := RestartPhase(registry, stopped, snapshot, n - 1);
      RestartPhaseConsumes(registry, stopped, snapshot, n - 1);
      RestartStepConsumes(prev, stopped[n - 1]);
      assert RestartPhase(registry, stopped, snapshot, n) == RestartStep(prev, stopped[n - 1]);
    }
  }

  /** A record that is not listed as stopped is left alone. */
  lemma {:induction false} RestartPhaseUntouched(registry: seq<Procezz>, stopped: seq<nat>, snapshot: seq<Procezz>,
                                                 n: nat, i: nat)
    requires n <= |stopped| && IndicesBelow(stopped, |registry|)
    requires i < |registry| && forall j :: 0 <= j < n ==> stopped[j] != i
    ensures RestartPhase(registry, stopped, snapshot, n).records[i] == registry[i]
  {
    if n > 0 {
      RestartPhaseUntouched(registry, stopped, snapshot, n - 1, i);
      RestartStepKeepsOthers(RestartPhase(registry, stopped, snapshot, n - 1), stopped[n - 1], i);
    }
  }

  /** A later turn leaves an earlier listed record as it was. */
  lemma {:induction false} RestartPhaseLaterTurn(registry: seq<Procezz>, stopped: seq<nat>, snapshot: seq<Procezz>, n: nat, j: nat)
    requires 0 < n <= |stopped| && IndicesBelow(stopped, |registry|)
    requires j < |stopped| && stopped[j] != stopped[n - 1]
    ensures RestartPhase(registry, stopped, snapshot, n).records[stopped[j]]
            == RestartPhase(registry, stopped, snapshot, n - 1).records[stopped[j]]
  {
    RestartStepKeepsOthers(RestartPhase(registry, stopped, snapshot, n - 1), stopped[n - 1], stopped[j]);
  }

  /** Once a listed record has had its turn, later turns leave it alone. */
  lemma {:induction false} RestartPhaseSettled(registry: seq<Procezz>, stopped: seq<nat>, snapshot: seq<Procezz>,
                                               n: nat, j: nat)
    requires n <= |stopped| && IndicesBelow(stopped, |registry|)
    requires j < n && forall k :: j < k < n ==> stopped[k] != stopped[j]
    ensures RestartPhase(registry, stopped, snapshot, n).records[stopped[j]]
            == RestartPhase(registry, stopped, snapshot, j + 1).records[stopped[j]]
  {
    if j + 1 < n {
      var m := n - 1;
      RestartPhaseSettled(registry, stopped, snapshot, m, j);
      RestartPhaseLaterTurn(registry, stopped, snapshot, n, j);
    }
  }

  /**
   * Each listed record ends in one of three states: still stopped and
   * unchanged, newly flagged as lost, or reattached to a snapshot entry that
   * carries its user command. An already stopped record is never flagged
   * again, and a record without a user command is never reattached.
   */
  lemma {:induction false} RestartPhaseOutcome(registry: seq<Procezz>, stopped: seq<nat>, snapshot: seq<Procezz>, j: nat)
    requires IndicesBelow(stopped, |registry|) && NoDuplicates(stopped)
    requires j < |stopped|
    ensures var i := stopped[j];
            var r := RestartPhase(registry, stopped, snapshot, |stopped|);
            || (registry[i].stopped && r.records[i] == registry[i])
            || (!registry[i].stopped && r.records[i] == FlagLost(registry[i]))
            || (exists e :: e in snapshot && CommandMatches(registry[i].userExecutionCommand, e)
                            && r.records[i] == Reattach(registry[i], e))
  {
    var i := stopped[j];
    RestartPhaseSettled(registry, stopped, snapshot, |stopped|, j);
    RestartPhaseUntouched(registry, stopped, snapshot, j, i);
    RestartPhaseConsumes(registry, stopped, snapshot, j);
    var prev := RestartPhase(registry, stopped, snapshot, j);
    var r := RestartPhase(registry, stopped, snapshot, j + 1);
    RestartStepOutcome(prev, i);
    if exists e :: e in prev.rest && CommandMatches(registry[i].userExecutionCommand, e) && r.records[i] == Reattach(registry[i], e) {
      var e :| e in prev.rest && CommandMatches(registry[i].userExecutionCommand, e) && r.records[i] == Reattach(registry[i], e);
      assert e in multiset(snapshot);
    }
  }

  /** A listed record without a user command ends either unchanged and stopped, or flagged as lost. */
  lemma {:induction false} RestartPhaseNullCommand(registry: seq<Procezz>, stopped: seq<nat>, snapshot: seq<Procezz>, j: nat)
    requires IndicesBelow(stopped, |registry|) && NoDuplicates(stopped)
    requires j < |stopped| && registry[stopped[j]].userExecutionCommand.None?
    ensures var i := stopped[j];
            var r := RestartPhase(registry, stopped, snapshot, |stopped|);
            r.records[i] == registry[i] || r.records[i] == FlagLost(registry[i])
  {
    RestartPhaseOutcome(registry, stopped, snapshot, j);
  }

  /**
   * The last turn of a phase reports a loss when an earlier one did or when it
   * stops its own, still untouched record; earlier listed records keep what
   * the earlier turns made of them.
   */
  lemma {:induction false} RestartPhaseLastTurn(registry: seq<Procezz>, stopped: seq<nat>, snapshot: seq<Procezz>, n: nat)
    requires 0 < n <= |stopped| && IndicesBelow(stopped, |registry|)
    requires forall j :: 0 <= j < n - 1 ==> stopped[j] != stopped[n - 1]
    ensures var prev := RestartPhase(registry, stopped, snapshot, n - 1);
            var r := RestartPhase(registry, stopped, snapshot, n);
            && (r.lossFound <==> prev.lossFound || (!registry[stopped[n - 1]].stopped && r.records[stopped[n - 1]].stopped))
            && forall j :: 0 <= j < n - 1 ==> r.records[stopped[j]] == prev.records[stopped[j]]
  {
    var prev := RestartPhase(registry, stopped, snapshot, n - 1);
    var i := stopped[n - 1];
    RestartPhaseUntouched(registry, stopped, snapshot, n - 1, i);
    forall j | 0 <= j < n - 1
      ensures RestartStep(prev, i).records[stopped[j]] == prev.records[stopped[j]]
    {
      RestartStepKeepsOthers(prev, i, stopped[j]);
    }
  }

  /** The loss report of a phase: some listed record went from running to stopped. */
  predicate LossWitnessed(registry: seq<Procezz>, stopped: seq<nat>, r: RestartPhaseResult, n: nat)
    requires n <= |stopped| && IndicesBelow(stopped, |registry|) && |r.records| == |registry|
  {
    exists j :: 0 <= j < n && !registry[stopped[j]].stopped && r.records[stopped[j]].stopped
  }

  /** The last turn keeps the loss report in step with the records. */
  lemma {:induction false} RestartPhaseLossStep(registry: seq<Procezz>, stopped: seq<nat>, snapshot: seq<Procezz>, n: nat)
    requires 0 < n <= |stopped| && IndicesBelow(stopped, |registry|)
    requires forall j :: 0 <= j < n - 1 ==> stopped[j] != stopped[n - 1]
    requires var prev := RestartPhase(registry, stopped, snapshot, n - 1);
             prev.lossFound <==> LossWitnessed(registry, stopped, prev, n - 1)
    ensures var r := RestartPhase(registry, stopped, snapshot, n);
            r.lossFound <==> LossWitnessed(registry, stopped, r, n)
  {
    RestartPhaseLastTurn(registry, stopped, snapshot, n);
    var prev := RestartPhase(registry, stopped, snapshot, n - 1);
    var r := RestartPhase(registry, stopped, snapshot, n);
    if prev.lossFound {
      var j :| 0 <= j < n - 1 && !registry[stopped[j]].stopped && prev.records[stopped[j]].stopped;
      assert r.records[stopped[j]] == prev.records[stopped[j]];
    } else if r.lossFound {
      assert !registry[stopped[n - 1]].stopped && r.records[stopped[n - 1]].stopped;
    } else {
      assert !LossWitnessed(registry, stopped, prev, n - 1);
      forall j | 0 <= j < n
        ensures !(!registry[stopped[j]].stopped && r.records[stopped[j]].stopped)
      {
        if j < n - 1 {
          assert r.records[stopped[j]] == prev.records[stopped[j]];
          assert !(!registry[stopped[j]].stopped && prev.records[stopped[j]].stopped);
        }
      }
    }
  }

  /** The phase reports a loss exactly when some record went from running to stopped. */
  lemma {:induction false} RestartPhaseLossFound(registry: seq<Procezz>, stopped: seq<nat>, snapshot: seq<Procezz>, n: nat)
    requires n <= |stopped| && IndicesBelow(stopped, |registry|) && NoDuplicates(stopped)
    ensures var r := RestartPhase(registry, stopped, snapshot, n);
            r.lossFound <==> exists j :: 0 <= j < n && !registry[stopped[j]].stopped && r.records[stopped[j]].stopped
  {
    if n > 0 {
      RestartPhaseLossFound(registry, stopped, snapshot, n - 1);
      RestartPhaseLossStep(registry, stopped, snapshot, n);
    }
  }

  // ---------------------------------------------------------------------------
  // The whole merge
  // ---------------------------------------------------------------------------

  /**
   * Both phases of `mergeProcezzListWithInternalList` on a deduplicated
   * snapshot: the updated records, the entries left over as new, and the
   * loss report.
   */
  function MergePhases(registry: seq<Procezz>, deduped: seq<Procezz>, agent: Agent?): (r: RestartPhaseResult)
    ensures |r.records| == |registry|
  {
    var pid := PidPhase(registry, deduped, |registry|);
    RestartPhase(AttachAgent(registry, agent), pid.stopped, pid.rest, |pid.stopped|)
  }

  /**
   * The merge never drops a record: every record keeps its id and is
   * attributed to the current agent.
   */
  lemma {:induction false} MergeKeepsRecords(registry: seq<Procezz>, deduped: seq<Procezz>, agent: Agent?, i: nat)
    requires i < |registry|
    ensures var r := MergePhases(registry, deduped, agent);
            r.records[i].id == registry[i].id && r.records[i].agent == agent
  {
    var pid := PidPhase(registry, deduped, |registry|);
    RestartPhaseKeepsIds(AttachAgent(registry, agent), pid.stopped, pid.rest, |pid.stopped|, i);
  }

  /** A record still running under its pid changes in nothing but its agent. */
  lemma {:induction false} MergeLeavesRunning(registry: seq<Procezz>, deduped: seq<Procezz>, agent: Agent?, i: nat)
    requires i < |registry| && i !in PidPhase(registry, deduped, |registry|).stopped
    ensures MergePhases(registry, deduped, agent).records[i] == registry[i].(agent := agent)
  {
    var pid := PidPhase(registry, deduped, |registry|);
    RestartPhaseUntouched(AttachAgent(registry, agent), pid.stopped, pid.rest, |pid.stopped|, i);
  }

  /** The entries left over for new records are snapshot entries, each used at most as often as it occurs. */
  lemma {:induction false} MergeLeftoverFromSnapshot(registry: seq<Procezz>, deduped: seq<Procezz>, agent: Agent?)
    ensures multiset(MergePhases(registry, deduped, agent).rest) <= multiset(deduped)
  {
    var pid := PidPhase(registry, deduped, |registry|);
    PidPhaseConsumes(registry, deduped, |registry|);
    RestartPhaseConsumes(AttachAgent(registry, agent), pid.stopped, pid.rest, |pid.stopped|);
  }

  /**
   * Each record the pid phase lists as stopped leaves the merge stopped as it
   * was, flagged as lost, or reattached to a snapshot entry under its user command.
   */
  lemma {:induction false} MergeStoppedOutcome(registry: seq<Procezz>, deduped: seq<Procezz>, agent: Agent?, i: nat)
    requires i in PidPhase(registry, deduped, |registry|).stopped
    ensures var r := MergePhases(registry, deduped, agent);
            var p := registry[i].(agent := agent);
            || (p.stopped && r.records[i] == p)
            || (!p.stopped && r.records[i] == FlagLost(p))
            || (exists e :: e in deduped && CommandMatches(p.userExecutionCommand, e) && r.records[i] == Reattach(p, e))
  {
    var pid := PidPhase(registry, deduped, |registry|);
    var attached := AttachAgent(registry, agent);
    var j :| 0 <= j < |pid.stopped| && pid.stopped[j] == i;
    RestartPhaseOutcome(attached, pid.stopped, pid.rest, j);
    PidPhaseConsumes(registry, deduped, |registry|);
    var r := MergePhases(registry, deduped, agent);
    if exists e :: e in pid.rest && CommandMatches(attached[i].userExecutionCommand, e) && r.records[i] == Reattach(attached[i], e) {
      var e :| e in pid.rest && CommandMatches(attached[i].userExecutionCommand, e) && r.records[i] == Reattach(attached[i], e);
      assert e in multiset(deduped);
    }
  }
}
