/**
 * The discovery strategy that recognises the Kieker sample application and
 * proposes a launch command for it: its name, and the command with the jar
 * path made absolute against the working directory.
 */
module KiekerSampleApp {
  import opened Base
  import opened JavaStrings
  import opened Model
  import WinJava

  const SAMPLE_APP_MARKER := "sampleApplication"
  const SAMPLE_APP_NAME := "KiekerSampleApp"
  const JAR_DELIMITER := "-jar "

  /**
   * `isDesiredApplication`: the OS command is known and the sample
   * application's marker occurs in it at some position.
   */
  predicate IsDesiredApplication(p: Procezz) {
    p.osExecutionCommand.Some? && Contains(p.osExecutionCommand.value, SAMPLE_APP_MARKER)
  }

  /** `detectAndSetName`: a desired record is named after the sample application; any other is left alone. */
  function DetectAndSetName(p: Procezz): (r: Procezz)
    ensures IsDesiredApplication(p) ==> r == p.(name := Some(SAMPLE_APP_NAME))
    ensures !IsDesiredApplication(p) ==> r == p
    ensures IsDesiredApplication(r) == IsDesiredApplication(p)
  {
    if IsDesiredApplication(p) then p.(name := Some(SAMPLE_APP_NAME)) else p
  }

  /**
   * The proposed launch command for a working directory: the command cut at
   * its first `-jar `, with the jar argument placed under the trimmed working
   * directory. A command without `-jar ` has no second fragment.
   */
  function ProposeFromWorkingDirectory(osCmd: string, workingDir: string): (r: Result<string>)
    ensures r.Err? <==> !Contains(osCmd, JAR_DELIMITER)
    ensures r.Err? ==> r.error == IndexOutOfBounds
  {
    var fragments := SplitLimit(osCmd, JAR_DELIMITER, 2);
    if |fragments| < 2 then
      SplitLimitAbsentIff(osCmd);
      Err(IndexOutOfBounds)
    else
      SplitLimitAbsentIff(osCmd);
      Ok(fragments[0] + JAR_DELIMITER + Trim(workingDir) + "/" + Trim(fragments[1]))
  }

  /** `split("-jar ", 2)` yields a second fragment exactly when the delimiter occurs. */
  lemma {:induction false} SplitLimitAbsentIff(s: string)
    ensures |SplitLimit(s, JAR_DELIMITER, 2)| == 2 <==> Contains(s, JAR_DELIMITER)
  {
    if !Contains(s, JAR_DELIMITER) {
      SplitLimitAbsent(s, JAR_DELIMITER, 2);
    }
  }

  /**
   * `detectAndSetProposedExecCMD`: a command the agent already relaunched
   * (it carries the marker flag) is proposed as is; otherwise a known
   * working directory makes the jar path absolute.
   */
  function DetectAndSetProposedExecCMD(p: Procezz): (r: Result<Procezz>)
    ensures r.Ok? ==> r.value == p.(proposedExecutionCommand := r.value.proposedExecutionCommand)
    ensures !IsDesiredApplication(p) ==> r == Ok(p)
    ensures IsDesiredApplication(p) && Contains(p.osExecutionCommand.value, WinJava.MODEL_ID_FLAG)
            ==> r == Ok(p.(proposedExecutionCommand := Some(WinJava.USE_OS_FLAG)))
    ensures (IsDesiredApplication(p) && !Contains(p.osExecutionCommand.value, WinJava.MODEL_ID_FLAG)
             && p.workingDirectory.None?) ==> r == Ok(p)
    ensures (IsDesiredApplication(p) && !Contains(p.osExecutionCommand.value, WinJava.MODEL_ID_FLAG)
             && p.workingDirectory.Some?
             && ProposeFromWorkingDirectory(p.osExecutionCommand.value, p.workingDirectory.value).Ok?) ==>
              r == Ok(p.(proposedExecutionCommand :=
                Some(ProposeFromWorkingDirectory(p.osExecutionCommand.value, p.workingDirectory.value).value)))
    ensures r.Err? <==> IsDesiredApplication(p) && p.workingDirectory.Some?
                        && !Contains(p.osExecutionCommand.value, WinJava.MODEL_ID_FLAG)
                        && !Contains(p.osExecutionCommand.value, JAR_DELIMITER)
    ensures r.Err? ==> r.error == IndexOutOfBounds
  {
    if !IsDesiredApplication(p) then Ok(p)
    else
      var osCmd := p.osExecutionCommand.value;
      if Contains(osCmd, WinJava.MODEL_ID_FLAG) then
        Ok(p.(proposedExecutionCommand := Some(WinJava.USE_OS_FLAG)))
      else if p.workingDirectory.Some? then
        var proposal :- ProposeFromWorkingDirectory(osCmd, p.workingDirectory.value);
        Ok(p.(proposedExecutionCommand := Some(proposal)))
      else Ok(p)
  }

  /**
   * `applyEntireStrategy`: the verdict of `isDesiredApplication`, and the
   * record with its name and proposal set when desired. A failing proposal
   * propagates, and the name it already set stays.
   */
  function ApplyEntireStrategy(p: Procezz): (r: (Result<bool>, Procezz))
    ensures !IsDesiredApplication(p) ==> r == (Ok(false), p)
    ensures r.0.Ok? ==> r.0.value == IsDesiredApplication(p)
    ensures r.0.Err? ==> r.0.error == IndexOutOfBounds && r.1 == DetectAndSetName(p)
    ensures r.1 == p.(name := r.1.name, proposedExecutionCommand := r.1.proposedExecutionCommand)
    ensures IsDesiredApplication(p) ==> r.1.name == Some(SAMPLE_APP_NAME)
    ensures IsDesiredApplication(p) && Contains(p.osExecutionCommand.value, WinJava.MODEL_ID_FLAG)
            ==> r == (Ok(true), p.(name := Some(SAMPLE_APP_NAME), proposedExecutionCommand := Some(WinJava.USE_OS_FLAG)))
    ensures (IsDesiredApplication(p) && !Contains(p.osExecutionCommand.value, WinJava.MODEL_ID_FLAG)
             && p.workingDirectory.None?) ==> r == (Ok(true), p.(name := Some(SAMPLE_APP_NAME)))
    ensures (IsDesiredApplication(p) && !Contains(p.osExecutionCommand.value, WinJava.MODEL_ID_FLAG)
             && p.workingDirectory.Some?
             && ProposeFromWorkingDirectory(p.osExecutionCommand.value, p.workingDirectory.value).Ok?) ==>
              r == (Ok(true), p.(name := Some(SAMPLE_APP_NAME), proposedExecutionCommand :=
                Some(ProposeFromWorkingDirectory(p.osExecutionCommand.value, p.workingDirectory.value).value)))
    ensures r.0.Err? <==> IsDesiredApplication(p) && p.workingDirectory.Some?
                          && !Contains(p.osExecutionCommand.value, WinJava.MODEL_ID_FLAG)
                          && !Contains(p.osExecutionCommand.value, JAR_DELIMITER)
  {
    if !IsDesiredApplication(p) then (Ok(false), p)
    else
      var named := DetectAndSetName(p);
      match DetectAndSetProposedExecCMD(named)
      case Err(e) => (Err(e), named)
      case Ok(q) => (Ok(true), q)
  }

  /** `detectAndSetProperties`: this strategy has no further properties to detect, so the record is unchanged. */
  function DetectAndSetProperties(p: Procezz): (r: Procezz)
    ensures r == p
  {
    p
  }

  /**
   * The proposal for a plain jar launch: the text before the first `-jar `,
   * the delimiter, the trimmed working directory, a slash, and the trimmed jar
   * argument with whatever follows it.
   */
  lemma {:induction false} ProposalForJarLaunch(p: Procezz, before: string, after: string, workingDir: string)
    requires p.osExecutionCommand == Some(before + JAR_DELIMITER + after)
    requires IsDesiredApplication(p)
    requires !Contains(before + JAR_DELIMITER + after, WinJava.MODEL_ID_FLAG)
    requires forall j :: 0 <= j < |before| ==> !OccursAt(before + JAR_DELIMITER, JAR_DELIMITER, j)
    requires p.workingDirectory == Some(workingDir)
    ensures ApplyEntireStrategy(p) ==
      (Ok(true), p.(name := Some(SAMPLE_APP_NAME),
                    proposedExecutionCommand := Some(before + JAR_DELIMITER + Trim(workingDir) + "/" + Trim(after))))
  {
    SplitTwoAtFirst(before, JAR_DELIMITER, after);
  }

  /** A proposal depends only on the OS command and the working directory, so proposing again changes nothing. */
  lemma {:induction false} ProposalIdempotent(p: Procezz)
    ensures DetectAndSetProposedExecCMD(p).Ok? ==>
              DetectAndSetProposedExecCMD(DetectAndSetProposedExecCMD(p).value) == DetectAndSetProposedExecCMD(p)
  {
    if DetectAndSetProposedExecCMD(p).Ok? {
      var q := DetectAndSetProposedExecCMD(p).value;
      assert q.osExecutionCommand == p.osExecutionCommand && q.workingDirectory == p.workingDirectory;
    }
  }

  /**
   * Applying the strategy to its own result changes nothing more: the name
   * and proposal depend only on the OS command and working directory, which
   * the strategy never touches.
   */
  lemma {:induction false} ApplyEntireStrategyIdempotent(p: Procezz)
    ensures ApplyEntireStrategy(ApplyEntireStrategy(p).1) == ApplyEntireStrategy(p)
  {
    if IsDesiredApplication(p) {
      var named := DetectAndSetName(p);
      assert DetectAndSetName(named) == named;
      match DetectAndSetProposedExecCMD(named)
      case Err(_) =>
      case Ok(q) =>
        ProposalIdempotent(named);
        assert q.osExecutionCommand == named.osExecutionCommand && q.name == named.name;
        assert DetectAndSetName(q) == q;
    }
  }
}
