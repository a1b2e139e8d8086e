/**
 * The older agent bootstrap: choosing the agent's port, building the agent
 * with its process list, and inserting the Kieker `-javaagent` argument into
 * a process's launch command.
 */
module ModelUtil {
  import opened Base
  import opened JavaStrings
  import opened Model

  const JAVAAGENT_PART := " -javaagent:"

  /**
   * The port the agent announces: the user-defined one when it has more than
   * one character, else the port of the embedded server.
   */
  function ChoosePort(userDefinedPort: string, embeddedPort: string): (r: string)
    ensures r == userDefinedPort <==> |userDefinedPort| > 1 || userDefinedPort == embeddedPort
    ensures r == embeddedPort <==> |userDefinedPort| <= 1 || userDefinedPort == embeddedPort
  {
    if |userDefinedPort| > 1 then userDefinedPort else embeddedPort
  }

  /**
   * `createAgentWithProcesses`, with the three properties and the process
   * listing passed in: a new agent holding exactly the listed processes, each
   * of which now points back to it.
   */
  method CreateAgentWithProcesses(ip: string, userDefinedPort: string, embeddedPort: string,
                                  processList: seq<Process>)
    returns (agent: Agent)
    modifies set p | p in processList
    ensures fresh(agent)
    ensures agent.ip == ip && agent.port == ChoosePort(userDefinedPort, embeddedPort)
    ensures agent.name == None && !agent.hidden
    ensures agent.processes == processList
    ensures forall p :: p in processList ==> p.agent == agent
    ensures forall p :: p in processList ==> p.pid == old(p.pid) && p.executionCommand == old(p.executionCommand)
  {
    var port := ChoosePort(userDefinedPort, embeddedPort);
    agent := new Agent(ip, port);
    agent.processes := processList;
    var i := 0;
    while i < |processList|
      invariant 0 <= i <= |processList|
      invariant agent.ip == ip && agent.port == port && agent.name == None && !agent.hidden
      invariant agent.processes == processList
      invariant forall k :: 0 <= k < i ==> processList[k].agent == agent
      invariant forall p :: p in processList ==> p.pid == old(p.pid) && p.executionCommand == old(p.executionCommand)
    {
      processList[i].agent := agent;
      i := i + 1;
    }
  }

  /**
   * `injectKiekerAgentInProcess` as written: the launcher, the `-javaagent`
   * argument, and the rest of the command glued straight onto the jar path.
   * A command without whitespace has no second fragment.
   */
  function InjectJavaagentAsWritten(executionCommand: string, kiekerJarPath: string): (r: Result<string>)
    ensures r.Err? <==> NoWhitespace(executionCommand)
    ensures r.Err? ==> r.error == IndexOutOfBounds
  {
    var fragments := SplitAtWhitespace(executionCommand);
    if |fragments| < 2 then Err(IndexOutOfBounds)
    else Ok(fragments[0] + JAVAAGENT_PART + kiekerJarPath + fragments[1])
  }

  /** The injection as written of a command that splits into a launcher and a rest. */
  lemma {:induction false} InjectJavaagentAsWrittenOf(executionCommand: string, launcher: string, rest: string, kiekerJarPath: string)
    requires SplitAtWhitespace(executionCommand) == [launcher, rest]
    ensures InjectJavaagentAsWritten(executionCommand, kiekerJarPath) == Ok(launcher + " " + ("-javaagent:" + kiekerJarPath + rest))
  {
    assert JAVAAGENT_PART == " " + "-javaagent:";
    assert launcher + JAVAAGENT_PART + kiekerJarPath + rest == launcher + " " + ("-javaagent:" + kiekerJarPath + rest);
  }

  /** The first token of a string is at least as long as its whitespace-free start. */
  lemma {:induction false} FirstTokenCovers(s: string, n: nat)
    requires n < |s|
    requires forall k :: 0 <= k <= n ==> !IsWhitespace(s[k])
    ensures |SplitAtWhitespace(s)[0]| > n
  {
    match FirstWhitespace(s, 0)
    case None =>
    case Some(i) => assert i > n;
  }

  /**
   * As written, the argument after the launcher is glued onto the jar path:
   * `java -jar app.jar` with jar `/k.jar` turns into
   * `java -javaagent:/k.jar-jar app.jar`, whose first argument is not the
   * `-javaagent` argument but a path to a jar that does not exist.
   */
  lemma {:induction false} AsWrittenGluesNextArgumentToJar(launcher: string, kiekerJarPath: string, rest: string)
    requires NoWhitespace(launcher) && NoWhitespace(kiekerJarPath)
    requires rest != [] && !IsWhitespace(rest[0])
    ensures InjectJavaagentAsWritten(launcher + " " + rest, kiekerJarPath)
            == Ok(launcher + " " + ("-javaagent:" + kiekerJarPath + rest))
    ensures SplitAtWhitespace(launcher + " " + ("-javaagent:" + kiekerJarPath + rest))
            == [launcher, "-javaagent:" + kiekerJarPath + rest]
    ensures SplitAtWhitespace("-javaagent:" + kiekerJarPath + rest)[0] != "-javaagent:" + kiekerJarPath
  {
    SplitAtWhitespaceOf(launcher, " ", rest);
    var agentArgument := "-javaagent:" + kiekerJarPath;
    var glued := agentArgument + rest;
    InjectJavaagentAsWrittenOf(launcher + " " + rest, launcher, rest, kiekerJarPath);
    SplitAtWhitespaceOf(launcher, " ", glued);
    var n := |agentArgument|;
    forall k | 0 <= k <= n
      ensures !IsWhitespace(glued[k])
    {
      if k < 11 {
        assert glued[k] == "-javaagent:"[k];
      } else if k < n {
        assert glued[k] == kiekerJarPath[k - 11];
      } else {
        assert glued[k] == rest[0];
      }
    }
    FirstTokenCovers(glued, n);
  }

  /**
   * The evidently intended injection: the `-javaagent` argument as a token of
   * its own between the launcher and the rest of the command.
   */
  function InjectJavaagent(executionCommand: string, kiekerJarPath: string): (r: Result<string>)
    ensures r.Err? <==> NoWhitespace(executionCommand)
    ensures r.Err? ==> r.error == IndexOutOfBounds
  {
    var fragments := SplitAtWhitespace(executionCommand);
    if |fragments| < 2 then Err(IndexOutOfBounds)
    else Ok(fragments[0] + JAVAAGENT_PART + kiekerJarPath + " " + fragments[1])
  }

  /** The corrected injection of a command that splits into a launcher and a rest. */
  lemma {:induction false} InjectJavaagentOf(executionCommand: string, launcher: string, rest: string, kiekerJarPath: string)
    requires SplitAtWhitespace(executionCommand) == [launcher, rest]
    ensures InjectJavaagent(executionCommand, kiekerJarPath) == Ok(launcher + " " + ("-javaagent:" + kiekerJarPath + " " + rest))
  {
    assert JAVAAGENT_PART == " " + "-javaagent:";
    assert launcher + JAVAAGENT_PART + kiekerJarPath + " " + rest
        == launcher + " " + ("-javaagent:" + kiekerJarPath + " " + rest);
  }

  /**
   * With the space restored, splitting the new command gives back the
   * launcher, then the `-javaagent` argument on its own, then the arguments
   * of the original command.
   */
  lemma {:induction false} InjectJavaagentKeepsTokens(launcher: string, gap: string, kiekerJarPath: string, rest: string)
    requires NoWhitespace(launcher) && NoWhitespace(kiekerJarPath)
    requires gap != [] && AllWhitespace(gap)
    requires rest == [] || !IsWhitespace(rest[0])
    ensures InjectJavaagent(launcher + gap + rest, kiekerJarPath).Ok?
    ensures var injected := InjectJavaagent(launcher + gap + rest, kiekerJarPath).value;
            && SplitAtWhitespace(injected) == [launcher, "-javaagent:" + kiekerJarPath + " " + rest]
            && SplitAtWhitespace("-javaagent:" + kiekerJarPath + " " + rest) == ["-javaagent:" + kiekerJarPath, rest]
  {
    SplitAtWhitespaceOf(launcher, gap, rest);
    var agentArgument := "-javaagent:" + kiekerJarPath;
    assert NoWhitespace(agentArgument) by {
      forall k | 0 <= k < |agentArgument|
        ensures !IsWhitespace(agentArgument[k])
      {
        if k >= 11 {
          assert agentArgument[k] == kiekerJarPath[k - 11];
        }
      }
    }
    var tail := agentArgument + " " + rest;
    InjectJavaagentOf(launcher + gap + rest, launcher, rest, kiekerJarPath);
    assert tail[0] == '-';
    SplitAtWhitespaceOf(launcher, " ", tail);
    SplitAtWhitespaceOf(agentArgument, " ", rest);
  }

  /**
   * `injectKiekerAgentInProcess` with the jar path the class loader resolves
   * passed in, doing what the source does: the process's command is replaced
   * by the injection as written, or left as it was when it has no second
   * fragment (the source then throws).
   */
  method InjectKiekerAgentInProcess(process: Process, kiekerJarPath: string) returns (outcome: Outcome)
    modifies process
    ensures !NoWhitespace(old(process.executionCommand)) ==>
              && outcome == Pass
              && process.executionCommand == InjectJavaagentAsWritten(old(process.executionCommand), kiekerJarPath).value
              && process.executionCommand
                 == SplitAtWhitespace(old(process.executionCommand))[0] + JAVAAGENT_PART + kiekerJarPath
                    + SplitAtWhitespace(old(process.executionCommand))[1]
    ensures NoWhitespace(old(process.executionCommand)) ==>
              outcome == Fail(IndexOutOfBounds) && process.executionCommand == old(process.executionCommand)
    ensures process.pid == old(process.pid) && process.agent == old(process.agent)
  {
    var injected := InjectJavaagentAsWritten(process.executionCommand, kiekerJarPath);
    if injected.Err? {
      return Fail(injected.error);
    }
    process.executionCommand := injected.value;
    return Pass;
  }
}
