/**
 * The Windows/Java management type: its snapshot of OS processes, and the
 * command surgery that adds or removes the identification marker and the
 * Kieker monitoring arguments. It splits a launch command into the launcher
 * (a quoted path, or the text before the first whitespace run) and the rest,
 * and inserts new arguments between the two.
 */
module WinJava {
  import opened Base
  import opened JavaStrings
  import opened Model

  const USE_OS_FLAG := "Use-OS-Exec-CMD"
  const MODEL_ID_FLAG := "-Dexplorviz.agent.model.id="
  const SKIP_DEFAULT_AOP := "-Dkieker.monitoring.skipDefaultAOPConfiguration=true"
  const JAVAAGENT_OPTION := "-javaagent:"
  const KIEKER_CONFIGURATION_OPTION := "-Dkieker.monitoring.configuration="
  const AOP_CONFIGURATION_OPTION := "-Dorg.aspectj.weaver.loadtime.configuration=file://"
  const QUOTE := "\""
  const DESCRIPTOR := "WinJava"
  const LANGUAGE := "java"
  const OS_TYPE := "windows"

  // ---------------------------------------------------------------------------
  // The marker regex  \s-Dexplorviz.agent.model.id=([^\s]+)
  // Its dots are not escaped, so each one matches any character but a line
  // terminator.
  // ---------------------------------------------------------------------------

  predicate FlagCharMatches(pattern: char, c: char) {
    if pattern == '.' then !IsLineTerminator(c) else c == pattern
  }

  /** The literal part `flag` of the regex, dots as wildcards, matches `s` from index `i` on. */
  predicate FlagPatternAt(s: string, flag: string, i: nat) {
    i + |flag| <= |s|
    && forall k {:trigger flag[k]} :: 0 <= k < |flag| ==> FlagCharMatches(flag[k], s[i + k])
  }

  /** The regex `\s` + `flag` + `([^\s]+)` matches at `i`: one `\s`, the flag, and at least one non-`\s` character. */
  predicate MarkerAt(s: string, flag: string, i: nat) {
    && i + 1 + |flag| < |s|
    && IsWhitespace(s[i])
    && FlagPatternAt(s, flag, i + 1)
    && !IsWhitespace(s[i + 1 + |flag|])
  }

  /** The leftmost match at or after `from`, as `Matcher.find` reports it. */
  function FirstMarker(s: string, flag: string, from: nat): (r: Option<nat>)
    decreases |s| - from
    ensures r.Some? ==> from <= r.value && MarkerAt(s, flag, r.value)
    ensures r.Some? ==> forall j :: from <= j < r.value ==> !MarkerAt(s, flag, j)
    ensures r.None? ==> forall j :: from <= j ==> !MarkerAt(s, flag, j)
  {
    if from >= |s| then None
    else if MarkerAt(s, flag, from) then Some(from)
    else FirstMarker(s, flag, from + 1)
  }

  /**
   * `replaceFirst` with that regex and the empty replacement: the leftmost
   * match (its leading whitespace character, the flag and the whole greedy
   * id) is cut out; any later match stays.
   */
  function StripFirstMarker(s: string, flag: string): (r: string)
    ensures |r| <= |s|
  {
    match FirstMarker(s, flag, 0)
    case None => s
    case Some(i) => s[..i] + s[NonWhitespaceRunEnd(s, i + 1 + |flag|)..]
  }

  /** `cmd.replaceFirst(EXPORVIZ_MODEL_ID_FLAG_REGEX, "")`. */
  function StripMarker(cmd: string): (r: string)
    ensures (forall j :: !MarkerAt(cmd, MODEL_ID_FLAG, j)) ==> r == cmd
    ensures (exists j :: MarkerAt(cmd, MODEL_ID_FLAG, j)) ==> |r| < |cmd|
  {
    StripFirstMarker(cmd, MODEL_ID_FLAG)
  }

  /**
   * After `pfx`, no whitespace character is followed by `-`, and `pfx` does
   * not end in whitespace: a launcher token as the splitter produces it. No
   * marker can start inside such a prefix.
   */
  predicate NoDashAfterWhitespace(pfx: string) {
    forall k :: 0 <= k < |pfx| && IsWhitespace(pfx[k]) ==> k + 1 < |pfx| && pfx[k + 1] != '-'
  }

  /** The non-whitespace run from `a` ends at the first whitespace character at or after it. */
  lemma {:induction false} NonWhitespaceRunEndAt(s: string, a: nat, b: nat)
    requires a <= b < |s| && IsWhitespace(s[b])
    requires forall k :: a <= k < b ==> !IsWhitespace(s[k])
    ensures NonWhitespaceRunEnd(s, a) == b
  {
  }

  /** The leftmost match is the one that has none before it. */
  lemma {:induction false} FirstMarkerAt(s: string, flag: string, m: nat)
    requires MarkerAt(s, flag, m)
    requires forall j :: 0 <= j < m ==> !MarkerAt(s, flag, j)
    ensures FirstMarker(s, flag, 0) == Some(m)
  {
  }

  /** No match starts inside a launcher that never puts `-` after whitespace, in front of a space. */
  lemma {:induction false} NoMarkerInLauncher(s: string, pfx: string, flag: string)
    requires flag != [] && flag[0] == '-'
    requires NoDashAfterWhitespace(pfx)
    requires |pfx| < |s| && s[..|pfx|] == pfx && s[|pfx|] == ' '
    ensures forall j :: 0 <= j < |pfx| ==> !MarkerAt(s, flag, j)
  {
    forall j | 0 <= j < |pfx|
      ensures !MarkerAt(s, flag, j)
    {
      assert s[j] == pfx[j];
      if IsWhitespace(s[j]) {
        assert s[j + 1] == pfx[j + 1];
        assert !FlagCharMatches(flag[0], s[j + 1]);
      }
    }
  }

  /** A flag without line terminators matches itself wherever it is placed. */
  lemma {:induction false} FlagMatchesItself(s: string, flag: string, i: nat)
    requires forall k :: 0 <= k < |flag| ==> !IsLineTerminator(flag[k])
    requires i + |flag| <= |s| && s[i..i + |flag|] == flag
    ensures FlagPatternAt(s, flag, i)
  {
    forall k | 0 <= k < |flag|
      ensures FlagCharMatches(flag[k], s[i + k])
    {
      assert s[i + k] == s[i..i + |flag|][k];
    }
  }

  /** The leftmost match in a command that holds such a flag right after such a launcher is that flag. */
  lemma {:induction false} FirstMarkerAfterLauncher(s: string, pfx: string, flag: string)
    requires flag != [] && flag[0] == '-'
    requires forall k :: 0 <= k < |flag| ==> !IsLineTerminator(flag[k])
    requires NoDashAfterWhitespace(pfx)
    requires |pfx| + 1 + |flag| < |s| && s[..|pfx|] == pfx && s[|pfx|] == ' '
    requires s[|pfx| + 1..|pfx| + 1 + |flag|] == flag && !IsWhitespace(s[|pfx| + 1 + |flag|])
    ensures FirstMarker(s, flag, 0) == Some(|pfx|)
  {
    NoMarkerInLauncher(s, pfx, flag);
    FlagMatchesItself(s, flag, |pfx| + 1);
    FirstMarkerAt(s, flag, |pfx|);
  }

  /** What is cut out once the leftmost match is known. */
  lemma {:induction false} StripFirstMarkerAt(s: string, flag: string, i: nat, e: nat)
    requires FirstMarker(s, flag, 0) == Some(i)
    requires i + 1 + |flag| <= |s| && NonWhitespaceRunEnd(s, i + 1 + |flag|) == e
    ensures i <= e <= |s|
    ensures StripFirstMarker(s, flag) == s[..i] + s[e..]
  {
  }

  /**
   * Cutting the leftmost match out of a command laid out as the launcher, one
   * space, the flag, a non-empty id and a space before the rest.
   */
  lemma {:induction false} StripAfterLauncher(s: string, pfx: string, flag: string, idEnd: nat, rest: string)
    requires flag != [] && flag[0] == '-'
    requires forall k :: 0 <= k < |flag| ==> !IsLineTerminator(flag[k])
    requires NoDashAfterWhitespace(pfx)
    requires |pfx| + 1 + |flag| < idEnd < |s|
    requires s[..|pfx|] == pfx && s[|pfx|] == ' ' && s[|pfx| + 1..|pfx| + 1 + |flag|] == flag
    requires forall k :: |pfx| + 1 + |flag| <= k < idEnd ==> !IsWhitespace(s[k])
    requires s[idEnd] == ' ' && s[idEnd..] == " " + rest
    ensures StripFirstMarker(s, flag) == pfx + " " + rest
  {
    FirstMarkerAfterLauncher(s, pfx, flag);
    NonWhitespaceRunEndAt(s, |pfx| + 1 + |flag|, idEnd);
    StripFirstMarkerAt(s, flag, |pfx|, idEnd);
    assert s[..|pfx|] + s[idEnd..] == pfx + " " + rest;
  }

  /** A flag that starts with `-` and holds no line terminator, inserted after such a launcher, is the match that is cut out. */
  lemma {:induction false} StripInsertedFlag(pfx: string, flag: string, id: string, rest: string)
    requires flag != [] && flag[0] == '-'
    requires forall k :: 0 <= k < |flag| ==> !IsLineTerminator(flag[k])
    requires NoDashAfterWhitespace(pfx)
    requires id != [] && NoWhitespace(id)
    ensures StripFirstMarker(pfx + " " + flag + id + " " + rest, flag) == pfx + " " + rest
  {
    SliceFacts(pfx, flag, id, rest);
    StripAfterLauncher(pfx + " " + flag + id + " " + rest, pfx, flag, |pfx| + 1 + |flag| + |id|, rest);
  }

  /** Where the pieces of an injected command sit. */
  lemma {:induction false} SliceFacts(pfx: string, flag: string, id: string, rest: string)
    requires id != [] && NoWhitespace(id)
    ensures var s := pfx + " " + flag + id + " " + rest;
            var idStart := |pfx| + 1 + |flag|;
            var idEnd := idStart + |id|;
            && |s| == idEnd + 1 + |rest|
            && s[..|pfx|] == pfx && s[|pfx|] == ' '
            && s[|pfx| + 1..idStart] == flag
            && !IsWhitespace(s[idStart])
            && (forall k :: idStart <= k < idEnd ==> !IsWhitespace(s[k]))
            && s[idEnd] == ' ' && s[idEnd..] == " " + rest
  {
    var s := pfx + " " + flag + id + " " + rest;
    var idStart := |pfx| + 1 + |flag|;
    var idEnd := idStart + |id|;
    var head := pfx + " " + flag;
    assert s == head + id + " " + rest;
    assert s[..|pfx|] == pfx;
    assert s[|pfx| + 1..idStart] == flag;
    assert forall k :: idStart <= k < idEnd ==> s[k] == id[k - idStart];
    assert s[idEnd..] == " " + rest;
  }

  /**
   * Stripping the marker from a command in which it was inserted after the
   * launcher gives the launcher and the rest joined by one space, whatever
   * markers the rest still holds.
   */
  lemma {:induction false} StripInsertedMarker(pfx: string, id: string, rest: string)
    requires NoDashAfterWhitespace(pfx)
    requires id != [] && NoWhitespace(id)
    ensures StripMarker(pfx + " " + MODEL_ID_FLAG + id + " " + rest) == pfx + " " + rest
  {
    StripInsertedFlag(pfx, MODEL_ID_FLAG, id, rest);
  }

  // ---------------------------------------------------------------------------
  // splitter
  // ---------------------------------------------------------------------------

  /**
   * `splitter`: a command that starts with a quote is cut after its second
   * quote, and the first whitespace run of the rest is dropped; any other
   * command is cut at its first whitespace run. A quoted command without a
   * closing quote has no third `split` fragment, which Java reports as an
   * index out of bounds.
   */
  function Splitter(cmd: string): (r: Result<seq<string>>)
    ensures r.Ok? ==> 1 <= |r.value| <= 2
    ensures r.Err? ==> r.error == IndexOutOfBounds && StartsWith(cmd, QUOTE)
    ensures r.Ok? && StartsWith(cmd, QUOTE) ==> |r.value| == 2
  {
    if StartsWith(cmd, QUOTE) then
      var fragments := SplitLimit(cmd, QUOTE, 3);
      if |fragments| < 3 then Err(IndexOutOfBounds)
      else Ok([QUOTE + fragments[1] + QUOTE, RemoveFirstWhitespaceRun(fragments[2])])
    else
      Ok(SplitAtWhitespace(cmd))
  }

  /** A quoted launcher path, spaces and all, stays one fragment. */
  lemma {:induction false} SplitterQuoted(path: string, rest: string)
    requires '"' !in path
    ensures Splitter(QUOTE + path + QUOTE + rest) == Ok([QUOTE + path + QUOTE, RemoveFirstWhitespaceRun(rest)])
  {
    var s := QUOTE + path + QUOTE + rest;
    assert s[..1] == QUOTE;
    assert OccursAt(s, QUOTE, 0);
    assert IndexOfFrom(s, QUOTE, 0) == Some(0);
    assert s[1..] == path + QUOTE + rest;
    forall j | 0 <= j < |path|
      ensures !OccursAt(path + QUOTE, QUOTE, j)
    {
      assert (path + QUOTE)[j..j + 1] == [path[j]];
    }
    SplitTwoAtFirst(path, QUOTE, rest);
    assert SplitLimit(s, QUOTE, 3) == [""] + SplitLimit(s[1..], QUOTE, 2);
  }

  /** A quote that is never closed makes the splitter fail. */
  lemma {:induction false} SplitterUnclosedQuote(path: string)
    requires '"' !in path
    ensures Splitter(QUOTE + path) == Err(IndexOutOfBounds)
  {
    var s := QUOTE + path;
    assert s[..1] == QUOTE;
    assert OccursAt(s, QUOTE, 0);
    assert IndexOfFrom(s, QUOTE, 0) == Some(0);
    assert s[1..] == path;
    forall j | 0 <= j
      ensures !OccursAt(path, QUOTE, j)
    {
      if j + 1 <= |path| {
        assert path[j..j + 1] == [path[j]];
      }
    }
    SplitLimitAbsent(path, QUOTE, 2);
    assert SplitLimit(s, QUOTE, 3) == [""] + SplitLimit(path, QUOTE, 2);
  }

  /** An unquoted command is cut at its first whitespace run. */
  lemma {:induction false} SplitterUnquoted(launcher: string, gap: string, rest: string)
    requires NoWhitespace(launcher) && (launcher == [] || launcher[0] != '"')
    requires gap != [] && AllWhitespace(gap)
    requires rest == [] || !IsWhitespace(rest[0])
    ensures Splitter(launcher + gap + rest) == Ok([launcher, rest])
  {
    var s := launcher + gap + rest;
    assert s[0] == if launcher == [] then gap[0] else launcher[0];
    assert !StartsWith(s, QUOTE);
    SplitAtWhitespaceOf(launcher, gap, rest);
  }

  /** An unquoted command without whitespace is one fragment. */
  lemma {:induction false} SplitterSingleToken(cmd: string)
    requires NoWhitespace(cmd) && (cmd == [] || cmd[0] != '"')
    ensures Splitter(cmd) == Ok([cmd])
  {
    assert !StartsWith(cmd, QUOTE);
  }

  /**
   * A quoted launcher path, the whitespace after it and the arguments split
   * into the quoted path and the arguments, as for
   * `"C:\\Program Files\\java.exe" -jar app.jar`.
   */
  lemma {:induction false} SplitterQuotedLauncher(path: string, gap: string, rest: string)
    requires '"' !in path
    requires gap != [] && AllWhitespace(gap)
    requires rest == [] || !IsWhitespace(rest[0])
    ensures Splitter(QUOTE + path + QUOTE + (gap + rest)) == Ok([QUOTE + path + QUOTE, rest])
  {
    SplitterQuoted(path, gap + rest);
    RemoveLeadingWhitespaceRun(gap, rest);
  }

  /** The launcher fragment of an unquoted command can never hide a marker. */
  lemma {:induction false} UnquotedLauncherIsMarkerFree(cmd: string)
    requires Splitter(cmd).Ok? && !StartsWith(cmd, QUOTE)
    ensures NoDashAfterWhitespace(Splitter(cmd).value[0])
  {
  }

  // ---------------------------------------------------------------------------
  // The effective command and the two injections
  // ---------------------------------------------------------------------------

  /** The command an injection starts from: the user's command when set and non-empty, else the OS's. */
  function EffectiveCommand(p: Procezz): (r: Result<string>)
    ensures r.Err? <==> (p.userExecutionCommand.None? || p.userExecutionCommand.value == []) && p.osExecutionCommand.None?
    ensures r.Err? ==> r.error == NullReference
    ensures p.userExecutionCommand.Some? && p.userExecutionCommand.value != [] ==> r == Ok(p.userExecutionCommand.value)
    ensures (p.userExecutionCommand.None? || p.userExecutionCommand.value == []) && p.osExecutionCommand.Some?
            ==> r == Ok(p.osExecutionCommand.value)
  {
    if p.userExecutionCommand.Some? && |p.userExecutionCommand.value| > 0 then Ok(p.userExecutionCommand.value)
    else if p.osExecutionCommand.Some? then Ok(p.osExecutionCommand.value)
    else Err(NullReference)
  }

  /**
   * The launcher and the rest of a command once its first marker is gone.
   * Both a failing splitter and a missing second fragment end the injection
   * with a start error.
   */
  function LaunchFragments(cmd: string): (r: Result<(string, string)>)
    ensures r.Err? ==> r.error == StartError
    ensures r.Ok? <==> Splitter(StripMarker(cmd)).Ok? && |Splitter(StripMarker(cmd)).value| == 2
  {
    var fragments := Splitter(StripMarker(cmd));
    if fragments.Err? || |fragments.value| < 2 then Err(StartError)
    else Ok((fragments.value[0], fragments.value[1]))
  }

  /**
   * The launch command both injections build: the launcher, one space, the
   * inserted arguments (which end in the marker flag), the record's id, one
   * space, and the rest of the original command.
   */
  function Injected(launcher: string, arguments: string, id: string, rest: string): string {
    launcher + " " + arguments + id + " " + rest
  }

  /** The marker flag with the id right after it survives in the injected command. */
  lemma {:induction false} InjectedContainsMarker(launcher: string, before: string, flag: string, id: string, rest: string)
    ensures Contains(Injected(launcher, before + flag, id, rest), flag + id)
  {
    var head := launcher + " ";
    assert head + (before + flag) + id == (head + before) + (flag + id);
    ContainsSuffix(head + before, flag + id);
    ContainsExtend(head + (before + flag) + id, flag + id, " ");
    ContainsExtend(head + (before + flag) + id + " ", flag + id, rest);
  }

  /** Inserting more arguments before the flag only widens the middle of the command. */
  lemma {:induction false} InjectedSplice(launcher: string, before: string, flag: string, id: string, rest: string)
    ensures var n := |launcher| + 1;
            var shorter := Injected(launcher, flag, id, rest);
            n <= |shorter| && Injected(launcher, before + flag, id, rest) == shorter[..n] + before + shorter[n..]
  {
    var n := |launcher| + 1;
    var shorter := Injected(launcher, flag, id, rest);
    assert shorter == (launcher + " ") + (flag + id + " " + rest);
    assert shorter[..n] == launcher + " ";
    assert shorter[n..] == flag + id + " " + rest;
  }

  /**
   * `injectProcezzIdentificationProperty`: the agent command becomes the
   * launcher, the marker with this record's id, and the rest.
   */
  function InjectProcezzIdentificationProperty(p: Procezz): (r: Result<Procezz>)
    ensures EffectiveCommand(p).Err? ==> r == Err(NullReference)
    ensures EffectiveCommand(p).Ok? ==> (r.Err? <==> LaunchFragments(EffectiveCommand(p).value).Err?)
    ensures r.Err? ==> r.error in {NullReference, StartError}
    ensures r.Ok? ==> r.value == p.(agentExecutionCommand := r.value.agentExecutionCommand)
    ensures r.Ok? ==> var (launcher, rest) := LaunchFragments(EffectiveCommand(p).value).value;
                      r.value.agentExecutionCommand == Some(launcher + " " + MODEL_ID_FLAG + p.id + " " + rest)
    ensures r.Ok? ==> r.value.agentExecutionCommand.Some?
                      && Contains(r.value.agentExecutionCommand.value, MODEL_ID_FLAG + p.id)
  {
    var cmd :- EffectiveCommand(p);
    var fragments :- LaunchFragments(cmd);
    InjectedContainsMarker(fragments.0, "", MODEL_ID_FLAG, p.id, fragments.1);
    assert "" + MODEL_ID_FLAG == MODEL_ID_FLAG;
    Ok(p.(agentExecutionCommand := Some(Injected(fragments.0, MODEL_ID_FLAG, p.id, fragments.1))))
  }

  /**
   * Where the monitoring configuration of a record lives, as the monitoring
   * file service reports it; `None` is a path that cannot be made a URL.
   */
  datatype MonitoringFilesystem = MonitoringFilesystem(
    kiekerJarPath: string,
    kiekerConfigPathFor: string -> Option<string>,
    aopConfigPathFor: string -> Option<string>)

  /** The Kieker arguments, each followed by one space, before the marker flag. */
  function KiekerArguments(jar: string, config: string, aop: string): string {
    JAVAAGENT_OPTION + jar + " " + KIEKER_CONFIGURATION_OPTION + config + " "
    + AOP_CONFIGURATION_OPTION + aop + " " + SKIP_DEFAULT_AOP + " "
  }

  /**
   * `prepareMonitoringJvmarguments`: the Kieker agent, its configuration, the
   * weaver configuration, the skip flag, and the marker flag awaiting its id.
   */
  function PrepareMonitoringJvmArguments(id: string, fs: MonitoringFilesystem): (r: Result<string>)
    ensures r.Err? <==> fs.kiekerConfigPathFor(id).None? || fs.aopConfigPathFor(id).None?
    ensures r.Err? ==> r.error == MalformedUrl
    ensures r.Ok? ==> r.value == KiekerArguments(fs.kiekerJarPath, fs.kiekerConfigPathFor(id).value,
                                                 fs.aopConfigPathFor(id).value) + MODEL_ID_FLAG
  {
    match fs.kiekerConfigPathFor(id)
    case None => Err(MalformedUrl)
    case Some(config) =>
      match fs.aopConfigPathFor(id)
      case None => Err(MalformedUrl)
      case Some(aop) => Ok(KiekerArguments(fs.kiekerJarPath, config, aop) + MODEL_ID_FLAG)
  }

  /**
   * `injectMonitoringAgentInProcezz`: the agent command becomes the launcher,
   * the Kieker arguments, the marker with this record's id, and the rest.
   */
  function InjectMonitoringAgentInProcezz(p: Procezz, fs: MonitoringFilesystem): (r: Result<Procezz>)
    ensures EffectiveCommand(p).Err? ==> r == Err(NullReference)
    ensures EffectiveCommand(p).Ok? ==>
              (r.Err? <==> LaunchFragments(EffectiveCommand(p).value).Err? || PrepareMonitoringJvmArguments(p.id, fs).Err?)
    ensures r.Err? ==> r.error in {NullReference, StartError}
    ensures r.Ok? ==> r.value == p.(agentExecutionCommand := r.value.agentExecutionCommand)
    ensures r.Ok? ==> var (launcher, rest) := LaunchFragments(EffectiveCommand(p).value).value;
                      r.value.agentExecutionCommand
                      == Some(launcher + " " + PrepareMonitoringJvmArguments(p.id, fs).value + p.id + " " + rest)
    ensures r.Ok? ==> r.value.agentExecutionCommand.Some?
                      && Contains(r.value.agentExecutionCommand.value, MODEL_ID_FLAG + p.id)
  {
    var cmd :- EffectiveCommand(p);
    var fragments :- LaunchFragments(cmd);
    var arguments := PrepareMonitoringJvmArguments(p.id, fs);
    if arguments.Err? then Err(StartError)
    else
      InjectedContainsMarker(fragments.0, KiekerArguments(fs.kiekerJarPath, fs.kiekerConfigPathFor(p.id).value,
                                                          fs.aopConfigPathFor(p.id).value),
                             MODEL_ID_FLAG, p.id, fragments.1);
      Ok(p.(agentExecutionCommand := Some(Injected(fragments.0, arguments.value, p.id, fragments.1))))
  }

  /**
   * The monitoring command is the identity command with the Kieker arguments
   * inserted right after the launcher and its space. Where the identity
   * injection succeeds, it fails exactly when a configuration path cannot be
   * made a URL.
   */
  lemma {:induction false} MonitoringExtendsIdentity(p: Procezz, fs: MonitoringFilesystem)
    ensures InjectProcezzIdentificationProperty(p).Ok? ==>
              (PrepareMonitoringJvmArguments(p.id, fs).Err? <==> InjectMonitoringAgentInProcezz(p, fs).Err?)
    ensures InjectProcezzIdentificationProperty(p).Ok? && InjectMonitoringAgentInProcezz(p, fs).Ok? ==>
      var identity := InjectProcezzIdentificationProperty(p).value.agentExecutionCommand.value;
      var monitoring := InjectMonitoringAgentInProcezz(p, fs).value.agentExecutionCommand.value;
      var n := |LaunchFragments(EffectiveCommand(p).value).value.0| + 1;
      n <= |identity|
      && monitoring == identity[..n] + KiekerArguments(fs.kiekerJarPath, fs.kiekerConfigPathFor(p.id).value,
                                                       fs.aopConfigPathFor(p.id).value) + identity[n..]
  {
    if InjectProcezzIdentificationProperty(p).Ok? && InjectMonitoringAgentInProcezz(p, fs).Ok? {
      var fragments := LaunchFragments(EffectiveCommand(p).value).value;
      InjectedSplice(fragments.0, KiekerArguments(fs.kiekerJarPath, fs.kiekerConfigPathFor(p.id).value,
                                                  fs.aopConfigPathFor(p.id).value),
                     MODEL_ID_FLAG, p.id, fragments.1);
    }
  }

  /** A single-token effective command has no second fragment: both injections fail to start. */
  lemma {:induction false} InjectionNeedsTwoFragments(p: Procezz, fs: MonitoringFilesystem)
    requires EffectiveCommand(p).Ok?
    requires NoWhitespace(EffectiveCommand(p).value)
    requires EffectiveCommand(p).value == [] || EffectiveCommand(p).value[0] != '"'
    ensures InjectProcezzIdentificationProperty(p) == Err(StartError)
    ensures InjectMonitoringAgentInProcezz(p, fs) == Err(StartError)
  {
    var cmd := EffectiveCommand(p).value;
    assert forall j :: !MarkerAt(cmd, MODEL_ID_FLAG, j);
    SplitterSingleToken(cmd);
  }

  /** `removeMonitoringAgentInProcezz`: the agent command becomes the effective command with its first marker cut out. */
  function RemoveMonitoringAgentInProcezz(p: Procezz): (r: Result<Procezz>)
    ensures EffectiveCommand(p).Err? <==> r == Err(NullReference)
    ensures r.Ok? ==> r.value == p.(agentExecutionCommand := Some(StripMarker(EffectiveCommand(p).value)))
  {
    var cmd :- EffectiveCommand(p);
    Ok(p.(agentExecutionCommand := Some(StripMarker(cmd))))
  }

  /**
   * Removal after a restart: a record whose effective command is an
   * identity-injected command gets back the launcher and the rest joined by
   * one space: the original command up to its first whitespace run.
   */
  lemma {:induction false} RemoveUndoesIdentityInjection(p: Procezz, q: Procezz)
    requires InjectProcezzIdentificationProperty(p).Ok?
    requires p.id != [] && NoWhitespace(p.id)
    requires NoDashAfterWhitespace(LaunchFragments(EffectiveCommand(p).value).value.0)
    requires EffectiveCommand(q) == Ok(InjectProcezzIdentificationProperty(p).value.agentExecutionCommand.value)
    ensures var (launcher, rest) := LaunchFragments(EffectiveCommand(p).value).value;
            RemoveMonitoringAgentInProcezz(q) == Ok(q.(agentExecutionCommand := Some(launcher + " " + rest)))
  {
    var (launcher, rest) := LaunchFragments(EffectiveCommand(p).value).value;
    StripInsertedMarker(launcher, p.id, rest);
  }

  /**
   * The round trip on an unquoted command without a marker: injecting the
   * identity and removing it again restores the command exactly when its
   * first whitespace run is a single space.
   */
  lemma {:induction false} IdentityRoundTripUnquoted(p: Procezz, q: Procezz, launcher: string, rest: string)
    requires EffectiveCommand(p) == Ok(launcher + " " + rest)
    requires forall j :: !MarkerAt(launcher + " " + rest, MODEL_ID_FLAG, j)
    requires NoWhitespace(launcher) && (launcher == [] || launcher[0] != '"')
    requires rest == [] || !IsWhitespace(rest[0])
    requires p.id != [] && NoWhitespace(p.id)
    requires q.userExecutionCommand.None?
    requires q.osExecutionCommand == Some(launcher + " " + MODEL_ID_FLAG + p.id + " " + rest)
    ensures InjectProcezzIdentificationProperty(p).Ok?
    ensures InjectProcezzIdentificationProperty(p).value.agentExecutionCommand == q.osExecutionCommand
    ensures RemoveMonitoringAgentInProcezz(q) == Ok(q.(agentExecutionCommand := Some(launcher + " " + rest)))
  {
    SplitterUnquoted(launcher, " ", rest);
    assert LaunchFragments(launcher + " " + rest) == Ok((launcher, rest));
    StripInsertedMarker(launcher, p.id, rest);
  }

  /**
   * `compareProcezzesByIdentificationProperty`: records of different
   * management types cannot be compared; otherwise `p2` is `p1` relaunched
   * when its OS command carries `p1`'s marker.
   */
  function CompareProcezzesByIdentificationProperty(p1: Procezz, p2: Procezz): (r: Result<bool>)
    ensures r == Err(Incompatible) <==> p1.managementType.Some? && p1.managementType != p2.managementType
    ensures r.Ok? <==> p1.managementType.Some? && p1.managementType == p2.managementType && p2.osExecutionCommand.Some?
    ensures r.Ok? ==> (r.value <==> exists j :: OccursAt(p2.osExecutionCommand.value, MODEL_ID_FLAG + p1.id, j))
  {
    if p1.managementType.None? then Err(NullReference)
    else if p1.managementType != p2.managementType then Err(Incompatible)
    else if p2.osExecutionCommand.None? then Err(NullReference)
    else Ok(Contains(p2.osExecutionCommand.value, MODEL_ID_FLAG + p1.id))
  }

  /** A process launched with a record's identity-injected command is recognised as that record. */
  lemma {:induction false} CompareRecognisesInjectedCommand(p: Procezz, q: Procezz)
    requires InjectProcezzIdentificationProperty(p).Ok?
    requires p.managementType.Some? && q.managementType == p.managementType
    requires q.osExecutionCommand == InjectProcezzIdentificationProperty(p).value.agentExecutionCommand
    ensures CompareProcezzesByIdentificationProperty(p, q) == Ok(true)
  {
  }

  /** A process launched with a record's monitoring command is recognised as that record too. */
  lemma {:induction false} CompareRecognisesMonitoredCommand(p: Procezz, q: Procezz, fs: MonitoringFilesystem)
    requires InjectMonitoringAgentInProcezz(p, fs).Ok?
    requires p.managementType.Some? && q.managementType == p.managementType
    requires q.osExecutionCommand == InjectMonitoringAgentInProcezz(p, fs).value.agentExecutionCommand
    ensures CompareProcezzesByIdentificationProperty(p, q) == Ok(true)
  {
  }

  // ---------------------------------------------------------------------------
  // Snapshot
  // ---------------------------------------------------------------------------

  /** `setWorkingDirectory`: this management type cannot resolve one and records the empty path. */
  function SetWorkingDirectory(p: Procezz): (r: Procezz)
    ensures r == p.(workingDirectory := Some(""))
  {
    p.(workingDirectory := Some(""))
  }

  /** `setProgrammingLanguage`. */
  function SetProgrammingLanguage(p: Procezz): (r: Procezz)
    ensures r == p.(programmingLanguage := Some(LANGUAGE))
  {
    p.(programmingLanguage := Some(LANGUAGE))
  }

  /**
   * `getProcezzListFromOsAndSetAgent` over the native listing, given as its
   * pid/command pairs in iteration order (`None` when the native call failed).
   * The k-th process gets the placeholder id k + 1, so the ids are pairwise distinct.
   */
  method GetProcezzListFromOsAndSetAgent(listing: Option<seq<(int, Option<string>)>>, agent: Agent?)
    returns (procezzList: seq<Procezz>)
    ensures listing.None? ==> procezzList == []
    ensures listing.Some? ==> |procezzList| == |listing.value|
    ensures listing.Some? ==> forall k :: 0 <= k < |procezzList| ==>
      && procezzList[k].pid == listing.value[k].0
      && procezzList[k].osExecutionCommand == listing.value[k].1
      && procezzList[k].id == DecimalString(k + 1)
      && procezzList[k].workingDirectory == Some("")
      && procezzList[k].programmingLanguage == Some(LANGUAGE)
      && procezzList[k].managementType == Some(DESCRIPTOR)
      && procezzList[k].agent == agent
      && !procezzList[k].stopped && !procezzList[k].errorOccured
    ensures forall j, k :: 0 <= j < k < |procezzList| ==> procezzList[j].id != procezzList[k].id
  {
    if listing.None? {
      return [];
    }
    var entries := listing.value;
    procezzList := [];
    var placeholderId: nat := 0;
    var i := 0;
    while i < |entries|
      invariant 0 <= i <= |entries|
      invariant placeholderId == i && |procezzList| == i
      invariant forall k :: 0 <= k < i ==>
        && procezzList[k].pid == entries[k].0
        && procezzList[k].osExecutionCommand == entries[k].1
        && procezzList[k].id == DecimalString(k + 1)
        && procezzList[k].workingDirectory == Some("")
        && procezzList[k].programmingLanguage == Some(LANGUAGE)
        && procezzList[k].managementType == Some(DESCRIPTOR)
        && procezzList[k].agent == agent
        && !procezzList[k].stopped && !procezzList[k].errorOccured
    {
      var (pid, execCmd) := entries[i];
      var p := NewProcezz(pid, execCmd);
      placeholderId := placeholderId + 1;
      p := p.(id := DecimalString(placeholderId));
      p := SetWorkingDirectory(p);
      p := SetProgrammingLanguage(p);
      if agent != null {
        p := p.(agent := agent);
      }
      p := p.(managementType := Some(DESCRIPTOR));
      procezzList := procezzList + [p];
      i := i + 1;
    }
    forall j, k | 0 <= j < k < |procezzList|
      ensures procezzList[j].id != procezzList[k].id
    {
      if procezzList[j].id == procezzList[k].id {
        DecimalStringInjective(j + 1, k + 1);
      }
    }
  }
}
