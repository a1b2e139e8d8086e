# ExplorViz discovery agent: reconciliation and command surgery

This project models the core of the ExplorViz discovery agent in Dafny. The agent runs on a
host, finds the Java processes running there, keeps a registry of them as `Procezz` records,
and restarts selected ones with the Kieker monitoring agent injected into their command.
The model covers five parts:

- **The process registry** (`InternalRepository`). The registry and the agent object are
  the fields of the class `Repository.InternalRepository`. Each new OS snapshot is merged
  into the registry in four steps:
  1. remove duplicates from the snapshot;
  2. pair each record with a snapshot entry that has the same pid, taking that entry out
     of the snapshot;
  3. try to re-attach every unpaired record through its user command, or else flag it as
     lost once;
  4. hand what is left of the snapshot on as new processes.

  Each loop of the registry is proved to compute the spec functions in module
  `RepositorySpec` (`PidPhase`, `RestartPhase`, `MergePhases`). The lemmas next to those
  functions state what the phases guarantee.
- **The Windows/Java management type** (`WinJavaManagementType`), module `WinJava`:
  - the quote-aware splitter;
  - the regex that strips the `-Dexplorviz.agent.model.id=` marker;
  - the identity and monitoring injections, and their removal;
  - the cross-type identity comparison;
  - the snapshot builder with its placeholder ids.
- **The Kieker sample application strategy** (`KiekerSampleAppStrategy`), module
  `KiekerSampleApp`: its recognition predicate and the launch command it proposes.
- **The older bootstrap** (`ModelUtility`), module `ModelUtil`:
  - the port choice;
  - the agent with its back-referenced processes;
  - the whitespace-split `-javaagent` injection.
- **The configuration strings** (`FilesystemService`), module `Filesystem`: the
  per-record paths, the application-name fallback, and the line rewrite of the Kieker
  configuration.

Module `JavaStrings` writes out the few `java.lang.String` operations this code relies on:
- `split` with a limit;
- `\s`;
- `replaceFirst("\\s+", "")`;
- `trim`;
- `contains`;
- `String.valueOf(long)`.

`Base` holds `Option` for nullable references, `Result`/`Outcome` for calls that can throw,
and the exception kinds. `Model` holds the entities.

A Java exception is an `Err`. This includes the `NullPointerException` of a null command
and the `IndexOutOfBoundsException` of a missing `split` fragment. Where the source
mutates a record through setters, the model returns the updated record value. The registry
keeps records by value, so a Java reference to a registry record is its index.

The source paths in the table are relative to the repository root.

## Model

| member | source | states |
|---|---|---|
| Model.Agent.constructor | src/main/java/net/explorviz/discoveryagent/util/ModelUtility.java:30 | A new agent has the given ip and port, no name, is not hidden, and has no processes. |
| Model.NewProcezz | src/main/java/net/explorviz/discoveryagent/procezz/management/types/WinJavaManagementType.java:56 | A new record carries the given pid and OS command. It is running, error-free and has no agent. |
| JavaStrings.Contains | src/main/java/net/explorviz/discoveryagent/procezz/discovery/strategies/KiekerSampleAppStrategy.java:15 | `contains` holds exactly when the text occurs at some index. |
| JavaStrings.SplitAtWhitespace | src/main/java/net/explorviz/discoveryagent/util/ModelUtility.java:44 | `split("\\s+", 2)` gives one or two fragments. The first is a whitespace-free prefix of the input. There is one fragment, the whole input, exactly when the input has no whitespace. A second fragment never starts with whitespace. |
| JavaStrings.SplitAtWhitespaceOf | src/main/java/net/explorviz/discoveryagent/procezz/management/types/WinJavaManagementType.java:254 | A whitespace-free token, a whitespace run and a rest that does not start with whitespace split back into the token and the rest. |
| JavaStrings.RemoveFirstWhitespaceRun | src/main/java/net/explorviz/discoveryagent/procezz/management/types/WinJavaManagementType.java:248 | `replaceFirst("\\s+", "")` never lengthens its input, and leaves a whitespace-free string unchanged. |
| JavaStrings.RemoveLeadingWhitespaceRun | src/main/java/net/explorviz/discoveryagent/procezz/management/types/WinJavaManagementType.java:248 | Cutting the first whitespace run out of a leading run followed by a non-whitespace rest leaves exactly the rest. |
| JavaStrings.SplitTwoAtFirst | src/main/java/net/explorviz/discoveryagent/procezz/discovery/strategies/KiekerSampleAppStrategy.java:62 | `split(d, 2)` cuts at the first occurrence of the delimiter and there only. |
| JavaStrings.SplitLimitAbsent | src/main/java/net/explorviz/discoveryagent/procezz/management/types/WinJavaManagementType.java:245 | A split at a delimiter that does not occur gives the whole input as its one fragment. |
| JavaStrings.Trim | src/main/java/net/explorviz/discoveryagent/procezz/discovery/strategies/KiekerSampleAppStrategy.java:64-65 | `trim` returns a slice of its input. Only characters up to U+0020 lie outside the slice, and the slice neither starts nor ends with one. |
| JavaStrings.DecimalString | src/main/java/net/explorviz/discoveryagent/services/FilesystemService.java:100 | `String.valueOf(long)` is a minus sign for negative numbers, then the decimal digits. |
| JavaStrings.NatToStringInjective | src/main/java/net/explorviz/discoveryagent/procezz/management/types/WinJavaManagementType.java:58 | Different natural numbers have different digit strings. |
| JavaStrings.DecimalStringInjective | src/main/java/net/explorviz/discoveryagent/procezz/management/types/WinJavaManagementType.java:58 | Different numbers have different `String.valueOf` renderings. |
| Filesystem.ConfigFolderInjective | src/main/java/net/explorviz/discoveryagent/services/FilesystemService.java:52 | Records with different ids get different configuration folders under the same root. |
| Filesystem.ConfigFilesInjective | src/main/java/net/explorviz/discoveryagent/services/FilesystemService.java:90-98 | Different folders hold different `aop.xml` files and different `kieker.monitoring.properties` files. |
| Filesystem.AopFileIsNotKiekerConfig | src/main/java/net/explorviz/discoveryagent/services/FilesystemService.java:90-98 | No record's weaver file is any record's Kieker configuration file. |
| Filesystem.AppName | src/main/java/net/explorviz/discoveryagent/services/FilesystemService.java:100 | The reported application name is the record's name, or its pid in decimal when it has no name. |
| Filesystem.AppNameDistinguishesNamelessRecords | src/main/java/net/explorviz/discoveryagent/services/FilesystemService.java:100 | Two nameless records with different pids report different application names. |
| Filesystem.RewriteLine | src/main/java/net/explorviz/discoveryagent/services/FilesystemService.java:104-110 | A line starting with the application-name property becomes that property plus the app name. Otherwise, a line starting with the host-name property becomes that property plus the host name. Every other line is kept. |
| Filesystem.RewriteKiekerConfig | src/main/java/net/explorviz/discoveryagent/services/FilesystemService.java:103-111 | The rewrite keeps the number and order of lines, and rewrites each line by itself. |
| Filesystem.HostLineIsNotAppLine | src/main/java/net/explorviz/discoveryagent/services/FilesystemService.java:104-107 | A rewritten host-name line never matches the application-name branch. |
| Filesystem.RewriteLineIdempotent | src/main/java/net/explorviz/discoveryagent/services/FilesystemService.java:104-110 | Rewriting a rewritten line with the same names changes nothing. |
| Filesystem.RewriteKiekerConfigIdempotent | src/main/java/net/explorviz/discoveryagent/services/FilesystemService.java:103-111 | Rewriting the configuration twice with the same names gives the same lines as rewriting it once. |
| ModelUtil.ChoosePort | src/main/java/net/explorviz/discoveryagent/util/ModelUtility.java:26 | The chosen port is the user-defined one exactly when that is longer than one character (or equals the embedded port). It is the embedded port exactly in the other case. |
| ModelUtil.CreateAgentWithProcesses | src/main/java/net/explorviz/discoveryagent/util/ModelUtility.java:20-39 | The new agent has the given ip and the chosen port, holds exactly the given process list, and every listed process points back to it. Pids and commands are unchanged. |
| ModelUtil.InjectJavaagentAsWritten | src/main/java/net/explorviz/discoveryagent/util/ModelUtility.java:41-53 | The injection as written fails with an index error exactly when the command has no whitespace. |
| ModelUtil.InjectJavaagentAsWrittenOf | src/main/java/net/explorviz/discoveryagent/util/ModelUtility.java:50-51 | As written, the result is the launcher, a space, then `-javaagent:` plus the jar path with the rest of the command glued straight on. |
| ModelUtil.AsWrittenGluesNextArgumentToJar | src/main/java/net/explorviz/discoveryagent/util/ModelUtility.java:44-51 | As written, re-splitting the new command shows that the argument after the launcher is `-javaagent:` + jar + the next argument, not the `-javaagent` argument itself. |
| ModelUtil.InjectJavaagent | src/main/java/net/explorviz/discoveryagent/util/ModelUtility.java:41-53 | The corrected injection fails with an index error exactly when the command has no whitespace. |
| ModelUtil.InjectJavaagentOf | src/main/java/net/explorviz/discoveryagent/util/ModelUtility.java:50-51 | The corrected result is the launcher, a space, the `-javaagent` argument, a space, and the rest. |
| ModelUtil.InjectJavaagentKeepsTokens | src/main/java/net/explorviz/discoveryagent/util/ModelUtility.java:44-53 | With the corrected injection, splitting the new command gives the launcher, then the `-javaagent` argument as a token of its own, then the original arguments. |
| ModelUtil.InjectKiekerAgentInProcess | src/main/java/net/explorviz/discoveryagent/util/ModelUtility.java:41-54 | Does what the source does. A command with whitespace becomes its first fragment, then ` -javaagent:` and the jar path, then the second fragment glued straight on (the as-written injection), and the call passes. A command without whitespace is an index error, and the command stays as it was. Pid and agent are unchanged. |
| KiekerSampleApp.DetectAndSetName | src/main/java/net/explorviz/discoveryagent/procezz/discovery/strategies/KiekerSampleAppStrategy.java:36-42 | A desired record is named `KiekerSampleApp`. Any other record is returned unchanged. |
| KiekerSampleApp.ProposeFromWorkingDirectory | src/main/java/net/explorviz/discoveryagent/procezz/discovery/strategies/KiekerSampleAppStrategy.java:58-67 | The proposal fails with an index error exactly when the command has no `-jar `. |
| KiekerSampleApp.SplitLimitAbsentIff | src/main/java/net/explorviz/discoveryagent/procezz/discovery/strategies/KiekerSampleAppStrategy.java:62 | `split("-jar ", 2)` has a second fragment exactly when `-jar ` occurs. |
| KiekerSampleApp.DetectAndSetProposedExecCMD | src/main/java/net/explorviz/discoveryagent/procezz/discovery/strategies/KiekerSampleAppStrategy.java:45-71 | Only the proposal changes. A record that is not desired is left alone. A marked command is proposed as `Use-OS-Exec-CMD`. With no working directory nothing changes. Otherwise the proposal comes from the working directory. The call fails exactly when the command is desired, unmarked, has a working directory and no `-jar `. |
| KiekerSampleApp.ApplyEntireStrategy | src/main/java/net/explorviz/discoveryagent/procezz/discovery/strategies/KiekerSampleAppStrategy.java:11-33 | The verdict is `isDesiredApplication`, and a record that is not desired is unchanged. A desired record is named `KiekerSampleApp`. Its proposal is `Use-OS-Exec-CMD` when its OS command carries the marker flag. It is unchanged when there is no working directory. Otherwise it is the command made absolute against the working directory. The call fails exactly when the record is desired, has a working directory, and its command has neither the marker flag nor `-jar `; the name stays set then. Only name and proposal ever change. |
| KiekerSampleApp.DetectAndSetProperties | src/main/java/net/explorviz/discoveryagent/procezz/discovery/strategies/KiekerSampleAppStrategy.java:74-76 | The record is unchanged. |
| KiekerSampleApp.ProposalForJarLaunch | src/main/java/net/explorviz/discoveryagent/procezz/discovery/strategies/KiekerSampleAppStrategy.java:58-67 | For `before + "-jar " + after` with no earlier `-jar ` and a working directory, the proposal is `before + "-jar " + trim(dir) + "/" + trim(after)`, and the record is named. |
| KiekerSampleApp.ProposalIdempotent | src/main/java/net/explorviz/discoveryagent/procezz/discovery/strategies/KiekerSampleAppStrategy.java:45-71 | Proposing again for a proposed record gives the same record. |
| KiekerSampleApp.ApplyEntireStrategyIdempotent | src/main/java/net/explorviz/discoveryagent/procezz/discovery/strategies/KiekerSampleAppStrategy.java:22-33 | Applying the strategy to its own result gives the same verdict and record. |
| WinJava.FirstMarker | src/main/java/net/explorviz/discoveryagent/procezz/management/types/WinJavaManagementType.java:33-34 | The leftmost index at which `\s-Dexplorviz.agent.model.id=[^\s]+` matches, with no match before it, or none at all. |
| WinJava.StripMarker | src/main/java/net/explorviz/discoveryagent/procezz/management/types/WinJavaManagementType.java:142 | `replaceFirst` leaves a command without a match unchanged, and shortens any command with a match. |
| WinJava.FirstMarkerAt | src/main/java/net/explorviz/discoveryagent/procezz/management/types/WinJavaManagementType.java:33-34 | A match with none before it is the one `replaceFirst` finds. |
| WinJava.NoMarkerInLauncher | src/main/java/net/explorviz/discoveryagent/procezz/management/types/WinJavaManagementType.java:33-34 | No match starts inside a launcher that never has `-` right after whitespace. |
| WinJava.FlagMatchesItself | src/main/java/net/explorviz/discoveryagent/procezz/management/types/WinJavaManagementType.java:33-34 | The flag with its unescaped dots matches its own literal text. |
| WinJava.StripFirstMarkerAt | src/main/java/net/explorviz/discoveryagent/procezz/management/types/WinJavaManagementType.java:164 | Once the leftmost match is known, `replaceFirst` cuts out its whitespace character, the flag and the whole greedy id. |
| WinJava.StripInsertedFlag | src/main/java/net/explorviz/discoveryagent/procezz/management/types/WinJavaManagementType.java:164-169 | A flag inserted with a whitespace-free id after such a launcher is exactly the part that is cut out. Later markers in the rest stay. |
| WinJava.StripInsertedMarker | src/main/java/net/explorviz/discoveryagent/procezz/management/types/WinJavaManagementType.java:164-189 | Stripping the marker from `launcher + " " + flag + id + " " + rest` gives `launcher + " " + rest`. |
| WinJava.Splitter | src/main/java/net/explorviz/discoveryagent/procezz/management/types/WinJavaManagementType.java:242-257 | The splitter gives one or two fragments. A quoted command gives two. Only a quoted command can fail, with an index error. |
| WinJava.SplitterQuoted | src/main/java/net/explorviz/discoveryagent/procezz/management/types/WinJavaManagementType.java:244-249 | A command starting with a quoted path splits into the quoted path and the text after the closing quote, with its first whitespace run removed. |
| WinJava.SplitterUnclosedQuote | src/main/java/net/explorviz/discoveryagent/procezz/management/types/WinJavaManagementType.java:245-247 | A quote that is never closed makes the splitter fail with an index error. |
| WinJava.SplitterUnquoted | src/main/java/net/explorviz/discoveryagent/procezz/management/types/WinJavaManagementType.java:253-254 | An unquoted command is cut at its first whitespace run into the launcher and the rest. |
| WinJava.SplitterSingleToken | src/main/java/net/explorviz/discoveryagent/procezz/management/types/WinJavaManagementType.java:254 | An unquoted command without whitespace is one fragment. |
| WinJava.SplitterQuotedLauncher | src/main/java/net/explorviz/discoveryagent/procezz/management/types/WinJavaManagementType.java:244-249 | A quoted launcher, whitespace and arguments split into the quoted launcher and the arguments. |
| WinJava.UnquotedLauncherIsMarkerFree | src/main/java/net/explorviz/discoveryagent/procezz/management/types/WinJavaManagementType.java:254 | The launcher fragment of an unquoted command never puts `-` after whitespace. |
| WinJava.EffectiveCommand | src/main/java/net/explorviz/discoveryagent/procezz/management/types/WinJavaManagementType.java:160-163 | A non-null, non-empty user command is chosen first. Without one, a non-null OS command is chosen. With neither, the call is a null dereference. |
| WinJava.LaunchFragments | src/main/java/net/explorviz/discoveryagent/procezz/management/types/WinJavaManagementType.java:164-173 | The launcher and rest exist exactly when the marker-free command splits into two fragments. Otherwise the call fails with a start error. |
| WinJava.InjectedContainsMarker | src/main/java/net/explorviz/discoveryagent/procezz/management/types/WinJavaManagementType.java:168-169 | An injected command contains the marker flag followed by the id. |
| WinJava.InjectedSplice | src/main/java/net/explorviz/discoveryagent/procezz/management/types/WinJavaManagementType.java:147-148 | Inserting more arguments before the flag only widens the command right after the launcher and its space. |
| WinJava.InjectProcezzIdentificationProperty | src/main/java/net/explorviz/discoveryagent/procezz/management/types/WinJavaManagementType.java:157-176 | With no usable command the call is a null dereference. Otherwise it fails with a start error exactly when the marker-free command has no launcher and rest. On success only the agent command changes. It becomes the launcher, a space, the marker flag, the record's id, a space and the rest, so it contains the marker with the id. |
| WinJava.PrepareMonitoringJvmArguments | src/main/java/net/explorviz/discoveryagent/procezz/management/types/WinJavaManagementType.java:202-216 | The arguments are `-javaagent:` with the jar, the Kieker configuration, the weaver configuration and the skip flag, each followed by a space, in that order, and then the marker flag, with nothing after it. The call fails with a malformed-URL error exactly when a path is missing. |
| WinJava.InjectMonitoringAgentInProcezz | src/main/java/net/explorviz/discoveryagent/procezz/management/types/WinJavaManagementType.java:135-155 | With no usable command the call is a null dereference. Otherwise it fails exactly when the marker-free command has no launcher and rest, or a configuration path is missing, and every such failure is a start error. On success only the agent command changes. It becomes the launcher, a space, the monitoring arguments, the record's id, a space and the rest, so it contains the marker with the id. |
| WinJava.MonitoringExtendsIdentity | src/main/java/net/explorviz/discoveryagent/procezz/management/types/WinJavaManagementType.java:147-148 | When the identity injection succeeds, the monitoring injection fails exactly when the arguments do. Its command is the identity command with the Kieker arguments spliced in after the launcher. |
| WinJava.InjectionNeedsTwoFragments | src/main/java/net/explorviz/discoveryagent/procezz/management/types/WinJavaManagementType.java:166-173 | A single-token unquoted command makes both injections fail with a start error. |
| WinJava.RemoveMonitoringAgentInProcezz | src/main/java/net/explorviz/discoveryagent/procezz/management/types/WinJavaManagementType.java:179-192 | The agent command becomes the effective command with its first marker cut out. With no usable command the call is a null dereference. |
| WinJava.RemoveUndoesIdentityInjection | src/main/java/net/explorviz/discoveryagent/procezz/management/types/WinJavaManagementType.java:185-189 | Removal from an identity-injected command (non-empty whitespace-free id) yields `launcher + " " + rest`. |
| WinJava.IdentityRoundTripUnquoted | src/main/java/net/explorviz/discoveryagent/procezz/management/types/WinJavaManagementType.java:164-189 | For an unquoted, marker-free command `launcher + " " + rest`, injection then removal restores the command exactly. |
| WinJava.CompareProcezzesByIdentificationProperty | src/main/java/net/explorviz/discoveryagent/procezz/management/types/WinJavaManagementType.java:220-228 | Different management types give the incompatibility error. With equal types and an OS command, the call answers whether that command contains the marker plus `p1`'s id. |
| WinJava.CompareRecognisesInjectedCommand | src/main/java/net/explorviz/discoveryagent/procezz/management/types/WinJavaManagementType.java:226 | A process running a record's identity-injected command is recognised as that record. |
| WinJava.CompareRecognisesMonitoredCommand | src/main/java/net/explorviz/discoveryagent/procezz/management/types/WinJavaManagementType.java:226 | A process running a record's monitoring command is recognised as that record. |
| WinJava.SetWorkingDirectory | src/main/java/net/explorviz/discoveryagent/procezz/management/types/WinJavaManagementType.java:83-88 | Only the working directory changes, to the empty path. |
| WinJava.SetProgrammingLanguage | src/main/java/net/explorviz/discoveryagent/procezz/management/types/WinJavaManagementType.java:119-127 | Only the language changes, to `java`. |
| WinJava.GetProcezzListFromOsAndSetAgent | src/main/java/net/explorviz/discoveryagent/procezz/management/types/WinJavaManagementType.java:47-80 | A failed listing gives the empty list. Otherwise the k-th record has the k-th pid and command and id `k + 1`; working directory `""`, language `java` and type `WinJava`; the given agent; and is running and error-free. The ids are pairwise distinct. |
| RepositorySpec.RemoveFirst | src/main/java/net/explorviz/discoveryagent/procezz/InternalRepository.java:154 | `List.remove(Object)` leaves a list without the element unchanged. |
| RepositorySpec.RemoveFirstAt | src/main/java/net/explorviz/discoveryagent/procezz/InternalRepository.java:177 | Removing an element by equality removes its first occurrence. |
| RepositorySpec.WithoutMultiset | src/main/java/net/explorviz/discoveryagent/procezz/InternalRepository.java:154 | Removing a slot takes exactly one copy of its element out of the list. |
| RepositorySpec.FirstWithPid | src/main/java/net/explorviz/discoveryagent/procezz/InternalRepository.java:203-220 | The result is the first entry with the pid, or none when no entry has it. |
| RepositorySpec.FirstWithCommand | src/main/java/net/explorviz/discoveryagent/procezz/InternalRepository.java:188-201 | The result is the first entry whose OS command equals the known user command, or none when there is no such entry. |
| RepositorySpec.NullCommandMatchesNothing | src/main/java/net/explorviz/discoveryagent/procezz/InternalRepository.java:194 | A null user command matches no entry. |
| RepositorySpec.FirstWithKey | src/main/java/net/explorviz/discoveryagent/procezz/InternalRepository.java:203-233 | The result is the first entry whose key (pid or id) is the value, or none when no entry has it. This is the search behind both `findProcezzInListByPID` and `findProcezzByID`. |
| RepositorySpec.ConcatSnapshots | src/main/java/net/explorviz/discoveryagent/procezz/InternalRepository.java:81-88 | Every management type's entries are all in the combined snapshot. |
| RepositorySpec.ConcatSnapshotsOnlyReported | src/main/java/net/explorviz/discoveryagent/procezz/InternalRepository.java:84-86 | Every entry of the combined snapshot was reported by some management type. |
| RepositorySpec.FlagLost | src/main/java/net/explorviz/discoveryagent/procezz/InternalRepository.java:133-140 | A lost record is stopped and in error with the fixed message, and nothing else changes. |
| RepositorySpec.Reattach | src/main/java/net/explorviz/discoveryagent/procezz/InternalRepository.java:146-152 | A reattached record is running and error-free, with no message, and monitored. It takes the match's pid, and its user command becomes the match's OS command. Nothing else changes. |
| RepositorySpec.Restarted | src/main/java/net/explorviz/discoveryagent/procezz/InternalRepository.java:61-68 | A restarted record takes the relaunched pid, the relaunched OS command as its agent command, the time `now`, and a clear error state. Nothing else changes. |
| RepositorySpec.AttachAgent | src/main/java/net/explorviz/discoveryagent/procezz/InternalRepository.java:180 | Every record gets the agent object, and nothing else changes. |
| RepositorySpec.PidStep | src/main/java/net/explorviz/discoveryagent/procezz/InternalRepository.java:169-178 | A record with no pid match is appended to the stopped list. Otherwise the first entry with its pid leaves the snapshot. |
| RepositorySpec.PidStepKeeps | src/main/java/net/explorviz/discoveryagent/procezz/InternalRepository.java:169-177 | A turn keeps every copy of an entry with another pid. |
| RepositorySpec.PidStepConsumes | src/main/java/net/explorviz/discoveryagent/procezz/InternalRepository.java:177 | A turn only takes entries out of the snapshot. |
| RepositorySpec.PidStepStoppedAt | src/main/java/net/explorviz/discoveryagent/procezz/InternalRepository.java:171-173 | A turn lists its own record, and only it, when no remaining entry has its pid. |
| RepositorySpec.PidPhase | src/main/java/net/explorviz/discoveryagent/procezz/InternalRepository.java:167-181 | The stopped list holds strictly increasing registry indices, so it is in registry order. The snapshot shrinks by one for every record that is not listed. |
| RepositorySpec.PidPhaseTurn | src/main/java/net/explorviz/discoveryagent/procezz/InternalRepository.java:174-177 | Marking the matched entry as running and then removing it by equality removes exactly that slot. |
| RepositorySpec.PidPhaseConsumes | src/main/java/net/explorviz/discoveryagent/procezz/InternalRepository.java:167-181 | The pid phase only takes entries out of the snapshot (sub-multiset), each at most as often as it occurs. |
| RepositorySpec.PidPhaseKeepsUnclaimed | src/main/java/net/explorviz/discoveryagent/procezz/InternalRepository.java:167-178 | An entry whose pid no visited record has keeps every copy. |
| RepositorySpec.PidPhaseStoppedAt | src/main/java/net/explorviz/discoveryagent/procezz/InternalRepository.java:169-173 | A record is listed as stopped exactly when no remaining entry has its pid at its turn. |
| RepositorySpec.PidPhaseStoppedIff | src/main/java/net/explorviz/discoveryagent/procezz/InternalRepository.java:167-178 | With distinct registry pids, a record is listed as stopped exactly when no snapshot entry has its pid. |
| RepositorySpec.PidPhaseLeavesNewEntries | src/main/java/net/explorviz/discoveryagent/procezz/InternalRepository.java:167-178 | Entries whose pid no record has are all left for the new records. |
| RepositorySpec.RestartStep | src/main/java/net/explorviz/discoveryagent/procezz/InternalRepository.java:124-156 | A turn keeps record count, id and agent. It reports a loss exactly when an earlier turn did or when it stopped its running record. |
| RepositorySpec.RestartStepConsumes | src/main/java/net/explorviz/discoveryagent/procezz/InternalRepository.java:154 | A turn only takes entries out of the snapshot. |
| RepositorySpec.RestartStepKeepsOthers | src/main/java/net/explorviz/discoveryagent/procezz/InternalRepository.java:124-156 | A turn leaves every other record as it was. |
| RepositorySpec.RestartStepOutcome | src/main/java/net/explorviz/discoveryagent/procezz/InternalRepository.java:130-155 | A record ends one of three ways: stopped and unchanged; newly flagged as lost; or reattached to a remaining entry carrying its user command. |
| RepositorySpec.RestartPhase | src/main/java/net/explorviz/discoveryagent/procezz/InternalRepository.java:119-159 | The restart phase never removes a record. |
| RepositorySpec.RestartPhaseKeepsIds | src/main/java/net/explorviz/discoveryagent/procezz/InternalRepository.java:124-156 | Every record keeps its id and agent. |
| RepositorySpec.RestartPhaseTurn | src/main/java/net/explorviz/discoveryagent/procezz/InternalRepository.java:127-154 | A turn flags the record as lost or leaves a stopped one alone. Or it reattaches the record and removes the matched entry by equality, which removes exactly that slot. |
| RepositorySpec.RestartPhaseConsumes | src/main/java/net/explorviz/discoveryagent/procezz/InternalRepository.java:154 | The restart phase only takes entries out of the snapshot. |
| RepositorySpec.RestartPhaseUntouched | src/main/java/net/explorviz/discoveryagent/procezz/InternalRepository.java:124 | A record that is not listed is left alone. |
| RepositorySpec.RestartPhaseLaterTurn | src/main/java/net/explorviz/discoveryagent/procezz/InternalRepository.java:124-156 | A turn leaves a different listed record alone. |
| RepositorySpec.RestartPhaseSettled | src/main/java/net/explorviz/discoveryagent/procezz/InternalRepository.java:124-156 | Once a listed record has had its turn, later turns leave it alone. |
| RepositorySpec.RestartPhaseOutcome | src/main/java/net/explorviz/discoveryagent/procezz/InternalRepository.java:130-155 | Each listed record ends as an already stopped record left completely unchanged, or a running one flagged lost once, or a record reattached to a snapshot entry carrying its user command. |
| RepositorySpec.RestartPhaseNullCommand | src/main/java/net/explorviz/discoveryagent/procezz/InternalRepository.java:194 | A listed record without a user command is never reattached. |
| RepositorySpec.RestartPhaseLastTurn | src/main/java/net/explorviz/discoveryagent/procezz/InternalRepository.java:130-141 | The last turn's loss report adds exactly its own newly stopped record, and earlier records keep their state. |
| RepositorySpec.RestartPhaseLossStep | src/main/java/net/explorviz/discoveryagent/procezz/InternalRepository.java:140 | Each turn keeps the loss report in step with the records. |
| RepositorySpec.RestartPhaseLossFound | src/main/java/net/explorviz/discoveryagent/procezz/InternalRepository.java:122-158 | The phase reports a loss exactly when some listed record went from running to stopped. |
| RepositorySpec.MergePhases | src/main/java/net/explorviz/discoveryagent/procezz/InternalRepository.java:102-106 | The two phases keep the number of records. |
| RepositorySpec.MergeKeepsRecords | src/main/java/net/explorviz/discoveryagent/procezz/InternalRepository.java:161-186 | The merge never drops a record. Each record keeps its id and gets the current agent object. |
| RepositorySpec.MergeLeavesRunning | src/main/java/net/explorviz/discoveryagent/procezz/InternalRepository.java:174-180 | A record still running under its pid changes in nothing but its agent. |
| RepositorySpec.MergeLeftoverFromSnapshot | src/main/java/net/explorviz/discoveryagent/procezz/InternalRepository.java:102-109 | The entries handed on as new are snapshot entries, each used at most as often as it occurs. |
| RepositorySpec.MergeStoppedOutcome | src/main/java/net/explorviz/discoveryagent/procezz/InternalRepository.java:102-106 | Each record without a pid match ends as its stopped self, flagged lost, or reattached to a snapshot entry carrying its user command. |
| Repository.InternalRepository.constructor | src/main/java/net/explorviz/discoveryagent/procezz/InternalRepository.java:28-32 | The registry starts empty, with no agent object. |
| Repository.InternalRepository.FindProcezzInListByPID | src/main/java/net/explorviz/discoveryagent/procezz/InternalRepository.java:203-220 | The loop method returns the first entry with the pid, or none. |
| Repository.InternalRepository.FindProcezzInListByExecCMD | src/main/java/net/explorviz/discoveryagent/procezz/InternalRepository.java:188-201 | The loop method returns the first entry whose OS command equals the non-null user command, or none. |
| Repository.InternalRepository.RemoveDuplicatesInProcezzList | src/main/java/net/explorviz/discoveryagent/procezz/InternalRepository.java:115-117 | No value occurs twice in the result. It has the same set of values as the input, and is no longer. |
| Repository.InternalRepository.FindProcezzByID | src/main/java/net/explorviz/discoveryagent/procezz/InternalRepository.java:222-233 | The result is the first registered record with the id. The call fails with NotFound exactly when there is none. |
| Repository.InternalRepository.GetNewProcezzesFromOS | src/main/java/net/explorviz/discoveryagent/procezz/InternalRepository.java:74-89 | With no agent object the snapshot is empty. Otherwise it is each management type's list, in factory order. |
| Repository.InternalRepository.GetStoppedProcezzesOfInternalList | src/main/java/net/explorviz/discoveryagent/procezz/InternalRepository.java:161-186 | The loop computes the pid phase: the stopped list and the shrunk snapshot. Every record is attributed to the agent object. |
| Repository.InternalRepository.UpdateStoppedProcezzes | src/main/java/net/explorviz/discoveryagent/procezz/InternalRepository.java:119-159 | The loop computes the restart phase: the updated records, the shrunk snapshot, and the loss report. |
| Repository.InternalRepository.MergeProcezzListWithInternalList | src/main/java/net/explorviz/discoveryagent/procezz/InternalRepository.java:91-113 | The registry becomes what `initializeAndAddNewProcezzes` makes of the merged records and leftovers. The merge runs on a deduplicated snapshot with the same entries. |
| Repository.InternalRepository.UpdateInternalProcezzList | src/main/java/net/explorviz/discoveryagent/procezz/InternalRepository.java:42-46 | The registry is merged with the combined snapshot of all management types, which is empty without an agent object. |
| Repository.InternalRepository.UpdateRestartedProcezz | src/main/java/net/explorviz/discoveryagent/procezz/InternalRepository.java:48-72 | A failed search propagates, and an unregistered id is NotFound, both with the registry unchanged. Otherwise only the record with the id is updated, to its restarted state. |
| Repository.InternalRepository.HandleProcezzPatchRequest | src/main/java/net/explorviz/discoveryagent/procezz/InternalRepository.java:235-255 | An unknown id is NotFound with the registry unchanged. Otherwise the registered record takes the copied attributes. If it then says stopped, it is stopped: the record as the stop leaves it is written back, and a failed stop propagates. If it then asks for a restart, the record as the restart leaves it is written back and the restart's result is returned. Otherwise the record is returned. Nothing else in the registry changes. |
| Repository.InternalRepository.UpdateAgentProperties | src/main/java/net/explorviz/discoveryagent/procezz/InternalRepository.java:257-266 | The agent object takes the given agent's name and hidden flag, and keeps its ip, port and processes. A missing agent is a null dereference that changes nothing. |

## Left out

- Native process control is not modelled, because it consists of foreign OS calls:
  - `startProcezz` and `killProcezz` of the Windows management type;
  - `killProcess` and `startProcess` of `ModelUtility`, with their 10-second sleep.

  The native listing behind `getProcezzListFromOsAndSetAgent` is a parameter. It is the
  pid/command pairs in the map's iteration order, or `None` when the call failed.
- Concurrency is not modelled. Each `synchronized (internalProcezzList)` call is one
  atomic sequential step.
- File-system effects are left out: folder creation, copying, reading and writing the
  configuration files, recursive deletion, and the resource lookups. The same goes for
  all logging. Only the path strings and the line rewrite are modelled. The host name is
  a parameter of that rewrite.
- The collaborators that are not part of this model are parameters. They have no
  behaviour beyond what the caller passes in:
  - `ProcezzUtility` (`initializeAndAddNewProcezzes`, `copyProcezzAttributeValues`,
    `handleStop`, `handleRestart`, `findFlaggedProcezzInList`);
  - the list of management types from `ProcezzManagementTypeFactory`;
  - the paths that `MonitoringFilesystemService` reports;
  - the jar path that the class loader resolves;
  - `System.currentTimeMillis()`, which becomes `now`.
- Two constants come from files that are not part of this model, and the model takes
  the Windows management type's values for them:
  - `ModelUtility.EXPLORVIZ_MODEL_ID_FLAG`, taken as `-Dexplorviz.agent.model.id=`;
  - `DiscoveryStrategyFactory.USE_OS_FLAG`, taken as `Use-OS-Exec-CMD`.
- `Procezz.equals` is not part of this model, so record equality is value equality.
  `removeDuplicatesInProcezzList` goes through a `HashSet`, so the order of its result is
  left unspecified: only its elements, and their being distinct, are stated.
- The registry's Java references to records are indices into the record sequence. The
  two phases work on local copies of the registry and the snapshot, and store the result
  at the end of the call. One call is one atomic step, so an observer cannot tell this
  apart from the updates in place.
- Aliasing between the registry and the objects the callers hold is not modelled.
- `possibleProcezz.setStopped(false)` on a snapshot entry in the pid phase is modelled.
  The entry is removed right afterwards, so nothing kept by the registry sees its effect.
- Null entries are not modelled: the `filter(Objects::nonNull)` in `findProcezzByID` and
  null registry records or null ids.
- Pids are unbounded integers. The code does no arithmetic on them, so Java's `long`
  range does not matter. `String.valueOf` is modelled for every integer.
- Java's `trim` and the regex classes `\s` and `.` are written out as sets of characters
  (see `JavaStrings`). There is no Unicode handling beyond those.
- Model.NewProcezz: the `Procezz` constructor is not part of this model, so its contract
  states only the pid, the OS command, `stopped`, `errorOccured` and the agent. The
  other twelve fields are taken to start absent, false or 0, and the id as the empty
  string.
- `Process.executionCommand` is a non-null string, so the null dereference that a null
  command would cause in `injectKiekerAgentInProcess` is not modelled.
- WinJava.StripFirstMarker: its own contract only bounds the length. What the cut
  removes is stated by `WinJava.StripFirstMarkerAt` and `WinJava.StripMarker` and the
  lemmas that use them.

## Findings

| source | as written | input that shows it | evidently intended | confidence | as-written member | corrected member |
|---|---|---|---|---|---|---|
| src/main/java/net/explorviz/discoveryagent/util/ModelUtility.java:50-51 | The new command is the first fragment, then `" -javaagent:" + jarPath`, then the second fragment, with no space between the jar path and the second fragment. | The command `java -jar app.jar` with jar `/k.jar` becomes `java -javaagent:/k.jar-jar app.jar`. Its first argument names a jar that does not exist, and the `-jar` option is lost. | A space between the jar path and the rest: `java -javaagent:/k.jar -jar app.jar`. This is what `WinJavaManagementType` does with its `SPACE_SYMBOL`. | not executed | ModelUtil.AsWrittenGluesNextArgumentToJar | ModelUtil.InjectJavaagentKeepsTokens |

`ModelUtil.InjectKiekerAgentInProcess` models the code as written. The corrected
injection, `ModelUtil.InjectJavaagent`, is stated and proved separately.
