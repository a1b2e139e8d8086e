/**
 * The string side of the per-record monitoring configuration: where a
 * record's files live, and how the Kieker configuration is rewritten line by
 * line for that record. Reading and writing the files is not modelled.
 */
module Filesystem {
  import opened Base
  import opened JavaStrings
  import opened Model

  const APPLICATION_NAME_PROPERTY := "kieker.monitoring.applicationName="
  const HOSTNAME_PROPERTY := "kieker.monitoring.hostname="
  const AOP_FILE_NAME := "aop.xml"
  const KIEKER_CONFIG_FILE_NAME := "kieker.monitoring.properties"

  /** The folder holding one record's configuration files. */
  function ConfigFolder(configsPath: string, id: string): string {
    configsPath + "/" + id
  }

  /** The weaver configuration of the record with that folder. */
  function AopFile(folder: string): string {
    folder + "/" + AOP_FILE_NAME
  }

  /** The Kieker configuration of the record with that folder. */
  function KiekerConfigFile(folder: string): string {
    folder + "/" + KIEKER_CONFIG_FILE_NAME
  }

  /** Records with different ids get different folders. */
  lemma {:induction false} ConfigFolderInjective(configsPath: string, id1: string, id2: string)
    requires ConfigFolder(configsPath, id1) == ConfigFolder(configsPath, id2)
    ensures id1 == id2
  {
    var n := |configsPath| + 1;
    assert id1 == ConfigFolder(configsPath, id1)[n..];
    assert id2 == ConfigFolder(configsPath, id2)[n..];
  }

  /** Different folders hold different weaver and Kieker configuration files. */
  lemma {:induction false} ConfigFilesInjective(folder1: string, folder2: string)
    ensures AopFile(folder1) == AopFile(folder2) ==> folder1 == folder2
    ensures KiekerConfigFile(folder1) == KiekerConfigFile(folder2) ==> folder1 == folder2
  {
    if AopFile(folder1) == AopFile(folder2) {
      assert folder1 == AopFile(folder1)[..|folder1|];
      assert folder2 == AopFile(folder2)[..|folder2|];
    }
    if KiekerConfigFile(folder1) == KiekerConfigFile(folder2) {
      assert folder1 == KiekerConfigFile(folder1)[..|folder1|];
      assert folder2 == KiekerConfigFile(folder2)[..|folder2|];
    }
  }

  /** The weaver configuration of one record is never the Kieker configuration of any record. */
  lemma {:induction false} AopFileIsNotKiekerConfig(folder1: string, folder2: string)
    ensures AopFile(folder1) != KiekerConfigFile(folder2)
  {
    var a, k := AopFile(folder1), KiekerConfigFile(folder2);
    assert a[|a| - 1] == 'l';
    assert k[|k| - 1] == 's';
  }

  /** The application name Kieker reports for a record: its name, or its pid when it has none. */
  function AppName(p: Procezz): (r: string)
    ensures p.name.Some? ==> r == p.name.value
    ensures p.name.None? ==> r == DecimalString(p.pid)
  {
    if p.name.None? then DecimalString(p.pid) else p.name.value
  }

  /** Two nameless records with different pids report different application names. */
  lemma {:induction false} AppNameDistinguishesNamelessRecords(p: Procezz, q: Procezz)
    requires p.name.None? && q.name.None? && p.pid != q.pid
    ensures AppName(p) != AppName(q)
  {
    if AppName(p) == AppName(q) {
      DecimalStringInjective(p.pid, q.pid);
    }
  }

  /** One line of the rewrite: the application name and host name properties are set, all else kept. */
  function RewriteLine(line: string, appName: string, hostName: string): (r: string)
    ensures StartsWith(line, APPLICATION_NAME_PROPERTY) ==> r == APPLICATION_NAME_PROPERTY + appName
    ensures !StartsWith(line, APPLICATION_NAME_PROPERTY) && StartsWith(line, HOSTNAME_PROPERTY)
            ==> r == HOSTNAME_PROPERTY + hostName
    ensures !StartsWith(line, APPLICATION_NAME_PROPERTY) && !StartsWith(line, HOSTNAME_PROPERTY) ==> r == line
  {
    if StartsWith(line, APPLICATION_NAME_PROPERTY) then APPLICATION_NAME_PROPERTY + appName
    else if StartsWith(line, HOSTNAME_PROPERTY) then HOSTNAME_PROPERTY + hostName
    else line
  }

  /** `updateKiekerConfigForProcezz`'s map over the lines of the configuration. */
  function RewriteKiekerConfig(lines: seq<string>, appName: string, hostName: string): (r: seq<string>)
    ensures |r| == |lines|
    ensures forall i :: 0 <= i < |lines| ==> r[i] == RewriteLine(lines[i], appName, hostName)
  {
    seq(|lines|, i requires 0 <= i < |lines| => RewriteLine(lines[i], appName, hostName))
  }

  /** A line that already sets the host name never looks like an application name line. */
  lemma {:induction false} HostLineIsNotAppLine(hostName: string)
    ensures !StartsWith(HOSTNAME_PROPERTY + hostName, APPLICATION_NAME_PROPERTY)
  {
    var s := HOSTNAME_PROPERTY + hostName;
    assert s[18] == 'h' != APPLICATION_NAME_PROPERTY[18];
    assert |APPLICATION_NAME_PROPERTY| <= |s| ==> s[..|APPLICATION_NAME_PROPERTY|][18] == s[18];
  }

  /** Rewriting a rewritten line changes nothing. */
  lemma {:induction false} RewriteLineIdempotent(line: string, appName: string, hostName: string)
    ensures RewriteLine(RewriteLine(line, appName, hostName), appName, hostName) == RewriteLine(line, appName, hostName)
  {
    var once := RewriteLine(line, appName, hostName);
    if StartsWith(line, APPLICATION_NAME_PROPERTY) {
      assert once[..|APPLICATION_NAME_PROPERTY|] == APPLICATION_NAME_PROPERTY;
    } else if StartsWith(line, HOSTNAME_PROPERTY) {
      HostLineIsNotAppLine(hostName);
      assert once[..|HOSTNAME_PROPERTY|] == HOSTNAME_PROPERTY;
    }
  }

  /** Rewriting the configuration twice with the same names gives the same file as rewriting it once. */
  lemma {:induction false} RewriteKiekerConfigIdempotent(lines: seq<string>, appName: string, hostName: string)
    ensures RewriteKiekerConfig(RewriteKiekerConfig(lines, appName, hostName), appName, hostName)
            == RewriteKiekerConfig(lines, appName, hostName)
  {
    var once := RewriteKiekerConfig(lines, appName, hostName);
    forall i | 0 <= i < |lines|
      ensures RewriteLine(once[i], appName, hostName) == once[i]
    {
      RewriteLineIdempotent(lines[i], appName, hostName);
    }
  }
}
