/**
 * The agent's entities: the host-level Agent, the discovered process record
 * (Procezz) that the reconciliation engine keeps, and the older Process record
 * that ModelUtility still works on.
 */
module Model {
  import opened Base

  /**
   * The host context every discovered record is attributed to. It is one
   * object, updated in place and referenced by every record, so it is a class.
   */
  class Agent {
    var ip: string
    var port: string
    var name: Option<string>
    var hidden: bool
    var processes: seq<Process>

    /** `new Agent(ip, port)`; the fields it does not take start as Java defaults. */
    constructor (ip: string, port: string)
      ensures this.ip == ip && this.port == port
      ensures name == None && !hidden && processes == []
    {
      this.ip := ip;
      this.port := port;
      name := None;
      hidden := false;
      processes := [];
    }
  }

  /** The older process record of ModelUtility: an OS process with its launch command and owner. */
  class Process {
    var pid: int
    var executionCommand: string
    var agent: Agent?

    constructor (pid: int, executionCommand: string)
      ensures this.pid == pid && this.executionCommand == executionCommand && agent == null
    {
      this.pid := pid;
      this.executionCommand := executionCommand;
      agent := null;
    }
  }

  /**
   * One discovered process record. Every nullable Java field is an `Option`;
   * `agent` is the weak back-reference to the owning host context.
   */
  datatype Procezz = Procezz(
    id: string,
    pid: int,
    osExecutionCommand: Option<string>,
    userExecutionCommand: Option<string>,
    agentExecutionCommand: Option<string>,
    proposedExecutionCommand: Option<string>,
    workingDirectory: Option<string>,
    name: Option<string>,
    programmingLanguage: Option<string>,
    managementType: Option<string>,
    stopped: bool,
    monitoredFlag: bool,
    restart: bool,
    errorOccured: bool,
    errorMessage: Option<string>,
    lastDiscoveryTime: int,
    agent: Agent?)

  /** `new Procezz(pid, execCmd)`: a record for an OS process, every other field at its Java default. */
  function NewProcezz(pid: int, osExecutionCommand: Option<string>): (p: Procezz)
    ensures p.pid == pid && p.osExecutionCommand == osExecutionCommand
    ensures !p.stopped && !p.errorOccured && p.agent == null
  {
    Procezz(id := "", pid := pid, osExecutionCommand := osExecutionCommand,
            userExecutionCommand := None, agentExecutionCommand := None,
            proposedExecutionCommand := None, workingDirectory := None, name := None,
            programmingLanguage := None, managementType := None,
            stopped := false, monitoredFlag := false, restart := false,
            errorOccured := false, errorMessage := None, lastDiscoveryTime := 0,
            agent := null)
  }
}
