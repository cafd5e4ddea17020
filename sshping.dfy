/**
 * The `__main__` block: `main(host)` for one address, `executor.map` over all
 * addresses, and the aggregation of the results. The SSH connection and the
 * remote execution are replaced by their outcome for each address.
 */
module SshPing {
  import opened Wrappers
  import opened PingExtract
  import opened Aggregate
  import PingExamples

  /** What `client.connect` and `exec_command` produced for one address. */
  datatype Session =
    | Raised                  // connect, auth or transport raised an exception
    | Printed(stdout: string) // the decoded standard output of the remote `ping`

  /** `main(host)` as written: any exception, including `float`'s `ValueError`, makes it return `None`. */
  function ProbeAsWritten(count: string, host: string, session: Session): (r: Option<PingReply>)
    ensures r.None? <==> session.Raised? || PingExec(PingCommand(count, host), session.stdout).Failure?
  {
    match session
    case Raised => None
    case Printed(out) =>
      match PingExec(PingCommand(count, host), out)
      case Success(reply) => Some(reply)
      case Failure(_) => None
  }

  /** `main(host)` with the evident intent of the exception handler: the host counts as unresponded. */
  function Probe(count: string, host: string, session: Session): (r: PingReply)
    ensures ' ' !in host ==> r.host == host
  {
    if ' ' !in host then
      CommandHostRoundTrip(count, host);
      ProbeOrNoReply(count, host, session)
    else
      ProbeOrNoReply(count, host, session)
  }

  /** The corrected `main` counts an address whose SSH session to the gateway raised as unresponded. */
  lemma ProbeRaisedNoReply(count: string, host: string)
    ensures Probe(count, host, Raised) == NoReply(host)
  {
  }

  /** The corrected `main` counts an address whose latency token `float` rejects as unresponded. */
  lemma ProbeRejectedNoReply(count: string, host: string, out: string)
    requires PingExec(PingCommand(count, host), out).Failure?
    ensures Probe(count, host, Printed(out)) == NoReply(host)
  {
  }

  function ProbeOrNoReply(count: string, host: string, session: Session): PingReply
  {
    match ProbeAsWritten(count, host, session)
    case Some(reply) => reply
    case None => NoReply(host)
  }

  /** `executor.map(main, adresses)` as written: one result per address, in address order. */
  function ProbeAllAsWritten(count: string, addresses: seq<string>, sessions: seq<Session>): (items: seq<Option<PingReply>>)
    requires |sessions| == |addresses|
    ensures |items| == |addresses|
  {
    seq(|addresses|, k requires 0 <= k < |addresses| => ProbeAsWritten(count, addresses[k], sessions[k]))
  }

  /** `executor.map` over the corrected `main`. */
  function ProbeAll(count: string, addresses: seq<string>, sessions: seq<Session>): (ps: seq<PingReply>)
    requires |sessions| == |addresses|
    ensures |ps| == |addresses|
  {
    seq(|addresses|, k requires 0 <= k < |addresses| => Probe(count, addresses[k], sessions[k]))
  }

  /** As written, one address whose session raised makes the loop fail with `TypeError` at its position. */
  lemma FailedSessionCrashes(count: string, addresses: seq<string>, sessions: seq<Session>, k: nat)
    requires |sessions| == |addresses| && k < |addresses|
    requires sessions[k] == Raised
    requires forall j :: 0 <= j < k ==> ProbeAsWritten(count, addresses[j], sessions[j]).Some?
    ensures Summarize(ProbeAllAsWritten(count, addresses, sessions)) == Failure(TypeError(k))
  {
    var items := ProbeAllAsWritten(count, addresses, sessions);
    assert items[k].None?;
  }

  /**
   * As written, a session whose output `float` rejects makes `main` return
   * `None` as well, and the loop fails with `TypeError` at that address.
   */
  lemma RejectedTokenCrashes(count: string, addresses: seq<string>, sessions: seq<Session>, k: nat)
    requires |sessions| == |addresses| && k < |addresses|
    requires sessions[k].Printed? && PingExec(PingCommand(count, addresses[k]), sessions[k].stdout).Failure?
    requires forall j :: 0 <= j < k ==> ProbeAsWritten(count, addresses[j], sessions[j]).Some?
    ensures Summarize(ProbeAllAsWritten(count, addresses, sessions)) == Failure(TypeError(k))
  {
    var items := ProbeAllAsWritten(count, addresses, sessions);
    assert items[k].None?;
  }

  /** The total latency of the corrected run is never negative: every latency comes from `float` of a token. */
  lemma ProbeAllTotalNonNegative(count: string, addresses: seq<string>, sessions: seq<Session>)
    requires |sessions| == |addresses|
    ensures TotalLatency(ProbeAll(count, addresses, sessions)) >= 0.0
  {
    var ps := ProbeAll(count, addresses, sessions);
    forall k | 0 <= k < |ps| ensures ps[k].Reply? ==> ps[k].latency >= 0.0 {
      if sessions[k].Printed? {
        ReplyLatencyNonNegative(PingCommand(count, addresses[k]), sessions[k].stdout);
      }
    }
    TotalNonNegative(ps);
  }

  /** The smallest case: the SSH session to the gateway raised for the one address, and the script stops instead of reporting it. */
  lemma RaisedSessionCrash(count: string)
    ensures Summarize(ProbeAllAsWritten(count, ["10.0.0.9"], [Raised])) == Failure(TypeError(0))
  {
    FailedSessionCrashes(count, ["10.0.0.9"], [Raised], 0);
  }

  /** One host whose average field `float` rejects, and the script stops instead of reporting it. */
  lemma RejectedTokenCrash()
    ensures Summarize(ProbeAllAsWritten("5", ["10.0.0.2"], [Printed(PingExamples.OddLine + "\n")])) == Failure(TypeError(0))
  {
    PingExamples.OddTokenExample(PingCommand("5", "10.0.0.2"), PingExamples.OddLine + "\n");
    RejectedTokenCrashes("5", ["10.0.0.2"], [Printed(PingExamples.OddLine + "\n")], 0);
  }

  /**
   * With the corrected `main` there is always a report: every address is counted
   * once, as an answer or as an unresponded host named by its address.
   */
  lemma ReportCoversAddresses(count: string, addresses: seq<string>, sessions: seq<Session>)
    requires |sessions| == |addresses|
    ensures var ps := ProbeAll(count, addresses, sessions);
      Summarize(seq(|ps|, k requires 0 <= k < |ps| => Some(ps[k]))) == Success(Summary(ps)) &&
      RespondedCount(ps) + |Summary(ps).unresponded| == |addresses| &&
      forall k :: 0 <= k < |ps| && ' ' !in addresses[k] ==> ps[k].host == addresses[k]
  {
    var ps := ProbeAll(count, addresses, sessions);
    var items := seq(|ps|, k requires 0 <= k < |ps| => Some(ps[k]));
    assert FirstMissing(items) == |items|;
    assert Values(items) == ps;
    Partition(ps);
  }

  /** With the corrected `main`, a host listed as unresponded is one whose probe did not answer, at its place in the address order. */
  lemma UnrespondedAddress(count: string, addresses: seq<string>, sessions: seq<Session>, k: nat)
    requires |sessions| == |addresses| && k < |addresses|
    requires ' ' !in addresses[k]
    requires !Responded(Probe(count, addresses[k], sessions[k]))
    ensures var ps := ProbeAll(count, addresses, sessions);
      Unresponded(ps) == Unresponded(ps[..k]) + [addresses[k]] + Unresponded(ps[k + 1..])
  {
    UnrespondedAt(ProbeAll(count, addresses, sessions), k);
  }
}
