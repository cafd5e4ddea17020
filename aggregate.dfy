/**
 * The loop over `executor.map(main, adresses)`: the latencies of the hosts
 * that answered are summed, the others are listed in order, and the average
 * is taken only when the sum is positive.
 */
module Aggregate {
  import opened Wrappers
  import opened PingExtract
  import opened Seqs

  /** `if item[0]:` — the descriptive text is present and, as a Python string, non-empty. */
  predicate Responded(p: PingReply)
  {
    p.Reply? && p.info != []
  }

  /** What the script reports: `total_ping`, `unresponded`, and the average when it is printed. */
  datatype Report = Report(total: real, unresponded: seq<string>, average: Option<real>)

  /** `item[0]` on the `None` that `main` returns after an exception raises `TypeError`. */
  datatype Crash = TypeError(index: nat)

  /** `total_ping`: the sum of the latencies of the hosts that answered. */
  function TotalLatency(ps: seq<PingReply>): real
    decreases |ps|
  {
    if ps == [] then 0.0
    else
      var p := ps[|ps| - 1];
      TotalLatency(ps[..|ps| - 1]) + (if Responded(p) then p.latency else 0.0)
  }

  /** `unresponded`: the hosts that did not answer, in the order of the results. */
  function Unresponded(ps: seq<PingReply>): (hosts: seq<string>)
    ensures |hosts| <= |ps|
    decreases |ps|
  {
    if ps == [] then []
    else
      var p := ps[|ps| - 1];
      Unresponded(ps[..|ps| - 1]) + (if Responded(p) then [] else [p.host])
  }

  /** Number of hosts that answered. */
  function RespondedCount(ps: seq<PingReply>): nat
    decreases |ps|
  {
    if ps == [] then 0
    else RespondedCount(ps[..|ps| - 1]) + (if Responded(ps[|ps| - 1]) then 1 else 0)
  }

  /** Every result is counted once: as an answer or as an unresponded host. */
  lemma {:induction false} Partition(ps: seq<PingReply>)
    ensures RespondedCount(ps) + |Unresponded(ps)| == |ps|
    decreases |ps|
  {
    if ps != [] {
      Partition(ps[..|ps| - 1]);
    }
  }

  /** Latencies are never negative, so the sum is not either. */
  lemma {:induction false} TotalNonNegative(ps: seq<PingReply>)
    requires forall k :: 0 <= k < |ps| ==> ps[k].Reply? ==> ps[k].latency >= 0.0
    ensures TotalLatency(ps) >= 0.0
    decreases |ps|
  {
    if ps != [] {
      TotalNonNegative(ps[..|ps| - 1]);
    }
  }

  /** A non-zero sum needs at least one answer, so the divisor of the average is at least 1. */
  lemma {:induction false} TotalNeedsResponder(ps: seq<PingReply>)
    requires TotalLatency(ps) != 0.0
    ensures RespondedCount(ps) >= 1
    ensures |ps| - |Unresponded(ps)| >= 1
    decreases |ps|
  {
    Partition(ps);
    var init := ps[..|ps| - 1];
    if !Responded(ps[|ps| - 1]) {
      TotalNeedsResponder(init);
    }
  }

  /** The report over results that are all present. */
  function Summary(ps: seq<PingReply>): (r: Report)
    ensures r.total == TotalLatency(ps) && r.unresponded == Unresponded(ps)
    ensures r.average.Some? <==> r.total > 0.0
    ensures r.average.Some? ==> r.average.value * (RespondedCount(ps) as real) == r.total
  {
    var total := TotalLatency(ps);
    var unresponded := Unresponded(ps);
    if total > 0.0 then
      TotalNeedsResponder(ps);
      Partition(ps);
      Report(total, unresponded, Some(total / ((|ps| - |unresponded|) as real)))
    else
      Report(total, unresponded, None)
  }

  /** Position of the first `None` among the results, or their number. */
  function FirstMissing(items: seq<Option<PingReply>>): (k: nat)
    ensures k <= |items|
    ensures k < |items| ==> items[k].None?
    ensures forall j :: 0 <= j < k ==> items[j].Some?
    decreases |items|
  {
    if items == [] then 0
    else if items[0].None? then 0
    else 1 + FirstMissing(items[1..])
  }

  function Values(items: seq<Option<PingReply>>): (ps: seq<PingReply>)
    requires forall k :: 0 <= k < |items| ==> items[k].Some?
    ensures |ps| == |items| && forall k :: 0 <= k < |items| ==> items[k] == Some(ps[k])
  {
    seq(|items|, k requires 0 <= k < |items| => items[k].value)
  }

  /** What the loop ends with: the report, or the `TypeError` at the first `None`. */
  function Summarize(items: seq<Option<PingReply>>): (r: Result<Report, Crash>)
    ensures r.Success? <==> forall k :: 0 <= k < |items| ==> items[k].Some?
    ensures r.Failure? ==> r.error.index < |items| && items[r.error.index].None?
  {
    var k := FirstMissing(items);
    if k < |items| then Failure(TypeError(k)) else Success(Summary(Values(items)))
  }

  /** The `for item in results` loop and the `if total_ping > 0` block after it. */
  method AggregateResults(items: seq<Option<PingReply>>) returns (r: Result<Report, Crash>)
    ensures r == Summarize(items)
  {
    var total := 0.0;
    var unresponded: seq<string> := [];
    ghost var done: seq<PingReply> := [];
    for i := 0 to |items|
      invariant |done| == i && forall k :: 0 <= k < i ==> items[k] == Some(done[k])
      invariant total == TotalLatency(done)
      invariant unresponded == Unresponded(done)
    {
      match items[i]
      case None =>
        return Failure(TypeError(i));
      case Some(p) =>
        if Responded(p) {
          total := total + p.latency;
        } else {
          unresponded := unresponded + [p.host];
        }
        assert (done + [p])[..i] == done;
        done := done + [p];
    }
    assert done == Values(items);
    if total > 0.0 {
      TotalNeedsResponder(done);
      var average := total / ((|items| - |unresponded|) as real);
      return Success(Report(total, unresponded, Some(average)));
    }
    return Success(Report(total, unresponded, None));
  }

  /** Reading the results one after the other: the unresponded list of a concatenation is the concatenation. */
  lemma {:induction false} UnrespondedAppend(a: seq<PingReply>, b: seq<PingReply>)
    ensures Unresponded(a + b) == Unresponded(a) + Unresponded(b)
    decreases |b|
  {
    if b == [] {
      assert a + b == a;
    } else {
      assert (a + b)[..|a + b| - 1] == a + b[..|b| - 1];
      UnrespondedAppend(a, b[..|b| - 1]);
    }
  }

  /** A host that did not answer is listed after those before it and before those after it. */
  lemma UnrespondedAt(ps: seq<PingReply>, k: nat)
    requires k < |ps| && !Responded(ps[k])
    ensures Unresponded(ps) == Unresponded(ps[..k]) + [ps[k].host] + Unresponded(ps[k + 1..])
  {
    SplitAt(ps, k);
    UnrespondedAppend(ps[..k] + [ps[k]], ps[k + 1..]);
    UnrespondedAppend(ps[..k], [ps[k]]);
    assert [ps[k]][..0] == [];
  }

  /** Hosts that answered with latency 0 give a zero sum, so no average is printed although they answered. */
  lemma ZeroLatencyNoAverage(host: string)
    ensures Summary([Reply("min/avg/max/mdev = 0.000/0.000/0.000/0.000 ms", 0.0, host)]).average == None
    ensures RespondedCount([Reply("min/avg/max/mdev = 0.000/0.000/0.000/0.000 ms", 0.0, host)]) == 1
  {
    var ps := [Reply("min/avg/max/mdev = 0.000/0.000/0.000/0.000 ms", 0.0, host)];
    assert ps[..0] == [];
    assert Responded(ps[0]);
    assert TotalLatency(ps) == 0.0;
  }

  /** Three hosts, the second unreachable: the average of the other two, and the second listed. */
  lemma ThreeHostsExample()
    ensures Summary([Reply("a", 10.0, "A"), NoReply("B"), Reply("c", 20.0, "C")]) ==
      Report(30.0, ["B"], Some(15.0))
  {
    var ps := [Reply("a", 10.0, "A"), NoReply("B"), Reply("c", 20.0, "C")];
    var p1, p2 := ps[..1], ps[..2];
    assert p1[..0] == [] && p2[..1] == p1 && ps[..2] == p2;
    assert Responded(ps[0]) && !Responded(ps[1]) && Responded(ps[2]);
    assert TotalLatency(p1) == 10.0 && Unresponded(p1) == [];
    assert TotalLatency(p2) == 10.0 && Unresponded(p2) == ["B"];
    assert TotalLatency(ps) == 30.0 && Unresponded(ps) == ["B"];
  }

  /** No results: no average, nothing unresponded, no division. */
  lemma EmptyExample()
    ensures Summarize([]) == Success(Report(0.0, [], None))
  {
  }
}
