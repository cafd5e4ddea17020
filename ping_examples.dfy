/**
 * `ping_exec` on two outputs of the Linux `ping`: a summary line with the
 * `min/avg/max/mdev` quadruple, and the error of an unknown host.
 */
module PingExamples {
  import opened Wrappers
  import opened PyText
  import opened PingPattern
  import opened PingExtract
  import PyFloat

  /** The last line `ping -c5` prints for a reachable host. */
  const RttLine: string := "rtt min/avg/max/mdev = 10.1/12.5/15.0/1.2 ms"

  lemma RttLineIsSummary(out: string)
    requires out == RttLine + "\n"
    ensures SummaryLine(out) == RttLine
  {
    assert RStrip(out, '\n') == RttLine by {
      assert out[..|RttLine|] == RttLine;
    }
    assert RStrip(RttLine, ' ') == RttLine;
    SplitFree(RttLine, '\n');
  }

  /** The greedy match of the quadruple, `10.1/12.5/15.0/1.2`, spans positions 23 to 41. */
  lemma RttMatchAt23()
    ensures MatchFrom(RttLine, 23, Pattern) == Some(41)
  {
    assert RttLine[23..28] == "10.1/";
    var p := Pattern;
    RttMatchMiddle(p[4..]);
    assert MatchFrom(RttLine, 27, p[3..]) == Some(41);
    assert MatchFrom(RttLine, 26, p[2..]) == Some(41);
    assert MatchFrom(RttLine, 25, p[1..]) == Some(41);
    assert MatchFrom(RttLine, 23, p[0..]) == Some(41);
  }

  /** From `12.5` on, against the pattern after its first `/`. */
  lemma RttMatchMiddle(rest: seq<Elem>)
    requires rest == Pattern[4..]
    ensures MatchFrom(RttLine, 28, rest) == Some(41)
  {
    assert RttLine[28..33] == "12.5/";
    assert rest[4..] == Pattern[8..];
    RttMatchTail(rest[4..]);
    assert rest[..4] == [Digits, AnyChar, Digits, Slash];
    assert MatchFrom(RttLine, 32, rest[3..]) == Some(41);
    assert MatchFrom(RttLine, 31, rest[2..]) == Some(41);
    assert MatchFrom(RttLine, 30, rest[1..]) == Some(41);
    assert MatchFrom(RttLine, 28, rest[0..]) == Some(41);
  }

  /** The second half of the match: `15.0/1.2` from position 33, against the last seven elements of the pattern. */
  lemma RttMatchTail(rest: seq<Elem>)
    requires rest == Pattern[8..]
    ensures MatchFrom(RttLine, 33, rest) == Some(41)
  {
    assert RttLine[33..] == "15.0/1.2 ms";
    assert rest == [Digits, AnyChar, Digits, Slash, Digits, AnyChar, Digits];
    assert MatchFrom(RttLine, 41, rest[7..]) == Some(41);
    assert MatchFrom(RttLine, 40, rest[6..]) == Some(41);
    assert MatchFrom(RttLine, 39, rest[5..]) == Some(41);
    assert MatchFrom(RttLine, 38, rest[4..]) == Some(41);
    assert MatchFrom(RttLine, 37, rest[3..]) == Some(41);
    assert MatchFrom(RttLine, 36, rest[2..]) == Some(41);
    assert MatchFrom(RttLine, 35, rest[1..]) == Some(41);
    assert MatchFrom(RttLine, 33, rest[0..]) == Some(41);
  }

  lemma RttSearch()
    ensures Search(RttLine) == Some((23, 41))
  {
    SearchSkips(RttLine, 0, 23);
    RttMatchAt23();
  }

  /** The token between the first two slashes of the match is the average, `12.5`. */
  lemma RttToken()
    ensures '/' in RttLine[23..41] && LatencyToken(RttLine[23..41]) == "12.5"
  {
    var m := RttLine[23..41];
    assert m[4] == '/';
    assert m == "10.1" + ['/'] + ("12.5" + ['/'] + "15.0/1.2");
    SplitAround("10.1", "12.5" + ['/'] + "15.0/1.2", '/');
    SplitAround("12.5", "15.0/1.2", '/');
  }

  lemma RttFloat()
    ensures PyFloat.ParseFloat("12.5") == Some(12.5)
  {
    PyFloat.DecimalToken("12", "5");
    assert "12" + "." + "5" == "12.5";
    assert "12" + "5" == "125";
    assert PyFloat.DigitsValue("125") == 125;
  }

  /** `lstrip('rtt ')` removes exactly the label `rtt `, since `m` is outside the set. */
  lemma RttDescription(line: string)
    requires line == RttLine
    ensures Describe(line) == "min/avg/max/mdev = 10.1/12.5/15.0/1.2 ms"
  {
    RttLabel(line);
    LStripRun(line, RttChars, 4);
  }

  lemma RttLabel(line: string)
    requires line == RttLine
    ensures forall k :: 0 <= k < 4 ==> line[k] in RttChars
    ensures line[4] !in RttChars
    ensures line[4..] == "min/avg/max/mdev = 10.1/12.5/15.0/1.2 ms"
  {
  }

  lemma ReplyOf(command: string, out: string, i: nat, j: nat, v: real)
    requires Search(SummaryLine(out)) == Some((i, j))
    requires '/' in SummaryLine(out)[i..j]
    requires PyFloat.ParseFloat(LatencyToken(SummaryLine(out)[i..j])) == Some(v)
    ensures PingExec(command, out) == Success(Reply(Describe(SummaryLine(out)), v, CommandHost(command)))
  {
  }

  /** A reachable host: descriptive text without the `rtt ` label, average 12.5, and the host. */
  lemma RttExample(command: string, out: string)
    requires command == PingCommand("5", "10.0.0.1") && out == RttLine + "\n"
    ensures PingExec(command, out) ==
      Success(Reply("min/avg/max/mdev = 10.1/12.5/15.0/1.2 ms", 12.5, "10.0.0.1"))
  {
    CommandHostRoundTrip("5", "10.0.0.1");
    RttLineIsSummary(out);
    RttSearch();
    RttToken();
    RttFloat();
    RttDescription(RttLine);
    ReplyOf(command, out, 23, 41, 12.5);
  }

  /** A summary line whose average field has a letter where `float` wants a point. */
  const OddLine: string := "rtt min/avg/max/mdev = 1.1/2x5/3.5/4.5 ms"

  lemma OddLineIsSummary(out: string)
    requires out == OddLine + "\n"
    ensures SummaryLine(out) == OddLine
  {
    assert RStrip(out, '\n') == OddLine by {
      assert out[..|OddLine|] == OddLine;
    }
    assert RStrip(OddLine, ' ') == OddLine;
    SplitFree(OddLine, '\n');
  }

  /** `.` matches the `x`, so `1.1/2x5/3.5/4.5` spans positions 23 to 38. */
  lemma OddMatchAt23()
    ensures MatchFrom(OddLine, 23, Pattern) == Some(38)
  {
    assert OddLine[23..] == "1.1/2x5/3.5/4.5 ms";
    var p := Pattern;
    OddMatchTail(p[8..]);
    assert p[..8] == [Digits, AnyChar, Digits, Slash, Digits, AnyChar, Digits, Slash];
    assert MatchFrom(OddLine, 30, p[7..]) == Some(38);
    assert MatchFrom(OddLine, 29, p[6..]) == Some(38);
    assert MatchFrom(OddLine, 28, p[5..]) == Some(38);
    assert MatchFrom(OddLine, 27, p[4..]) == Some(38);
    assert MatchFrom(OddLine, 26, p[3..]) == Some(38);
    assert MatchFrom(OddLine, 25, p[2..]) == Some(38);
    assert MatchFrom(OddLine, 24, p[1..]) == Some(38);
    assert MatchFrom(OddLine, 23, p[0..]) == Some(38);
  }

  /** `3.5/4.5` from position 31, against the last seven elements of the pattern. */
  lemma OddMatchTail(rest: seq<Elem>)
    requires rest == Pattern[8..]
    ensures MatchFrom(OddLine, 31, rest) == Some(38)
  {
    assert OddLine[31..] == "3.5/4.5 ms";
    assert rest == [Digits, AnyChar, Digits, Slash, Digits, AnyChar, Digits];
    assert MatchFrom(OddLine, 38, rest[7..]) == Some(38);
    assert MatchFrom(OddLine, 37, rest[6..]) == Some(38);
    assert MatchFrom(OddLine, 36, rest[5..]) == Some(38);
    assert MatchFrom(OddLine, 35, rest[4..]) == Some(38);
    assert MatchFrom(OddLine, 34, rest[3..]) == Some(38);
    assert MatchFrom(OddLine, 33, rest[2..]) == Some(38);
    assert MatchFrom(OddLine, 32, rest[1..]) == Some(38);
    assert MatchFrom(OddLine, 31, rest[0..]) == Some(38);
  }

  lemma OddToken()
    ensures '/' in OddLine[23..38] && LatencyToken(OddLine[23..38]) == "2x5"
  {
    var m := OddLine[23..38];
    assert m[3] == '/';
    assert m == "1.1" + ['/'] + ("2x5" + ['/'] + "3.5/4.5");
    SplitAround("1.1", "2x5" + ['/'] + "3.5/4.5", '/');
    SplitAround("2x5", "3.5/4.5", '/');
  }

  /**
   * The pattern matches, but `float("2x5")` raises `ValueError`: `ping_exec`
   * does not return a triple at all.
   */
  lemma OddTokenExample(command: string, out: string)
    requires command == PingCommand("5", "10.0.0.2") && out == OddLine + "\n"
    ensures PingExec(command, out) == Failure(ValueError("2x5"))
  {
    OddLineIsSummary(out);
    OddSearch();
    OddToken();
    OddFloat();
    FailureOf(command, out, 23, 38);
  }

  lemma OddSearch()
    ensures Search(OddLine) == Some((23, 38))
  {
    assert OddLine[..23] == "rtt min/avg/max/mdev = ";
    assert forall m :: 0 <= m < 23 ==> !IsDigit(OddLine[m]);
    SearchSkips(OddLine, 0, 23);
    OddMatchAt23();
  }

  lemma OddFloat()
    ensures PyFloat.ParseFloat("2x5") == None
  {
    PyFloat.RejectedSeparator("2", 'x', "5");
    assert "2" + ['x'] + "5" == "2x5";
  }

  lemma FailureOf(command: string, out: string, i: nat, j: nat)
    requires Search(SummaryLine(out)) == Some((i, j))
    requires '/' in SummaryLine(out)[i..j]
    requires PyFloat.ParseFloat(LatencyToken(SummaryLine(out)[i..j])) == None
    ensures PingExec(command, out) == Failure(ValueError(LatencyToken(SummaryLine(out)[i..j])))
  {
  }

  /** An unknown host: `(None, None, host)`. */
  lemma UnknownHostExample(command: string, out: string)
    requires command == PingCommand("5", "example.invalid")
    requires out == "ping: unknown host example.invalid\n"
    ensures PingExec(command, out) == Success(NoReply("example.invalid"))
  {
    CommandHostRoundTrip("5", "example.invalid");
    NoSlashNoReply(command, out);
  }
}
