/**
 * `SSHClientExt.ping_exec` with the SSH session taken out: from the command
 * string and the text the remote `ping` printed, the triple the method returns,
 * or the `ValueError` that `float` raises on an unusual token.
 */
module PingExtract {
  import opened Wrappers
  import opened PyText
  import PingPattern
  import PyFloat

  /** `(data_info, float(data), host)` when the pattern matched, `(None, None, host)` otherwise. */
  datatype PingReply = Reply(info: string, latency: real, host: string) | NoReply(host: string)

  /** `float(data)` raised on this token. */
  datatype PingError = ValueError(token: string)

  /** The command `main` sends: `'ping -c{} {}'.format(count, host)`. */
  function PingCommand(count: string, host: string): string
  {
    "ping -c" + count + " " + host
  }

  /** `command.split(' ')[-1]`. */
  function CommandHost(command: string): (host: string)
    ensures ' ' !in host
  {
    SplitPartsFree(command, ' ');
    Last(Split(command, ' '))
  }

  /** `data.rstrip('\n').rstrip(' ').split('\n')[-1]`: the line the summary is read from. */
  function SummaryLine(out: string): (line: string)
    ensures '\n' !in line
  {
    SplitPartsFree(RStrip(RStrip(out, '\n'), ' '), '\n');
    Last(Split(RStrip(RStrip(out, '\n'), ' '), '\n'))
  }

  /** The characters of the argument of `lstrip('rtt ')`, which is a set, not a prefix. */
  const RttChars: set<char> := {'r', 't', ' '}

  /** `data.lstrip('rtt ')`. */
  function Describe(line: string): (info: string)
    ensures |info| <= |line| && info == line[|line| - |info|..]
    ensures info == [] || info[0] !in RttChars
  {
    LStrip(line, RttChars)
  }

  /** A match of the pattern holds at least three `/`. */
  lemma MatchHasSlashes(line: string)
    ensures PingPattern.Search(line).Some? ==>
      var (i, j) := PingPattern.Search(line).value;
      i < j && PingPattern.IsDigit(line[i]) && Occurrences(line[i..j], '/') >= 3
  {
    if PingPattern.Search(line).Some? {
      var (i, j) := PingPattern.Search(line).value;
      PingPattern.SearchSpec(line, PingPattern.Pattern);
      PingPattern.PatternWordShape(line, i, j, PingPattern.Pattern);
    }
  }

  /** `match.group().split('/')[1]`: the text between the first two `/` of the match. */
  function LatencyToken(m: string): (t: string)
    requires '/' in m
    ensures '/' !in t
  {
    SplitCount(m, '/');
    SplitPartsFree(m, '/');
    NoOccurrences(m, '/');
    Split(m, '/')[1]
  }

  /** The latency token is the text between the first and the second `/` of the match. */
  lemma LatencyTokenBetween(m: string)
    requires '/' in m && Occurrences(m, '/') >= 2
    ensures exists a: string, rest: string :: '/' !in a && m == a + ['/'] + LatencyToken(m) + ['/'] + rest
  {
    NoOccurrences(m, '/');
    var parts := Split(m, '/');
    SplitCount(m, '/');
    SplitPartsFree(m, '/');
    JoinSplit(m, '/');
    assert Join(parts, '/') == parts[0] + ['/'] + Join(parts[1..], '/');
    assert parts[1..][0] == parts[1] && parts[1..][1..] == parts[2..];
    assert Join(parts[1..], '/') == parts[1] + ['/'] + Join(parts[2..], '/');
    assert m == parts[0] + ['/'] + LatencyToken(m) + ['/'] + Join(parts[2..], '/');
  }

  /** `ping_exec` from `data = stdout.read().decode(...)` on. */
  function PingExec(command: string, out: string): (r: Result<PingReply, PingError>)
    ensures r.Success? ==> r.value.host == CommandHost(command)
    ensures r.Failure? ==> PingPattern.Search(SummaryLine(out)).Some?
  {
    var host := CommandHost(command);
    var line := SummaryLine(out);
    MatchHasSlashes(line);
    match PingPattern.Search(line)
    case None => Success(NoReply(host))
    case Some((i, j)) =>
      NoOccurrences(line[i..j], '/');
      var token := LatencyToken(line[i..j]);
      match PyFloat.ParseFloat(token)
      case None => Failure(ValueError(token))
      case Some(v) => Success(Reply(Describe(line), v, host))
  }

  /** The part after the last separator is whatever follows it, when that holds no separator. */
  lemma LastTokenAfterSeparator(a: string, b: string, sep: char)
    requires sep !in b
    ensures Last(Split(a + [sep] + b, sep)) == b
  {
    SplitConcat(a, b, sep);
    SplitFree(b, sep);
  }

  /** The host `ping_exec` recovers from the command `main` builds is the address `main` was given. */
  lemma CommandHostRoundTrip(count: string, host: string)
    requires ' ' !in host
    ensures CommandHost(PingCommand(count, host)) == host
  {
    assert PingCommand(count, host) == ("ping -c" + count) + [' '] + host;
    LastTokenAfterSeparator("ping -c" + count, host, ' ');
  }

  /** Every triple `ping_exec` returns carries the host recovered from the command. */
  lemma PingExecHost(command: string, out: string)
    ensures PingExec(command, out).Success? ==> PingExec(command, out).value.host == CommandHost(command)
  {
  }

  /** A reply's latency is a value `float` produced from the token, so it is never negative. */
  lemma ReplyLatencyNonNegative(command: string, out: string)
    ensures PingExec(command, out).Success? && PingExec(command, out).value.Reply? ==>
      PingExec(command, out).value.latency >= 0.0
  {
  }

  /** The inspected line holds no newline and ends the output once trailing newlines, then trailing spaces, are removed. */
  lemma SummaryLineShape(out: string)
    ensures var trimmed := RStrip(RStrip(out, '\n'), ' ');
      var line := SummaryLine(out);
      '\n' !in line && |line| <= |trimmed| && line == trimmed[|trimmed| - |line|..] &&
      (|line| < |trimmed| ==> trimmed[|trimmed| - |line| - 1] == '\n')
  {
    LastSplitSuffix(RStrip(RStrip(out, '\n'), ' '), '\n');
  }

  /** `lstrip('rtt ')` drops the leading run of `r`, `t` and space, whatever their order. */
  lemma DescribeShape(line: string)
    ensures var info := Describe(line);
      |info| <= |line| && info == line[|line| - |info|..] &&
      (info == [] || info[0] !in {'r', 't', ' '}) &&
      forall k :: 0 <= k < |line| - |info| ==> line[k] in {'r', 't', ' '}
  {
    LStripDropped(line, RttChars);
  }

  /** `lstrip('rtt ')` stops at the first character outside the set. */
  lemma DescribeKeeps(line: string, i: nat)
    requires i < |line| && line[i] !in RttChars
    ensures |line| - |Describe(line)| <= i
  {
    LStripDropped(line, RttChars);
  }

  /** The descriptive text of a reply holds the whole match, so it is never empty. */
  lemma ReplyInfoHoldsMatch(command: string, out: string)
    ensures PingExec(command, out).Success? && PingExec(command, out).value.Reply? ==>
      var line := SummaryLine(out);
      var info := PingExec(command, out).value.info;
      var (i, j) := PingPattern.Search(line).value;
      PingPattern.Search(line).Some? && |line| - |info| <= i < j <= |line| && info != []
  {
    ReplyFromMatch(command, out);
    MatchInDescription(SummaryLine(out));
  }

  /** A reply comes from a match on the summary line, and its text is that line's description. */
  lemma ReplyFromMatch(command: string, out: string)
    ensures PingExec(command, out).Success? && PingExec(command, out).value.Reply? ==>
      PingPattern.Search(SummaryLine(out)).Some? && PingExec(command, out).value.info == Describe(SummaryLine(out))
  {
  }

  /** The description of a line that matches starts at or before the match. */
  lemma MatchInDescription(line: string)
    ensures PingPattern.Search(line).Some? ==>
      var (i, j) := PingPattern.Search(line).value;
      |line| - |Describe(line)| <= i < j <= |line| && Describe(line) != []
  {
    MatchHasSlashes(line);
    if PingPattern.Search(line).Some? {
      var (i, j) := PingPattern.Search(line).value;
      DescribeKeeps(line, i);
    }
  }

  /** `(None, None, host)` comes back exactly when no substring of the line matches the pattern. */
  lemma NoReplyIffNoMatch(command: string, out: string)
    ensures PingExec(command, out) == Success(NoReply(CommandHost(command))) <==>
      forall a: nat, b: nat :: !PingPattern.Spans(SummaryLine(out), a, b, PingPattern.Pattern)
  {
    PingPattern.SearchSpec(SummaryLine(out), PingPattern.Pattern);
  }

  /** Output without any `/`, such as `ping: unknown host`, yields `(None, None, host)`. */
  lemma NoSlashNoReply(command: string, out: string)
    requires '/' !in out
    ensures PingExec(command, out) == Success(NoReply(CommandHost(command)))
  {
    var t1 := RStrip(out, '\n');
    var t2 := RStrip(t1, ' ');
    var line := SummaryLine(out);
    SummaryLineShape(out);
    assert '/' !in line by {
      forall k | 0 <= k < |line| ensures line[k] != '/' {
        assert line[k] == t2[|t2| - |line| + k] == t1[|t2| - |line| + k] == out[|t2| - |line| + k];
      }
    }
    PingPattern.NoSlashNoMatch(line);
  }
}
