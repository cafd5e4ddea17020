# sshping — a Dafny model

`sshping.py` logs in to one SSH jump host and runs `ping -c<count> <address>`
there for every address listed in a configuration file. From the summary line
that each remote `ping` prints (`rtt min/avg/max/mdev = a/b/c/d ms`), it takes
the average latency. At the end it reports the per-host statistics, the mean of
the averages over the hosts that answered, and the hosts that did not.

This project models the computational core of the script. The SSH session is
replaced by its outcome for each address.

- `SSHClientExt.ping_exec` (module `PingExtract`) covers:
  - recovering the host from the command;
  - choosing the summary line;
  - the `lstrip('rtt ')` description;
  - the search for `\d+.\d+/\d+.\d+/\d+.\d+/\d+.\d+`;
  - taking the second `/`-field;
  - `float()` on it, including its `ValueError`.
- Supporting modules:
  - `PingPattern`: the regular expression as a backtracking matcher, proved sound and complete against a declarative reading of the pattern; the search is proved to return the leftmost start.
  - `PyFloat`: Python's `float()` on the tokens the pattern produces.
  - `PyText`: `str.split`, `rstrip`, `lstrip` and `strip`.
- `getopts` (module `GetOpts`) is a method with the script's loop over `argv`. It is proved against a declarative list of flag/value bindings folded into the default dictionary. The `IndexError` of a trailing flag and of an empty argument is modelled as a failure.
- `adresses_loading` (module `Addresses`) is the line filter as a loop, proved against a declarative `Kept` function.
- The aggregation loop of the `__main__` block (module `Aggregate`) is a loop, proved against `Summarize`. That function reports:
  - the total latency;
  - the unresponded hosts in address order;
  - the average, or `TypeError` at the first result that is `None`.
- `main(host)` and `executor.map` (module `SshPing`) are modelled both as written and corrected. The two differ on what an exception does (see Findings).

Three behaviours of the code are easy to misread; the model follows the code in each:

- The inspected line is the last line once trailing newlines and then trailing spaces are removed. It is not "the last non-empty line". Output ending in `"\n \n"` gives an empty line.
- `lstrip('rtt ')` strips a set of characters, not a prefix.
- A latency token that `float` rejects is not treated as "no reply". It makes `main` return `None`, and the aggregation then crashes.

## Model

| member | source | states |
|---|---|---|
| PyText.Split | sshping.py:15 | `str.split` always returns at least one part |
| PyText.SplitPartsFree | sshping.py:15 | no part of a split holds the separator |
| PyText.JoinSplit | sshping.py:15 | joining the parts of a split with the separator gives back the string |
| PyText.SplitJoin | sshping.py:15 | splitting a join of separator-free parts gives back the parts |
| PyText.SplitConcat | sshping.py:15 | splitting `a + sep + b` gives the parts of `a` followed by the parts of `b` |
| PyText.SplitCount | sshping.py:28 | the number of parts is the number of separators plus one |
| PyText.LastSplitSuffix | sshping.py:20 | the last part of a split is a separator-free suffix of the string |
| PyText.RStrip | sshping.py:20 | `rstrip(c)` keeps a prefix of the string that does not end in `c` |
| PyText.RStripDropped | sshping.py:20 | only copies of `c` are removed by `rstrip(c)` |
| PyText.LStrip | sshping.py:22 | `lstrip(chars)` keeps a suffix of the string that does not start with one of the chars |
| PyText.LStripDropped | sshping.py:22 | only characters of the set are removed by `lstrip(chars)` |
| PyText.LStripRun | sshping.py:22 | `lstrip` removes exactly the leading run of characters from the set |
| PyText.Strip | sshping.py:50-54 | `strip(c)` never lengthens the string, and the result neither starts nor ends with `c` |
| PyText.StripSlice | sshping.py:50-54 | `strip(c)` is a contiguous slice, and everything removed on both sides is `c` |
| PyText.StripAbsent | sshping.py:50-54 | `strip(c)` of a string without `c` is the string itself |
| PingPattern.MatchFrom | sshping.py:9 | the backtracking matcher for `\d+.\d+/\d+.\d+/\d+.\d+/\d+.\d+` at one position ends within the string; `MatchFromSound` and `MatchFromComplete` relate it to the pattern |
| PingPattern.Search | sshping.py:23 | `ping_result_pattern.search` returns a span inside the line; `SearchSpec` states that it is the leftmost match |
| PingPattern.RunEnd | sshping.py:9 | the greedy `\d+` run ends at the first non-digit and covers only digits |
| PingPattern.MatchFromSound | sshping.py:9 | every end position the backtracking matcher returns spans the pattern |
| PingPattern.MatchFromComplete | sshping.py:9 | if the pattern spans some end from a start, the matcher finds a match there |
| PingPattern.PatternWordShape | sshping.py:9 | any match is non-empty, starts with a digit and holds at least three `/` |
| PingPattern.SearchSpec | sshping.py:23 | `search` finds nothing exactly when no substring matches; otherwise it returns a match with the leftmost start |
| PingPattern.SearchSkips | sshping.py:23 | the search passes over non-digit positions without finding a match there |
| PingPattern.NoSlashNoMatch | sshping.py:23 | a line with no `/` never matches |
| PyFloat.ParseFloat | sshping.py:30 | `float` of a token the pattern can produce is never negative |
| PyFloat.DecimalToken | sshping.py:30 | `float("a.b")` on digit strings is the exact decimal value `ab / 10^len(b)` |
| PyFloat.RejectedSeparator | sshping.py:30 | a token whose middle character is an ASCII character other than a digit, `.`, `e`, `E` or `_` makes `float` raise `ValueError` |
| PingExtract.PingCommand | sshping.py:119 | the command `'ping -c{} {}'.format(count, host)`; no contract of its own, `CommandHostRoundTrip` states what `ping_exec` recovers from it |
| PingExtract.CommandHost | sshping.py:15 | `command.split(' ')[-1]` holds no space |
| PingExtract.SummaryLine | sshping.py:20 | the line the summary is read from holds no newline; `SummaryLineShape` pins it down as the last line |
| PingExtract.Describe | sshping.py:22 | `lstrip('rtt ')` keeps a suffix of the line that does not start with `r`, `t` or space |
| PingExtract.PingExec | sshping.py:13-33 | every triple carries the host of the command, and `ValueError` is raised only after the pattern matched |
| PingExtract.LatencyToken | sshping.py:27-28 | the second `/`-field of the match holds no `/` |
| PingExtract.LatencyTokenBetween | sshping.py:27-28 | the latency token is exactly the text between the first and second `/` of the match |
| PingExtract.CommandHostRoundTrip | sshping.py:119 | `command.split(' ')[-1]` of the command `main` builds is the address it was given, for an address without spaces |
| PingExtract.PingExecHost | sshping.py:15 | every triple `ping_exec` returns carries the host recovered from the command |
| PingExtract.ReplyLatencyNonNegative | sshping.py:28-30 | the latency of every reply is `float` of its token, so it is never negative |
| PingExtract.SummaryLineShape | sshping.py:20 | the inspected line holds no newline, is the tail of the output once trailing newlines, then spaces, are removed, and is preceded there by a newline unless it is the whole of it: exactly the last line |
| PingExtract.DescribeShape | sshping.py:22 | the description is a suffix of the line, and everything removed before it is `r`, `t` or space |
| PingExtract.DescribeKeeps | sshping.py:22 | the description starts no later than the first character outside `{r, t, space}` |
| PingExtract.ReplyInfoHoldsMatch | sshping.py:22-30 | the description of a reply contains the whole match, so it is never empty |
| PingExtract.NoReplyIffNoMatch | sshping.py:23-33 | `(None, None, host)` is returned exactly when no substring of the line matches the pattern |
| PingExtract.NoSlashNoReply | sshping.py:31-33 | output with no `/` at all (`ping: unknown host`, say) gives `(None, None, host)` |
| PingExamples.RttExample | sshping.py:13-33 | for `rtt min/avg/max/mdev = 10.1/12.5/15.0/1.2 ms` the reply has latency 12.5 and the `rtt ` prefix removed |
| PingExamples.UnknownHostExample | sshping.py:31-33 | an error message instead of statistics gives `(None, None, host)` |
| PingExamples.OddTokenExample | sshping.py:20-30 | for `rtt min/avg/max/mdev = 1.1/2x5/3.5/4.5 ms` the pattern matches (`.` takes the `x`), and `float("2x5")` raises `ValueError` |
| GetOpts.Bindings | sshping.py:75-80 | every bound key starts with `-`, and there are at most half as many bindings as arguments |
| GetOpts.GetOpts | sshping.py:64-81 | the loop succeeds exactly when the bindings exist; it returns the defaults updated by them in order, or the same `IndexError` |
| GetOpts.BindingsAppend | sshping.py:75-80 | the arguments can be scanned in two pieces when the first piece scans cleanly |
| GetOpts.FlagBindsNext | sshping.py:76-78 | a flag binds the argument after it, and both are consumed |
| GetOpts.OtherTokenSkipped | sshping.py:79-80 | an argument not starting with `-` is skipped |
| GetOpts.FinalFlagFails | sshping.py:77 | a flag in last position raises `IndexError` |
| GetOpts.EmptyTokenFails | sshping.py:76 | an empty argument raises `IndexError` |
| GetOpts.Apply | sshping.py:77 | `opts[argv[0]] = argv[1]` for each binding in order never removes a key; `ApplyKeys` and `ApplyLookup` give its keys and values |
| GetOpts.ApplyKeys | sshping.py:65-77 | the keys of the result are the default keys plus the flags given |
| GetOpts.ApplyLookup | sshping.py:65-77 | a key's value is the last value given for it, or else its default |
| GetOpts.DefaultKeysKept | sshping.py:92-101 | all ten default keys survive, so the `input()` prompts never run |
| GetOpts.CommandLineExample | sshping.py:64-81 | `sshping.py -h gw -c 3` sets `-h` and `-c` and keeps every other default |
| Addresses.Skipped | sshping.py:50-51 | the skip test `not line or not line.strip(' ')`; no contract of its own, `SkippedIffEmpty` and `SpacesSkipped` describe it |
| Addresses.Address | sshping.py:50-54 | the stored address is no longer than its line and has no space at either end |
| Addresses.Kept | sshping.py:49-54 | the filter yields at most one address per line; `KeptAt` and `KeptFromLines` place each address at its line |
| Addresses.LoadAddresses | sshping.py:49-54 | the loop yields the declarative list of kept addresses, each without surrounding spaces |
| Addresses.KeptTrimmed | sshping.py:54 | no kept address is empty, and none starts or ends with a space |
| Addresses.SkippedIffEmpty | sshping.py:50-51 | a line is skipped exactly when its address would be empty |
| Addresses.SpacesSkipped | sshping.py:51 | a line of spaces only is skipped |
| Addresses.KeptAppend | sshping.py:49-54 | the filter distributes over concatenation of the file's lines |
| Addresses.KeptAt | sshping.py:49-54 | a line that is not skipped contributes its address, in file order |
| Addresses.KeptFromLines | sshping.py:49-54 | every kept address comes from some non-skipped line |
| Aggregate.Responded | sshping.py:131 | `if item[0]:` the triple carries a non-empty description; no contract of its own |
| Aggregate.TotalLatency | sshping.py:132 | `total_ping`; no contract of its own, `TotalNonNegative`, `TotalNeedsResponder` and `Summary` describe it |
| Aggregate.Unresponded | sshping.py:134-135 | `unresponded` holds at most one host per result; `UnrespondedAt` places each host at its result |
| Aggregate.Summarize | sshping.py:130-142 | the loop reports exactly when every result is a triple, and otherwise fails at a `None` |
| Aggregate.Partition | sshping.py:130-135 | every result is counted once, either as responded or as unresponded |
| Aggregate.TotalNonNegative | sshping.py:132 | the total latency is never negative |
| Aggregate.TotalNeedsResponder | sshping.py:137-142 | a nonzero total implies a responder, so the divisor is at least 1 |
| Aggregate.Summary | sshping.py:130-142 | the report holds the total latency and the unresponded hosts; an average is given exactly when the total is positive, and then average times responders equals the total |
| Aggregate.FirstMissing | sshping.py:131 | the first `None` result, where `item[0]` raises `TypeError` |
| Aggregate.AggregateResults | sshping.py:130-142 | the loop's outcome equals the declarative summary, or the `TypeError` at the first `None` |
| Aggregate.UnrespondedAppend | sshping.py:134-135 | the unresponded list of a concatenation is the concatenation of the lists |
| Aggregate.UnrespondedAt | sshping.py:135 | a non-responding result adds its host at its place in the list |
| Aggregate.ZeroLatencyNoAverage | sshping.py:137 | hosts that answered with latency 0 make the whole report disappear |
| Aggregate.ThreeHostsExample | sshping.py:130-142 | for 10 ms, no reply and 20 ms the total is 30, the average is 15, and the second host is listed |
| Aggregate.EmptyExample | sshping.py:128-137 | no addresses give a zero total and no report |
| SshPing.ProbeAsWritten | sshping.py:107-123 | `main` as written returns `None` exactly when the SSH session raised or `float` rejected the token |
| SshPing.Probe | sshping.py:107-123 | the corrected `main` always yields a triple for the address it was given |
| SshPing.ProbeRaisedNoReply | sshping.py:107-123 | the corrected `main` gives `(None, None, host)` when the SSH session to the gateway raised |
| SshPing.ProbeRejectedNoReply | sshping.py:107-123 | the corrected `main` gives `(None, None, host)` when `float` rejects the latency token |
| SshPing.ProbeAllAsWritten | sshping.py:128-129 | `executor.map` gives one result per address |
| SshPing.ProbeAll | sshping.py:128-129 | `executor.map` over the corrected `main` gives one triple per address |
| SshPing.FailedSessionCrashes | sshping.py:122-131 | as written, the first address whose session raised ends the loop with `TypeError` |
| SshPing.RejectedTokenCrashes | sshping.py:120-131 | as written, the first address whose latency token `float` rejects ends the loop with `TypeError` |
| SshPing.RejectedTokenCrash | sshping.py:120-131 | as written, one summary line with `2x5` as its average crashes the script instead of being reported |
| SshPing.RaisedSessionCrash | sshping.py:113-131 | as written, one address whose SSH session to the gateway raised crashes the script instead of being reported |
| SshPing.ReportCoversAddresses | sshping.py:128-142 | with the corrected `main` there is always a report for every address list: each address is counted once, and an address without a space is reported under its own name |
| SshPing.ProbeAllTotalNonNegative | sshping.py:128-132 | the total latency of the corrected run is never negative |
| SshPing.UnrespondedAddress | sshping.py:134-135 | an address whose corrected probe did not answer is listed at its place in address order |

## Left out

- The SSH connection is not modelled:
  - it covers `SSHClientExt`, `set_missing_host_key_policy`, `connect`, `exec_command` and UTF-8 decoding (sshping.py:108-120, 17-18);
  - each address's outcome is a parameter instead (`SshPing.Session`): an exception, or the decoded output.
- `ThreadPoolExecutor` and `max_workers` are not modelled. The model keeps only what `executor.map` guarantees: one result per address, in address order.
- The model follows Python 3.6 and 3.7. `time.clock` (sshping.py:8) was removed in Python 3.8, where the script fails at import; the `_` separator that `PyFloat.ParseFloat` accepts is Python 3.6 and later.
- Logging (`logging.*`, `set_log_config`) and the timings (`time.clock`) have no effect on the results, so they are left out.
- Opening the configuration file, and its `FileNotFoundError`/`Exception` handlers (sshping.py:44-48, 56-61), are left out. The lines of the file are the input of `LoadAddresses`.
- The `input()` prompts (sshping.py:92-101) are unreachable: `GetOpts.DefaultKeysKept` proves it.
- `int(config['-port'])` and `int(config['-proc'])` are not modelled, nor their `ValueError`.
- The `-e` option is read but never used by the script.
- The text of the report (sshping.py:126, 133, 138-147) is left out. The model keeps the values it prints: total, average, responders and unresponded hosts.
  - The report is printed only when `total_ping > 0`. When no host answered, not even the unresponded list appears. `Aggregate.Report` still holds those values.
- PyFloat.ParseFloat:
  - it follows `float()` only on tokens made of digits, or of digits, one other character and digits;
  - every `/`-field of a match has one of these forms, because each `\d+.\d+` contributes at most one non-digit between digits; this is argued, not proved in the model;
  - values are exact reals, so binary rounding is not modelled;
  - exponents too large for a double are not modelled;
  - non-ASCII decimal digits are not modelled: `float` reads them as digits (`float("1٣5")` is 135.0), while `ParseFloat` returns `None` for such a token.
- PyFloat.RejectedSeparator: covers ASCII middle characters only. A non-ASCII decimal digit in the middle is read by `float` as a digit, and the model does not say what `float` returns then.
- PingPattern.RunEnd: `\d` is taken as the ASCII digits. Python 3's `\d` also matches other Unicode decimal digits.
- PingExtract.CommandHostRoundTrip: addresses that contain a space are not covered. For them `split(' ')[-1]` returns only their last word.
- The divisor `len(adresses)` is modelled as the number of results, which is the same number.

## Findings

| source | as written | input that shows it | evidently intended | confidence | as-written member | corrected member |
|---|---|---|---|---|---|---|
| sshping.py:122-131 | `main` catches every exception, logs it and falls off the end, returning `None`; the aggregation loop then evaluates `item[0]` on `None` and raises `TypeError`, so no report is printed at all | one address whose SSH session to the gateway `-h` raises (`sessions == [Raised]`) | the failing host is listed among the unresponded hosts and the others are still reported (`SshPing.ReportCoversAddresses`) | high; not executed | SshPing.RaisedSessionCrash | SshPing.ProbeRaisedNoReply |
| sshping.py:30 | `float(data)` raising `ValueError` on a token the pattern matched is caught by `main` (sshping.py:122-123), which returns `None`; `item[0]` then raises `TypeError` and no report is printed | one address whose summary line is `rtt min/avg/max/mdev = 1.1/2x5/3.5/4.5 ms` | the host is listed among the unresponded hosts and the others are still reported (`SshPing.ReportCoversAddresses`) | high; not executed | SshPing.RejectedTokenCrash | SshPing.ProbeRejectedNoReply |
