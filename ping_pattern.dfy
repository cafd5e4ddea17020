/**
 * The module-level pattern of sshping.py, `(\d+.\d+/\d+.\d+/\d+.\d+/\d+.\d+)`,
 * searched the way Python's `re.search` does: the leftmost start position wins,
 * and from a start the backtracking engine returns the first match in its own
 * order, where each `\d+` first takes as many digits as it can. The `.` of the
 * pattern is unescaped, so it stands for any character but a newline, not for
 * a literal dot.
 */
module PingPattern {
  import opened Wrappers
  import PyText

  /** One element of the pattern: `\d+`, `.` or the literal `/`. */
  datatype Elem = Digits | AnyChar | Slash

  /** `\d+.\d+`, one of the four numbers of the summary line. */
  const Field: seq<Elem> := [Digits, AnyChar, Digits]

  const Pattern: seq<Elem> := Field + [Slash] + Field + [Slash] + Field + [Slash] + Field

  predicate IsDigit(c: char) { '0' <= c <= '9' }

  predicate AllDigits(s: string) { forall k :: 0 <= k < |s| ==> IsDigit(s[k]) }

  /** Number of literal `/` elements in a pattern. */
  function Slashes(pat: seq<Elem>): nat
  {
    if pat == [] then 0 else (if pat[0] == Slash then 1 else 0) + Slashes(pat[1..])
  }

  /** End of the run of digits that starts at `i`. */
  function RunEnd(s: string, i: nat): (k: nat)
    requires i <= |s|
    ensures i <= k <= |s|
    ensures forall m :: i <= m < k ==> IsDigit(s[m])
    ensures k == |s| || !IsDigit(s[k])
    decreases |s| - i
  {
    if i < |s| && IsDigit(s[i]) then RunEnd(s, i + 1) else i
  }

  /** End of the first match of `pat` at position `i`, in backtracking order. */
  function MatchFrom(s: string, i: nat, pat: seq<Elem>): (r: Option<nat>)
    requires i <= |s|
    ensures r.Some? ==> i <= r.value <= |s|
    decreases |pat|, |s| + 1
  {
    if pat == [] then Some(i)
    else match pat[0]
      case Slash => if i < |s| && s[i] == '/' then MatchFrom(s, i + 1, pat[1..]) else None
      case AnyChar => if i < |s| && s[i] != '\n' then MatchFrom(s, i + 1, pat[1..]) else None
      case Digits => Backtrack(s, i, RunEnd(s, i), pat[1..])
  }

  /** A greedy `\d+` at `i` that may still extend to `k`: try `k`, then give back one digit at a time. */
  function Backtrack(s: string, i: nat, k: nat, rest: seq<Elem>): (r: Option<nat>)
    requires i <= k <= |s|
    ensures r.Some? ==> i < r.value <= |s|
    decreases |rest| + 1, k
  {
    if k == i then None
    else match MatchFrom(s, k, rest)
      case Some(j) => Some(j)
      case None => Backtrack(s, i, k - 1, rest)
  }

  /** Declarative meaning of the pattern: `s[i..j]` is a word of `pat`. */
  ghost predicate Spans(s: string, i: nat, j: nat, pat: seq<Elem>)
    decreases |pat|
  {
    i <= j <= |s| &&
    if pat == [] then i == j
    else match pat[0]
      case Slash => i < |s| && s[i] == '/' && Spans(s, i + 1, j, pat[1..])
      case AnyChar => i < |s| && s[i] != '\n' && Spans(s, i + 1, j, pat[1..])
      case Digits =>
        exists k :: i < k <= j && (forall m :: i <= m < k ==> IsDigit(s[m])) && Spans(s, k, j, pat[1..])
  }

  /** Every end the matcher returns delimits a word of the pattern. */
  lemma {:induction false} MatchFromSound(s: string, i: nat, pat: seq<Elem>)
    requires i <= |s|
    requires MatchFrom(s, i, pat).Some?
    ensures Spans(s, i, MatchFrom(s, i, pat).value, pat)
    decreases |pat|, |s| + 1
  {
    if pat != [] {
      match pat[0]
      case Slash => MatchFromSound(s, i + 1, pat[1..]);
      case AnyChar => MatchFromSound(s, i + 1, pat[1..]);
      case Digits => BacktrackSound(s, i, RunEnd(s, i), pat[1..]);
    }
  }

  lemma {:induction false} BacktrackSound(s: string, i: nat, k: nat, rest: seq<Elem>)
    requires i <= k <= |s|
    requires forall m :: i <= m < k ==> IsDigit(s[m])
    requires Backtrack(s, i, k, rest).Some?
    ensures var j := Backtrack(s, i, k, rest).value;
      exists k' :: i < k' <= j && (forall m :: i <= m < k' ==> IsDigit(s[m])) && Spans(s, k', j, rest)
    decreases |rest| + 1, k
  {
    match MatchFrom(s, k, rest)
    case Some(j) =>
      MatchFromSound(s, k, rest);
    case None =>
      BacktrackSound(s, i, k - 1, rest);
  }

  /** Whenever some word of the pattern starts at `i`, the matcher finds a match there. */
  lemma {:induction false} MatchFromComplete(s: string, i: nat, j: nat, pat: seq<Elem>)
    requires i <= |s|
    requires Spans(s, i, j, pat)
    ensures MatchFrom(s, i, pat).Some?
    decreases |pat|
  {
    if pat != [] {
      match pat[0]
      case Slash => MatchFromComplete(s, i + 1, j, pat[1..]);
      case AnyChar => MatchFromComplete(s, i + 1, j, pat[1..]);
      case Digits =>
        var k :| i < k <= j && (forall m :: i <= m < k ==> IsDigit(s[m])) && Spans(s, k, j, pat[1..]);
        MatchFromComplete(s, k, j, pat[1..]);
        RunEndCovers(s, i, k);
        BacktrackComplete(s, i, RunEnd(s, i), k, pat[1..]);
    }
  }

  lemma {:induction false} RunEndCovers(s: string, i: nat, k: nat)
    requires i <= k <= |s|
    requires forall m :: i <= m < k ==> IsDigit(s[m])
    ensures k <= RunEnd(s, i)
    decreases |s| - i
  {
    if i < k {
      RunEndCovers(s, i + 1, k);
    }
  }

  lemma {:induction false} BacktrackComplete(s: string, i: nat, k: nat, k0: nat, rest: seq<Elem>)
    requires i < k0 <= k <= |s|
    requires MatchFrom(s, k0, rest).Some?
    ensures Backtrack(s, i, k, rest).Some?
    decreases k
  {
    if k != k0 && MatchFrom(s, k, rest).None? {
      BacktrackComplete(s, i, k - 1, k0, rest);
    }
  }

  /** A word of a pattern holds at least as many `/` as the pattern has literal slashes. */
  lemma {:induction false} SpansSlashes(s: string, i: nat, j: nat, pat: seq<Elem>)
    requires Spans(s, i, j, pat)
    ensures PyText.Occurrences(s[i..j], '/') >= Slashes(pat)
    decreases |pat|
  {
    if pat != [] {
      match pat[0]
      case Slash =>
        SpansSlashes(s, i + 1, j, pat[1..]);
        assert s[i..j][1..] == s[i + 1..j];
      case AnyChar =>
        SpansSlashes(s, i + 1, j, pat[1..]);
        assert s[i..j][1..] == s[i + 1..j];
      case Digits =>
        var k :| i < k <= j && (forall m :: i <= m < k ==> IsDigit(s[m])) && Spans(s, k, j, pat[1..]);
        SpansSlashes(s, k, j, pat[1..]);
        assert s[i..j] == s[i..k] + s[k..j];
        PyText.OccurrencesAppend(s[i..k], s[k..j], '/');
    }
  }

  /** A word of a pattern that begins with `\d+` begins with a digit. */
  lemma SpansStartsWithDigit(s: string, i: nat, j: nat, pat: seq<Elem>)
    requires pat != [] && pat[0] == Digits
    requires Spans(s, i, j, pat)
    ensures i < j && IsDigit(s[i])
  {
  }

  lemma {:induction false} SlashesAppend(a: seq<Elem>, b: seq<Elem>)
    ensures Slashes(a + b) == Slashes(a) + Slashes(b)
  {
    if a == [] {
      assert a + b == b;
    } else {
      assert (a + b)[1..] == a[1..] + b;
      SlashesAppend(a[1..], b);
    }
  }

  lemma PatternFacts()
    ensures Pattern != [] && Pattern[0] == Digits && Slashes(Pattern) == 3
  {
    assert Slashes(Field) == 0;
    assert Slashes([Slash]) == 1;
    SlashesAppend(Field, [Slash]);
    SlashesAppend(Field + [Slash], Field);
    SlashesAppend(Field + [Slash] + Field, [Slash]);
    SlashesAppend(Field + [Slash] + Field + [Slash], Field);
    SlashesAppend(Field + [Slash] + Field + [Slash] + Field, [Slash]);
    SlashesAppend(Field + [Slash] + Field + [Slash] + Field + [Slash], Field);
  }

  /** A word of the ping pattern starts with a digit and holds at least three `/`. */
  lemma PatternWordShape(s: string, i: nat, j: nat, pat: seq<Elem>)
    requires pat == Pattern
    requires Spans(s, i, j, pat)
    ensures i < j && IsDigit(s[i])
    ensures PyText.Occurrences(s[i..j], '/') >= 3
  {
    PatternFacts();
    SpansStartsWithDigit(s, i, j, pat);
    SpansSlashes(s, i, j, pat);
  }

  /** `re.search`: the first start position, from `i` on, at which `pat` matches. */
  function SearchFrom(s: string, i: nat, pat: seq<Elem>): (r: Option<(nat, nat)>)
    requires i <= |s|
    ensures r.Some? ==> i <= r.value.0 <= r.value.1 <= |s|
    decreases |s| - i
  {
    match MatchFrom(s, i, pat)
    case Some(j) => Some((i, j))
    case None => if i == |s| then None else SearchFrom(s, i + 1, pat)
  }

  /** Start and end of `ping_result_pattern.search(s)`, or `None`. */
  function Search(s: string): (r: Option<(nat, nat)>)
    ensures r.Some? ==> r.value.0 <= r.value.1 <= |s|
  {
    SearchFrom(s, 0, Pattern)
  }

  /** A search finds a match exactly when some substring is a word of the pattern, and the leftmost one. */
  lemma {:induction false} SearchFromSpec(s: string, i: nat, pat: seq<Elem>)
    requires i <= |s|
    ensures SearchFrom(s, i, pat).None? <==> forall a: nat, b: nat :: i <= a ==> !Spans(s, a, b, pat)
    ensures SearchFrom(s, i, pat).Some? ==>
      var (a, b) := SearchFrom(s, i, pat).value;
      Spans(s, a, b, pat) && forall a': nat, b': nat :: i <= a' < a ==> !Spans(s, a', b', pat)
    decreases |s| - i
  {
    match MatchFrom(s, i, pat)
    case Some(j) =>
      MatchFromSound(s, i, pat);
      assert Spans(s, i, j, pat);
    case None =>
      forall b: nat | Spans(s, i, b, pat) ensures false {
        MatchFromComplete(s, i, b, pat);
      }
      if i < |s| {
        SearchFromSpec(s, i + 1, pat);
      } else {
        forall a: nat, b: nat | i <= a && Spans(s, a, b, pat) ensures false {
        }
      }
  }

  /** The match is the leftmost word of the pattern; no match means no word at all. */
  lemma SearchSpec(s: string, pat: seq<Elem>)
    requires pat == Pattern
    ensures Search(s).None? <==> forall a: nat, b: nat :: !Spans(s, a, b, pat)
    ensures Search(s).Some? ==>
      var (a, b) := Search(s).value;
      Spans(s, a, b, pat) && forall a': nat, b': nat :: a' < a ==> !Spans(s, a', b', pat)
  {
    SearchFromSpec(s, 0, pat);
  }

  /** No match starts at a character that is not a digit. */
  lemma NonDigitStart(s: string, a: nat)
    requires a < |s| && !IsDigit(s[a])
    ensures MatchFrom(s, a, Pattern).None?
  {
    PatternFacts();
  }

  /** A search skips a stretch without digits: no match can start in it. */
  lemma {:induction false} SearchSkips(s: string, a: nat, k: nat)
    requires a <= k <= |s|
    requires forall m :: a <= m < k ==> !IsDigit(s[m])
    ensures SearchFrom(s, a, Pattern) == SearchFrom(s, k, Pattern)
    decreases k - a
  {
    if a < k {
      NonDigitStart(s, a);
      SearchSkips(s, a + 1, k);
    }
  }

  /** A line without any `/` never matches. */
  lemma NoSlashNoMatch(s: string)
    requires '/' !in s
    ensures Search(s).None?
  {
    var pat := Pattern;
    SearchSpec(s, pat);
    forall a: nat, b: nat | Spans(s, a, b, pat) ensures false {
      PatternWordShape(s, a, b, pat);
      PyText.NoOccurrences(s[a..b], '/');
    }
  }
}
