/**
 * The Python `str` operations the script relies on, for a one-character
 * separator or strip set: `split`, `rstrip`, `lstrip` and `strip`.
 * `Join` is the partner of `Split` (Python's `sep.join(parts)`).
 */
module PyText {

  /** Number of occurrences of `c` in `s`. */
  function Occurrences(s: string, c: char): nat
  {
    if s == [] then 0 else (if s[0] == c then 1 else 0) + Occurrences(s[1..], c)
  }

  lemma {:induction false} OccurrencesAppend(a: string, b: string, c: char)
    ensures Occurrences(a + b, c) == Occurrences(a, c) + Occurrences(b, c)
  {
    if a == [] {
      assert a + b == b;
    } else {
      assert (a + b)[1..] == a[1..] + b;
      OccurrencesAppend(a[1..], b, c);
    }
  }

  lemma {:induction false} NoOccurrences(s: string, c: char)
    ensures c !in s <==> Occurrences(s, c) == 0
  {
    if s != [] {
      NoOccurrences(s[1..], c);
      assert s == [s[0]] + s[1..];
    }
  }

  /** Python's `s.split(sep)`: every occurrence of `sep` separates two parts, empty parts kept. */
  function Split(s: string, sep: char): (parts: seq<string>)
    ensures |parts| >= 1
    decreases |s|
  {
    if s == [] then [[]]
    else
      var rest := Split(s[1..], sep);
      if s[0] == sep then [[]] + rest
      else [[s[0]] + rest[0]] + rest[1..]
  }

  /** No part of a split holds the separator. */
  lemma {:induction false} SplitPartsFree(s: string, sep: char)
    ensures forall k :: 0 <= k < |Split(s, sep)| ==> sep !in Split(s, sep)[k]
    decreases |s|
  {
    if s != [] {
      var rest := Split(s[1..], sep);
      SplitPartsFree(s[1..], sep);
      var parts := Split(s, sep);
      forall k | 0 <= k < |parts| ensures sep !in parts[k] {
        if s[0] == sep {
          if k > 0 { assert parts[k] == rest[k - 1]; }
        } else if k == 0 {
          assert parts[0] == [s[0]] + rest[0];
        } else {
          assert parts[k] == rest[k];
        }
      }
    }
  }

  /** Python's `sep.join(parts)`. */
  function Join(parts: seq<string>, sep: char): string
    requires |parts| >= 1
    decreases |parts|
  {
    if |parts| == 1 then parts[0] else parts[0] + [sep] + Join(parts[1..], sep)
  }

  /** The last element of a non-empty sequence (Python's `xs[-1]`). */
  function Last<T>(xs: seq<T>): T
    requires |xs| >= 1
  {
    xs[|xs| - 1]
  }

  /** Joining the parts of a split gives the string back. */
  lemma {:induction false} JoinSplit(s: string, sep: char)
    ensures Join(Split(s, sep), sep) == s
    decreases |s|
  {
    if s != [] {
      var rest := Split(s[1..], sep);
      JoinSplit(s[1..], sep);
      if s[0] == sep {
        assert ([[]] + rest)[1..] == rest;
      } else {
        var parts := [[s[0]] + rest[0]] + rest[1..];
        if |rest| == 1 {
          assert Join(parts, sep) == [s[0]] + rest[0];
        } else {
          assert parts[1..] == rest[1..];
          assert Join(rest, sep) == rest[0] + [sep] + Join(rest[1..], sep);
        }
        assert s == [s[0]] + s[1..];
      }
    }
  }

  /** Splitting a join of separator-free parts gives the parts back. */
  lemma {:induction false} SplitJoin(parts: seq<string>, sep: char)
    requires |parts| >= 1
    requires forall k :: 0 <= k < |parts| ==> sep !in parts[k]
    ensures Split(Join(parts, sep), sep) == parts
    decreases |parts|
  {
    if |parts| == 1 {
      SplitFree(parts[0], sep);
    } else {
      SplitJoin(parts[1..], sep);
      SplitFree(parts[0], sep);
      SplitAround(parts[0], Join(parts[1..], sep), sep);
      assert [parts[0]] + parts[1..] == parts;
    }
  }

  /** A string without the separator splits into itself. */
  lemma {:induction false} SplitFree(s: string, sep: char)
    requires sep !in s
    ensures Split(s, sep) == [s]
    decreases |s|
  {
    if s != [] {
      assert sep !in s[1..] by {
        forall k | 0 <= k < |s[1..]| ensures s[1..][k] != sep { assert s[1..][k] == s[k + 1]; }
      }
      SplitFree(s[1..], sep);
      assert s == [s[0]] + s[1..];
    }
  }

  /** Splitting `a + sep + b` splits `a` and `b` separately. */
  lemma {:induction false} SplitAround(a: string, b: string, sep: char)
    requires sep !in a
    ensures Split(a + [sep] + b, sep) == [a] + Split(b, sep)
    decreases |a|
  {
    var s := a + [sep] + b;
    if a == [] {
      assert s[1..] == b;
    } else {
      assert s[1..] == a[1..] + [sep] + b;
      assert sep !in a[1..] by {
        forall k | 0 <= k < |a[1..]| ensures a[1..][k] != sep { assert a[1..][k] == a[k + 1]; }
      }
      SplitAround(a[1..], b, sep);
      assert [s[0]] + a[1..] == a;
    }
  }

  /** One step of `split`: the first character either separates or joins the first part. */
  lemma SplitCons(c: char, t: string, sep: char)
    ensures Split([c] + t, sep) ==
      if c == sep then [[]] + Split(t, sep) else [[c] + Split(t, sep)[0]] + Split(t, sep)[1..]
  {
    assert ([c] + t)[1..] == t;
  }

  /** A separator between two strings separates their parts: `split` distributes over it. */
  lemma {:induction false} SplitConcat(a: string, b: string, sep: char)
    ensures Split(a + [sep] + b, sep) == Split(a, sep) + Split(b, sep)
    decreases |a|
  {
    if a == [] {
      assert a + [sep] + b == [sep] + b;
      SplitCons(sep, b, sep);
    } else {
      var t := a[1..] + [sep] + b;
      SplitConcat(a[1..], b, sep);
      assert a + [sep] + b == [a[0]] + t;
      assert a == [a[0]] + a[1..];
      SplitCons(a[0], t, sep);
      SplitCons(a[0], a[1..], sep);
      ConsParts(a[0], Split(a[1..], sep), Split(b, sep), sep);
    }
  }

  /** The first character of `a` goes to the same part whether or not more parts follow. */
  lemma ConsParts(c: char, ra: seq<string>, rb: seq<string>, sep: char)
    requires |ra| >= 1
    ensures (if c == sep then [[]] + (ra + rb) else [[c] + (ra + rb)[0]] + (ra + rb)[1..]) ==
      (if c == sep then [[]] + ra else [[c] + ra[0]] + ra[1..]) + rb
  {
    if c != sep {
      assert (ra + rb)[0] == ra[0];
      assert (ra + rb)[1..] == ra[1..] + rb;
    }
  }

  /** The number of parts is one more than the number of separators. */
  lemma {:induction false} SplitCount(s: string, sep: char)
    ensures |Split(s, sep)| == Occurrences(s, sep) + 1
    decreases |s|
  {
    if s != [] {
      SplitCount(s[1..], sep);
    }
  }

  /** The last part of a split is the suffix of `s` after its last separator. */
  lemma LastSplitSuffix(s: string, sep: char)
    ensures var t := Last(Split(s, sep));
      |t| <= |s| && t == s[|s| - |t|..] && sep !in t &&
      (|t| < |s| ==> s[|s| - |t| - 1] == sep)
  {
    LastPartFree(s, sep);
    LastPartPlace(s, sep);
  }

  lemma LastPartFree(s: string, sep: char)
    ensures sep !in Last(Split(s, sep))
  {
    SplitPartsFree(s, sep);
  }

  /** Where the last part sits in `s`: at its end, right after a separator unless it is all of `s`. */
  lemma {:induction false} LastPartPlace(s: string, sep: char)
    ensures var t := Last(Split(s, sep));
      |t| <= |s| && t == s[|s| - |t|..] && (|t| < |s| ==> s[|s| - |t| - 1] == sep)
    decreases |s|
  {
    if s != [] {
      var c, u := s[0], s[1..];
      assert s == [c] + u;
      SplitCons(c, u, sep);
      LastPartPlace(u, sep);
      var rest := Split(u, sep);
      if |rest| == 1 {
        SinglePart(u, sep);
      } else {
        SeveralParts(u, sep);
        LastPartFree(u, sep);
      }
      LastStep(c, u, rest, sep);
    }
  }

  /** One step of `LastPartPlace`, on the parts of `u` rather than on `split` itself. */
  lemma LastStep(c: char, u: string, rest: seq<string>, sep: char)
    requires |rest| >= 1
    requires var t := Last(rest); |t| <= |u| && t == u[|u| - |t|..] && (|t| < |u| ==> u[|u| - |t| - 1] == sep)
    requires |rest| == 1 ==> rest[0] == u
    requires |rest| > 1 ==> sep in u && sep !in Last(rest)
    ensures var parts := if c == sep then [[]] + rest else [[c] + rest[0]] + rest[1..];
      var s := [c] + u;
      var t := Last(parts);
      |t| <= |s| && t == s[|s| - |t|..] && (|t| < |s| ==> s[|s| - |t| - 1] == sep)
  {
    var parts := if c == sep then [[]] + rest else [[c] + rest[0]] + rest[1..];
    var t := Last(rest);
    if c != sep && |rest| == 1 {
      assert Last(parts) == [c] + u;
    } else {
      assert Last(parts) == t;
      SuffixShift(c, u, t, sep);
    }
  }

  /** A suffix of `u` is a suffix of `[c] + u`, and the character before it moves along. */
  lemma SuffixShift(c: char, u: string, t: string, sep: char)
    requires |t| <= |u| && t == u[|u| - |t|..]
    requires |t| < |u| ==> u[|u| - |t| - 1] == sep
    requires |t| == |u| ==> c == sep
    ensures var s := [c] + u; t == s[|s| - |t|..] && (|t| < |s| ==> s[|s| - |t| - 1] == sep)
  {
    var s := [c] + u;
    assert s[|s| - |t|..] == u[|u| - |t|..];
    if |t| < |u| {
      assert s[|s| - |t| - 1] == u[|u| - |t| - 1];
    }
  }

  /** A string that splits into one part is that part. */
  lemma SinglePart(u: string, sep: char)
    requires |Split(u, sep)| == 1
    ensures Split(u, sep)[0] == u
  {
    JoinSplit(u, sep);
  }

  /** A string that splits into several parts holds the separator. */
  lemma SeveralParts(u: string, sep: char)
    requires |Split(u, sep)| > 1
    ensures sep in u
  {
    SplitCount(u, sep);
    NoOccurrences(u, sep);
  }

  /** Python's `s.rstrip(c)` for a single character. */
  function RStrip(s: string, c: char): (r: string)
    ensures |r| <= |s| && r == s[..|r|]
    ensures r == [] || r[|r| - 1] != c
    decreases |s|
  {
    if s != [] && s[|s| - 1] == c then RStrip(s[..|s| - 1], c) else s
  }

  /** Only copies of `c` are dropped by `rstrip(c)`. */
  lemma {:induction false} RStripDropped(s: string, c: char)
    ensures forall k :: |RStrip(s, c)| <= k < |s| ==> s[k] == c
    decreases |s|
  {
    if s != [] && s[|s| - 1] == c {
      var u := s[..|s| - 1];
      RStripDropped(u, c);
      forall k | |RStrip(s, c)| <= k < |s| ensures s[k] == c {
        if k < |u| { assert s[k] == u[k]; }
      }
    }
  }

  /** Python's `s.lstrip(chars)`: drops the longest prefix made of characters in `cs`. */
  function LStrip(s: string, cs: set<char>): (r: string)
    ensures |r| <= |s| && r == s[|s| - |r|..]
    ensures r == [] || r[0] !in cs
    decreases |s|
  {
    if s != [] && s[0] in cs then LStrip(s[1..], cs) else s
  }

  /** Only characters of `cs` are dropped by `lstrip(cs)`. */
  lemma {:induction false} LStripDropped(s: string, cs: set<char>)
    ensures forall k :: 0 <= k < |s| - |LStrip(s, cs)| ==> s[k] in cs
    decreases |s|
  {
    if s != [] && s[0] in cs {
      var u := s[1..];
      LStripDropped(u, cs);
      forall k | 0 <= k < |s| - |LStrip(s, cs)| ensures s[k] in cs {
        if k > 0 { assert s[k] == u[k - 1]; }
      }
    }
  }

  /** `lstrip` drops exactly the leading run of characters in the set. */
  lemma {:induction false} LStripRun(s: string, cs: set<char>, n: nat)
    requires n <= |s|
    requires forall k :: 0 <= k < n ==> s[k] in cs
    requires n == |s| || s[n] !in cs
    ensures LStrip(s, cs) == s[n..]
    decreases n
  {
    if n > 0 {
      assert s[1..][n - 1..] == s[n..];
      LStripRun(s[1..], cs, n - 1);
    }
  }

  /** Python's `s.strip(c)` for a single character: both ends. */
  function Strip(s: string, c: char): (r: string)
    ensures |r| <= |s|
    ensures r == [] || (r[0] != c && r[|r| - 1] != c)
  {
    RStrip(LStrip(s, {c}), c)
  }

  /** `strip` keeps a slice of `s` and drops only copies of `c` around it. */
  lemma StripSlice(s: string, c: char)
    ensures var r := Strip(s, c);
      var d := |s| - |LStrip(s, {c})|;
      d + |r| <= |s| && r == s[d..d + |r|] &&
      (forall k :: 0 <= k < d ==> s[k] == c) &&
      (forall k :: d + |r| <= k < |s| ==> s[k] == c)
  {
    var cs := {c};
    var t := LStrip(s, cs);
    var r := RStrip(t, c);
    assert r == Strip(s, c);
    LStripDropped(s, cs);
    RStripDropped(t, c);
    SliceOfSlice(s, t, r, c);
  }

  /** A prefix `r` of a suffix `t` of `s` is a slice of `s`; what lies around it is what was dropped. */
  lemma SliceOfSlice(s: string, t: string, r: string, c: char)
    requires |t| <= |s| && t == s[|s| - |t|..]
    requires forall k :: 0 <= k < |s| - |t| ==> s[k] in {c}
    requires |r| <= |t| && r == t[..|r|]
    requires forall k :: |r| <= k < |t| ==> t[k] == c
    ensures var d := |s| - |t|;
      d + |r| <= |s| && r == s[d..d + |r|] &&
      (forall k :: 0 <= k < d ==> s[k] == c) &&
      (forall k :: d + |r| <= k < |s| ==> s[k] == c)
  {
    var d := |s| - |t|;
    assert r == s[d..d + |r|];
    forall k | 0 <= k < d ensures s[k] == c {
      assert s[k] in {c};
    }
    forall k | d + |r| <= k < |s| ensures s[k] == c {
      assert s[k] == t[k - d];
    }
  }

  /** Stripping a character the string does not hold changes nothing. */
  lemma StripAbsent(s: string, c: char)
    requires c !in s
    ensures Strip(s, c) == s
  {
    StripSlice(s, c);
  }
}
