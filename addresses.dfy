/**
 * The loop of `adresses_loading` over the lines of the address file: each line
 * loses its `\n` at both ends, blank lines are skipped, and the others are
 * appended with their spaces stripped.
 */
module Addresses {
  import opened PyText
  import opened Seqs

  /** `not line or not line.strip(' ')`, after `line = line.strip('\n')`. */
  predicate Skipped(line: string)
  {
    var l := Strip(line, '\n');
    l == [] || Strip(l, ' ') == []
  }

  /** What is appended for a line that is kept: `line.strip('\n').strip(' ')`. */
  function Address(line: string): (a: string)
    ensures |a| <= |line|
    ensures a == [] || (a[0] != ' ' && a[|a| - 1] != ' ')
  {
    Strip(Strip(line, '\n'), ' ')
  }

  /** The addresses the loop collects from `lines`. */
  function Kept(lines: seq<string>): (addresses: seq<string>)
    ensures |addresses| <= |lines|
    decreases |lines|
  {
    if lines == [] then []
    else
      var last := lines[|lines| - 1];
      Kept(lines[..|lines| - 1]) + (if Skipped(last) then [] else [Address(last)])
  }

  /** Non-empty, and no space at either end. */
  predicate Trimmed(a: string)
  {
    a != [] && a[0] != ' ' && a[|a| - 1] != ' '
  }

  /** The `for line in config_file` loop. */
  method LoadAddresses(lines: seq<string>) returns (addresses: seq<string>)
    ensures addresses == Kept(lines)
    ensures forall k :: 0 <= k < |addresses| ==> Trimmed(addresses[k])
  {
    addresses := [];
    for i := 0 to |lines|
      invariant addresses == Kept(lines[..i])
    {
      assert lines[..i + 1][..i] == lines[..i];
      assert Kept(lines[..i + 1]) == Kept(lines[..i]) + (if Skipped(lines[i]) then [] else [Address(lines[i])]);
      var line := Strip(lines[i], '\n');
      if line == [] || Strip(line, ' ') == [] {
        assert Skipped(lines[i]);
        continue;
      }
      assert !Skipped(lines[i]) && Strip(line, ' ') == Address(lines[i]);
      addresses := addresses + [Strip(line, ' ')];
    }
    assert lines[..|lines|] == lines;
    KeptTrimmed(lines);
  }

  /** Every kept address is non-empty and has no space at either end. */
  lemma {:induction false} KeptTrimmed(lines: seq<string>)
    ensures forall k :: 0 <= k < |Kept(lines)| ==> Trimmed(Kept(lines)[k])
    decreases |lines|
  {
    if lines != [] {
      KeptTrimmed(lines[..|lines| - 1]);
    }
  }

  /** A line is skipped exactly when stripping it leaves nothing. */
  lemma SkippedIffEmpty(line: string)
    ensures Skipped(line) <==> Address(line) == []
  {
    if Strip(line, '\n') == [] {
      assert Strip([], ' ') == [];
    }
  }

  /** A line of spaces only is skipped. */
  lemma SpacesSkipped(line: string)
    requires forall k :: 0 <= k < |line| ==> line[k] == ' '
    ensures Skipped(line)
  {
    StripAbsent(line, '\n');
  }

  /** The loop reads the lines one after the other: the result for a concatenation is the concatenation. */
  lemma {:induction false} KeptAppend(a: seq<string>, b: seq<string>)
    ensures Kept(a + b) == Kept(a) + Kept(b)
    decreases |b|
  {
    if b == [] {
      assert a + b == a;
    } else {
      var init := b[..|b| - 1];
      assert (a + b)[..|a + b| - 1] == a + init;
      KeptAppend(a, init);
    }
  }

  /** A kept line contributes its address between those of the lines before it and those after it. */
  lemma KeptAt(lines: seq<string>, k: nat)
    requires k < |lines| && !Skipped(lines[k])
    ensures Kept(lines) == Kept(lines[..k]) + [Address(lines[k])] + Kept(lines[k + 1..])
  {
    SplitAt(lines, k);
    KeptAround(lines[..k], lines[k], lines[k + 1..]);
    KeptOne(lines[k]);
  }

  lemma KeptAround(pre: seq<string>, line: string, post: seq<string>)
    ensures Kept(pre + [line] + post) == Kept(pre) + Kept([line]) + Kept(post)
  {
    KeptAppend(pre + [line], post);
    KeptAppend(pre, [line]);
  }

  lemma KeptOne(line: string)
    ensures Kept([line]) == if Skipped(line) then [] else [Address(line)]
  {
    assert [line][..0] == [];
  }

  /** Every kept address comes from a line that was not skipped. */
  lemma {:induction false} KeptFromLines(lines: seq<string>, x: string)
    requires x in Kept(lines)
    ensures exists k :: 0 <= k < |lines| && !Skipped(lines[k]) && Address(lines[k]) == x
    decreases |lines|
  {
    var init := lines[..|lines| - 1];
    if x in Kept(init) {
      KeptFromLines(init, x);
      var k :| 0 <= k < |init| && !Skipped(init[k]) && Address(init[k]) == x;
      assert lines[k] == init[k];
    } else {
      assert !Skipped(lines[|lines| - 1]) && Address(lines[|lines| - 1]) == x;
    }
  }
}
