/**
 * `getopts(argv)`: the option dictionary starts from ten defaults; a loop walks
 * the argument list, binding every token that begins with `-` to the token
 * after it and skipping every other token.
 */
module GetOpts {
  import opened Wrappers

  /** The `IndexError` the loop can raise. */
  datatype IndexError =
    | EmptyArgument          // `argv[0][0]` on the token ""
    | MissingValue(flag: string)  // `argv[1]` after a flag that is the last token

  /** One assignment `opts[flag] = value` the loop performs. */
  datatype Binding = Binding(flag: string, value: string)

  const Defaults: map<string, string> :=
    map["-h" := "", "-p" := "", "-u" := "", "-port" := "22", "-f" := "config.txt",
        "-c" := "5", "-e" := "utf8", "-log" := "warn", "-i" := "", "-proc" := "5"]

  predicate IsFlag(token: string) { token != [] && token[0] == '-' }

  /** The assignments the loop performs on `argv`, in order, or the error it stops with. */
  function Bindings(argv: seq<string>): (r: Result<seq<Binding>, IndexError>)
    ensures r.Success? ==> forall k :: 0 <= k < |r.value| ==> IsFlag(r.value[k].flag)
    ensures r.Success? ==> 2 * |r.value| <= |argv|
    decreases |argv|
  {
    if argv == [] then Success([])
    else if argv[0] == [] then Failure(EmptyArgument)
    else if argv[0][0] == '-' then
      if |argv| < 2 then Failure(MissingValue(argv[0]))
      else Prepend([Binding(argv[0], argv[1])], Bindings(argv[2..]))
    else Bindings(argv[1..])
  }

  /** Bindings done before a remainder whose own result is `r`. */
  function Prepend(done: seq<Binding>, r: Result<seq<Binding>, IndexError>): Result<seq<Binding>, IndexError>
  {
    match r
    case Success(bs) => Success(done + bs)
    case Failure(e) => Failure(e)
  }

  /** The dictionary after the assignments, earliest first. */
  function Apply(m: map<string, string>, bs: seq<Binding>): (r: map<string, string>)
    ensures m.Keys <= r.Keys
    decreases |bs|
  {
    if bs == [] then m
    else
      var b := bs[|bs| - 1];
      Apply(m, bs[..|bs| - 1])[b.flag := b.value]
  }

  /** The value of the last assignment to `key`, if any. */
  function LastValue(bs: seq<Binding>, key: string): Option<string>
    decreases |bs|
  {
    if bs == [] then None
    else if bs[|bs| - 1].flag == key then Some(bs[|bs| - 1].value)
    else LastValue(bs[..|bs| - 1], key)
  }

  /** The loop of `getopts`, over the shrinking slice `argv`. */
  method GetOpts(argv: seq<string>) returns (r: Result<map<string, string>, IndexError>)
    ensures r.Success? <==> Bindings(argv).Success?
    ensures r.Success? ==> r.value == Apply(Defaults, Bindings(argv).value)
    ensures r.Failure? ==> r.error == Bindings(argv).error
  {
    var opts := Defaults;
    var rest := argv;
    ghost var done: seq<Binding> := [];
    PrependNothing(Bindings(argv));
    while rest != []
      invariant Bindings(argv) == Prepend(done, Bindings(rest))
      invariant opts == Apply(Defaults, done)
      decreases |rest|
    {
      if rest[0] == [] {
        return Failure(EmptyArgument);
      }
      if rest[0][0] == '-' {
        if |rest| < 2 {
          return Failure(MissingValue(rest[0]));
        }
        ApplyStep(Defaults, done, Binding(rest[0], rest[1]));
        opts := opts[rest[0] := rest[1]];
        PrependAssoc(done, [Binding(rest[0], rest[1])], Bindings(rest[2..]));
        done := done + [Binding(rest[0], rest[1])];
        rest := rest[2..];
      } else {
        rest := rest[1..];
      }
    }
    assert done + [] == done;
    return Success(opts);
  }

  lemma ApplyStep(m: map<string, string>, bs: seq<Binding>, b: Binding)
    ensures Apply(m, bs + [b]) == Apply(m, bs)[b.flag := b.value]
  {
    assert (bs + [b])[..|bs|] == bs;
  }

  lemma PrependNothing(r: Result<seq<Binding>, IndexError>)
    ensures Prepend([], r) == r
  {
    if r.Success? {
      assert [] + r.value == r.value;
    }
  }

  lemma PrependAssoc(a: seq<Binding>, b: seq<Binding>, r: Result<seq<Binding>, IndexError>)
    ensures Prepend(a, Prepend(b, r)) == Prepend(a + b, r)
  {
    if r.Success? {
      assert a + (b + r.value) == (a + b) + r.value;
    }
  }

  /** Arguments after a prefix that the loop consumes completely are read as if on their own. */
  lemma {:induction false} BindingsAppend(pre: seq<string>, post: seq<string>)
    requires Bindings(pre).Success?
    ensures Bindings(pre + post) == Prepend(Bindings(pre).value, Bindings(post))
    decreases |pre|
  {
    var s := pre + post;
    if pre == [] {
      assert s == post;
      PrependNothing(Bindings(post));
    } else if pre[0][0] == '-' {
      assert s[2..] == pre[2..] + post;
      BindingsAppend(pre[2..], post);
      PrependAssoc([Binding(pre[0], pre[1])], Bindings(pre[2..]).value, Bindings(post));
    } else {
      assert s[1..] == pre[1..] + post;
      BindingsAppend(pre[1..], post);
    }
  }

  /** A flag binds the token right after it. */
  lemma FlagBindsNext(pre: seq<string>, flag: string, value: string, post: seq<string>)
    requires Bindings(pre).Success? && IsFlag(flag)
    ensures Bindings(pre + [flag, value] + post) ==
      Prepend(Bindings(pre).value + [Binding(flag, value)], Bindings(post))
  {
    BindingsAppend(pre, [flag, value] + post);
    assert (pre + [flag, value] + post) == pre + ([flag, value] + post);
    assert ([flag, value] + post)[2..] == post;
    PrependAssoc(Bindings(pre).value, [Binding(flag, value)], Bindings(post));
  }

  /** A token that is not a flag is skipped: it is neither a key nor a value. */
  lemma OtherTokenSkipped(pre: seq<string>, token: string, post: seq<string>)
    requires Bindings(pre).Success? && token != [] && token[0] != '-'
    ensures Bindings(pre + [token] + post) == Prepend(Bindings(pre).value, Bindings(post))
  {
    BindingsAppend(pre, [token] + post);
    assert (pre + [token] + post) == pre + ([token] + post);
    assert ([token] + post)[1..] == post;
  }

  /** A flag that is the last token raises `IndexError` at `argv[1]`. */
  lemma FinalFlagFails(pre: seq<string>, flag: string)
    requires Bindings(pre).Success? && IsFlag(flag)
    ensures Bindings(pre + [flag]) == Failure(MissingValue(flag))
  {
    BindingsAppend(pre, [flag]);
  }

  /** An empty token in reading position raises `IndexError` at `argv[0][0]`. */
  lemma EmptyTokenFails(pre: seq<string>, post: seq<string>)
    requires Bindings(pre).Success?
    ensures Bindings(pre + [""] + post) == Failure(EmptyArgument)
  {
    BindingsAppend(pre, [""] + post);
    assert (pre + [""] + post) == pre + ([""] + post);
  }

  /** The flags a sequence of assignments binds. */
  function Flags(bs: seq<Binding>): set<string>
  {
    set k | 0 <= k < |bs| :: bs[k].flag
  }

  /** The keys of the dictionary: the defaults and every flag that was bound. */
  lemma {:induction false} ApplyKeys(m: map<string, string>, bs: seq<Binding>)
    ensures Apply(m, bs).Keys == m.Keys + Flags(bs)
    decreases |bs|
  {
    if bs != [] {
      var init := bs[..|bs| - 1];
      ApplyKeys(m, init);
      assert Flags(bs) == Flags(init) + {bs[|bs| - 1].flag} by {
        forall x | x in Flags(bs) ensures x in Flags(init) + {bs[|bs| - 1].flag} {
          var k :| 0 <= k < |bs| && bs[k].flag == x;
          if k < |init| { assert init[k] == bs[k]; }
        }
        forall x | x in Flags(init) ensures x in Flags(bs) {
          var k :| 0 <= k < |init| && init[k].flag == x;
          assert bs[k] == init[k];
        }
      }
    }
  }

  /** A later assignment to a key overwrites an earlier one; keys never assigned keep their default. */
  lemma {:induction false} ApplyLookup(m: map<string, string>, bs: seq<Binding>, key: string)
    ensures key in Apply(m, bs) <==> key in m || LastValue(bs, key).Some?
    ensures key in Apply(m, bs) ==>
      Apply(m, bs)[key] == (if LastValue(bs, key).Some? then LastValue(bs, key).value else m[key])
    decreases |bs|
  {
    if bs != [] {
      ApplyLookup(m, bs[..|bs| - 1], key);
    }
  }

  /** Whatever the arguments, a successful result holds the ten default keys. */
  lemma DefaultKeysKept(bs: seq<Binding>)
    ensures Defaults.Keys <= Apply(Defaults, bs).Keys
  {
    ApplyKeys(Defaults, bs);
  }

  /** `sshping.py -h gw -c 3`: the script name is skipped, two defaults are replaced. */
  lemma CommandLineExample(argv: seq<string>)
    requires argv == ["sshping.py", "-h", "gw", "-c", "3"]
    ensures Bindings(argv) == Success([Binding("-h", "gw"), Binding("-c", "3")])
    ensures Apply(Defaults, Bindings(argv).value) == Defaults["-h" := "gw"]["-c" := "3"]
  {
    var rest := argv[1..];
    assert argv[0][0] == 's' && rest[0][0] == '-' && rest[2..][0][0] == '-';
    assert rest[2..][2..] == [];
    assert [Binding("-c", "3")] + [] == [Binding("-c", "3")];
    assert Bindings(rest[2..]) == Success([Binding("-c", "3")]);
    assert [Binding("-h", "gw")] + [Binding("-c", "3")] == [Binding("-h", "gw"), Binding("-c", "3")];
  }
}
