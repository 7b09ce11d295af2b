/** What the template substitution promises, proved about the scanner of
    module Template. */
module TemplateProps {
  import opened Wrappers
  import opened Paths
  import opened Template

  /** Two matches that start at the same position are the same match. */
  lemma MatchUnique(t: string, b1: Block, b2: Block)
    requires IsMatch(t, b1) && IsMatch(t, b2) && b1.start == b2.start
    ensures b1 == b2
  {
    var r := MatchAt(t, b1.start);
  }

  /** A leftmost scan is a list of ordered blocks. */
  lemma {:induction false} LeftmostScanOrdered(t: string, from: nat, bs: seq<Block>)
    requires LeftmostScan(t, from, bs)
    ensures Ordered(t, from, bs)
    decreases |bs|
  {
    if bs != [] {
      LeftmostScanOrdered(t, bs[0].End(), bs[1..]);
    }
  }

  /** The scanner's block list is a leftmost, non-overlapping scan. */
  lemma {:induction false} MatchesAreLeftmostScan(t: string, from: nat)
    requires from <= |t|
    ensures LeftmostScan(t, from, MatchesFrom(t, from))
    decreases |t| - from
  {
    match FindMatch(t, from)
    case None =>
    case Some(b) =>
      MatchesAreLeftmostScan(t, b.End());
      assert MatchesFrom(t, from) == [b] + MatchesFrom(t, b.End());
  }

  /** And it is the only one: any leftmost, non-overlapping scan of the
      text from `from` is the scanner's block list. */
  lemma {:induction false} LeftmostScanIsMatches(t: string, from: nat, bs: seq<Block>)
    requires LeftmostScan(t, from, bs)
    ensures bs == MatchesFrom(t, from)
    decreases |bs|
  {
    if bs == [] {
      assert FindMatch(t, from).None?;
    } else {
      var b := bs[0];
      var b' := FindMatch(t, from).value;
      MatchUnique(t, b, b');
      LeftmostScanIsMatches(t, b.End(), bs[1..]);
      assert bs == [b] + bs[1..];
    }
  }

  /** `ReplaceAllStringFunc` is the splice of the scanner's block list. */
  lemma {:induction false} ReplaceIsSplice(t: string, from: nat, g: string -> string)
    requires from <= |t|
    ensures Ordered(t, from, MatchesFrom(t, from))
    ensures ReplaceFrom(t, from, g) == Splice(t, from, MatchesFrom(t, from), g)
    decreases |t| - from
  {
    MatchesAreLeftmostScan(t, from);
    LeftmostScanOrdered(t, from, MatchesFrom(t, from));
    match FindMatch(t, from)
    case None =>
    case Some(b) =>
      ReplaceIsSplice(t, b.End(), g);
      assert MatchesFrom(t, from) == [b] + MatchesFrom(t, b.End());
  }

  /** Splicing every block back in as its own text gives the text back:
      the substitution copies everything outside the blocks verbatim. */
  lemma {:induction false} SpliceIdentity(t: string, from: nat, bs: seq<Block>)
    requires Ordered(t, from, bs)
    ensures Splice(t, from, bs, m => m) == t[from..]
    decreases |bs|
  {
    if bs != [] {
      var b := bs[0];
      SpliceIdentity(t, b.End(), bs[1..]);
      assert t[from..] == t[from..b.start] + t[b.start..b.End()] + t[b.End()..];
    }
  }

  /** With the identity as callback the substitution returns its input. */
  lemma ReplaceIdentity(t: string)
    ensures ReplaceAll(t, m => m) == t
  {
    ReplaceIsSplice(t, 0, m => m);
    SpliceIdentity(t, 0, Matches(t));
  }

  /** A template with no match is returned unchanged, whatever the callback. */
  lemma NoMatchUnchanged(t: string, g: string -> string)
    requires forall b: Block :: !IsMatch(t, b)
    ensures Matches(t) == []
    ensures ReplaceAll(t, g) == t
  {
    assert FindMatch(t, 0).None?;
  }

  /** Running the pattern again on the text of a match recovers that
      match's body, so the callback's `len(submatches) < 2` branch
      (main.go:148-150) is never taken. */
  lemma RematchRecoversBody(t: string, b: Block)
    requires IsMatch(t, b)
    ensures Submatch(MatchText(t, b)) == Some(BodyText(t, b))
  {
    var m := MatchText(t, b);
    var b' := Block(0, b.body - b.start, b.close - b.start);
    assert m[b'.close - 1] == t[b.close - 1];
    forall k | b'.body <= k < b'.close
      ensures !CloseAt(m, k)
    {
      CloseShift(t, b, k);
    }
    forall x | b'.start <= x < b'.body - 2
      ensures IsSpace(m[x])
    {
      assert m[x] == t[b.start + x];
    }
    assert IsMatch(m, b');
    FirstMatchAtZero(m, b');
    SliceOfSlice(t, b.start, b.End(), b'.body, b'.close);
  }

  lemma SliceOfSlice(s: string, i: nat, j: nat, k: nat, l: nat)
    requires i <= j <= |s| && k <= l <= j - i
    ensures s[i..j][k..l] == s[i + k..i + l]
  {
    forall n | 0 <= n < l - k
      ensures s[i..j][k..l][n] == s[i + k..i + l][n]
    {
    }
  }

  /** A closing marker in the text of a match is one in the whole text. */
  lemma CloseShift(t: string, b: Block, k: nat)
    requires IsMatch(t, b)
    ensures CloseAt(MatchText(t, b), k) ==> CloseAt(t, b.start + k)
  {
    var m := MatchText(t, b);
    if k + 2 <= |m| {
      assert m[k] == t[b.start + k] && m[k + 1] == t[b.start + k + 1];
      if k > 0 {
        assert m[k - 1] == t[b.start + k - 1];
      }
    }
  }

  /** A match at position 0 is the leftmost one. */
  lemma FirstMatchAtZero(m: string, b: Block)
    requires IsMatch(m, b) && b.start == 0
    ensures FindMatch(m, 0) == Some(b)
  {
    assert MatchAt(m, 0) == Some(b);
  }

  /** Every block of the scanner's list is a match. */
  lemma {:induction false} MatchesAreMatches(t: string, from: nat)
    requires from <= |t|
    ensures forall i :: 0 <= i < |MatchesFrom(t, from)| ==> IsMatch(t, MatchesFrom(t, from)[i])
    decreases |t| - from
  {
    match FindMatch(t, from)
    case None =>
    case Some(b) =>
      MatchesAreMatches(t, b.End());
      assert MatchesFrom(t, from) == [b] + MatchesFrom(t, b.End());
  }

  /** The callback replaces a match by its command's result on the body. */
  lemma CallbackRunsBody(t: string, b: Block, runBody: string -> string)
    requires IsMatch(t, b)
    ensures Callback(runBody)(MatchText(t, b)) == runBody(BodyText(t, b))
  {
    RematchRecoversBody(t, b);
  }

  /** Template expansion with a non-empty `RunCmd`: the splice of the
      leftmost, non-overlapping matches, each replaced by the output (or
      error text) of its body's command. */
  lemma ExpandReplacesEachBlock(t: string, runCmd: seq<string>, env: seq<string>,
                                run: (seq<string>, seq<string>) -> Exec)
    requires |runCmd| >= 1
    ensures LeftmostScan(t, 0, Matches(t)) && Ordered(t, 0, Matches(t))
    ensures var runBody := body => Output(run(Argv(runCmd, body), env));
            && Expand(t, runCmd, env, run) == Some(Splice(t, 0, Matches(t), Callback(runBody)))
            && forall b :: b in Matches(t) ==>
                 && IsMatch(t, b)
                 && Callback(runBody)(MatchText(t, b)) == Output(run(Argv(runCmd, BodyText(t, b)), env))
  {
    var runBody := body => Output(run(Argv(runCmd, body), env));
    MatchesAreLeftmostScan(t, 0);
    ReplaceIsSplice(t, 0, Callback(runBody));
    MatchesAreMatches(t, 0);
    forall b | b in Matches(t)
      ensures IsMatch(t, b)
      ensures Callback(runBody)(MatchText(t, b)) == Output(run(Argv(runCmd, BodyText(t, b)), env))
    {
      CallbackRunsBody(t, b, runBody);
    }
  }

  /** The argument vector is `[RunCmd[0], RunCmd[n-1], body]`, which is
      `RunCmd + [body]` exactly when `RunCmd` has two elements. */
  lemma ArgvShape(runCmd: seq<string>, body: string)
    requires |runCmd| >= 1
    ensures Argv(runCmd, body) == [runCmd[0], runCmd[|runCmd| - 1], body]
    ensures Argv(runCmd, body) == runCmd + [body] <==> |runCmd| == 2
  {
    if |runCmd| == 2 {
      assert runCmd == [runCmd[0], runCmd[1]];
    }
  }

  /** The last binding of a name wins: a later block of bindings overrides
      an earlier one, and names it does not bind fall through. */
  lemma {:induction false} GetenvAppend(a: seq<string>, b: seq<string>, name: string)
    ensures Getenv(a + b, name) == if Getenv(b, name).Some? then Getenv(b, name) else Getenv(a, name)
    decreases |b|
  {
    if b != [] {
      assert (a + b)[..|a + b| - 1] == a + b[..|b| - 1];
      GetenvAppend(a, b[..|b| - 1], name);
    } else {
      assert a + b == a;
    }
  }

  /** The environment a block's command sees: the site's bindings win, then
      the five fixed bindings, then the inherited environment. */
  lemma CommandEnvLookup(environ: seq<string>, srcPath: Path, dstPath: Path, builder: string,
                         siteName: string, siteEnv: seq<string>, name: string)
    requires '=' !in name
    ensures var env := CommandEnv(environ, srcPath, dstPath, builder, siteName, siteEnv);
            Getenv(env, name) ==
              if Getenv(siteEnv, name).Some? then Getenv(siteEnv, name)
              else if name == "dst_path" then Some(Render(dstPath))
              else if name == "src_path" then Some(Render(srcPath))
              else if name == "site_name" then Some(siteName)
              else if name == "builder" then Some(builder)
              else if name == "page_name" then Some(Stem(LastName(srcPath)))
              else Getenv(environ, name)
  {
    var fixed := [ "page_name=" + Stem(LastName(srcPath)),
                   "builder=" + builder,
                   "site_name=" + siteName,
                   "src_path=" + Render(srcPath),
                   "dst_path=" + Render(dstPath) ];
    assert CommandEnv(environ, srcPath, dstPath, builder, siteName, siteEnv) == environ + fixed + siteEnv;
    FixedKeysPlain();
    FiveBindingsLookup("page_name", Stem(LastName(srcPath)), "builder", builder, "site_name", siteName,
                       "src_path", Render(srcPath), "dst_path", Render(dstPath), name);
    ThreeLayersLookup(environ, fixed, siteEnv, name);
  }

  lemma ThreeLayersLookup(a: seq<string>, b: seq<string>, c: seq<string>, name: string)
    ensures Getenv(a + b + c, name) ==
              if Getenv(c, name).Some? then Getenv(c, name)
              else if Getenv(b, name).Some? then Getenv(b, name)
              else Getenv(a, name)
  {
    GetenvAppend(a + b, c, name);
    GetenvAppend(a, b, name);
  }

  /** The five fixed names hold no '=', and each binding is name, '=', value. */
  lemma FixedKeysPlain()
    ensures '=' !in "page_name" && '=' !in "builder" && '=' !in "site_name"
    ensures '=' !in "src_path" && '=' !in "dst_path"
    ensures "page_name" + "=" == "page_name=" && "builder" + "=" == "builder="
    ensures "site_name" + "=" == "site_name=" && "src_path" + "=" == "src_path="
    ensures "dst_path" + "=" == "dst_path="
  {
  }

  /** Five bindings in a row: the last one binding a name answers for it. */
  lemma FiveBindingsLookup(k0: string, v0: string, k1: string, v1: string, k2: string, v2: string,
                           k3: string, v3: string, k4: string, v4: string, name: string)
    requires '=' !in name && '=' !in k0 && '=' !in k1 && '=' !in k2 && '=' !in k3 && '=' !in k4
    ensures Getenv([k0 + "=" + v0, k1 + "=" + v1, k2 + "=" + v2, k3 + "=" + v3, k4 + "=" + v4], name) ==
              if name == k4 then Some(v4)
              else if name == k3 then Some(v3)
              else if name == k2 then Some(v2)
              else if name == k1 then Some(v1)
              else if name == k0 then Some(v0)
              else None
  {
    var e0: seq<string> := [];
    var e1 := e0 + [k0 + "=" + v0];
    var e2 := e1 + [k1 + "=" + v1];
    var e3 := e2 + [k2 + "=" + v2];
    var e4 := e3 + [k3 + "=" + v3];
    var e5 := e4 + [k4 + "=" + v4];
    assert e5 == [k0 + "=" + v0, k1 + "=" + v1, k2 + "=" + v2, k3 + "=" + v3, k4 + "=" + v4];
    GetenvSnoc(e0, k0, v0, name);
    GetenvSnoc(e1, k1, v1, name);
    GetenvSnoc(e2, k2, v2, name);
    GetenvSnoc(e3, k3, v3, name);
    GetenvSnoc(e4, k4, v4, name);
  }

  /** Appending a binding `key=value`: it answers for `key`, and every other
      name is looked up in what came before. */
  lemma GetenvSnoc(env: seq<string>, key: string, value: string, name: string)
    requires '=' !in key && '=' !in name
    ensures Getenv(env + [key + "=" + value], name) ==
              if name == key then Some(value) else Getenv(env, name)
  {
    var kv := key + "=" + value;
    assert (env + [kv])[..|env + [kv]| - 1] == env;
    if name == key {
      assert kv[..|name| + 1] == name + "=";
      assert kv[|name| + 1..] == value;
    } else {
      BindingNameUnique(name, key, value);
    }
  }

  /** A binding `key=value` binds no name but `key` when neither holds '='. */
  lemma BindingNameUnique(name: string, key: string, value: string)
    requires '=' !in key && '=' !in name
    ensures IsPrefix(name + "=", key + "=" + value) ==> name == key
  {
    var kv := key + "=" + value;
    if |name| < |key| {
      assert kv[|name|] == key[|name|] != '=';
      assert (name + "=")[|name|] == '=';
    } else if |name| > |key| {
      assert kv[|key|] == '=';
      assert (name + "=")[|key|] == name[|key|] != '=';
    } else {
      assert kv[..|key|] == key;
      assert (name + "=")[..|key|] == name;
    }
  }
}
