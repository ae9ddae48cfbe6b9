/** Splitting a path at its separators and normalising away `.` and `..`. */
module SplitPath {

  predicate Separator(c: char) { c == '/' || c == '\\' }

  /** The length of the leading run of characters that are separators, or that are not. */
  function Span(s: string, separators: bool): (n: nat)
    ensures n <= |s|
    ensures forall i | 0 <= i < n :: Separator(s[i]) == separators
    ensures n < |s| ==> Separator(s[n]) != separators
  {
    if s == [] || Separator(s[0]) != separators then 0 else 1 + Span(s[1..], separators)
  }

  /** The non-empty pieces between separators, in order. */
  function Tokens(s: string): (ts: seq<string>)
    decreases |s|
  {
    if s == [] then []
    else if Separator(s[0]) then Tokens(s[1..])
    else
      var n := Span(s, false);
      [s[..n]] + Tokens(s[n..])
  }

  lemma {:induction false} SkipSeparators(s: string)
    ensures Tokens(s) == Tokens(s[Span(s, true)..])
    decreases |s|
  {
    if s == [] || !Separator(s[0]) {
      assert s[0..] == s;
    } else {
      SkipSeparators(s[1..]);
      assert s[1..][Span(s[1..], true)..] == s[Span(s, true)..];
    }
  }

  function Push(out: seq<string>, t: string): seq<string> {
    if t == ".." then
      if out != [] && out[|out| - 1] != ".." then out[..|out| - 1] else out + [t]
    else if t == "." then out
    else out + [t]
  }

  function Fold(out: seq<string>, ts: seq<string>): seq<string>
    decreases |ts|
  {
    if ts == [] then out else Fold(Push(out, ts[0]), ts[1..])
  }

  function Normalize(ts: seq<string>): seq<string> { Fold([], ts) }

  /** The tokeniser loop of the code: `strtok` over the text, one token at a time. */
  method Split(path: string, normalize: bool) returns (out: seq<string>)
    ensures out == if normalize then Normalize(Tokens(path)) else Tokens(path)
  {
    out := [];
    var rest := path;
    while true
      invariant normalize ==> Fold([], Tokens(path)) == Fold(out, Tokens(rest))
      invariant !normalize ==> Tokens(path) == out + Tokens(rest)
      decreases |rest|
    {
      var from := rest[Span(rest, true)..];
      SkipSeparators(rest);
      if from == [] {
        return;
      }
      var n := Span(from, false);
      var token := from[..n];
      assert Tokens(rest) == [token] + Tokens(from[n..]);
      assert Tokens(rest)[1..] == Tokens(from[n..]);
      if normalize {
        if token == ".." {
          if out != [] && out[|out| - 1] != ".." {
            out := out[..|out| - 1];
          } else {
            out := out + [token];
          }
        } else if token != "." {
          out := out + [token];
        }
      } else {
        out := out + [token];
      }
      rest := from[n..];
    }
  }

  // ---- joining paths

  lemma {:induction false} SpanAppend(s: string, t: string, separators: bool)
    requires Span(s, separators) < |s|
    ensures Span(s + t, separators) == Span(s, separators)
    decreases |s|
  {
    assert (s + t)[1..] == s[1..] + t;
    if Separator(s[0]) == separators { SpanAppend(s[1..], t, separators); }
  }

  lemma {:induction false} SpanWhole(s: string, t: string, separators: bool)
    requires Span(s, separators) == |s|
    ensures Span(s + t, separators) == |s| + Span(t, separators)
    decreases |s|
  {
    if s == [] {
      assert s + t == t;
    } else {
      assert (s + t)[1..] == s[1..] + t;
      SpanWhole(s[1..], t, separators);
    }
  }

  /** The tokens of two paths joined by a slash or a backslash are the tokens of the one and then of the other. */
  lemma TokensOfJoin(a: string, c: char, b: string)
    requires c == '/' || c == '\\'
    ensures Tokens(a + [c] + b) == Tokens(a) + Tokens(b)
  {
    TokensAcross(a, c, b);
  }

  lemma {:induction false} TokensAcross(a: string, c: char, b: string)
    requires Separator(c)
    ensures Tokens(a + [c] + b) == Tokens(a) + Tokens(b)
    decreases |a|
  {
    var whole := a + [c] + b;
    if a == [] {
      assert whole[1..] == b;
    } else if Separator(a[0]) {
      assert whole[1..] == a[1..] + [c] + b;
      TokensAcross(a[1..], c, b);
    } else {
      var n := Span(a, false);
      assert a + ([c] + b) == whole;
      if n == |a| {
        LastToken(a, [c] + b);
        assert ([c] + b)[1..] == b;
        LastToken(a, []);
        assert a + [] == a;
      } else {
        FirstToken(a, [c] + b);
        assert a[n..] + ([c] + b) == a[n..] + [c] + b;
        TokensAcross(a[n..], c, b);
      }
    }
  }

  /** What follows a path does not change its first token, if a separator ends that. */
  lemma FirstToken(a: string, tail: string)
    requires a != [] && 0 < Span(a, false) < |a|
    ensures var n := Span(a, false);
            Tokens(a + tail) == [a[..n]] + Tokens(a[n..] + tail) && Tokens(a) == [a[..n]] + Tokens(a[n..])
  {
    var n := Span(a, false);
    SpanAppend(a, tail, false);
    assert (a + tail)[..n] == a[..n] && (a + tail)[n..] == a[n..] + tail;
  }

  /** Tokens are not empty and contain neither slash nor backslash. */
  lemma {:induction false} TokensClean(s: string)
    ensures forall i | 0 <= i < |Tokens(s)| :: Tokens(s)[i] != "" && '/' !in Tokens(s)[i] && '\\' !in Tokens(s)[i]
    decreases |s|
  {
    if s != [] {
      if Separator(s[0]) {
        TokensClean(s[1..]);
      } else {
        var n := Span(s, false);
        TokensClean(s[n..]);
        CleanSpan(s, n);
      }
    }
  }

  lemma CleanSpan(s: string, n: nat)
    requires 0 < n <= |s| && forall i | 0 <= i < n :: !Separator(s[i])
    ensures s[..n] != "" && '/' !in s[..n] && '\\' !in s[..n]
  {
  }

  /** Text with neither of them is a single token. */
  lemma WholeToken(s: string)
    requires s != "" && '/' !in s && '\\' !in s
    ensures Tokens(s) == [s]
  {
    assert Span(s, false) == |s|;
    assert s[..|s|] == s && s[|s|..] == [];
  }

  /** A path without separators is one token in front of whatever begins with a separator. */
  lemma LastToken(a: string, tail: string)
    requires a != [] && Span(a, false) == |a| && Span(tail, false) == 0
    ensures Tokens(a + tail) == [a] + Tokens(tail)
  {
    SpanWhole(a, tail, false);
    assert (a + tail)[..|a|] == a && (a + tail)[|a|..] == tail;
  }

  // ---- the normal form

  predicate Name(t: string) { t != "." && t != ".." }

  /** All `..` first, then names only. */
  predicate Normal(ts: seq<string>) {
    exists k: nat | k <= |ts| :: NormalAt(ts, k)
  }

  predicate NormalAt(ts: seq<string>, k: nat)
    requires k <= |ts|
  {
    (forall i | 0 <= i < k :: ts[i] == "..") && (forall i | k <= i < |ts| :: Name(ts[i]))
  }

  lemma PushNormal(out: seq<string>, t: string)
    requires Normal(out)
    ensures Normal(Push(out, t))
  {
    var k: nat :| k <= |out| && NormalAt(out, k);
    var next := Push(out, t);
    if t == ".." && k == |out| {
      assert NormalAt(next, k + 1);
    } else {
      assert NormalAt(next, k);
    }
  }

  lemma {:induction false} FoldNormal(out: seq<string>, ts: seq<string>)
    requires Normal(out)
    ensures Normal(Fold(out, ts))
    decreases |ts|
  {
    if ts != [] {
      PushNormal(out, ts[0]);
      FoldNormal(Push(out, ts[0]), ts[1..]);
    }
  }

  lemma {:induction false} FoldConcat(out: seq<string>, a: seq<string>, b: seq<string>)
    ensures Fold(out, a + b) == Fold(Fold(out, a), b)
    decreases |a|
  {
    if a == [] {
      assert a + b == b;
    } else {
      assert (a + b)[1..] == a[1..] + b;
      FoldConcat(Push(out, a[0]), a[1..], b);
    }
  }

  /** Normal token lists are left as they are, behind any list that does not end in a name. */
  lemma {:induction false} FoldFixed(out: seq<string>, ts: seq<string>)
    requires Normal(ts) && Normal(out + ts)
    ensures Fold(out, ts) == out + ts
    decreases |ts|
  {
    if ts == [] {
      assert out + ts == out;
    } else {
      var k: nat :| k <= |out + ts| && NormalAt(out + ts, k);
      assert (out + ts)[|out|] == ts[0];
      if ts[0] == ".." && out != [] { assert (out + ts)[|out| - 1] == out[|out| - 1]; }
      assert Push(out, ts[0]) == out + [ts[0]];
      assert out + [ts[0]] + ts[1..] == out + ts;
      var j: nat :| j <= |ts| && NormalAt(ts, j);
      assert NormalAt(ts[1..], if j == 0 then 0 else j - 1);
      FoldFixed(out + [ts[0]], ts[1..]);
    }
  }

  /** The normal form is normal, a fixed point, and a congruence for joining paths. */
  lemma NormalizeLaws(a: seq<string>, b: seq<string>)
    ensures Normal(Normalize(a))
    ensures Normalize(Normalize(a)) == Normalize(a)
    ensures Normalize(a + b) == Normalize(Normalize(a) + b)
  {
    assert NormalAt([], 0);
    FoldNormal([], a);
    var na := Normalize(a);
    assert [] + na == na;
    FoldFixed([], na);
    FoldConcat([], a, b);
    FoldConcat([], na, b);
  }

  // ---- what a path means

  /** One step from directory `dir`, given by the names that lead to it from the root. */
  function Move(dir: seq<string>, t: string): seq<string> {
    if t == ".." then if dir == [] then [] else dir[..|dir| - 1]
    else if t == "." then dir
    else dir + [t]
  }

  function Resolve(dir: seq<string>, ts: seq<string>): seq<string>
    decreases |ts|
  {
    if ts == [] then dir else Resolve(Move(dir, ts[0]), ts[1..])
  }

  lemma {:induction false} ResolveConcat(dir: seq<string>, a: seq<string>, b: seq<string>)
    ensures Resolve(dir, a + b) == Resolve(Resolve(dir, a), b)
    decreases |a|
  {
    if a == [] {
      assert a + b == b;
    } else {
      assert (a + b)[1..] == a[1..] + b;
      ResolveConcat(Move(dir, a[0]), a[1..], b);
    }
  }

  lemma ResolveOne(dir: seq<string>, t: string)
    ensures Resolve(dir, [t]) == Move(dir, t)
  {
    assert [t][1..] == [];
  }

  /** A name leads down, `..` leads up and stays at the root, `.` leads nowhere. */
  lemma ResolveSteps(dir: seq<string>, name: string)
    ensures Resolve(dir, ["."]) == dir && Resolve([], [".."]) == [] && Resolve(dir + [name], [".."]) == dir
    ensures name != "." && name != ".." ==> Resolve(dir, [name]) == dir + [name]
  {
    ResolveOne(dir, ".");
    ResolveOne([], "..");
    ResolveOne(dir + [name], "..");
    ResolveOne(dir, name);
    assert (dir + [name])[..|dir|] == dir;
  }

  lemma ResolvePush(dir: seq<string>, out: seq<string>, t: string)
    requires forall i | 0 <= i < |out| :: out[i] != "."
    ensures Resolve(dir, Push(out, t)) == Move(Resolve(dir, out), t)
  {
    ResolveConcat(dir, out, [t]);
    ResolveOne(Resolve(dir, out), t);
    if t == ".." && out != [] && out[|out| - 1] != ".." {
      var front, last := out[..|out| - 1], out[|out| - 1];
      assert out == front + [last];
      ResolveConcat(dir, front, [last]);
      ResolveOne(Resolve(dir, front), last);
      assert Resolve(dir, out)[..|Resolve(dir, out)| - 1] == Resolve(dir, front);
    }
  }

  lemma {:induction false} ResolveFold(dir: seq<string>, out: seq<string>, ts: seq<string>)
    requires Normal(out)
    ensures Resolve(dir, Fold(out, ts)) == Resolve(Resolve(dir, out), ts)
    decreases |ts|
  {
    if ts != [] {
      ResolvePush(dir, out, ts[0]);
      PushNormal(out, ts[0]);
      ResolveFold(dir, Push(out, ts[0]), ts[1..]);
    }
  }

  /** A path and its normal form lead to the same directory from everywhere. */
  lemma NormalizeSound(dir: seq<string>, ts: seq<string>)
    ensures Resolve(dir, Normalize(ts)) == Resolve(dir, ts)
  {
    assert NormalAt([], 0);
    ResolveFold(dir, [], ts);
  }

  // ---- and nothing else has the same meaning

  lemma {:induction false} ResolveUps(dir: seq<string>, ts: seq<string>)
    requires |ts| <= |dir| && forall i | 0 <= i < |ts| :: ts[i] == ".."
    ensures Resolve(dir, ts) == dir[..|dir| - |ts|]
    decreases |ts|
  {
    if ts != [] {
      ResolveUps(dir[..|dir| - 1], ts[1..]);
    }
  }

  lemma {:induction false} ResolveNames(dir: seq<string>, ts: seq<string>)
    requires forall i | 0 <= i < |ts| :: Name(ts[i])
    ensures Resolve(dir, ts) == dir + ts
    decreases |ts|
  {
    if ts == [] {
      assert dir + ts == dir;
    } else {
      ResolveNames(dir + [ts[0]], ts[1..]);
      assert dir + [ts[0]] + ts[1..] == dir + ts;
    }
  }

  lemma ResolveNormal(dir: seq<string>, ts: seq<string>, k: nat)
    requires k <= |ts| && k <= |dir| && NormalAt(ts, k)
    ensures Resolve(dir, ts) == dir[..|dir| - k] + ts[k..]
  {
    assert ts == ts[..k] + ts[k..];
    ResolveConcat(dir, ts[..k], ts[k..]);
    ResolveUps(dir, ts[..k]);
    ResolveNames(dir[..|dir| - k], ts[k..]);
  }

  /** A name that occurs nowhere in `ts`. */
  lemma {:induction false} FreshName(ts: seq<string>) returns (t: string)
    ensures forall i | 0 <= i < |ts| :: |ts[i]| < |t|
    ensures Name(t)
    decreases |ts|
  {
    if ts == [] {
      t := "aaa";
    } else {
      var u := FreshName(ts[1..]);
      t := u + ts[0] + "aaa";
      assert |t| > |u| && |t| > |ts[0]| && |t| > 2;
      forall i | 0 <= i < |ts| ensures |ts[i]| < |t| {
        if i > 0 { assert ts[i] == ts[1..][i - 1]; }
      }
    }
  }

  lemma FrontOccurs(front: seq<string>, rest: seq<string>, all: seq<string>)
    requires front + rest == all && front != []
    ensures front[0] in all
  {
    assert all[0] == front[0];
  }

  lemma SameParts(a: seq<string>, b: seq<string>, k: nat)
    requires k <= |a| && k <= |b| && NormalAt(a, k) && NormalAt(b, k) && a[k..] == b[k..]
    ensures a == b
  {
    assert a == a[..k] + a[k..] && b == b[..k] + b[k..];
    assert a[..k] == b[..k];
  }

  lemma Depths(a: seq<string>, ka: nat, b: seq<string>, kb: nat, dir: seq<string>)
    requires ka <= kb && ka <= |a| && kb <= |b| && NormalAt(a, ka) && NormalAt(b, kb)
    requires |dir| == kb && forall i | 0 <= i < |dir| :: Name(dir[i]) && dir[i] !in b
    requires dir[..|dir| - ka] + a[ka..] == dir[..|dir| - kb] + b[kb..]
    ensures a == b
  {
    var front := dir[..kb - ka];
    assert front + a[ka..] == b[kb..];
    assert forall i | 0 <= i < |front| :: front[i] == dir[i] && front[i] !in b[kb..];
    if front != [] {
      FrontOccurs(front, a[ka..], b[kb..]);
      assert false;
    }
    assert |front| == kb - ka;
    assert front + a[ka..] == a[ka..];
    SameParts(a, b, ka);
  }

  /** The same directory from every start. */
  ghost predicate Equivalent(a: seq<string>, b: seq<string>) {
    forall dir: seq<string> :: Resolve(dir, a) == Resolve(dir, b)
  }

  lemma SameMeaning(a: seq<string>, b: seq<string>)
    requires Normal(a) && Normal(b)
    requires Equivalent(a, b)
    ensures a == b
  {
    var ka: nat :| ka <= |a| && NormalAt(a, ka);
    var kb: nat :| kb <= |b| && NormalAt(b, kb);
    var t := FreshName(a + b);
    assert forall i | 0 <= i < |a| :: (a + b)[i] == a[i];
    assert forall i | 0 <= i < |b| :: (a + b)[|a| + i] == b[i];
    var depth := if ka <= kb then kb else ka;
    var dir := seq(depth, i => t);
    ResolveNormal(dir, a, ka);
    ResolveNormal(dir, b, kb);
    assert Resolve(dir, a) == Resolve(dir, b);
    if ka <= kb { Depths(a, ka, b, kb, dir); } else { Depths(b, kb, a, ka, dir); }
  }

  /** Two paths have the same normal form exactly when they lead to the same directory from every start. */
  lemma NormalFormIsMeaning(a: seq<string>, b: seq<string>)
    ensures Normalize(a) == Normalize(b) <==> Equivalent(a, b)
  {
    var na, nb := Normalize(a), Normalize(b);
    forall dir ensures Resolve(dir, na) == Resolve(dir, a) && Resolve(dir, nb) == Resolve(dir, b) {
      NormalizeSound(dir, a);
      NormalizeSound(dir, b);
    }
    if na == nb {
      forall dir ensures Resolve(dir, a) == Resolve(dir, b) {
        assert Resolve(dir, na) == Resolve(dir, nb);
      }
    } else if Equivalent(a, b) {
      assert Equivalent(na, nb);
      NormalizeLaws(a, []);
      NormalizeLaws(b, []);
      SameMeaning(na, nb);
      assert false;
    }
  }
}
