/** What a path means: its components, and the normal form of where it leads. */
module Paths {

  predicate Word(w: string) {
    w != "" && forall i :: 0 <= i < |w| ==> w[i] != '/'
  }

  /** The non-empty pieces between slashes. */
  function Split(s: string): (r: seq<string>)
    ensures forall i :: 0 <= i < |r| ==> Word(r[i])
    ensures s != [] && s[|s| - 1] != '/' ==> r != []
  {
    if s == [] then []
    else
      var rest, c := s[..|s| - 1], s[|s| - 1];
      var before := Split(rest);
      if c == '/' then before
      else if rest == [] || rest[|rest| - 1] == '/' then before + [[c]]
      else before[|before| - 1 := before[|before| - 1] + [c]]
  }

  /** One component onto the stack of 32: `.` stays, `..` leaves, a thirty-third is dropped. */
  function Push(stack: seq<string>, c: string): seq<string> {
    if c == "." then stack
    else if c == ".." then if stack == [] then [] else stack[..|stack| - 1]
    else if |stack| < 32 then stack + [c]
    else stack
  }

  function Stacked(cs: seq<string>): seq<string> {
    if cs == [] then [] else Push(Stacked(cs[..|cs| - 1]), cs[|cs| - 1])
  }

  function Concat(cs: seq<string>): string {
    if cs == [] then "" else Concat(cs[..|cs| - 1]) + "/" + cs[|cs| - 1]
  }

  /** The absolute path with these components. */
  function Join(cs: seq<string>): string {
    if cs == [] then "/" else Concat(cs)
  }

  predicate Clean(c: string) {
    Word(c) && c != "." && c != ".."
  }

  /** An absolute path of at most 32 components, none of them empty, `.` or `..`. */
  ghost predicate Normal(path: string) {
    path == Join(Split(path)) && |Split(path)| <= 32 && forall i :: 0 <= i < |Split(path)| ==> Clean(Split(path)[i])
  }

  /** The text a name stands for, from a working directory. */
  function Full(cwd: string, name: string): string {
    if name != "" && name[0] == '/' then name
    else cwd + (if cwd != "" && cwd[|cwd| - 1] != '/' then "/" else "") + name
  }

  function Resolved(cwd: string, name: string): string {
    Join(Stacked(Split(Full(cwd, name))))
  }

  // ------------------------------------------------------------ splitting and joining

  lemma {:induction false} SplitAt(a: string, b: string)
    ensures Split(a + "/" + b) == Split(a) + Split(b)
  {
    if b == [] {
      assert (a + "/" + b)[..|a|] == a;
    } else {
      var s := a + "/" + b;
      assert s[..|s| - 1] == a + "/" + b[..|b| - 1];
      SplitAt(a, b[..|b| - 1]);
    }
  }

  lemma {:induction false} SplitWord(w: string)
    requires Word(w)
    ensures Split(w) == [w]
  {
    if |w| > 1 {
      SplitWord(w[..|w| - 1]);
      assert w == w[..|w| - 1] + [w[|w| - 1]];
    } else {
      assert w == [w[0]];
    }
  }

  lemma SplitNothing()
    ensures Split("") == [] && Split("/") == []
  {
    assert "/"[..0] == "";
  }

  /** Splitting undoes joining. */
  lemma {:induction false} SplitJoin(cs: seq<string>)
    requires forall i :: 0 <= i < |cs| ==> Word(cs[i])
    ensures Split(Concat(cs)) == cs && Split(Join(cs)) == cs
  {
    hide Split;
    SplitNothing();
    if cs != [] {
      var front, c := cs[..|cs| - 1], cs[|cs| - 1];
      SplitJoin(front);
      SplitAt(Concat(front), c);
      SplitWord(c);
      assert cs == front + [c];
    }
  }

  lemma {:induction false} StackedClean(cs: seq<string>)
    requires forall i :: 0 <= i < |cs| ==> Word(cs[i])
    ensures |Stacked(cs)| <= 32 && forall i :: 0 <= i < |Stacked(cs)| ==> Clean(Stacked(cs)[i])
  {
    if cs != [] {
      StackedClean(cs[..|cs| - 1]);
    }
  }

  lemma {:induction false} StackedOfClean(cs: seq<string>)
    requires |cs| <= 32 && forall i :: 0 <= i < |cs| ==> Clean(cs[i])
    ensures Stacked(cs) == cs
  {
    if cs != [] {
      StackedOfClean(cs[..|cs| - 1]);
      assert Clean(cs[|cs| - 1]);
      assert cs == cs[..|cs| - 1] + [cs[|cs| - 1]];
    }
  }

  /** A component `.` makes no difference. */
  lemma DotStays(a: seq<string>, b: seq<string>)
    ensures Stacked(a + ["."] + b) == Stacked(a + b)
  {
    assert (a + ["."])[..|a|] == a;
    StackedAfter(a + ["."], a, b);
  }

  lemma {:induction false} StackedAfter(a: seq<string>, b: seq<string>, more: seq<string>)
    requires Stacked(a) == Stacked(b)
    ensures Stacked(a + more) == Stacked(b + more)
  {
    hide Push;
    if more == [] {
      assert a + more == a && b + more == b;
    } else {
      var front := more[..|more| - 1];
      StackedAfter(a, b, front);
      assert (a + more)[..|a + more| - 1] == a + front && (b + more)[..|b + more| - 1] == b + front;
    }
  }

  // ------------------------------------------------------------ what resolving promises

  /** A resolved path is normal, whatever it was resolved from. */
  lemma ResolvedIsNormal(cwd: string, name: string)
    ensures Normal(Resolved(cwd, name)) && Resolved(cwd, name) != "" && Resolved(cwd, name)[0] == '/'
    ensures Split(Resolved(cwd, name)) == Stacked(Split(Full(cwd, name)))
  {
    hide Split;
    var st := Stacked(Split(Full(cwd, name)));
    StackedClean(Split(Full(cwd, name)));
    SplitJoin(st);
    ConcatStarts(st);
  }

  lemma {:induction false} ConcatStarts(cs: seq<string>)
    ensures cs != [] ==> |Concat(cs)| >= 1 && Concat(cs)[0] == '/'
  {
    if |cs| > 1 {
      ConcatStarts(cs[..|cs| - 1]);
    }
  }

  /** A normal path resolves to itself, from anywhere; so resolving twice is resolving once. */
  lemma NormalIsFixed(cwd: string, path: string)
    requires Normal(path)
    ensures Resolved(cwd, path) == path
  {
    hide Split;
    ConcatStarts(Split(path));
    StackedOfClean(Split(path));
  }

  /** Going to `a` and then resolving the relative `b` there is resolving `a/b`. */
  lemma ChangeThenResolve(cwd: string, a: string, b: string)
    requires a != "" && (b == "" || b[0] != '/')
    ensures Resolved(Resolved(cwd, a), b) == Resolved(cwd, a + "/" + b)
  {
    hide Split;
    var full, at := Full(cwd, a), Resolved(cwd, a);
    var st := Stacked(Split(full));
    ResolvedIsNormal(cwd, a);
    FullUnder(st, b);
    SplitAt(full, b);
    assert Full(cwd, a + "/" + b) == full + "/" + b;
    StackedOfClean(st);
    StackedAfter(st, Split(full), Split(b));
  }

  lemma FullUnder(st: seq<string>, b: string)
    requires b == "" || b[0] != '/'
    requires forall i :: 0 <= i < |st| ==> Clean(st[i])
    ensures Split(Full(Join(st), b)) == st + Split(b)
  {
    hide Split;
    SplitJoin(st);
    if st == [] {
      SplitAt("", b);
      assert Full(Join(st), b) == "" + "/" + b;
    } else {
      SplitAt(Concat(st), b);
      assert st == st[..|st| - 1] + [st[|st| - 1]];
      assert Clean(st[|st| - 1]);
      assert Full(Join(st), b) == Concat(st) + "/" + b;
    }
  }

  /** `..` never climbs above the root: leading `..` components change nothing. */
  lemma {:induction false} NeverAboveRoot(n: nat, cs: seq<string>)
    ensures Stacked(seq(n, i => "..") + cs) == Stacked(cs)
  {
    var ups := seq(n, i => "..");
    if n == 0 {
      assert ups == [];
    } else {
      NeverAboveRoot(n - 1, []);
      assert ups[..n - 1] == seq(n - 1, i => "..") + [] && [] + cs == cs;
    }
    StackedAfter(ups, [], cs);
    assert [] + cs == cs;
  }

  /** Entering a component and leaving it again changes nothing, exactly below 32 components: there the
      component is dropped and `..` leaves its parent. */
  lemma DotDotCancels(cs: seq<string>, w: string)
    requires Clean(w) && |Stacked(cs)| <= 32
    ensures Stacked(cs + [w, ".."]) == Stacked(cs) <==> |Stacked(cs)| < 32
  {
    var st := Stacked(cs);
    assert (cs + [w])[..|cs|] == cs;
    assert (cs + [w, ".."])[..|cs| + 1] == cs + [w];
    assert Stacked(cs + [w, ".."]) == Push(Push(st, w), "..");
    assert (st + [w])[..|st|] == st;
  }

  // ------------------------------------------------------------ the limit of 32

  /** The components that remain when the stack has no limit. */
  function Unlimited(cs: seq<string>): seq<string> {
    if cs == [] then []
    else
      var st, c := Unlimited(cs[..|cs| - 1]), cs[|cs| - 1];
      if c == "." then st
      else if c == ".." then if st == [] then [] else st[..|st| - 1]
      else st + [c]
  }

  /** No prefix of the components lies deeper than the stack is high. */
  ghost predicate Shallow(cs: seq<string>) {
    forall k: nat :: k <= |cs| ==> |Unlimited(cs[..k])| <= 32
  }

  /** Up to a shallow path the limit makes no difference, */
  lemma {:induction false} ShallowIsUnlimited(cs: seq<string>)
    requires Shallow(cs)
    ensures Stacked(cs) == Unlimited(cs)
  {
    if cs != [] {
      var front := cs[..|cs| - 1];
      forall k: nat | k <= |front|
        ensures |Unlimited(front[..k])| <= 32
      {
        assert front[..k] == cs[..k];
      }
      ShallowIsUnlimited(front);
      assert cs[..|cs|] == cs && |Unlimited(cs[..|cs|])| <= 32;
    }
  }

  /** and it makes none anywhere along the path if and only if the path is shallow. */
  lemma LimitMatters(cs: seq<string>)
    requires forall i :: 0 <= i < |cs| ==> Word(cs[i])
    ensures Shallow(cs) <==> forall k: nat :: k <= |cs| ==> Stacked(cs[..k]) == Unlimited(cs[..k])
  {
    forall k: nat | k <= |cs|
      ensures |Stacked(cs[..k])| <= 32
      ensures Shallow(cs) ==> Stacked(cs[..k]) == Unlimited(cs[..k])
    {
      StackedClean(cs[..k]);
      if Shallow(cs) {
        forall i: nat | i <= k
          ensures |Unlimited(cs[..k][..i])| <= 32
        {
          assert cs[..k][..i] == cs[..i];
        }
        ShallowIsUnlimited(cs[..k]);
      }
    }
  }

  // ------------------------------------------------------------ lengths

  lemma {:induction false} SplitShort(s: string)
    requires s != "" && s[0] == '/'
    ensures |Concat(Split(s))| <= if s[|s| - 1] == '/' then |s| - 1 else |s|
  {
    var rest := s[..|s| - 1];
    if rest != "" {
      SplitShort(rest);
      var before, r := Split(rest), Split(s);
      if s[|s| - 1] != '/' && rest[|rest| - 1] != '/' {
        assert r[..|r| - 1] == before[..|before| - 1];
      } else if s[|s| - 1] != '/' {
        assert r[..|r| - 1] == before;
      }
    }
  }

  lemma {:induction false} StackedShort(cs: seq<string>)
    ensures |Concat(Stacked(cs))| <= |Concat(cs)|
  {
    if cs != [] {
      StackedShort(cs[..|cs| - 1]);
      var st := Stacked(cs[..|cs| - 1]);
      assert (st + [cs[|cs| - 1]])[..|st|] == st;
    }
  }

  lemma {:induction false} ConcatGrows(cs: seq<string>, k: nat)
    requires k <= |cs|
    ensures |Concat(cs[..k])| <= |Concat(cs)|
    decreases |cs|
  {
    if k == |cs| {
      assert cs[..k] == cs;
    } else {
      assert cs[..|cs| - 1][..k] == cs[..k];
      ConcatGrows(cs[..|cs| - 1], k);
    }
  }

  /** A resolved path is no longer than the text it was resolved from. */
  lemma ResolvedShort(cwd: string, name: string)
    requires Full(cwd, name) != "" && Full(cwd, name)[0] == '/'
    ensures |Resolved(cwd, name)| <= |Full(cwd, name)|
    ensures |Concat(Stacked(Split(Full(cwd, name))))| <= |Full(cwd, name)|
  {
    hide Split, Concat;
    SplitShort(Full(cwd, name));
    StackedShort(Split(Full(cwd, name)));
  }

  // ------------------------------------------------------------ reading a path from the left

  /** A slash more changes nothing. */
  lemma SlashStep(s: string, p: nat)
    requires p < |s| && s[p] == '/'
    ensures Split(s[..p + 1]) == Split(s[..p])
  {
    assert s[..p + 1][..p] == s[..p];
  }

  /** A word after a slash is one component more. */
  lemma WordStep(s: string, start: nat, end: nat)
    requires 0 < start <= end <= |s| && s[start - 1] == '/' && Word(s[start..end])
    ensures Split(s[..end]) == Split(s[..start]) + [s[start..end]]
  {
    hide Split;
    SplitAt(s[..start - 1], s[start..end]);
    SplitWord(s[start..end]);
    SlashStep(s, start - 1);
    assert s[..end] == s[..start - 1] + "/" + s[start..end];
  }
}
