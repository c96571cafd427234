/** The path resolver as it works on its buffers, and the working directory. */
module VirtualFiles {
  import opened Paths

  /** The characters of `w`, then a NUL, are in the buffer from `at` on. */
  ghost predicate CString(t: seq<char>, at: nat, w: string) {
    && at + |w| < |t| && t[at + |w|] == '\0'
    && forall i :: 0 <= i < |w| ==> t[at + i] == w[i] && w[i] != '\0'
  }

  predicate NoNul(w: string) {
    forall i :: 0 <= i < |w| ==> w[i] != '\0'
  }

  lemma CStringAt(t: seq<char>, at: nat, w: string, i: nat)
    requires CString(t, at, w) && i <= |w|
    ensures at + |w| < |t| && NoNul(w)
    ensures t[at + i] == '\0' <==> i == |w|
    ensures i < |w| ==> t[at + i] == w[i]
  {
    assert i < |w| ==> t[at + i] == w[i] && w[i] != '\0';
  }

  method ReadString(t: array<char>, at: nat, ghost w: string) returns (s: string)
    requires CString(t[..], at, w)
    ensures s == w
  {
    s := "";
    CStringAt(t[..], at, w, 0);
    while t[at + |s|] != '\0'
      invariant |s| <= |w| && s == w[..|s|] && (t[at + |s|] == '\0' <==> |s| == |w|)
      decreases |w| - |s|
    {
      s := s + [t[at + |s|]];
      CStringAt(t[..], at, w, |s|);
    }
  }

  /** Copies a string and fills the rest of the buffer with NULs; a string of 256 characters or more is cut
      and has no NUL behind it. */
  method CopyString(dst: array<char>, src: string)
    requires NoNul(src) && dst.Length == 256
    modifies dst
    ensures |src| < 256 ==> CString(dst[..], 0, src)
    ensures |src| >= 256 ==> dst[..] == src[..256]
  {
    var i := 0;
    while i < 256 && i < |src|
      invariant i <= |src| && i <= 256
      invariant forall k :: 0 <= k < i ==> dst[k] == src[k]
    {
      dst[i] := src[i];
      i := i + 1;
    }
    while i < 256
      invariant (if |src| < 256 then |src| else 256) <= i <= 256
      invariant forall k :: 0 <= k < |src| && k < 256 ==> dst[k] == src[k]
      invariant forall k :: |src| <= k < i ==> dst[k] == '\0'
    {
      dst[i] := '\0';
      i := i + 1;
    }
  }

  /** Appends a string that fits. */
  method AppendString(dst: array<char>, src: string, ghost was: string)
    requires CString(dst[..], 0, was) && NoNul(src) && |was| + |src| < dst.Length == 256
    modifies dst
    ensures CString(dst[..], 0, was + src)
  {
    var d := 0;
    CStringAt(dst[..], 0, was, d);
    while dst[d] != '\0'
      invariant d <= |was| && dst[..] == old(dst[..]) && (dst[d] == '\0' <==> d == |was|)
      decreases |was| - d
    {
      d := d + 1;
      CStringAt(dst[..], 0, was, d);
    }
    var i := 0;
    while i < 256 && i < |src|
      invariant i <= |src|
      invariant forall k :: 0 <= k < |was| ==> dst[k] == was[k]
      invariant forall k :: 0 <= k < i ==> dst[|was| + k] == src[k]
    {
      dst[d + i] := src[i];
      i := i + 1;
    }
    dst[d + i] := '\0';
  }

  /** Whether the string at `at` is `w`. */
  method SameString(t: array<char>, at: nat, w: string, ghost v: string) returns (same: bool)
    requires CString(t[..], at, v) && NoNul(w)
    ensures same <==> v == w
  {
    var i := 0;
    CStringAt(t[..], at, v, 0);
    while t[at + i] != '\0' && i < |w| && t[at + i] == w[i]
      invariant i <= |v| && i <= |w| && v[..i] == w[..i] && (t[at + i] == '\0' <==> i == |v|)
      decreases |w| - i
    {
      CStringAt(t[..], at, v, i);
      i := i + 1;
      CStringAt(t[..], at, v, i);
    }
    same := t[at + i] == '\0' && i == |w|;
    CStringAt(t[..], at, v, i);
    assert same ==> v == v[..i] && w == w[..i];
  }

  // ------------------------------------------------------------ cutting the text in place

  /** The stack of starts holds the words of `st`, all of which end before `p` (or the text has ended). */
  ghost predicate Entries(t: seq<char>, starts: seq<nat>, st: seq<string>, p: nat, n: nat) {
    && |st| <= |starts|
    && forall k :: 0 <= k < |st| ==>
         CString(t, starts[k], st[k]) && (starts[k] + |st[k]| < p || p == n)
  }

  lemma EntriesKept(t: seq<char>, u: seq<char>, starts: seq<nat>, st: seq<string>, p: nat, q: nat, n: nat)
    requires Entries(t, starts, st, p, n) && p <= q <= |t| == |u| && p < n
    requires forall i :: 0 <= i < p ==> u[i] == t[i]
    ensures Entries(u, starts, st, q, n)
  {
  }

  lemma EntriesPushed(t: seq<char>, starts: seq<nat>, st: seq<string>, p: nat, n: nat, at: nat, w: string)
    requires Entries(t, starts, st, p, n) && |st| < |starts| && CString(t, at, w) && (at + |w| < p || p == n)
    ensures Entries(t, starts[|st| := at], st + [w], p, n)
  {
  }

  /** One word onto the stack, by comparing it with `.` and `..` where it stands. */
  method PushWord(temp: array<char>, start: nat, stack: array<nat>, top: nat,
                  ghost st: seq<string>, ghost w: string, ghost p: nat, ghost n: nat) returns (newTop: nat)
    requires CString(temp[..], start, w) && (start + |w| < p || p == n) && stack.Length == 32
    requires Entries(temp[..], stack[..], st, p, n) && top == |st| <= 32
    modifies stack
    ensures Entries(temp[..], stack[..], Push(st, w), p, n) && newTop == |Push(st, w)| <= 32
  {
    newTop := top;
    var dot := SameString(temp, start, ".", w);
    if dot {
      return;
    }
    var dots := SameString(temp, start, "..", w);
    if dots {
      if top > 0 {
        newTop := top - 1;
      }
    } else if top < 32 {
      EntriesPushed(temp[..], stack[..], st, p, n, start, w);
      stack[top] := start;
      newTop := top + 1;
    }
  }

  /** From `p` on the buffer still holds the text. */
  ghost predicate Rest(t: seq<char>, full: string, p: nat) {
    && p <= |full| < |t| && t[|full|] == '\0'
    && forall i :: p <= i < |full| ==> t[i] == full[i] && full[i] != '\0'
  }

  lemma RestAt(t: seq<char>, full: string, p: nat, i: nat)
    requires Rest(t, full, p) && p <= i <= |full|
    ensures i < |t| && |full| < |t|
    ensures t[i] == '\0' <==> i == |full|
    ensures i < |full| ==> t[i] == full[i]
  {
  }

  method SkipSlashes(temp: array<char>, p: nat, ghost full: string) returns (q: nat)
    requires Rest(temp[..], full, p)
    ensures p <= q <= |full| && temp[q] != '/' && Split(full[..q]) == Split(full[..p])
    ensures forall i :: p <= i < q ==> full[i] == '/'
  {
    hide Split;
    q := p;
    RestAt(temp[..], full, p, q);
    while temp[q] == '/'
      invariant p <= q <= |full| && Split(full[..q]) == Split(full[..p])
      invariant forall i :: p <= i < q ==> full[i] == '/'
      decreases |full| - q
    {
      RestAt(temp[..], full, p, q);
      SlashStep(full, q);
      q := q + 1;
    }
  }

  method WordEnd(temp: array<char>, p: nat, ghost full: string) returns (q: nat)
    requires Rest(temp[..], full, p)
    ensures p <= q <= |full| && (q < |full| ==> full[q] == '/')
    ensures forall i :: p <= i < q ==> full[i] != '/'
  {
    q := p;
    RestAt(temp[..], full, p, q);
    while temp[q] != '\0' && temp[q] != '/'
      invariant p <= q <= |full|
      invariant forall i :: p <= i < q ==> full[i] != '/'
      decreases |full| - q
    {
      RestAt(temp[..], full, p, q);
      q := q + 1;
    }
    RestAt(temp[..], full, p, q);
  }

  /** The word found stands in the buffer, and the text behind it is untouched. */
  lemma WordCut(t: seq<char>, u: seq<char>, full: string, start: nat, end: nat, p: nat)
    requires Rest(t, full, start) && start <= end <= p <= |full| && |u| == |t|
    requires if end == |full| then p == end && u == t else p == end + 1 && u == t[end := '\0']
    ensures CString(u, start, full[start..end]) && Rest(u, full, p) && (end < p || p == |full|)
    ensures forall i :: 0 <= i < start ==> u[i] == t[i]
  {
  }

  /** Ends the word at `start` with a NUL over the slash behind it. */
  method CutWord(temp: array<char>, start: nat, ghost full: string) returns (p: nat, ghost w: string)
    requires Rest(temp[..], full, start) && 0 < start < |full| && full[start - 1] == '/' && temp[start] != '/'
    modifies temp
    ensures start < p <= |full| && (p == |full| || full[p - 1] == '/') && Rest(temp[..], full, p)
    ensures CString(temp[..], start, w) && (start + |w| < p || p == |full|)
    ensures Split(full[..p]) == Split(full[..start]) + [w]
    ensures forall i :: 0 <= i < start ==> temp[i] == old(temp[i])
  {
    hide Split, Rest, CString;
    ghost var before := temp[..];
    RestAt(before, full, start, start);
    assert temp[start] == before[start] == full[start];
    p := WordEnd(temp, start, full);
    ghost var end := p;
    w := full[start..p];
    WordStep(full, start, p);
    RestAt(before, full, start, p);
    if temp[p] != '\0' {
      SlashStep(full, p);
      temp[p] := '\0';
      p := p + 1;
    }
    WordCut(before, temp[..], full, start, end, p);
    forall i | 0 <= i < start
      ensures temp[i] == old(temp[i])
    {
      assert temp[..][i] == before[i];
    }
  }

  /** Cuts the text at its slashes by writing NULs into it, and stacks where the components start. */
  method Tokenise(temp: array<char>, stack: array<nat>, ghost full: string) returns (top: nat)
    requires temp.Length == 256 && stack.Length == 32
    requires CString(temp[..], 0, full) && full != "" && full[0] == '/'
    modifies temp, stack
    ensures Entries(temp[..], stack[..], Stacked(Split(full)), |full|, |full|) && top == |Stacked(Split(full))| <= 32
  {
    ghost var n := |full|;
    ghost var st := Stacked(Split(full[..0]));
    top := 0;
    var p := 0;
    Begin(temp[..], stack[..], full);
    hide Split, Stacked, Entries, Push, Rest, CString;
    while temp[p] != '\0'
      invariant p <= n && (p == 0 || p == n || full[p - 1] == '/')
      invariant Rest(temp[..], full, p)
      invariant st == Stacked(Split(full[..p])) && top == |st| <= 32 && Entries(temp[..], stack[..], st, p, n)
      decreases n - p
    {
      ghost var before := temp[..];
      RestAt(before, full, p, p);
      var start := SkipSlashes(temp, p, full);
      EntriesKept(before, before, stack[..], st, p, start, n);
      RestLater(before, full, p, start);
      if temp[start] == '\0' {
        p := start;
        break;
      }
      ghost var w;
      p, w := CutWord(temp, start, full);
      EntriesKept(before, temp[..], stack[..], st, start, p, n);
      top := PushWord(temp, start, stack, top, st, w, p, n);
      PushedNext(full[..start], w, full[..p]);
      st := Push(st, w);
    }
    RestAt(temp[..], full, p, p);
    assert full[..n] == full;
  }

  lemma RestLater(t: seq<char>, full: string, p: nat, q: nat)
    requires Rest(t, full, p) && p <= q <= |full|
    ensures Rest(t, full, q) && (t[q] == '\0' <==> q == |full|) && (q < |full| ==> t[q] == full[q])
  {
  }

  lemma Begin(t: seq<char>, starts: seq<nat>, full: string)
    requires CString(t, 0, full)
    ensures Stacked(Split(full[..0])) == [] && Entries(t, starts, [], 0, |full|) && Rest(t, full, 0)
  {
  }

  lemma PushedNext(before: string, w: string, after: string)
    requires Split(after) == Split(before) + [w]
    ensures Stacked(Split(after)) == Push(Stacked(Split(before)), w)
  {
    assert Split(after)[..|Split(after)| - 1] == Split(before);
  }

  /** Writes the stacked components, each behind a slash, into the result buffer. */
  method WritePath(temp: array<char>, stack: array<nat>, top: nat, abspath: array<char>, ghost st: seq<string>,
                   ghost n: nat)
    requires Entries(temp[..], stack[..], st, n, n) && top == |st| && |Concat(st)| < 256
    requires abspath.Length == 256 && abspath != temp
    modifies abspath
    ensures CString(abspath[..], 0, Join(st))
  {
    abspath[0] := '\0';
    if top == 0 {
      CopyString(abspath, "/");
    } else {
      assert CString(abspath[..], 0, Concat(st[..0]));
      for i := 0 to top
        invariant Entries(temp[..], stack[..], st, n, n)
        invariant CString(abspath[..], 0, Concat(st[..i]))
      {
        ghost var done := Concat(st[..i]);
        NextComponent(st, i);
        assert CString(temp[..], stack[i], st[i]);
        AppendString(abspath, "/", done);
        var w := ReadString(temp, stack[i], st[i]);
        AppendString(abspath, w, done + "/");
      }
      assert st[..top] == st;
    }
  }

  lemma NextComponent(st: seq<string>, i: nat)
    requires i < |st|
    ensures Concat(st[..i + 1]) == Concat(st[..i]) + "/" + st[i] && |Concat(st[..i + 1])| <= |Concat(st)|
  {
    assert st[..i + 1][..i] == st[..i];
    ConcatGrows(st, i + 1);
  }

  // ------------------------------------------------------------ the working directory

  class Vfs {
    const cwd: array<char>
    ghost var path: string

    /** The buffer holds a normal path. */
    ghost predicate Valid()
      reads this, cwd
    {
      cwd.Length == 256 && CString(cwd[..], 0, path) && Normal(path) && path != "" && path[0] == '/'
    }

    constructor ()
      ensures Valid() && fresh(cwd) && path == "/"
    {
      cwd := new char[256](i => if i == 0 then '/' else '\0');
      path := "/";
      new;
      SplitNothing();
    }

    /** The text to resolve: the name, behind the working directory if it is relative. */
    method BuildText(name: string) returns (temp: array<char>)
      requires Valid() && NoNul(name) && |Full(path, name)| < 256
      ensures fresh(temp) && temp.Length == 256 && CString(temp[..], 0, Full(path, name))
      ensures Full(path, name) != "" && Full(path, name)[0] == '/'
    {
      hide Normal, CString;
      CStringAt(cwd[..], 0, path, 0);
      temp := new char[256](i => '\0');
      if name != "" && name[0] == '/' {
        CopyString(temp, name);
      } else {
        var dir := ReadString(cwd, 0, path);
        CopyString(temp, dir);
        CStringAt(temp[..], 0, dir, |dir| - 1);
        if |dir| > 0 && temp[|dir| - 1] != '/' {
          AppendString(temp, "/", path);
          AppendString(temp, name, path + "/");
        } else {
          AppendString(temp, name, path);
          assert path + "" + name == path + name;
        }
      }
    }

    /** The in-place resolver computes the functional one, whenever the text fits its buffer. */
    method ResolvePath(name: string, abspath: array<char>)
      requires Valid() && NoNul(name) && |Full(path, name)| < 256 && abspath.Length == 256 && abspath != cwd
      modifies abspath
      ensures CString(abspath[..], 0, Resolved(path, name)) && |Resolved(path, name)| < 256
    {
      hide Split, Normal, Stacked, Entries, Full, CString;
      ghost var full := Full(path, name);
      var temp := BuildText(name);
      ResolvedShort(path, name);
      var stack := new nat[32](i => 0);
      var top := Tokenise(temp, stack, full);
      WritePath(temp, stack, top, abspath, Stacked(Split(full)), |full|);
    }

    /** Changing the directory stores the resolved path; every later name is resolved from there. */
    method SetCwd(to: string)
      requires Valid() && NoNul(to) && |Full(path, to)| < 256
      modifies this`path, cwd
      ensures Valid() && path == Resolved(old(path), to)
    {
      hide Split, Resolved, Normal, Full;
      var temp := new char[256](i => '\0');
      ResolvePath(to, temp);
      ResolvedIsNormal(path, to);
      ghost var next := Resolved(path, to);
      var s := ReadString(temp, 0, next);
      NoTrailingSlash(next);
      if |s| > 1 && s[|s| - 1] == '/' {
        s := DropLast(s);
      }
      CopyString(cwd, s);
      path := next;
    }
  }

  function DropLast(s: string): string {
    if s == "" then s else s[..|s| - 1]
  }

  /** Only the root ends in a slash. */
  lemma NoTrailingSlash(path: string)
    requires Normal(path)
    ensures |path| > 1 ==> path[|path| - 1] != '/'
  {
    var cs := Split(path);
    if cs != [] {
      var c := cs[|cs| - 1];
      assert Clean(c);
    }
  }
}
