/**
 Path names: turning a path into a canonical absolute one by editing a buffer, walking a path
 through the tree of nodes, and changing directory, which does both.
 */
module Paths {
  import opened Common

  const MAX_CANONICAL_PATH := 4096
  const MAX_COMPONENT := 255

  // ---------------------------------------------------------------- components

  /** Where the word at p ends: at the next slash or at the end. */
  function WordEnd(s: string, p: nat): (e: nat)
    requires p <= |s|
    ensures p <= e <= |s| && (e < |s| ==> s[e] == '/') && forall i :: p <= i < e ==> s[i] != '/'
    decreases |s| - p
  {
    if p == |s| || s[p] == '/' then p else WordEnd(s, p + 1)
  }

  /** The non-empty words between slashes, from p on. */
  function Components(s: string, p: nat): seq<string>
    requires p <= |s|
    decreases |s| - p
  {
    if p == |s| then []
    else if s[p] == '/' then Components(s, p + 1)
    else [s[p..WordEnd(s, p)]] + Components(s, WordEnd(s, p))
  }

  predicate IsDot(c: string) { |c| == 1 && c[0] == '.' }

  predicate IsDotDot(c: string) { |c| == 2 && c[0] == '.' && c[1] == '.' }

  ghost predicate Word(c: string) { |c| > 0 && '/' !in c }

  /** A component that names a child. */
  ghost predicate Plain(c: string) { Word(c) && !IsDot(c) && !IsDotDot(c) }

  ghost predicate AllPlain(stack: seq<string>) { forall i :: 0 <= i < |stack| ==> Plain(stack[i]) }

  lemma {:induction false} ComponentsAreWords(s: string, p: nat)
    requires p <= |s|
    ensures forall i :: 0 <= i < |Components(s, p)| ==> Word(Components(s, p)[i])
    decreases |s| - p
  {
    if p < |s| { ComponentsAreWords(s, if s[p] == '/' then p + 1 else WordEnd(s, p)); }
  }

  // ---------------------------------------------------------------- a stack of components

  function Apply(stack: seq<string>, c: string): seq<string> {
    if |c| == 0 || IsDot(c) then stack
    else if IsDotDot(c) then if stack == [] then [] else stack[..|stack| - 1]
    else stack + [c]
  }

  function Joined(stack: seq<string>): string {
    if stack == [] then "" else Joined(stack[..|stack| - 1]) + "/" + stack[|stack| - 1]
  }

  /** The absolute path of a stack. */
  function Render(stack: seq<string>): string { if stack == [] then "/" else Joined(stack) }

  /** Applies the components one by one, failing as soon as the path would get too long. */
  function Fold(stack: seq<string>, comps: seq<string>): Option<seq<string>>
    decreases |comps|
  {
    if comps == [] then Some(stack)
    else if |Render(Apply(stack, comps[0]))| > MAX_CANONICAL_PATH then None
    else Fold(Apply(stack, comps[0]), comps[1..])
  }

  lemma ApplyPlain(stack: seq<string>, c: string)
    requires AllPlain(stack) && '/' !in c
    ensures AllPlain(Apply(stack, c))
  {
  }

  lemma {:induction false} FoldIsPlain(stack: seq<string>, comps: seq<string>)
    requires AllPlain(stack) && forall i :: 0 <= i < |comps| ==> Word(comps[i])
    ensures Fold(stack, comps).Some? ==> AllPlain(Fold(stack, comps).value)
    decreases |comps|
  {
    if comps != [] {
      assert Word(comps[0]);
      FoldIsPlain(Apply(stack, comps[0]), comps[1..]);
    }
  }

  // ---------------------------------------------------------------- the buffer

  lemma RenderPush(stack: seq<string>, c: string)
    ensures Joined(stack + [c]) == Joined(stack) + "/" + c
  {
    assert (stack + [c])[..|stack|] == stack;
  }

  /** Pushes one component on the path in the buffer, or cuts off the last one for "..". */
  method PushComponent(buf: string, c: string, ghost stack: seq<string>) returns (ok: bool, r: string)
    requires buf == Render(stack) && AllPlain(stack) && '/' !in c && |buf| <= MAX_CANONICAL_PATH
    ensures ok <==> |Render(Apply(stack, c))| <= MAX_CANONICAL_PATH
    ensures ok ==> r == Render(Apply(stack, c))
  {
    if |c| == 0 || IsDot(c) { return true, buf; }
    NonEmptyRender(stack);
    if IsDotDot(c) {
      var len := |buf|;
      if len > 1 {
        ghost var init, last := stack[..|stack| - 1], stack[|stack| - 1];
        ghost var cut := |Joined(init)| + 1;
        assert buf == Joined(init) + "/" + last && Plain(last);
        while len > 1 && buf[len - 1] != '/'
          invariant cut <= len <= |buf| && forall i :: cut <= i < |buf| ==> buf[i] != '/'
        {
          len := len - 1;
        }
        assert buf[cut - 1] == '/';
        assert len == cut;
        if len > 1 && buf[len - 1] == '/' { len := len - 1; }
        NonEmptyRender(init);
        assert init == [] ==> Joined(init) == "";
      }
      return true, buf[..len];
    }
    RenderPush(stack, c);
    r := if |buf| > 1 then buf + "/" else buf;
    ok := |r| <= MAX_CANONICAL_PATH && |r| + |c| <= MAX_CANONICAL_PATH;
    r := r + c;
  }

  /** Only the empty stack renders as a single slash. */
  lemma NonEmptyRender(stack: seq<string>)
    requires AllPlain(stack)
    ensures |Render(stack)| > 1 <==> stack != []
    ensures stack != [] ==> |Joined(stack)| > 1
  {
    if stack != [] { assert Plain(stack[|stack| - 1]); }
  }

  method SkipSlashes(s: string, start: nat) returns (p: nat)
    requires start <= |s|
    ensures start <= p <= |s| && (p < |s| ==> s[p] != '/')
    ensures Components(s, p) == Components(s, start)
  {
    p := start;
    while p < |s| && s[p] == '/'
      invariant start <= p <= |s| && Components(s, p) == Components(s, start)
    {
      p := p + 1;
    }
  }

  lemma FoldWord(stack: seq<string>, c: string, rest: seq<string>)
    ensures Fold(stack, [c] + rest) ==
            if |Render(Apply(stack, c))| > MAX_CANONICAL_PATH then None else Fold(Apply(stack, c), rest)
  {
    assert ([c] + rest)[1..] == rest;
  }

  /** Pushes the components of a path one after another. */
  method Scan(buf: string, s: string, ghost stack: seq<string>) returns (ok: bool, r: string)
    requires buf == Render(stack) && AllPlain(stack) && |buf| <= MAX_CANONICAL_PATH
    ensures ok <==> Fold(stack, Components(s, 0)).Some?
    ensures ok ==> r == Render(Fold(stack, Components(s, 0)).value)
    ensures ok ==> |r| <= MAX_CANONICAL_PATH
  {
    r, ok := buf, true;
    var p := 0;
    ghost var st := stack;
    while p < |s|
      invariant ok && p <= |s| && r == Render(st) && AllPlain(st) && |r| <= MAX_CANONICAL_PATH
      invariant Fold(stack, Components(s, 0)) == Fold(st, Components(s, p))
      decreases |s| - p
    {
      p := SkipSlashes(s, p);
      var e := WordEnd(s, p);
      FoldWord(st, s[p..e], Components(s, e));
      ApplyPlain(st, s[p..e]);
      ok, r := PushComponent(r, s[p..e], st);
      if !ok { return; }
      st, p := Apply(st, s[p..e]), e;
    }
  }

  // ---------------------------------------------------------------- canonical paths

  /** What a path means to a caller in a given directory. */
  function Canonical(cwd: string, path: string): Option<seq<string>> {
    if path == "" then None
    else if path[0] == '/' then Fold([], Components(path, 0))
    else
      match Fold([], Components(if cwd == "" then "/" else cwd, 0))
      case None => None
      case Some(stack) => Fold(stack, Components(path, 0))
  }

  /** Editing the buffer computes the stack of components, and fails exactly when that gets too long. */
  method Canonicalize(cwd: string, path: string) returns (r: Option<string>)
    ensures r == match Canonical(cwd, path) case None => None case Some(stack) => Some(Render(stack))
  {
    if path == "" { return None; }
    var ok, out := true, "/";
    ghost var stack: seq<string> := [];
    if path[0] != '/' {
      var base := if cwd == "" then "/" else cwd;
      ok, out := Scan(out, base, []);
      if !ok { return None; }
      stack := Fold([], Components(base, 0)).value;
      ComponentsAreWords(base, 0);
      FoldIsPlain([], Components(base, 0));
    }
    ok, out := Scan(out, path, stack);
    return if ok then Some(out) else None;
  }

  lemma CanonicalIsPlain(cwd: string, path: string)
    ensures Canonical(cwd, path).Some? ==> AllPlain(Canonical(cwd, path).value)
  {
    var base := if cwd == "" then "/" else cwd;
    ComponentsAreWords(base, 0);
    ComponentsAreWords(path, 0);
    FoldIsPlain([], Components(base, 0));
    if path != "" && path[0] != '/' && Fold([], Components(base, 0)).Some? {
      FoldIsPlain(Fold([], Components(base, 0)).value, Components(path, 0));
    } else {
      FoldIsPlain([], Components(path, 0));
    }
  }

  lemma {:induction false} WordEndAppend(a: string, c: string, p: nat)
    requires p <= |a| && '/' !in c
    ensures WordEnd(a + "/" + c, p) == WordEnd(a, p)
    decreases |a| - p
  {
    if p < |a| && a[p] != '/' { WordEndAppend(a, c, p + 1); }
  }

  lemma {:induction false} LastWord(s: string, p: nat)
    requires p <= |s| && forall i :: p <= i < |s| ==> s[i] != '/'
    ensures WordEnd(s, p) == |s|
    decreases |s| - p
  {
    if p < |s| { LastWord(s, p + 1); }
  }

  lemma {:induction false} ComponentsAppend(a: string, c: string, p: nat)
    requires Word(c) && p <= |a|
    ensures Components(a + "/" + c, p) == Components(a, p) + [c]
    decreases |a| - p
  {
    var s := a + "/" + c;
    if p == |a| {
      LastWord(s, p + 1);
      assert s[p + 1..|s|] == c && s[p + 1] in c;
      assert Components(s, p + 1) == [c] + Components(s, |s|);
    } else if a[p] == '/' {
      ComponentsAppend(a, c, p + 1);
    } else {
      var e := WordEnd(a, p);
      WordEndAppend(a, c, p);
      assert s[p..e] == a[p..e];
      ComponentsAppend(a, c, e);
    }
  }

  /** Splitting the path of a stack gives the stack back: no empty, "." or ".." components. */
  lemma {:induction false} ComponentsOfRender(stack: seq<string>)
    requires AllPlain(stack)
    ensures Components(Render(stack), 0) == stack && Render(stack)[0] == '/'
  {
    if stack != [] {
      var init, last := stack[..|stack| - 1], stack[|stack| - 1];
      assert Plain(last) && stack == init + [last];
      ComponentsOfRender(init);
      ComponentsAppend(Joined(init), last, 0);
    }
  }

  lemma {:induction false} RenderGrows(a: seq<string>, b: seq<string>)
    ensures |Joined(a)| <= |Joined(a + b)|
    decreases |b|
  {
    if b == [] {
      assert a + b == a;
    } else {
      RenderPush(a, b[0]);
      RenderGrows(a + [b[0]], b[1..]);
      assert a + [b[0]] + b[1..] == a + b;
    }
  }

  lemma {:induction false} FoldPushes(base: seq<string>, stack: seq<string>)
    requires AllPlain(base) && AllPlain(stack) && |Render(base + stack)| <= MAX_CANONICAL_PATH
    ensures Fold(base, stack) == Some(base + stack)
    decreases |stack|
  {
    if stack == [] {
      assert base + stack == base;
    } else {
      assert Plain(stack[0]);
      RenderGrows(base + [stack[0]], stack[1..]);
      assert base + [stack[0]] + stack[1..] == base + stack;
      FoldPushes(base + [stack[0]], stack[1..]);
    }
  }

  /** Canonical paths are at most 4096 characters long. */
  lemma {:induction false} FoldFits(stack: seq<string>, comps: seq<string>)
    requires |Render(stack)| <= MAX_CANONICAL_PATH
    ensures Fold(stack, comps).Some? ==> |Render(Fold(stack, comps).value)| <= MAX_CANONICAL_PATH
    decreases |comps|
  {
    if comps != [] && |Render(Apply(stack, comps[0]))| <= MAX_CANONICAL_PATH {
      FoldFits(Apply(stack, comps[0]), comps[1..]);
    }
  }

  /** Canonicalizing a canonical path changes nothing, whatever the directory. */
  lemma CanonicalIsIdempotent(cwd: string, path: string, other: string)
    requires Canonical(cwd, path).Some?
    ensures Canonical(other, Render(Canonical(cwd, path).value)) == Canonical(cwd, path)
  {
    var stack := Canonical(cwd, path).value;
    CanonicalIsPlain(cwd, path);
    var base := Fold([], Components(if cwd == "" then "/" else cwd, 0));
    FoldFits([], Components(if cwd == "" then "/" else cwd, 0));
    if path[0] == '/' { FoldFits([], Components(path, 0)); } else { FoldFits(base.value, Components(path, 0)); }
    ComponentsOfRender(stack);
    assert [] + stack == stack;
    FoldPushes([], stack);
  }

  // ---------------------------------------------------------------- walking the tree

  type Node = nat

  /** The children and parents of the nodes that are attached to the tree. */
  datatype Tree = Tree(root: Node, child: map<(Node, string), Node>, parent: map<Node, Node>)

  ghost predicate Attached(t: Tree) {
    && t.root !in t.parent
    && forall n, c :: (n, c) in t.child ==> t.child[(n, c)] in t.parent && t.parent[t.child[(n, c)]] == n
  }

  /** One component of a walk. */
  function Enter(t: Tree, n: Node, c: string): Option<Node> {
    if |c| > MAX_COMPONENT then None
    else if IsDot(c) then Some(n)
    else if IsDotDot(c) then Some(if n in t.parent then t.parent[n] else n)
    else if (n, c) in t.child then Some(t.child[(n, c)])
    else None
  }

  function Follow(t: Tree, n: Node, comps: seq<string>): Option<Node>
    decreases |comps|
  {
    if comps == [] then Some(n)
    else
      match Enter(t, n, comps[0])
      case None => None
      case Some(m) => Follow(t, m, comps[1..])
  }

  lemma FollowWord(t: Tree, n: Node, c: string, rest: seq<string>)
    ensures Follow(t, n, [c] + rest) == match Enter(t, n, c) case None => None case Some(m) => Follow(t, m, rest)
  {
    assert ([c] + rest)[1..] == rest;
  }

  /** Walking a path from a node visits its components in turn. */
  method TraverseRelative(t: Tree, start: Node, path: string, from: nat) returns (r: Option<Node>)
    requires from <= |path|
    ensures r == Follow(t, start, Components(path, from))
  {
    var curr, p := start, from;
    while p < |path|
      invariant p <= |path| && Follow(t, start, Components(path, from)) == Follow(t, curr, Components(path, p))
      decreases |path| - p
    {
      p := SkipSlashes(path, p);
      if p == |path| { break; }
      var e := WordEnd(path, p);
      FollowWord(t, curr, path[p..e], Components(path, e));
      var next := Enter(t, curr, path[p..e]);
      if next.None? { return None; }
      curr, p := next.value, e;
    }
    return Some(curr);
  }

  /** An absolute path is walked from the root, any other from the current directory. */
  method OpenAt(t: Tree, cwd: Node, path: string) returns (r: Option<Node>)
    ensures r == if path == "" then None
                 else Follow(t, if path[0] == '/' then t.root else cwd, Components(path, 0))
  {
    if path == "" { return None; }
    if path[0] == '/' {
      r := TraverseRelative(t, t.root, path, 1);
    } else {
      r := TraverseRelative(t, cwd, path, 0);
    }
  }

  lemma {:induction false} FollowPush(t: Tree, n: Node, stack: seq<string>, c: string)
    ensures Follow(t, n, stack + [c]) == match Follow(t, n, stack) case None => None case Some(m) => Enter(t, m, c)
    decreases |stack|
  {
    if stack == [] {
      assert stack + [c] == [c];
    } else {
      assert (stack + [c])[0] == stack[0] && (stack + [c])[1..] == stack[1..] + [c];
      match Enter(t, n, stack[0])
      case None =>
      case Some(m) => FollowPush(t, m, stack[1..], c);
    }
  }

  /** One component moves the walk and the stack in step, ".." included. */
  lemma StepAgrees(t: Tree, n: Node, stack: seq<string>, c: string)
    requires Attached(t) && AllPlain(stack) && Follow(t, t.root, stack) == Some(n) && Word(c)
    requires Enter(t, n, c).Some?
    ensures Follow(t, t.root, Apply(stack, c)) == Enter(t, n, c)
  {
    if IsDotDot(c) {
      if stack != [] {
        var init, last := stack[..|stack| - 1], stack[|stack| - 1];
        assert Plain(last) && stack == init + [last];
        FollowPush(t, t.root, init, last);
      }
    } else if !IsDot(c) {
      FollowPush(t, t.root, stack, c);
    }
  }

  /**
   Two routes agree: if walking from the current directory succeeds, then walking the canonical path
   from the root reaches the same node.
   */
  lemma {:induction false} RoutesAgree(t: Tree, n: Node, stack: seq<string>, comps: seq<string>)
    requires Attached(t) && AllPlain(stack) && Follow(t, t.root, stack) == Some(n)
    requires forall i :: 0 <= i < |comps| ==> Word(comps[i])
    requires Fold(stack, comps).Some? && Follow(t, n, comps).Some?
    ensures Follow(t, t.root, Fold(stack, comps).value) == Follow(t, n, comps)
    decreases |comps|
  {
    if comps != [] {
      assert Word(comps[0]);
      StepAgrees(t, n, stack, comps[0]);
      ApplyPlain(stack, comps[0]);
      RoutesAgree(t, Enter(t, n, comps[0]).value, Apply(stack, comps[0]), comps[1..]);
    }
  }

  // ---------------------------------------------------------------- the current directory

  /** The canonical path `path` leads to the directory `n`. */
  ghost predicate InStep(t: Tree, n: Node, path: string) {
    exists stack :: AllPlain(stack) && path == Render(stack) && |path| <= MAX_CANONICAL_PATH
                    && Follow(t, t.root, stack) == Some(n)
  }

  /** A path that can be opened has a canonical form that leads to the same node. */
  lemma OpenedIsInStep(t: Tree, cwd: Node, cwdPath: string, path: string)
    requires Attached(t) && InStep(t, cwd, cwdPath) && Canonical(cwdPath, path).Some?
    requires Follow(t, if path[0] == '/' then t.root else cwd, Components(path, 0)).Some?
    ensures InStep(t, Follow(t, if path[0] == '/' then t.root else cwd, Components(path, 0)).value,
                   Render(Canonical(cwdPath, path).value))
  {
    var stack :| AllPlain(stack) && cwdPath == Render(stack) && |cwdPath| <= MAX_CANONICAL_PATH
                 && Follow(t, t.root, stack) == Some(cwd);
    ComponentsOfRender(stack);
    assert [] + stack == stack;
    FoldPushes([], stack);
    ComponentsAreWords(path, 0);
    var base, from := if path[0] == '/' then [] else stack, if path[0] == '/' then t.root else cwd;
    RoutesAgree(t, from, base, Components(path, 0));
    FoldIsPlain(base, Components(path, 0));
    FoldFits(base, Components(path, 0));
  }

  /** The part of a task that says where it is. */
  class Process {
    var cwd: Node
    var cwdPath: string

    constructor (t: Tree)
      ensures cwd == t.root && cwdPath == "/" && InStep(t, cwd, cwdPath)
    {
      cwd, cwdPath := t.root, "/";
      new;
      assert AllPlain([]) && Render([]) == "/" && Follow(t, t.root, []) == Some(t.root);
    }

    /** Changing directory succeeds iff the path fits and names a directory, and keeps both fields in step. */
    method Chdir(t: Tree, directories: set<Node>, path: string) returns (ok: bool)
      requires Attached(t) && InStep(t, cwd, cwdPath)
      modifies this
      ensures InStep(t, cwd, cwdPath)
      ensures ok <==> && Canonical(old(cwdPath), path).Some?
                      && var to := Follow(t, if path[0] == '/' then t.root else old(cwd), Components(path, 0));
                         to.Some? && to.value in directories
      ensures ok ==> cwdPath == Render(Canonical(old(cwdPath), path).value)
                     && Some(cwd) == Follow(t, if path[0] == '/' then t.root else old(cwd), Components(path, 0))
      ensures !ok ==> cwd == old(cwd) && cwdPath == old(cwdPath)
    {
      var canonical := Canonicalize(cwdPath, path);
      if canonical.None? { return false; }
      var node := OpenAt(t, cwd, path);
      if node.None? || node.value !in directories { return false; }
      OpenedIsInStep(t, cwd, cwdPath, path);
      cwd, cwdPath := node.value, canonical.value;
      return true;
    }
  }
}
