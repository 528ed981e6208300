/** What the path resolver computes, without its buffer and without its cache.

    `Resolve` and `Body` follow the source's recursion from the right end of the path.
    `Normal` is the independent reading of a path: split it at the slashes and run the
    components, left to right, over a stack.  `Lexical` proves that the two agree. */
module PathSpec {
  import opened Wrappers

  const MAX_PATH_LEN: int := 4096
  const LINK_MAX: int := 32

  /** CWD_EXPAND, CWD_FILEPATH and CWD_REALPATH */
  datatype Mode = Expand | FilePath | RealPath

  /** What lstat and readlink say about a path */
  datatype Node = Missing | Plain(isDir: bool) | SymLink(target: string) | BrokenLink

  /** The file system, fixed while paths are resolved, and the application roots */
  datatype Env = Env(lstat: string -> Node, roots: seq<string>)

  /** stat follows links, so in the Unix build no answer is ever a link */
  ghost predicate LinkFree(e: Env) {
    forall s :: !e.lstat(s).SymLink? && !e.lstat(s).BrokenLink?
  }

  ghost predicate TargetsFit(e: Env) {
    forall s :: e.lstat(s).SymLink? ==> |e.lstat(s).target| < MAX_PATH_LEN
  }

  predicate IsAbsolute(s: string) {
    |s| > 0 && s[0] == '/'
  }

  ghost predicate RootsAbsolute(e: Env) {
    forall r :: r in e.roots ==> IsAbsolute(r)
  }

  function Root(start: nat): string {
    if start == 1 then "/" else ""
  }

  // ---------- The recursion from the right ----------

  /** Where the last component of `s` starts */
  function CompStart(s: string, start: nat): (i: nat)
    requires start <= |s|
    ensures start <= i <= |s|
    ensures i == start || s[i - 1] == '/'
    ensures forall k :: i <= k < |s| ==> s[k] != '/'
  {
    if |s| == start || s[|s| - 1] == '/' then |s| else CompStart(s[..|s| - 1], start)
  }

  lemma {:induction false} CompStartUnique(s: string, start: nat, i: nat)
    requires start <= i <= |s|
    requires i == start || s[i - 1] == '/'
    requires forall k :: i <= k < |s| ==> s[k] != '/'
    ensures CompStart(s, start) == i
  {
  }

  /** strncmp(root, path, len) == 0: the path is a prefix of the root, not the other way round */
  predicate OnRoot(roots: seq<string>, s: string) {
    exists k :: 0 <= k < |roots| && s <= roots[k]
  }

  function Append(p: string, start: nat, name: string): string {
    if |p| > start then p + "/" + name else p + name
  }

  /** What '..' does to an already resolved directory */
  function DropLast(p: string, start: nat): string
    requires start <= |p|
  {
    if |p| == start then
      if start == 0 then ".." else p
    else
      var k := CompStart(p, start);
      if start == 0 && p[k..] == ".." then p + "/.."
      else if k > start then p[..k - 1]
      else p[..start]
  }

  function Leave(r: Option<string>, start: nat): Option<string>
    requires r.Some? ==> start <= |r.value|
  {
    if r.None? then None else Some(DropLast(r.value, start))
  }

  function Enter(r: Option<string>, start: nat, name: string): Option<string> {
    if r.None? then None else Some(Append(r.value, start, name))
  }

  /** Expanding never looks at the file system */
  function Look(e: Env, s: string, mode: Mode): Node {
    if mode.Expand? then Missing else e.lstat(s)
  }

  /** A missing file is only fatal to realpath; a file is fatal where a directory is needed */
  predicate Rejected(e: Env, s: string, mode: Mode, isDir: bool) {
    var node := Look(e, s, mode);
    if node.Missing? then mode.RealPath? else isDir && node != Plain(true)
  }

  /** Once a file was found, its directories may be inaccessible */
  function ParentMode(e: Env, s: string, mode: Mode): Mode {
    if Look(e, s, mode).Missing? then mode else FilePath
  }

  function Resolve(e: Env, s: string, start: nat, mode: Mode, isDir: bool): (r: Option<string>)
    requires start <= 1
    ensures r.Some? ==> start <= |r.value|
    decreases |s|, 1
  {
    if start < |s| && OnRoot(e.roots, s) then Some(s) else Body(e, s, start, mode, isDir)
  }

  /** Resolution once the early exit on application roots has been passed */
  function Body(e: Env, s: string, start: nat, mode: Mode, isDir: bool): (r: Option<string>)
    requires start <= 1
    ensures r.Some? ==> start <= |r.value|
    decreases |s|, 0
  {
    if |s| <= start then Some(Root(start)) else
    var i := CompStart(s, start);
    var name := s[i..];
    if name == "" || name == "." then
      if i == 0 then Some(Root(start)) else Body(e, s[..i - 1], start, mode, true)
    else if name == ".." then
      if i <= start + 1 then Some(if start == 1 then "/" else "..")
      else Leave(Resolve(e, s[..i - 1], start, mode, true), start)
    else if Rejected(e, s, mode, isDir) then None
    else if i <= start + 1 then Some(Append(Root(start), start, name))
    else Enter(Resolve(e, s[..i - 1], start, ParentMode(e, s, mode), true), start, name)
  }

  predicate IsName(c: string) {
    c != "" && c != "." && c != ".."
  }

  lemma {:induction false} BodyOfDot(e: Env, s: string, start: nat, mode: Mode, isDir: bool)
    requires start <= 1 && start < |s| && CompStart(s, start) > 0
    requires s[CompStart(s, start)..] == "" || s[CompStart(s, start)..] == "."
    ensures Body(e, s, start, mode, isDir) == Body(e, s[..CompStart(s, start) - 1], start, mode, true)
  {
  }

  lemma {:induction false} BodyOfDotDot(e: Env, s: string, start: nat, mode: Mode, isDir: bool)
    requires start <= 1 && start < |s| && s[CompStart(s, start)..] == ".."
    ensures
      var i := CompStart(s, start);
      Body(e, s, start, mode, isDir) ==
        if i <= start + 1 then Some(if start == 1 then "/" else "..")
        else Leave(Resolve(e, s[..i - 1], start, mode, true), start)
  {
  }

  lemma {:induction false} BodyOfName(e: Env, s: string, start: nat, mode: Mode, isDir: bool)
    requires start <= 1 && start < |s| && IsName(s[CompStart(s, start)..])
    ensures
      var i := CompStart(s, start);
      Body(e, s, start, mode, isDir) ==
        if Rejected(e, s, mode, isDir) then None else Parented(e, s, i, start, ParentMode(e, s, mode))
  {
  }

  /** The last component of `s` put behind its resolved parent */
  function Parented(e: Env, s: string, i: nat, start: nat, mode: Mode): Option<string>
    requires start <= 1 && i <= |s| && start <= i
  {
    if i <= start + 1 then Some(Append(Root(start), start, s[i..]))
    else Enter(Resolve(e, s[..i - 1], start, mode, true), start, s[i..])
  }

  // ---------- The reading from the left ----------

  function Split(s: string): (cs: seq<string>)
    ensures |cs| > 0
  {
    if s == "" then [""]
    else
      var rest := Split(s[1..]);
      if s[0] == '/' then [""] + rest else [[s[0]] + rest[0]] + rest[1..]
  }

  function Join(cs: seq<string>): string {
    if cs == [] then ""
    else if |cs| == 1 then cs[0]
    else Join(cs[..|cs| - 1]) + "/" + cs[|cs| - 1]
  }

  function Step(stack: seq<string>, c: string, start: nat): seq<string> {
    if c == "" || c == "." then stack
    else if c == ".." then
      if stack != [] && stack[|stack| - 1] != ".." then stack[..|stack| - 1]
      else if start == 1 then stack
      else stack + [".."]
    else stack + [c]
  }

  function Walk(stack: seq<string>, cs: seq<string>, start: nat): seq<string>
    decreases |cs|
  {
    if cs == [] then stack else Walk(Step(stack, cs[0], start), cs[1..], start)
  }

  function Render(stack: seq<string>, start: nat): string {
    Root(start) + Join(stack)
  }

  /** The normal form of a path: '..' at the root is absorbed, a leading '..' of a relative path is kept */
  function Normal(s: string, start: nat): string {
    Render(Walk([], Split(s), start), start)
  }

  predicate Proper(c: string) {
    c != "" && c != "." && '/' !in c
  }

  /** The stacks a walk can reach */
  predicate Canonical(stack: seq<string>, start: nat) {
    && (forall i :: 0 <= i < |stack| ==> Proper(stack[i]))
    && (forall i :: 0 <= i < |stack| && stack[i] == ".." ==> start != 1 && forall k :: 0 <= k < i ==> stack[k] == "..")
  }

  // ---------- Lemmas about the reading from the left ----------

  lemma {:induction false} SplitPlain(c: string)
    requires '/' !in c
    ensures Split(c) == [c]
  {
    if c != "" {
      assert '/' !in c[1..];
      SplitPlain(c[1..]);
      assert [c[0]] + c[1..] == c;
    }
  }

  lemma {:induction false} SplitFirst(s: string)
    requires s != ""
    ensures Split(s) == Cons(s[0], Split(s[1..]))
  {
  }

  /** A character in front of a path that is already split */
  function Cons(c: char, rest: seq<string>): seq<string>
    requires rest != []
  {
    if c == '/' then [""] + rest else [[c] + rest[0]] + rest[1..]
  }

  lemma {:induction false} ConsConcat(c: char, rest: seq<string>, more: seq<string>)
    requires rest != []
    ensures Cons(c, rest + more) == Cons(c, rest) + more
  {
    assert (rest + more)[0] == rest[0] && (rest + more)[1..] == rest[1..] + more;
  }

  lemma {:induction false} SplitConcat(a: string, b: string)
    ensures Split(a + "/" + b) == Split(a) + Split(b)
    decreases |a|
  {
    var s := a + "/" + b;
    SplitFirst(s);
    if a == "" {
      assert s[1..] == b;
    } else {
      assert s[1..] == a[1..] + "/" + b;
      SplitConcat(a[1..], b);
      SplitFirst(a);
      ConsConcat(a[0], Split(a[1..]), Split(b));
    }
  }

  lemma {:induction false} SplitSnoc(a: string, c: string)
    requires '/' !in c
    ensures Split(a + "/" + c) == Split(a) + [c]
  {
    SplitConcat(a, c);
    SplitPlain(c);
  }

  lemma {:induction false} WalkConcat(stack: seq<string>, a: seq<string>, b: seq<string>, start: nat)
    ensures Walk(stack, a + b, start) == Walk(Walk(stack, a, start), b, start)
    decreases |a|
  {
    if a == [] {
      assert a + b == b;
    } else {
      assert (a + b)[1..] == a[1..] + b;
      WalkConcat(Step(stack, a[0], start), a[1..], b, start);
    }
  }

  lemma {:induction false} WalkSnoc(stack: seq<string>, a: seq<string>, c: string, start: nat)
    ensures Walk(stack, a + [c], start) == Step(Walk(stack, a, start), c, start)
  {
    WalkConcat(stack, a, [c], start);
  }

  lemma {:induction false} SplitHasNoSlash(s: string)
    ensures forall c :: c in Split(s) ==> '/' !in c
  {
    if s != "" {
      SplitHasNoSlash(s[1..]);
      var rest := Split(s[1..]);
      assert rest[0] in rest;
      assert forall c :: c in rest[1..] ==> c in rest;
    }
  }

  lemma {:induction false} WalkCanonical(stack: seq<string>, cs: seq<string>, start: nat)
    requires Canonical(stack, start)
    requires forall c :: c in cs ==> '/' !in c
    ensures Canonical(Walk(stack, cs, start), start)
    decreases |cs|
  {
    if cs != [] {
      assert cs[0] in cs;
      assert Canonical(Step(stack, cs[0], start), start);
      WalkCanonical(Step(stack, cs[0], start), cs[1..], start);
    }
  }

  lemma {:induction false} NormalCanonical(s: string, start: nat)
    ensures Canonical(Walk([], Split(s), start), start)
  {
    SplitHasNoSlash(s);
    WalkCanonical([], Split(s), start);
  }

  /** A canonical stack is read back from its own rendering */
  lemma {:induction false} WalkJoin(stack: seq<string>, start: nat)
    requires Canonical(stack, start)
    ensures Walk([], Split(Join(stack)), start) == stack
  {
    if stack == [] {
      assert Split("") == [""];
      assert Walk([], [""], start) == Walk([], [], start);
    } else if |stack| == 1 {
      SplitPlain(stack[0]);
      WalkSnoc([], [], stack[0], start);
      assert [] + [stack[0]] == [stack[0]];
    } else {
      var front, c := stack[..|stack| - 1], stack[|stack| - 1];
      WalkJoin(front, start);
      SplitSnoc(Join(front), c);
      WalkSnoc([], Split(Join(front)), c, start);
      StepCanonical(stack, start);
    }
  }

  lemma {:induction false} StepCanonical(stack: seq<string>, start: nat)
    requires Canonical(stack, start) && |stack| > 1
    ensures Step(stack[..|stack| - 1], stack[|stack| - 1], start) == stack
    ensures '/' !in stack[|stack| - 1]
  {
  }

  lemma {:induction false} WalkRender(stack: seq<string>, start: nat)
    requires start <= 1 && Canonical(stack, start)
    ensures Walk([], Split(Render(stack, start)), start) == stack
  {
    WalkJoin(stack, start);
    if start == 1 {
      var s := Render(stack, 1);
      assert s[1..] == Join(stack);
      assert Split(s) == [""] + Split(Join(stack));
      assert Step([], "", 1) == [];
      assert ([""] + Split(Join(stack)))[1..] == Split(Join(stack));
    } else {
      assert Render(stack, start) == Join(stack);
    }
  }

  /** Normalising twice changes nothing */
  lemma {:induction false} NormalIdempotent(s: string, start: nat)
    requires start <= 1
    ensures Normal(Normal(s, start), start) == Normal(s, start)
  {
    NormalCanonical(s, start);
    WalkRender(Walk([], Split(s), start), start);
  }

  /** The last component of a rendering is the top of the stack */
  lemma {:induction false} RenderTop(stack: seq<string>, start: nat)
    requires start <= 1 && Canonical(stack, start) && stack != []
    ensures
      var p, c := Render(stack, start), stack[|stack| - 1];
      && |p| >= start + |c|
      && CompStart(p, start) == |p| - |c|
      && p[|p| - |c|..] == c
      && (|stack| == 1 ==> |p| == start + |c|)
      && (|stack| > 1 ==> |p| > start + |c| && p[..|p| - |c| - 1] == Render(stack[..|stack| - 1], start))
  {
    var c := stack[|stack| - 1];
    assert Proper(c);
    if |stack| == 1 {
      assert Render(stack, start) == Root(start) + c;
      CompStartUnique(Root(start) + c, start, start);
    } else {
      var front := stack[..|stack| - 1];
      assert front + [c] == stack && Proper(stack[|stack| - 2]);
      RenderSnoc(front, c, start);
      JoinNonEmpty(front);
      LastComponent(Render(front, start), c, start);
    }
  }

  lemma {:induction false} RenderSnoc(front: seq<string>, c: string, start: nat)
    requires front != []
    ensures Render(front + [c], start) == Render(front, start) + "/" + c
  {
    assert (front + [c])[..|front|] == front;
    assert Root(start) + (Join(front) + "/" + c) == Root(start) + Join(front) + "/" + c;
  }

  lemma {:induction false} LastComponent(q: string, c: string, start: nat)
    requires start <= |q| && '/' !in c
    ensures
      var p := q + "/" + c;
      && CompStart(p, start) == |q| + 1 == |p| - |c|
      && p[|q| + 1..] == c && p[..|q|] == q
  {
    CompStartUnique(q + "/" + c, start, |q| + 1);
  }

  lemma {:induction false} JoinNonEmpty(stack: seq<string>)
    requires stack != [] && Proper(stack[|stack| - 1])
    ensures |Join(stack)| > 0
  {
  }

  /** Removing the last component of a rendering is what '..' does to the stack */
  lemma {:induction false} DropLastRender(stack: seq<string>, start: nat)
    requires start <= 1 && Canonical(stack, start)
    ensures DropLast(Render(stack, start), start) == Render(Step(stack, "..", start), start)
  {
    if stack == [] {
      DropLastEmpty(start);
    } else if stack[|stack| - 1] == ".." {
      DropLastDots(stack);
    } else {
      DropLastCut(stack, start);
    }
  }

  lemma {:induction false} DropLastEmpty(start: nat)
    requires start <= 1
    ensures DropLast(Render([], start), start) == Render(Step([], "..", start), start)
  {
  }

  lemma {:induction false} DropLastDots(stack: seq<string>)
    requires Canonical(stack, 0) && stack != [] && stack[|stack| - 1] == ".."
    ensures DropLast(Render(stack, 0), 0) == Render(stack + [".."], 0)
  {
    var p := Render(stack, 0);
    RenderTop(stack, 0);
    assert DropLast(p, 0) == p + "/..";
    assert (stack + [".."])[..|stack|] == stack;
    assert Join(stack + [".."]) == Join(stack) + "/" + "..";
    assert Render(stack + [".."], 0) == p + "/..";
  }

  lemma {:induction false} DropLastCut(stack: seq<string>, start: nat)
    requires start <= 1 && Canonical(stack, start) && stack != [] && stack[|stack| - 1] != ".."
    ensures DropLast(Render(stack, start), start) == Render(stack[..|stack| - 1], start)
  {
    var p, c := Render(stack, start), stack[|stack| - 1];
    RenderTop(stack, start);
    assert Proper(c);
    if |stack| == 1 {
      assert stack[..0] == [];
      assert p[..start] == Root(start);
    }
  }

  lemma {:induction false} AppendRender(stack: seq<string>, start: nat, name: string)
    requires start <= 1 && Canonical(stack, start) && Proper(name)
    ensures Append(Render(stack, start), start, name) == Render(stack + [name], start)
  {
    if stack == [] {
      assert stack + [name] == [name];
    } else {
      JoinNonEmpty(stack);
      RenderSnoc(stack, name, start);
    }
  }

  // ---------- The refinement ----------

  /** No application root can match: there are none, or the path is relative and they are not */
  ghost predicate OffRoots(e: Env, start: nat) {
    e.roots == [] || (start == 0 && RootsAbsolute(e))
  }

  /** An absolute application root is never a prefix match for a relative path */
  lemma {:induction false} RelativeOffRoots(e: Env, s: string)
    requires RootsAbsolute(e) && !IsAbsolute(s) && s != ""
    ensures !OnRoot(e.roots, s)
  {
    forall k | 0 <= k < |e.roots| ensures !(s <= e.roots[k]) {
      assert e.roots[k] in e.roots;
    }
  }

  lemma {:induction false} OffRootsIsBody(e: Env, s: string, start: nat, mode: Mode, isDir: bool)
    requires start <= 1 && OffRoots(e, start)
    requires s != "" ==> (start == 1 <==> s[0] == '/')
    ensures Resolve(e, s, start, mode, isDir) == Body(e, s, start, mode, isDir)
  {
    if e.roots != [] && s != "" {
      RelativeOffRoots(e, s);
    }
  }

  ghost predicate Agrees(e: Env, s: string, start: nat, mode: Mode, isDir: bool)
    requires start <= 1
  {
    var r := Body(e, s, start, mode, isDir);
    && (r.Some? ==> r.value == Normal(s, start))
    && (mode.Expand? ==> r.Some?)
  }

  /** The recursion from the right, in any mode and whatever the file system says, either fails
      or returns the component-stack normal form; and expanding never fails.  Without application
      roots this covers every path, with them it covers the relative ones. */
  lemma {:induction false} Lexical(e: Env, s: string, start: nat, mode: Mode, isDir: bool)
    requires start <= 1 && OffRoots(e, start)
    requires s != "" ==> (start == 1 <==> s[0] == '/')
    ensures Resolve(e, s, start, mode, isDir) == Body(e, s, start, mode, isDir)
    ensures Body(e, s, start, mode, isDir).Some? ==> Body(e, s, start, mode, isDir).value == Normal(s, start)
    ensures mode.Expand? ==> Body(e, s, start, mode, isDir).Some?
    decreases |s|
  {
    OffRootsIsBody(e, s, start, mode, isDir);
    if |s| <= start {
      NormalOfShort(s, start);
    } else {
      var i := CompStart(s, start);
      if i == 0 {
        LexicalSingle(e, s, mode, isDir);
      } else {
        var a := s[..i - 1];
        assert start == 1 && a != "" ==> a[0] == '/';
        Lexical(e, a, start, mode, true);
        Lexical(e, a, start, FilePath, true);
        LexicalLonger(e, s, start, mode, isDir, i);
      }
    }
  }

  lemma {:induction false} LexicalLonger(e: Env, s: string, start: nat, mode: Mode, isDir: bool, i: nat)
    requires start <= 1 && OffRoots(e, start)
    requires start < |s| && 0 < i == CompStart(s, start)
    requires start == 1 <==> s[0] == '/'
    requires Agrees(e, s[..i - 1], start, mode, true) && Agrees(e, s[..i - 1], start, FilePath, true)
    ensures Agrees(e, s, start, mode, isDir)
  {
    var name := s[i..];
    if name == "" || name == "." {
      NormalSnoc(s, start, i);
      BodyOfDot(e, s, start, mode, isDir);
    } else if name == ".." {
      LexicalDotDot(e, s, start, mode, isDir, i);
    } else {
      LexicalName(e, s, start, mode, isDir, i);
    }
  }

  lemma {:induction false} NormalSnoc(s: string, start: nat, i: nat)
    requires start <= 1 && start < |s| && 0 < i == CompStart(s, start)
    requires start == 1 <==> s[0] == '/'
    ensures Canonical(Walk([], Split(s[..i - 1]), start), start)
    ensures Walk([], Split(s), start) == Step(Walk([], Split(s[..i - 1]), start), s[i..], start)
  {
    var a, name := s[..i - 1], s[i..];
    assert s[i - 1] == '/';
    assert s == a + "/" + name;
    SplitSnoc(a, name);
    WalkSnoc([], Split(a), name, start);
    NormalCanonical(a, start);
  }

  lemma {:induction false} LexicalDotDot(e: Env, s: string, start: nat, mode: Mode, isDir: bool, i: nat)
    requires start <= 1 && OffRoots(e, start)
    requires start < |s| && 0 < i == CompStart(s, start)
    requires start == 1 <==> s[0] == '/'
    requires s[i..] == ".." && Agrees(e, s[..i - 1], start, mode, true)
    ensures Agrees(e, s, start, mode, isDir)
  {
    var a := s[..i - 1];
    var stack := Walk([], Split(a), start);
    NormalSnoc(s, start, i);
    BodyOfDotDot(e, s, start, mode, isDir);
    assert Normal(s, start) == Render(Step(stack, "..", start), start);
    if i <= start + 1 {
      ShortDirectory(s, start, i);
      assert Render([], start) == Root(start);
    } else {
      OffRootsIsBody(e, a, start, mode, true);
      DropLastRender(stack, start);
      assert Normal(a, start) == Render(stack, start);
    }
  }

  lemma {:induction false} LexicalName(e: Env, s: string, start: nat, mode: Mode, isDir: bool, i: nat)
    requires start <= 1 && OffRoots(e, start)
    requires start < |s| && 0 < i == CompStart(s, start)
    requires start == 1 <==> s[0] == '/'
    requires IsName(s[i..])
    requires Agrees(e, s[..i - 1], start, mode, true) && Agrees(e, s[..i - 1], start, FilePath, true)
    ensures Agrees(e, s, start, mode, isDir)
  {
    var a, name := s[..i - 1], s[i..];
    var stack := Walk([], Split(a), start);
    NormalSnoc(s, start, i);
    BodyOfName(e, s, start, mode, isDir);
    AppendRender(stack, start, name);
    assert Normal(s, start) == Append(Render(stack, start), start, name);
    if i <= start + 1 {
      ShortDirectory(s, start, i);
      assert Render([], start) == Root(start);
    } else {
      OffRootsIsBody(e, a, start, ParentMode(e, s, mode), true);
    }
  }

  lemma {:induction false} LexicalSingle(e: Env, s: string, mode: Mode, isDir: bool)
    requires s != "" && CompStart(s, 0) == 0
    ensures Body(e, s, 0, mode, isDir).Some? ==> Body(e, s, 0, mode, isDir) == Some(Normal(s, 0))
    ensures mode.Expand? ==> Body(e, s, 0, mode, isDir).Some?
  {
    assert s[0..] == s;
    NormalOfSingle(s);
    if s != "." && s != ".." {
      BodyOfName(e, s, 0, mode, isDir);
      assert Append("", 0, s) == s;
    }
  }

  lemma {:induction false} NormalOfSingle(s: string)
    requires s != "" && '/' !in s
    ensures Normal(s, 0) == if s == "." then "" else s
  {
    SplitPlain(s);
    assert [s][1..] == [];
    assert Walk([], [s], 0) == Walk(Step([], s, 0), [], 0) == Step([], s, 0);
    assert [] + [s] == [s];
    assert Join([s]) == s && Join([]) == "";
  }

  lemma NormalOfShort(s: string, start: nat)
    requires start <= 1 && |s| <= start
    requires s != "" ==> s[0] == '/'
    ensures Walk([], Split(s), start) == []
    ensures Normal(s, start) == Root(start)
  {
  }

  lemma {:induction false} ShortDirectory(s: string, start: nat, i: nat)
    requires start <= 1 && 0 < i <= start + 1 && i <= |s|
    requires start == 1 <==> s[0] == '/'
    requires s[i - 1] == '/'
    ensures Walk([], Split(s[..i - 1]), start) == []
  {
    assert start == 1;
    NormalOfShort(s[..i - 1], start);
  }

  ghost predicate Fits(r: Option<string>, s: string, start: nat) {
    r.Some? ==> |r.value| <= (if |s| <= start then start else |s|) && (start == 1 ==> IsAbsolute(r.value))
  }

  /** A resolved path is never longer than the path it came from, so the length check of the
      source never fires without links.  It keeps the leading slash of an absolute path. */
  lemma {:induction false} ResolveShape(e: Env, s: string, start: nat, mode: Mode, isDir: bool)
    requires start <= 1
    requires start == 1 && s != "" ==> s[0] == '/'
    ensures Fits(Body(e, s, start, mode, isDir), s, start)
    ensures Fits(Resolve(e, s, start, mode, isDir), s, start)
    decreases |s|
  {
    if |s| <= start || CompStart(s, start) == 0 {
      ShapeShort(e, s, start, mode, isDir);
    } else {
      var a := s[..CompStart(s, start) - 1];
      assert start == 1 && a != "" ==> a[0] == '/';
      ResolveShape(e, a, start, mode, true);
      ResolveShape(e, a, start, FilePath, true);
      ShapeLonger(e, s, start, mode, isDir);
    }
    BodyShapes(e, s, start, mode, isDir);
  }

  lemma {:induction false} BodyShapes(e: Env, s: string, start: nat, mode: Mode, isDir: bool)
    requires start <= 1
    requires start == 1 && s != "" ==> s[0] == '/'
    requires Fits(Body(e, s, start, mode, isDir), s, start)
    ensures Fits(Resolve(e, s, start, mode, isDir), s, start)
  {
  }

  lemma {:induction false} ShapeShort(e: Env, s: string, start: nat, mode: Mode, isDir: bool)
    requires start <= 1 && (|s| <= start || CompStart(s, start) == 0)
    ensures Fits(Body(e, s, start, mode, isDir), s, start)
  {
  }

  lemma {:induction false} ShapeLonger(e: Env, s: string, start: nat, mode: Mode, isDir: bool)
    requires start <= 1 && start < |s| && CompStart(s, start) > 0
    requires
      var a := s[..CompStart(s, start) - 1];
      && Fits(Body(e, a, start, mode, true), a, start)
      && Fits(Resolve(e, a, start, mode, true), a, start)
      && Fits(Resolve(e, a, start, FilePath, true), a, start)
    ensures Fits(Body(e, s, start, mode, isDir), s, start)
  {
    var i := CompStart(s, start);
    if s[i..] == "" || s[i..] == "." {
      BodyOfDot(e, s, start, mode, isDir);
    } else if s[i..] == ".." {
      ShapeDotDot(e, s, start, mode, isDir, i);
    } else {
      ShapeName(e, s, start, mode, isDir, i);
    }
  }

  lemma {:induction false} ShapeDotDot(e: Env, s: string, start: nat, mode: Mode, isDir: bool, i: nat)
    requires start <= 1 && start < |s| && 0 < i == CompStart(s, start)
    requires s[i..] == ".." && Fits(Resolve(e, s[..i - 1], start, mode, true), s[..i - 1], start)
    ensures Fits(Body(e, s, start, mode, isDir), s, start)
  {
  }

  lemma {:induction false} ShapeName(e: Env, s: string, start: nat, mode: Mode, isDir: bool, i: nat)
    requires start <= 1 && start < |s| && 0 < i == CompStart(s, start)
    requires IsName(s[i..])
    requires Fits(Resolve(e, s[..i - 1], start, mode, true), s[..i - 1], start)
    requires Fits(Resolve(e, s[..i - 1], start, FilePath, true), s[..i - 1], start)
    ensures Fits(Body(e, s, start, mode, isDir), s, start)
  {
  }
}
