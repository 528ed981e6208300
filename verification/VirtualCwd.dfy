/** The virtual working directory: a path is joined to it, resolved, and may become it. */
module VirtualCwd {
  import opened Wrappers
  import opened PathSpec
  import opened PathOutcome
  import opened RealpathCache
  import opened PathResolver

  // ---------- What one call computes ----------

  function JoinCwd(cwd: string, path: string): string {
    if IsAbsolute(path) || cwd == "" then path
    else if cwd[|cwd| - 1] == '/' then cwd + path
    else cwd + "/" + path
  }

  function StartOf(cwd: string, path: string): nat {
    if !IsAbsolute(path) && cwd == "" then 0 else 1
  }

  predicate TooLong(cwd: string, path: string) {
    || |path| == 0
    || |path| >= MAX_PATH_LEN - 1
    || (!IsAbsolute(path) && cwd != "" && |path| + |cwd| + 1 >= MAX_PATH_LEN - 1)
  }

  predicate EndsInSlash(s: string) {
    s != "" && s[|s| - 1] == '/'
  }

  /** An empty relative result is '.', and a trailing slash survives except under realpath */
  function Finish(r: string, start: nat, addSlash: bool): Option<string> {
    var r' := if start == 0 && r == "" then "." else r;
    if addSlash && r' != "" && !EndsInSlash(r') then
      if |r'| >= MAX_PATH_LEN - 1 then None else Some(r' + "/")
    else Some(r')
  }

  /** The path that virtual_file_ex puts into the state before the caller's check */
  function FileEx(e: Env, cwd: string, path: string, mode: Mode): Option<string> {
    if TooLong(cwd, path) then None
    else
      var full, start := JoinCwd(cwd, path), StartOf(cwd, path);
      var r := Resolve(e, full, start, mode, false);
      if r.None? then None else Finish(r.value, start, !mode.RealPath? && EndsInSlash(full))
  }

  lemma {:induction false} JoinFits(cwd: string, path: string)
    requires !TooLong(cwd, path)
    requires Anchored(cwd)
    ensures 0 < |JoinCwd(cwd, path)| < MAX_PATH_LEN - 1
    ensures StartOf(cwd, path) == 1 <==> IsAbsolute(JoinCwd(cwd, path))
  {
  }

  // ---------- What a call answers, without its steps ----------

  /** Where a path leads from a working directory */
  function Joined(cwd: string, path: string): string {
    if cwd == "" || (path != "" && path[0] == '/') then path
    else if cwd[|cwd| - 1] == '/' then cwd + path
    else cwd + "/" + path
  }

  /** The answer for a joined path: withheld by the file system, or the normal form, with a trailing
      slash kept except under realpath */
  ghost function AnswerFor(e: Env, full: string, mode: Mode): Option<string>
    requires full != ""
  {
    var start := if full[0] == '/' then 1 else 0;
    if !Passes(e, full, start, mode, false) then None
    else
      var n := Normal(full, start);
      var v := if n == "" then "." else n;
      Some(if mode != RealPath && full[|full| - 1] == '/' && v != "/" then v + "/" else v)
  }

  /** The answer of a call: a path may also be refused for its length */
  ghost function Answer(e: Env, cwd: string, path: string, mode: Mode): Option<string> {
    var full := Joined(cwd, path);
    if path == "" || |path| > 4094 || (full != path && |cwd| + |path| > 4093) then None
    else AnswerFor(e, full, mode)
  }

  /** A normal form ends in a slash only at the root */
  lemma {:induction false} NormalEnd(s: string, start: nat)
    requires start <= 1
    ensures EndsInSlash(Normal(s, start)) <==> Normal(s, start) == "/"
    ensures Normal(s, start) == Root(start) <==> Walk([], Split(s), start) == []
  {
    var stack := Walk([], Split(s), start);
    NormalCanonical(s, start);
    if stack != [] {
      var c := stack[|stack| - 1];
      assert Proper(c);
      RenderTop(stack, start);
      var n := Normal(s, start);
      assert n[|n| - 1] == n[|n| - |c|..][|c| - 1] == c[|c| - 1];
      assert c[|c| - 1] in c;
    }
  }

  lemma {:induction false} NormalShort(e: Env, s: string, start: nat)
    requires start <= 1 && s != "" && (start == 1 <==> s[0] == '/')
    ensures |Normal(s, start)| <= |s|
  {
    var bare := e.(roots := []);
    Lexical(bare, s, start, Expand, false);
    ResolveShape(bare, s, start, Expand, false);
  }

  lemma {:induction false} FinishKeepsSlash(n: string, full: string, start: nat, addSlash: bool)
    requires start <= 1 && 0 < |full| <= 4094 && |n| <= |full|
    requires EndsInSlash(n) <==> n == "/"
    requires start == 1 ==> n != ""
    ensures
      var v := if n == "" then "." else n;
      Finish(n, start, addSlash) == Some(if addSlash && v != "/" then v + "/" else v)
  {
  }

  lemma {:induction false} JoinedIs(cwd: string, path: string)
    requires Anchored(cwd)
    ensures
      var full := Joined(cwd, path);
      && (TooLong(cwd, path) <==> path == "" || |path| > 4094 || (full != path && |cwd| + |path| > 4093))
      && (path != "" ==> full != "" && JoinCwd(cwd, path) == full &&
                         StartOf(cwd, path) == if full[0] == '/' then 1 else 0)
  {
  }

  /** virtual_file_ex without application roots, in full */
  lemma {:induction false} FileExExact(e: Env, cwd: string, path: string, mode: Mode)
    requires LinkFree(e) && e.roots == [] && Anchored(cwd)
    ensures FileEx(e, cwd, path, mode) == Answer(e, cwd, path, mode)
  {
    JoinedIs(cwd, path);
    if !TooLong(cwd, path) {
      JoinFits(cwd, path);
      ResolvedAnswer(e, Joined(cwd, path), StartOf(cwd, path), mode);
    }
  }

  lemma {:induction false} ResolvedAnswer(e: Env, full: string, start: nat, mode: Mode)
    requires LinkFree(e) && e.roots == [] && 0 < |full| <= 4094 && start == if full[0] == '/' then 1 else 0
    ensures
      var r := Resolve(e, full, start, mode, false);
      AnswerFor(e, full, mode) ==
      if r.None? then None else Finish(r.value, start, !mode.RealPath? && EndsInSlash(full))
  {
    ResolvesExactly(e, full, start, mode, false);
    NormalEnd(full, start);
    NormalShort(e, full, start);
    FinishKeepsSlash(Normal(full, start), full, start, !mode.RealPath? && EndsInSlash(full));
  }

  // ---------- Resolution composes ----------

  /** Expanding is normalising, plus the trailing slash */
  lemma {:induction false} ExpandIsNormal(e: Env, cwd: string, path: string)
    requires e.roots == [] && IsAbsolute(cwd) && !TooLong(cwd, path)
    ensures
      var full := JoinCwd(cwd, path);
      var n := Normal(full, 1);
      && (EndsInSlash(n) <==> n == "/")
      && FileEx(e, cwd, path, Expand) == Some(if EndsInSlash(full) && n != "/" then n + "/" else n)
      && |FileEx(e, cwd, path, Expand).value| <= |full|
  {
    var full := JoinCwd(cwd, path);
    JoinFits(cwd, path);
    Lexical(e, full, 1, Expand, false);
    ResolveShape(e, full, 1, Expand, false);
    NormalEnd(full, 1);
    if EndsInSlash(full) && |full| > 1 {
      var a := full[..|full| - 1];
      assert full == a + "/" + "";
      SplitSnoc(a, "");
      WalkSnoc([], Split(a), "", 1);
      assert Normal(full, 1) == Normal(a, 1);
      Lexical(e, a, 1, Expand, false);
      ResolveShape(e, a, 1, Expand, false);
    }
  }

  /** Resolving p, then q against the result, is resolving p/q: trailing slash included */
  lemma {:induction false} Composes(e: Env, cwd: string, p: string, q: string)
    requires e.roots == [] && IsAbsolute(cwd)
    requires p != "" && !IsAbsolute(p) && q != "" && !IsAbsolute(q)
    requires !TooLong(cwd, p + "/" + q)
    ensures FileEx(e, cwd, p, Expand).Some?
    ensures FileEx(e, FileEx(e, cwd, p, Expand).value, q, Expand) == FileEx(e, cwd, p + "/" + q, Expand)
  {
    var pq := p + "/" + q;
    var full1 := JoinCwd(cwd, p);
    var n := Normal(full1, 1);
    JoinBoth(cwd, p, q);
    ExpandIsNormal(e, cwd, p);
    ExpandIsNormal(e, cwd, pq);
    var v := if EndsInSlash(full1) && n != "/" then n + "/" else n;
    assert FileEx(e, cwd, p, Expand) == Some(v) && |v| <= |full1|;
    JoinResult(full1, n, v, q);
    var full2 := JoinCwd(v, q);
    assert |full2| <= |v| + 1 + |q|;
    assert !TooLong(v, q);
    ExpandIsNormal(e, v, q);
    SameWalk(full1, q);
    assert Normal(full2, 1) == Normal(JoinCwd(cwd, pq), 1);
  }

  lemma {:induction false} JoinBoth(cwd: string, p: string, q: string)
    requires IsAbsolute(cwd) && p != "" && !IsAbsolute(p) && q != ""
    requires !TooLong(cwd, p + "/" + q)
    ensures !IsAbsolute(p + "/" + q) && !TooLong(cwd, p)
    ensures JoinCwd(cwd, p + "/" + q) == JoinCwd(cwd, p) + "/" + q
    ensures EndsInSlash(JoinCwd(cwd, p + "/" + q)) == EndsInSlash(q)
    ensures |JoinCwd(cwd, p)| + 1 + |q| < MAX_PATH_LEN - 1
  {
  }

  lemma {:induction false} JoinResult(full1: string, n: string, v: string, q: string)
    requires n == Normal(full1, 1) && (EndsInSlash(n) <==> n == "/")
    requires v == if EndsInSlash(full1) && n != "/" then n + "/" else n
    requires q != "" && !IsAbsolute(q)
    ensures IsAbsolute(v)
    ensures JoinCwd(v, q) == if n == "/" then "" + "/" + q else n + "/" + q
    ensures EndsInSlash(JoinCwd(v, q)) == EndsInSlash(q)
  {
    assert n[0] == '/';
    var j := JoinCwd(v, q);
    if n == "/" {
      assert v == "/" && j == "/" + q == "" + "/" + q;
    } else if v == n {
      assert v[|v| - 1] != '/';
      assert j == n + "/" + q;
    } else {
      assert v[|v| - 1] == '/';
      assert j == (n + "/") + q == n + "/" + q;
    }
    assert j[|j| - 1] == q[|q| - 1];
  }

  lemma {:induction false} SameWalk(a: string, q: string)
    ensures Normal(a + "/" + q, 1) == Normal(if Normal(a, 1) == "/" then "" + "/" + q else Normal(a, 1) + "/" + q, 1)
  {
    var stack := Walk([], Split(a), 1);
    SplitConcat(a, q);
    WalkConcat([], Split(a), Split(q), 1);
    NormalEnd(a, 1);
    if stack == [] {
      SplitConcat("", q);
      WalkConcat([], Split(""), Split(q), 1);
      NormalOfShort("", 1);
    } else {
      NormalCanonical(a, 1);
      WalkRender(stack, 1);
      SplitConcat(Normal(a, 1), q);
      WalkConcat([], Split(Normal(a, 1)), Split(q), 1);
    }
  }

  // ---------- The early exit on application roots is invisible ----------

  predicate SlashAt(s: string, k: nat) {
    k < |s| && s[k] == '/'
  }

  /** No empty component and no trailing slash */
  ghost predicate Tidy(s: string) {
    && IsAbsolute(s)
    && forall k: nat :: SlashAt(s, k) ==> k + 1 < |s| && s[k + 1] != '/'
  }

  /** No component starts with '.' */
  ghost predicate NoDotComponent(r: string) {
    forall k: nat :: SlashAt(r, k) && k + 1 < |r| ==> r[k + 1] != '.'
  }

  /** No tidy prefix of `r` ends in a component that starts with '.'.  It does not matter what
      stands in `r` behind an empty component. */
  ghost predicate DotFree(r: string) {
    forall p: nat :: SlashAt(r, p) && p + 1 < |r| && r[p + 1] == '.' ==> !Tidy(r[..p + 2])
  }

  ghost predicate PlainRoots(roots: seq<string>) {
    forall k :: 0 <= k < |roots| ==> DotFree(roots[k])
  }

  /** For a tidy root this says that no component starts with '.' */
  lemma {:induction false} DotFreeTidy(r: string)
    requires Tidy(r)
    ensures DotFree(r) <==> NoDotComponent(r)
  {
    forall p: nat | SlashAt(r, p) && p + 1 < |r| && r[p + 1] == '.' ensures Tidy(r[..p + 2]) {
      TidyPrefix(r, p + 2);
    }
  }

  /** A tidy path that is a prefix of such a root has no such component either */
  lemma {:induction false} DotFreePrefix(r: string, s: string)
    requires DotFree(r) && Tidy(s) && s <= r
    ensures NoDotComponent(s)
  {
    forall p: nat | SlashAt(s, p) && p + 1 < |s| ensures s[p + 1] != '.' {
      assert SlashAt(r, p) && r[..p + 2] == s[..p + 2];
      TidyPrefix(s, p + 2);
    }
  }

  lemma {:induction false} NoDotPrefix(s: string, n: nat)
    requires n <= |s| && NoDotComponent(s)
    ensures NoDotComponent(s[..n])
  {
    forall k: nat | SlashAt(s[..n], k) && k + 1 < n ensures s[..n][k + 1] != '.' {
      assert SlashAt(s, k);
    }
  }

  lemma {:induction false} TidyPrefix(s: string, n: nat)
    requires 0 < n <= |s| && Tidy(s) && s[n - 1] != '/'
    ensures Tidy(s[..n])
  {
    forall k: nat | SlashAt(s[..n], k) ensures k + 1 < n && s[..n][k + 1] != '/' {
      assert SlashAt(s, k);
    }
  }

  lemma {:induction false} TidyParent(s: string)
    requires Tidy(s)
    ensures
      var i := CompStart(s, 1);
      && i < |s| && (i > 2 ==> Tidy(s[..i - 1])) && (i <= 2 ==> i == 1)
      && (NoDotComponent(s) && i > 2 ==> NoDotComponent(s[..i - 1]))
      && (NoDotComponent(s) ==> IsName(s[i..]))
  {
    var i := CompStart(s, 1);
    assert SlashAt(s, i - 1);
    assert s[i..][0] == s[i];
    if i > 1 {
      assert SlashAt(s, 0);
      assert !SlashAt(s, i - 2);
      TidyPrefix(s, i - 1);
      if NoDotComponent(s) {
        NoDotPrefix(s, i - 1);
      }
    }
  }

  /** A tidy path without dots resolves to itself */
  lemma {:induction false} PlainResolves(e: Env, s: string, isDir: bool)
    requires e.roots == [] && Tidy(s) && NoDotComponent(s)
    ensures Body(e, s, 1, Expand, isDir) == Some(s)
    decreases |s|
  {
    var i := CompStart(s, 1);
    TidyParent(s);
    BodyOfName(e, s, 1, Expand, isDir);
    if i > 2 {
      var a := s[..i - 1];
      PlainResolves(e, a, true);
      assert Resolve(e, a, 1, Expand, true) == Some(a);
      assert a + "/" + s[i..] == s;
      assert Parented(e, s, i, 1, Expand) == Some(Append(a, 1, s[i..])) == Some(s);
    } else {
      assert "/" + s[1..] == s;
    }
  }

  /** With such roots stopping early at a root changes no expansion of a tidy path */
  lemma {:induction false} EarlyExitInvisible(e: Env, s: string, isDir: bool)
    requires PlainRoots(e.roots) && Tidy(s)
    ensures Resolve(e, s, 1, Expand, isDir) == Resolve(e.(roots := []), s, 1, Expand, isDir)
    ensures Body(e, s, 1, Expand, isDir) == Body(e.(roots := []), s, 1, Expand, isDir)
    decreases |s|
  {
    var i := CompStart(s, 1);
    TidyParent(s);
    if i > 2 {
      EarlyExitInvisible(e, s[..i - 1], true);
    }
    SameBody(e, s, isDir);
    ExitIsBody(e, s, isDir);
  }

  /** A path on which resolution stops early is what its body resolves to */
  lemma {:induction false} ExitIsBody(e: Env, s: string, isDir: bool)
    requires PlainRoots(e.roots) && Tidy(s)
    ensures OnRoot(e.roots, s) ==> Body(e.(roots := []), s, 1, Expand, isDir) == Some(s)
  {
    if k :| 0 <= k < |e.roots| && s <= e.roots[k] {
      DotFreePrefix(e.roots[k], s);
      PlainResolves(e.(roots := []), s, isDir);
    }
  }

  /** Where the directory of a tidy path resolves alike with and without roots, so does its body */
  lemma {:induction false} SameBody(e: Env, s: string, isDir: bool)
    requires Tidy(s)
    requires
      var i := CompStart(s, 1);
      i > 2 ==>
        && Resolve(e, s[..i - 1], 1, Expand, true) == Resolve(e.(roots := []), s[..i - 1], 1, Expand, true)
        && Body(e, s[..i - 1], 1, Expand, true) == Body(e.(roots := []), s[..i - 1], 1, Expand, true)
    ensures Body(e, s, 1, Expand, isDir) == Body(e.(roots := []), s, 1, Expand, isDir)
  {
  }

  lemma {:induction false} DotUnderDirectory(e: Env, s: string, isDir: bool)
    requires Tidy(s) && s[CompStart(s, 1)..] == "."
    ensures
      var i := CompStart(s, 1);
      Body(e, s, 1, Expand, isDir) == if i > 2 then Body(e, s[..i - 1], 1, Expand, true) else Some("/")
  {
  }

  /** A tidy path that ends in '.' never expands to itself */
  lemma {:induction false} DotVanishes(e: Env, s: string)
    requires e.roots == [] && Tidy(s) && s[CompStart(s, 1)..] == "."
    ensures Resolve(e, s, 1, Expand, false) != Some(s)
  {
    var i := CompStart(s, 1);
    TidyParent(s);
    DotUnderDirectory(e, s, false);
    if i > 2 {
      ResolveShape(e, s[..i - 1], 1, Expand, true);
    }
  }

  /** Under such roots, in any mode: a tidy path resolves to its normal form or not at all, and what
      stands before a root is not asked about */
  lemma {:induction false} ResolvesUnderRoots(e: Env, s: string, mode: Mode, isDir: bool)
    requires LinkFree(e) && PlainRoots(e.roots) && Tidy(s)
    ensures Resolve(e, s, 1, mode, isDir) ==
      if Passes(e, s, 1, mode, isDir) then Some(Normal(s, 1)) else None
  {
    SucceedsExactly(e, s, 1, mode, isDir);
    OnlyWithheld(e, s, 1, mode, isDir, isDir);
    EarlyExitInvisible(e, s, isDir);
    Lexical(e.(roots := []), s, 1, Expand, isDir);
  }

  /** Any other root shows: cut behind the '.', it is a path that stays as it is with the root and
      loses its last component without */
  lemma {:induction false} EarlyExitShows(e: Env, k: nat) returns (s: string)
    requires k < |e.roots| && !DotFree(e.roots[k])
    ensures Tidy(s) && s <= e.roots[k]
    ensures Resolve(e, s, 1, Expand, false) == Some(s) != Resolve(e.(roots := []), s, 1, Expand, false)
  {
    var r := e.roots[k];
    var p: nat :| SlashAt(r, p) && p + 1 < |r| && r[p + 1] == '.' && Tidy(r[..p + 2]);
    s := r[..p + 2];
    CompStartUnique(s, 1, p + 1);
    assert s[p + 1..] == ".";
    DotVanishes(e.(roots := []), s);
  }

  ghost predicate InvisibleFor(e: Env, s: string) {
    Resolve(e, s, 1, Expand, false) == Resolve(e.(roots := []), s, 1, Expand, false)
  }

  /** For any roots whatever: the early exit is invisible to all tidy paths if and only if no tidy
      prefix of a root ends in a component that starts with '.' */
  lemma {:induction false} EarlyExitExact(e: Env)
    ensures (forall s :: Tidy(s) ==> InvisibleFor(e, s)) <==> PlainRoots(e.roots)
  {
    if PlainRoots(e.roots) {
      forall s | Tidy(s) ensures InvisibleFor(e, s) {
        EarlyExitInvisible(e, s, false);
      }
    } else {
      var k :| 0 <= k < |e.roots| && !DotFree(e.roots[k]);
      var s := EarlyExitShows(e, k);
      assert !InvisibleFor(e, s);
    }
  }

  /** The shortest example */
  lemma {:induction false} EarlyExitExample(lstat: string -> Node)
    ensures
      var e := Env(lstat, ["/a/.b"]);
      && Resolve(e, "/a/.", 1, Expand, false) == Some("/a/.")
      && Resolve(e.(roots := []), "/a/.", 1, Expand, false) == Some("/a")
  {
    var e := Env(lstat, ["/a/.b"]);
    assert "/a/." <= e.roots[0];
    var e' := e.(roots := []);
    var s := "/a/.";
    CompStartUnique(s, 1, 3);
    BodyOfDot(e', s, 1, Expand, false);
    assert s[..2] == "/a";
    PlainResolves(e', "/a", true);
  }

  // ---------- The state machine of chdir ----------

  /** php_is_dir_ok: without links stat and lstat agree */
  predicate IsDirectory(e: Env, s: string) {
    e.lstat(s) == Plain(true)
  }

  /** The working directory after virtual_chdir, and whether the call succeeded */
  function Chdir(e: Env, cwd: string, path: string): (string, bool) {
    var r := FileEx(e, cwd, path, RealPath);
    if r.Some? && IsDirectory(e, r.value) then (r.value, true) else (cwd, false)
  }

  function ChdirRun(e: Env, cwd: string, paths: seq<string>): string
    decreases |paths|
  {
    if paths == [] then cwd else ChdirRun(e, Chdir(e, cwd, paths[0]).0, paths[1..])
  }

  /** Absolute, in normal form, and short enough for the buffer */
  ghost predicate CanonicalCwd(cwd: string) {
    IsAbsolute(cwd) && |cwd| < MAX_PATH_LEN - 1 && Normal(cwd, 1) == cwd
  }

  /** Exactly when a call succeeds: the path is neither empty nor too long, realpath resolution of
      what it leads to passes, and the normal form of that is a directory */
  ghost predicate ChdirSucceeds(e: Env, cwd: string, path: string) {
    && 0 < |path| <= 4094
    && (path[0] != '/' ==> |cwd| + |path| <= 4093)
    && var full := if path[0] == '/' then path else if cwd == "/" then "/" + path else cwd + "/" + path;
       Passes(e, full, 1, RealPath, false) && e.lstat(Normal(full, 1)) == Plain(true)
  }

  lemma {:induction false} ChdirExact(e: Env, cwd: string, path: string)
    requires LinkFree(e) && e.roots == [] && CanonicalCwd(cwd)
    ensures Chdir(e, cwd, path) ==
      if ChdirSucceeds(e, cwd, path) then (Normal(Joined(cwd, path), 1), true) else (cwd, false)
  {
    NormalEnd(cwd, 1);
    FileExExact(e, cwd, path, RealPath);
  }

  /** The new directory is reached by walking the components of the path from the old one */
  lemma {:induction false} ChdirWalks(cwd: string, path: string)
    requires CanonicalCwd(cwd) && path != "" && path[0] != '/'
    ensures Normal(Joined(cwd, path), 1) == Render(Walk(Walk([], Split(cwd), 1), Split(path), 1), 1)
  {
    NormalEnd(cwd, 1);
    var front := if cwd == "/" then "" else cwd;
    assert Joined(cwd, path) == front + "/" + path;
    SplitConcat(front, path);
    WalkConcat([], Split(front), Split(path), 1);
    if cwd == "/" {
      NormalOfShort("", 1);
      NormalOfShort("/", 1);
    }
  }

  lemma {:induction false} ChdirKeeps(e: Env, cwd: string, path: string)
    requires e.roots == [] && CanonicalCwd(cwd)
    ensures
      var (cwd', ok) := Chdir(e, cwd, path);
      && CanonicalCwd(cwd')
      && (ok ==> cwd' == Normal(JoinCwd(cwd, path), 1) && IsDirectory(e, cwd'))
      && (!ok ==> cwd' == cwd)
  {
    if !TooLong(cwd, path) {
      var full := JoinCwd(cwd, path);
      JoinFits(cwd, path);
      Lexical(e, full, 1, RealPath, false);
      ResolveShape(e, full, 1, RealPath, false);
      NormalIdempotent(full, 1);
    }
  }

  /** Whatever the calls, the working directory stays canonical */
  lemma {:induction false} ChdirRunKeeps(e: Env, cwd: string, paths: seq<string>)
    requires e.roots == [] && CanonicalCwd(cwd)
    ensures CanonicalCwd(ChdirRun(e, cwd, paths))
    ensures ChdirRun(e, cwd, paths) == cwd || IsDirectory(e, ChdirRun(e, cwd, paths))
    decreases |paths|
  {
    if paths != [] {
      ChdirKeeps(e, cwd, paths[0]);
      ChdirRunKeeps(e, Chdir(e, cwd, paths[0]).0, paths[1..]);
    }
  }

  /** The calls of a run that succeed */
  function Successes(e: Env, cwd: string, paths: seq<string>): seq<string>
    decreases |paths|
  {
    if paths == [] then []
    else
      var (cwd', ok) := Chdir(e, cwd, paths[0]);
      (if ok then [paths[0]] else []) + Successes(e, cwd', paths[1..])
  }

  /** Failing calls leave no trace: a run ends where its successful calls alone would end, and
      each of these succeeds again */
  lemma {:induction false} FailuresLeaveNoTrace(e: Env, cwd: string, paths: seq<string>)
    ensures ChdirRun(e, cwd, paths) == ChdirRun(e, cwd, Successes(e, cwd, paths))
    ensures Successes(e, cwd, Successes(e, cwd, paths)) == Successes(e, cwd, paths)
    decreases |paths|
  {
    if paths != [] {
      var (cwd', ok) := Chdir(e, cwd, paths[0]);
      var rest := Successes(e, cwd', paths[1..]);
      FailuresLeaveNoTrace(e, cwd', paths[1..]);
      if ok {
        assert ([paths[0]] + rest)[1..] == rest;
      } else {
        assert [] + rest == rest;
      }
    }
  }

  // ---------- The calls themselves ----------

  /** A working directory is absolute, or empty where getcwd failed */
  predicate Anchored(cwd: string) {
    cwd != "" ==> IsAbsolute(cwd)
  }

  /** cwd_state */
  class CwdState {
    var cwd: string
    var cwdLength: nat

    ghost predicate Valid()
      reads this
    {
      cwdLength == |cwd|
    }

    constructor (cwd: string)
      ensures Valid() && this.cwd == cwd
    {
      this.cwd := cwd;
      this.cwdLength := |cwd|;
    }
  }

  /** Where the path is put before it is resolved */
  method FillBuffer(state: CwdState, path: string, buffer: array<char>)
      returns (ok: bool, start: nat, len: nat)
    requires state.Valid() && buffer.Length == MAX_PATH_LEN
    modifies buffer
    ensures ok == !TooLong(state.cwd, path)
    ensures ok ==>
      && start == StartOf(state.cwd, path)
      && len == |JoinCwd(state.cwd, path)| < MAX_PATH_LEN - 1
      && buffer[..len] == JoinCwd(state.cwd, path)
  {
    ok, start, len := true, 1, |path|;
    if len == 0 || len >= MAX_PATH_LEN - 1 {
      return false, start, len;
    }
    if !IsAbsolute(path) {
      if state.cwdLength == 0 {
        start := 0;
        CopyInto(buffer, 0, path);
      } else {
        if len + state.cwdLength + 1 >= MAX_PATH_LEN - 1 {
          return false, start, len;
        }
        len := PutBehindCwd(state, path, buffer);
      }
    } else {
      CopyInto(buffer, 0, path);
    }
    buffer[len] := '\0';
  }

  /** A relative path goes behind the working directory, with one slash between them */
  method PutBehindCwd(state: CwdState, path: string, buffer: array<char>) returns (len: nat)
    requires state.Valid() && state.cwd != "" && !IsAbsolute(path)
    requires |state.cwd| + |path| + 1 < buffer.Length
    modifies buffer
    ensures len == |JoinCwd(state.cwd, path)| < buffer.Length
    ensures buffer[..len] == JoinCwd(state.cwd, path)
  {
    CopyInto(buffer, 0, state.cwd);
    var n := state.cwdLength;
    if buffer[n - 1] == '/' {
      CopyInto(buffer, n, path);
      len := n + |path|;
      assert buffer[..len] == buffer[..n] + buffer[n..len];
    } else {
      buffer[n] := '/';
      assert buffer[..n + 1] == state.cwd + "/";
      CopyInto(buffer, n + 1, path);
      len := n + 1 + |path|;
      assert buffer[..len] == buffer[..n + 1] + buffer[n + 1..len];
    }
  }

  /** The result of a call, in terms of the working directory before it */
  ghost predicate Outcome(e: Env, cwd: string, path: string, mode: Mode,
                          rejects: Option<string -> bool>, cwd': string, ret: int)
  {
    match FileEx(e, cwd, path, mode)
    case None => ret != 0 && cwd' == cwd
    case Some(v) =>
      if rejects.Some? && rejects.value(v) then ret == 1 && cwd' == cwd
      else ret == 0 && cwd' == v
  }

  /** virtual_file_ex.  `rejects` is the caller's verify_path, `now` what time() would return. */
  method VirtualFileEx(resolver: Resolver, state: CwdState, path: string,
                       rejects: Option<string -> bool>, mode: Mode, now: int)
      returns (ret: int)
    requires resolver.Valid() && state.Valid() && Anchored(state.cwd)
    requires LinkFree(resolver.env) || StartOf(state.cwd, path) == 1
    modifies state, resolver.cache, resolver.cache.chains
    ensures resolver.Valid() && state.Valid()
    ensures ret != 0 ==> unchanged(state)
    ensures StartOf(old(state.cwd), path) == 1 ==> Anchored(state.cwd)
    ensures LinkFree(resolver.env) ==> Outcome(resolver.env, old(state.cwd), path, mode, rejects, state.cwd, ret)
  {
    var buffer := new char[MAX_PATH_LEN];
    var ok, start, len := FillBuffer(state, path, buffer);
    if !ok {
      return 1;
    }
    var result;
    ret, result := ResolveBuffer(resolver, buffer, state.cwd, path, start, len, mode, now);
    if ret == 0 {
      ret := Commit(state, result, rejects);
    }
  }

  /** From the filled buffer to the path that may become the state */
  method ResolveBuffer(resolver: Resolver, buffer: array<char>, ghost cwd: string, ghost path: string, start: nat,
                       len: nat, mode: Mode, now: int)
      returns (ret: int, result: string)
    requires resolver.Valid() && buffer.Length == MAX_PATH_LEN
    requires LinkFree(resolver.env) || start == 1
    requires !TooLong(cwd, path) && Anchored(cwd)
    requires start == StartOf(cwd, path) && len == |JoinCwd(cwd, path)| < MAX_PATH_LEN - 1
    requires buffer[..len] == JoinCwd(cwd, path)
    modifies buffer, resolver.cache, resolver.cache.chains
    ensures resolver.Valid()
    ensures LinkFree(resolver.env) ==>
      FileEx(resolver.env, cwd, path, mode) == if ret == 0 then Some(result) else None
    ensures ret == 0 && start == 1 ==> IsAbsolute(result)
  {
    ghost var full := JoinCwd(cwd, path);
    JoinFits(cwd, path);
    assert full[0] == buffer[0] && full[len - 1] == buffer[len - 1];
    var addSlash := mode != RealPath && buffer[len - 1] == '/';
    var t := if resolver.cache.ttl != 0 then now else -1;
    var j, ll, directory := resolver.RealpathR(buffer, start, len, 0, t, mode, false);
    if j < 0 {
      return 1, "";
    }
    assert buffer[..j] == buffer[..][..j];
    var fits;
    fits, j := FinishBuffer(buffer, start, j, addSlash);
    if !fits {
      return -1, "";
    }
    return 0, buffer[..j];
  }

  /** The new path becomes the state, unless the caller's check sends it back */
  method Commit(state: CwdState, result: string, rejects: Option<string -> bool>) returns (ret: int)
    requires state.Valid()
    modifies state
    ensures state.Valid()
    ensures if rejects.Some? && rejects.value(result)
            then ret == 1 && unchanged(state)
            else ret == 0 && state.cwd == result
  {
    if rejects.Some? {
      var oldCwd, oldLength := state.cwd, state.cwdLength;
      state.cwdLength := |result|;
      state.cwd := result;
      if rejects.value(state.cwd) {
        state.cwd, state.cwdLength := oldCwd, oldLength;
        ret := 1;
      } else {
        ret := 0;
      }
    } else {
      state.cwdLength := |result|;
      state.cwd := result;
      ret := 0;
    }
  }

  /** The last touches on the resolved buffer */
  method FinishBuffer(buffer: array<char>, start: nat, len: nat, addSlash: bool) returns (fits: bool, j: nat)
    requires buffer.Length == MAX_PATH_LEN && start <= len < MAX_PATH_LEN
    modifies buffer
    ensures
      match Finish(old(buffer[..len]), start, addSlash)
      case None => !fits
      case Some(v) => fits && j == |v| <= MAX_PATH_LEN && buffer[..j] == v
  {
    fits, j := true, len;
    if start == 0 && j == 0 {
      buffer[0] := '.';
      j := 1;
    }
    if addSlash && j != 0 && buffer[j - 1] != '/' {
      if j >= MAX_PATH_LEN - 1 {
        return false, j;
      }
      buffer[j] := '/';
      j := j + 1;
    }
    if j < buffer.Length {
      buffer[j] := '\0';
    }
  }

  /** One thread's globals: its working directory and its realpath cache */
  class Globals {
    const resolver: Resolver
    const state: CwdState

    constructor (env: Env, hash: string -> nat, limit: nat, ttl: int, cwd: string)
      requires LinkFree(env) && env.roots == [] && CanonicalCwd(cwd)
      ensures Valid() && fresh(state) && fresh(resolver.cache) && fresh(resolver.cache.chains)
      ensures resolver.env == env && state.cwd == cwd
    {
      var cache := new Cache(hash, limit, ttl, 0);
      resolver := new Resolver(env, cache);
      state := new CwdState(cwd);
    }

    ghost predicate Valid()
      reads state, resolver, resolver.cache, resolver.cache.chains
    {
      && resolver.Valid() && state.Valid()
      && LinkFree(resolver.env) && resolver.env.roots == [] && CanonicalCwd(state.cwd)
    }

    /** virtual_chdir */
    method VirtualChdir(path: string, now: int) returns (ret: int)
      requires Valid()
      modifies state, resolver.cache, resolver.cache.chains
      ensures Valid()
      ensures (state.cwd, ret == 0) == Chdir(resolver.env, old(state.cwd), path)
      ensures ret == if ChdirSucceeds(resolver.env, old(state.cwd), path) then 0 else -1
      ensures ret == 0 ==> state.cwd == Normal(Joined(old(state.cwd), path), 1)
      ensures ret != 0 ==> unchanged(state)
    {
      ChdirKeeps(resolver.env, state.cwd, path);
      ChdirExact(resolver.env, state.cwd, path);
      ret := VirtualFileEx(resolver, state, path, Some(v => !IsDirectory(resolver.env, v)), RealPath, now);
      ret := if ret != 0 then -1 else 0;
    }

    /** Any number of calls, whatever the cache holds by then and however the clock runs */
    method ChdirAll(paths: seq<string>, clock: nat -> int)
      requires Valid()
      modifies state, resolver.cache, resolver.cache.chains
      ensures Valid()
      ensures state.cwd == ChdirRun(resolver.env, old(state.cwd), paths)
    {
      var k := 0;
      assert paths[0..] == paths;
      while k < |paths|
        invariant 0 <= k <= |paths| && Valid()
        invariant ChdirRun(resolver.env, state.cwd, paths[k..]) == ChdirRun(resolver.env, old(state.cwd), paths)
      {
        assert paths[k..][1..] == paths[k + 1..];
        var ret := VirtualChdir(paths[k], clock(k));
        k := k + 1;
      }
    }
  }

  /** A request to resolve an absolute path, in any mode */
  datatype Request = Request(path: string, mode: Mode, now: int)

  /** Cache transparency over a run: whatever requests came before, and however the clock runs,
      every answer is the one resolution gives without a cache. */
  method ServeAll(resolver: Resolver, requests: seq<Request>) returns (answers: seq<Option<string>>)
    requires resolver.Valid() && LinkFree(resolver.env)
    requires forall k :: 0 <= k < |requests| ==> IsAbsolute(requests[k].path)
    modifies resolver.cache, resolver.cache.chains
    ensures resolver.Valid()
    ensures |answers| == |requests|
    ensures forall k :: 0 <= k < |requests| ==>
      answers[k] == FileEx(resolver.env, "", requests[k].path, requests[k].mode)
    ensures resolver.env.roots == [] ==> forall k :: 0 <= k < |requests| ==>
      answers[k] == Answer(resolver.env, "", requests[k].path, requests[k].mode)
  {
    answers := [];
    while |answers| < |requests|
      invariant |answers| <= |requests| && resolver.Valid()
      invariant forall k :: 0 <= k < |answers| ==>
        answers[k] == FileEx(resolver.env, "", requests[k].path, requests[k].mode)
      decreases |requests| - |answers|
    {
      var r := requests[|answers|];
      var state := new CwdState("");
      var ret := VirtualFileEx(resolver, state, r.path, None, r.mode, r.now);
      answers := answers + [if ret == 0 then Some(state.cwd) else None];
    }
    if resolver.env.roots == [] {
      forall k | 0 <= k < |requests|
        ensures answers[k] == Answer(resolver.env, "", requests[k].path, requests[k].mode)
      {
        FileExExact(resolver.env, "", requests[k].path, requests[k].mode);
      }
    }
  }
}
