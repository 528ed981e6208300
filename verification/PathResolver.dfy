/** The path resolver: one buffer, edited in place by a recursion from its right end, with the
    realpath cache in front of the file system, a budget of symbolic links and an early exit on
    application roots. */
module PathResolver {
  import opened Wrappers
  import opened PathSpec
  import opened RealpathCache

  /** The buffer and the returned length deliver this outcome */
  ghost predicate Delivers(r: Option<string>, buf: seq<char>, j: int) {
    match r
    case None => j == -1
    case Some(v) => j == |v| <= |buf| && buf[..j] == v
  }

  /** A relative result that ends in '..' is followed by a slash in the buffer: the resolver
      looks at that slash when it adds another '..' */
  ghost predicate Slashed(buf: seq<char>, j: int) {
    2 <= j < |buf| && buf[j - 2..j] == ".." && (j == 2 || buf[j - 3] == '/') ==> buf[j] == '/'
  }

  /** What a bucket promises: the answer resolution would give without any cache, in either
      cached mode, and the directory bit of its key */
  ghost predicate Sound(e: Env, b: Bucket) {
    && e.lstat(b.path) == Plain(b.isDir)
    && Body(e, b.path, 1, FilePath, false) == Some(b.realpath)
  }

  /** A path without the empty and '.' components at its end, and whether it must be a directory */
  function Stripped(s: string, start: nat, isDir: bool): (string, bool)
    decreases |s|
  {
    if |s| <= start then (s, isDir) else
    var i := CompStart(s, start);
    if s[i..] == "" || s[i..] == "." then
      if i == 0 then ("", true) else Stripped(s[..i - 1], start, true)
    else (s, isDir)
  }

  lemma {:induction false} StrippedOnce(s: string, start: nat, isDir: bool, i: nat)
    requires start < |s| && i == CompStart(s, start)
    ensures s[i..] == "." <==> |s| == i + 1 && s[i] == '.'
    ensures
      if |s| == i || (|s| == i + 1 && s[i] == '.')
      then
        var n := if i == 0 then 0 else i - 1;
        Stripped(s, start, isDir) == Stripped(s[..n], start, true) && (n > 0 ==> s[n] == '/' || n < start)
      else Stripped(s, start, isDir) == (s, isDir)
  {
  }

  lemma {:induction false} BodyOfStripped(e: Env, s: string, start: nat, mode: Mode, isDir: bool)
    requires start <= 1
    ensures
      var (s', dir) := Stripped(s, start, isDir);
      Body(e, s, start, mode, isDir) == Body(e, s', start, mode, dir)
    decreases |s|
  {
    if |s| > start {
      var i := CompStart(s, start);
      if (s[i..] == "" || s[i..] == ".") && i > 0 {
        BodyOfStripped(e, s[..i - 1], start, mode, true);
      }
    }
  }

  /** Once a path is known to exist, the mode no longer matters and the directory flag only
      decides whether the answer is withheld */
  lemma {:induction false} ModeIrrelevant(e: Env, s: string, mode: Mode, isDir: bool, d: bool)
    requires |s| > 1 && IsName(s[CompStart(s, 1)..])
    requires !mode.Expand? && e.lstat(s) == Plain(d)
    ensures Body(e, s, 1, mode, isDir) == if isDir && !d then None else Body(e, s, 1, FilePath, false)
  {
  }

  /** A relative result is empty or ends in a proper component */
  lemma {:induction false} RelativeShape(e: Env, s: string, mode: Mode, isDir: bool)
    requires RootsAbsolute(e) && !IsAbsolute(s)
    ensures
      var r := Resolve(e, s, 0, mode, isDir);
      r.Some? && r.value != "" ==>
        var c := r.value[CompStart(r.value, 0)..];
        c != "" && c != "." && !IsAbsolute(r.value)
  {
    Lexical(e, s, 0, mode, isDir);
    var stack := Walk([], Split(s), 0);
    NormalCanonical(s, 0);
    if stack != [] {
      RenderTop(stack, 0);
      FirstCharacter(stack);
    }
  }

  lemma {:induction false} FirstCharacter(stack: seq<string>)
    requires stack != [] && Canonical(stack, 0)
    ensures Join(stack) != "" && Join(stack)[0] != '/'
  {
    assert Proper(stack[0]);
    assert stack[0][0] in stack[0];
    if |stack| > 1 {
      var front := stack[..|stack| - 1];
      assert forall i :: 0 <= i < |front| ==> front[i] == stack[i];
      FirstCharacter(front);
    }
  }

  /** A component other than '..' never ends a relative result in '..' */
  lemma {:induction false} NameEndsPlain(p: string, name: string, buf: seq<char>)
    requires IsName(name) && '/' !in name && |buf| >= |Append(p, 0, name)|
    requires buf[..|Append(p, 0, name)|] == Append(p, 0, name)
    ensures Slashed(buf, |Append(p, 0, name)|)
  {
    var v := Append(p, 0, name);
    var j := |v|;
    assert forall k :: 0 <= k < j ==> buf[k] == v[k];
    if 2 <= j < |buf| {
      if |name| >= 3 {
        assert name[|name| - 3] in name;
        assert buf[j - 3] == name[|name| - 3];
      } else if |name| == 2 {
        assert buf[j - 2..j] == name;
      } else {
        assert buf[j - 2..j][0] == v[j - 2] == '/';
      }
    }
  }

  /** memcpy of `src` to offset `at` of the buffer */
  method CopyInto(path: array<char>, at: nat, src: string)
    requires at + |src| <= path.Length
    modifies path
    ensures path[..at] == old(path[..at])
    ensures path[at..at + |src|] == src
    ensures path[at + |src|..] == old(path[at + |src|..])
  {
    var k := 0;
    while k < |src|
      invariant 0 <= k <= |src|
      invariant forall m :: 0 <= m < path.Length ==>
        path[m] == if at <= m < at + k then src[m - at] else old(path[m])
    {
      path[at + k] := src[k];
      k := k + 1;
    }
  }

  /** The scan for the start of the last component */
  method ComponentStart(path: array<char>, start: nat, len: nat) returns (i: nat)
    requires start <= len <= path.Length
    ensures i == CompStart(path[..len], start)
  {
    i := len;
    while i > start && path[i - 1] != '/'
      invariant start <= i <= len
      invariant forall k :: i <= k < len ==> path[k] != '/'
    {
      i := i - 1;
    }
    CompStartUnique(path[..len], start, i);
  }

  /** A relative buffer whose first `len` characters end in a proper component */
  ghost predicate EndsInName(buf: seq<char>, len: nat)
    requires len <= |buf|
  {
    len > 0 ==>
      var c := buf[..len][CompStart(buf[..len], 0)..];
      c != "" && c != "." && buf[0] != '/'
  }

  /** '..' on an already resolved directory: cut the last component off the buffer, or, in a
      relative path, put another '..' behind the leading ones */
  method PopInPlace(path: array<char>, start: nat, len: nat) returns (j: nat)
    requires start <= 1 && start <= len < path.Length && 3 <= path.Length
    requires start == 1 ==> path[0] == '/'
    requires start == 0 ==> len + 4 <= path.Length && EndsInName(path[..], len) && Slashed(path[..], len)
    modifies path
    ensures j <= path.Length && path[..j] == DropLast(old(path[..len]), start)
    ensures start == 1 ==> 1 <= j <= len && path[0] == '/'
    ensures start == 0 ==> Slashed(path[..], j)
  {
    if len > start {
      j := ScanBack(path, start, len);
      if start == 0 {
        j := KeepDots(path, len, j);
      }
    } else if start == 0 {
      path[0] := '.';
      path[1] := '.';
      path[2] := '/';
      j := 2;
    } else {
      j := len;
    }
  }

  /** The slash before the last component, or `start` */
  method ScanBack(path: array<char>, start: nat, len: nat) returns (j: nat)
    requires start <= 1 && start < len <= path.Length
    requires start == 0 ==> path[0] != '/'
    ensures start <= j < len && (j == start || path[j] == '/')
    ensures CompStart(path[..len], start) == if path[j] == '/' then j + 1 else start
    ensures start == 1 ==> path[..j] == DropLast(path[..len], 1)
    ensures start == 0 && path[..len][CompStart(path[..len], 0)..] != ".." ==> path[..j] == DropLast(path[..len], 0)
  {
    j := len - 1;
    while j > start && path[j] != '/'
      invariant start <= j < len
      invariant forall k :: j < k < len ==> path[k] != '/'
    {
      j := j - 1;
    }
    CompStartUnique(path[..len], start, if path[j] == '/' then j + 1 else start);
    assert path[..len][..j] == path[..j];
  }

  /** The leading '..' components of a relative path must stay */
  method KeepDots(path: array<char>, len: nat, j: nat) returns (j': nat)
    requires j < len && len + 4 <= path.Length
    requires EndsInName(path[..], len) && Slashed(path[..], len)
    requires j == 0 || path[j] == '/'
    requires CompStart(path[..len], 0) == if path[j] == '/' then j + 1 else 0
    requires path[..len][CompStart(path[..len], 0)..] != ".." ==> path[..j] == DropLast(path[..len], 0)
    modifies path
    ensures j' <= path.Length && path[..j'] == DropLast(old(path[..len]), 0)
    ensures Slashed(path[..], j')
  {
    j' := j;
    ghost var buf := path[..];
    assert buf[..len] == path[..len];
    DotsShow(buf, len, j);
    if j == 0 && path[0] == '.' && path[1] == '.' && path[2] == '/' {
      path[3] := '.';
      path[4] := '.';
      path[5] := '/';
      j' := 5;
      assert path[..5] == buf[..len] + "/..";
    } else if j > 0 && path[j + 1] == '.' && path[j + 2] == '.' && path[j + 3] == '/' {
      j' := j' + 4;
      path[j'] := '.';
      j' := j' + 1;
      path[j'] := '.';
      j' := j' + 1;
      path[j'] := '/';
      assert path[..j'] == buf[..len] + "/..";
    }
  }

  /** The test on the three characters after the cut recognises exactly a last component '..' */
  lemma {:induction false} DotsShow(buf: seq<char>, len: nat, j: nat)
    requires j < len && len + 4 <= |buf|
    requires EndsInName(buf, len) && Slashed(buf, len)
    requires j == 0 || buf[j] == '/'
    requires CompStart(buf[..len], 0) == if buf[j] == '/' then j + 1 else 0
    ensures
      var k := CompStart(buf[..len], 0);
      && (buf[..len][k..] == ".." <==> buf[k] == '.' && buf[k + 1] == '.' && buf[k + 2] == '/')
      && (buf[..len][k..] == ".." ==> len == k + 2 && DropLast(buf[..len], 0) == buf[..len] + "/..")
      && Slashed(buf, j)
  {
  }

  lemma {:induction false} Glued(path: array<char>, a: string, b: string)
    requires |a| + 1 + |b| <= path.Length
    requires path[..|a|] == a && path[|a|] == '/' && path[|a| + 1..|a| + 1 + |b|] == b
    ensures path[..|a| + 1 + |b|] == a + "/" + b
  {
  }

  lemma {:induction false} NameLooks(s: string, i: nat)
    requires i <= |s|
    ensures s[i..] == "." <==> |s| == i + 1 && s[i] == '.'
    ensures s[i..] == ".." <==> |s| == i + 2 && s[i] == '.' && s[i + 1] == '.'
  {
  }

  lemma {:induction false} ParentedIs(e: Env, s: string, i: nat, start: nat, mode: Mode, p: string)
    requires start <= 1 && start <= i <= |s| && (i == start || s[i - 1] == '/') && (start == 1 ==> s[0] == '/')
    requires if i <= start + 1 then p == Root(start)
             else Resolve(e, s[..i - 1], start, mode, true) == Some(p)
    ensures Parented(e, s, i, start, mode) == Some(Append(p, start, s[i..]))
    ensures |Append(p, start, s[i..])| <= |s|
  {
    if i > start + 1 {
      ResolveShape(e, s[..i - 1], start, mode, true);
    }
  }

  lemma {:induction false} RelativeReady(e: Env, a: string, mode: Mode, buf: seq<char>, j: nat)
    requires RootsAbsolute(e) && !IsAbsolute(a) && |a| + 4 <= |buf|
    requires Delivers(Resolve(e, a, 0, mode, true), buf, j)
    ensures j + 4 <= |buf| && EndsInName(buf, j)
  {
    ResolveShape(e, a, 0, mode, true);
    RelativeShape(e, a, mode, true);
  }

  class Resolver {
    const env: Env
    const cache: Cache

    constructor (env: Env, cache: Cache)
      requires cache.Valid() && cache.log == []
      requires RootsAbsolute(env) && TargetsFit(env)
      ensures this.env == env && this.cache == cache && Valid()
    {
      this.env := env;
      this.cache := cache;
    }

    ghost predicate Valid()
      reads cache, cache.chains
    {
      && cache.Valid()
      && RootsAbsolute(env)
      && TargetsFit(env)
      && (forall b :: b in cache.log ==>
            IsAbsolute(b.realpath) && |b.realpath| < MAX_PATH_LEN && (LinkFree(env) ==> Sound(env, b)))
    }

    /** strncmp against every application root */
    method MatchesRoot(path: array<char>, len: nat) returns (b: bool)
      requires len <= path.Length
      ensures b == OnRoot(env.roots, path[..len])
    {
      var i := 0;
      while i < |env.roots|
        invariant 0 <= i <= |env.roots|
        invariant forall k :: 0 <= k < i ==> !(path[..len] <= env.roots[k])
      {
        if path[..len] <= env.roots[i] {
          return true;
        }
        i := i + 1;
      }
      return false;
    }

    /** The `while (1)` loop: drops double slashes and '.' components off the end.  `n` becomes
        the end of what is left and `i` the start of its last component. */
    method StripDots(path: array<char>, start: nat, len: nat, isDir: bool) returns (n: nat, i: nat, dir: bool)
      requires start <= 1 && len < path.Length
      requires start == 1 ==> path[0] == '/'
      ensures n <= len && (n < len ==> n == 0 || path[n] == '/')
      ensures Stripped(path[..len], start, isDir) == (path[..n], dir)
      ensures n > start ==> i == CompStart(path[..n], start) && i < n && path[..n][i..] != "."
    {
      ghost var s := path[..len];
      n, i, dir := len, 0, isDir;
      assert s[..len] == s;
      while n > start
        invariant 0 <= n <= len && (n < len ==> n == 0 || path[n] == '/')
        invariant Stripped(s, start, isDir) == Stripped(s[..n], start, dir)
      {
        i := ComponentStart(path, start, n);
        ghost var p := s[..n];
        assert path[..n] == p;
        StrippedOnce(p, start, dir, i);
        if n == i || (n == i + 1 && path[i] == '.') {
          // len = i - 1; where that is -1 the loop ends just as it does at 0
          n := if i == 0 then 0 else i - 1;
          assert p[..n] == s[..n];
          dir := true;
        } else {
          break;
        }
      }
      assert path[..n] == s[..n];
    }

    /** tsrm_realpath_r.  `ll` counts the links met so far, `linkIsDir` is what the source stores
        through its link_is_dir pointer (false when it stores nothing). */
    method RealpathR(path: array<char>, start: nat, len: nat, ll: nat, t: int, mode: Mode, isDir: bool)
        returns (j: int, ll': nat, linkIsDir: bool)
      requires Callable(path, start, len, ll)
      modifies path, cache, cache.chains
      ensures Returned(path[..], start, j, ll, ll')
      ensures LinkFree(env) ==> Delivers(Resolve(env, old(path[..len]), start, mode, isDir), path[..], j)
      ensures start == 0 && old(path[len]) == '/' ==> Slashed(path[..], j)
      decreases LINK_MAX + 1 - ll, len, 6
    {
      ghost var s := path[..len];
      if start < len && env.roots != [] {
        var onRoot := MatchesRoot(path, len);
        if onRoot {
          if start == 0 {
            RelativeOffRoots(env, s);
          }
          path[len] := '\0';
          assert path[..][..len] == s;
          return len, ll, false;
        }
      }
      j, ll', linkIsDir := ResolveBody(path, start, len, ll, t, mode, isDir);
    }

    /** tsrm_realpath_r after the application roots */
    method ResolveBody(path: array<char>, start: nat, len: nat, ll: nat, t: int, mode: Mode, isDir: bool)
        returns (j: int, ll': nat, linkIsDir: bool)
      requires Callable(path, start, len, ll)
      modifies path, cache, cache.chains
      ensures Returned(path[..], start, j, ll, ll')
      ensures LinkFree(env) ==> Delivers(Body(env, old(path[..len]), start, mode, isDir), path[..], j)
      ensures start == 0 && old(path[len]) == '/' ==> Slashed(path[..], j)
      decreases LINK_MAX + 1 - ll, len, 5
    {
      ghost var s := path[..len];
      var n, i, dir := StripDots(path, start, len, isDir);
      BodyOfStripped(env, s, start, mode, isDir);
      if n <= start {
        assert path[..start] == Root(start);
        return start, ll, true;
      }
      NameLooks(path[..n], i);
      if n == i + 2 && path[i] == '.' && path[i + 1] == '.' {
        j, ll' := UpDirectory(path, start, n, i, ll, t, mode, dir);
        linkIsDir := true;
      } else {
        j, ll', linkIsDir := ResolveName(path, start, n, i, ll, t, mode, dir);
      }
    }

    ghost predicate Callable(path: array<char>, start: nat, len: nat, ll: nat)
      reads path, cache, cache.chains
    {
      && Valid() && path.Length == MAX_PATH_LEN
      && start <= 1 && len < MAX_PATH_LEN && ll <= LINK_MAX
      && (start == 1 ==> path[0] == '/')
      && (start == 0 ==> LinkFree(env) && !IsAbsolute(path[..len]))
      && (LinkFree(env) ==> len < MAX_PATH_LEN - 1)
    }

    ghost predicate Returned(buf: seq<char>, start: nat, j: int, ll: nat, ll': nat)
      reads cache, cache.chains
    {
      && Valid()
      && -1 <= j < MAX_PATH_LEN == |buf|
      && ll <= ll' <= LINK_MAX + 1
      && (j >= 0 ==> ll' <= LINK_MAX && start <= j)
      && (j >= 0 && start == 1 ==> buf[0] == '/')
      && (LinkFree(env) ==> ll' == ll)
    }

    /** The '..' case: resolve the directory, then leave it */
    method UpDirectory(path: array<char>, start: nat, n: nat, i: nat, ll: nat, t: int, mode: Mode, ghost isDir: bool)
        returns (j: int, ll': nat)
      requires Callable(path, start, n, ll)
      requires start < n && i == CompStart(path[..n], start) && path[..n][i..] == ".."
      modifies path, cache, cache.chains
      ensures Returned(path[..], start, j, ll, ll')
      ensures LinkFree(env) ==> Delivers(Body(env, old(path[..n]), start, mode, isDir), path[..], j)
      ensures start == 0 && old(path[n]) == '/' ==> Slashed(path[..], j)
      decreases LINK_MAX + 1 - ll, n, 4
    {
      ghost var s := path[..n];
      BodyOfDotDot(env, s, start, mode, isDir);
      if i - 1 <= start {
        assert start == 0 ==> s[i..] == s && path[..][..n] == s;
        assert start == 1 ==> path[..][..1] == "/";
        return if start != 0 then start else n, ll;
      }
      assert path[..i - 1] == s[..i - 1];
      j, ll' := LeaveDirectory(path, start, i - 1, ll, t, mode);
    }

    method LeaveDirectory(path: array<char>, start: nat, len: nat, ll: nat, t: int, mode: Mode)
        returns (j: int, ll': nat)
      requires Callable(path, start, len, ll) && start < len && len + 4 <= MAX_PATH_LEN && path[len] == '/'
      modifies path, cache, cache.chains
      ensures Returned(path[..], start, j, ll, ll')
      ensures LinkFree(env) ==>
        Delivers(Leave(Resolve(env, old(path[..len]), start, mode, true), start), path[..], j)
      ensures start == 0 ==> Slashed(path[..], j)
      decreases LINK_MAX + 1 - ll, len, 7
    {
      ghost var s := path[..len];
      var directory;
      j, ll', directory := RealpathR(path, start, len, ll, t, mode, true);
      if j >= 0 {
        if start == 0 {
          RelativeReady(env, s, mode, path[..], j);
        }
        ghost var p := path[..j];
        assert path[..][..j] == p;
        j := PopInPlace(path, start, j);
        assert path[..][..j] == path[..j] == DropLast(p, start);
      }
    }

    /** The last component is a name: ask the cache, then the file system, then the parent */
    method ResolveName(path: array<char>, start: nat, n: nat, i: nat, ll: nat, t: int, mode: Mode, isDir: bool)
        returns (j: int, ll': nat, linkIsDir: bool)
      requires Callable(path, start, n, ll)
      requires start < n && i == CompStart(path[..n], start) && IsName(path[..n][i..])
      modifies path, cache, cache.chains
      ensures Returned(path[..], start, j, ll, ll')
      ensures LinkFree(env) ==> Delivers(Body(env, old(path[..n]), start, mode, isDir), path[..], j)
      ensures start == 0 ==> Slashed(path[..], j)
      decreases LINK_MAX + 1 - ll, n, 4
    {
      path[n] := '\0';
      var tmp := path[..n];
      ll', linkIsDir := ll, false;
      var save := mode != Expand;
      if start == 1 && save && cache.limit != 0 {
        var bucket := cache.Find(tmp, t);
        if bucket.Some? {
          var b := bucket.value;
          if LinkFree(env) {
            ModeIrrelevant(env, tmp, mode, isDir, b.isDir);
          }
          if isDir && !b.isDir {
            return -1, ll, false;
          }
          CopyInto(path, 0, b.realpath);
          path[|b.realpath|] := '\0';
          return |b.realpath|, ll, b.isDir;
        }
      }
      j, ll', linkIsDir := ResolveUncached(path, start, tmp, i, ll, t, mode, isDir);
    }

    /** No bucket answers: resolve, and remember what was found on disk */
    method ResolveUncached(path: array<char>, start: nat, tmp: string, i: nat, ll: nat, t: int, mode: Mode, isDir: bool)
        returns (j: int, ll': nat, linkIsDir: bool)
      requires Callable(path, start, |tmp|, ll) && path[..|tmp|] == tmp
      requires start < |tmp| && i == CompStart(tmp, start) && IsName(tmp[i..])
      modifies path, cache, cache.chains
      ensures Returned(path[..], start, j, ll, ll')
      ensures LinkFree(env) ==> Delivers(Body(env, tmp, start, mode, isDir), path[..], j)
      ensures start == 0 ==> Slashed(path[..], j)
      decreases LINK_MAX + 1 - ll, |tmp|, 3
    {
      var save;
      j, ll', linkIsDir, save := ResolveOnDisk(path, start, tmp, i, ll, t, mode, isDir);
      if j >= 0 && save && start == 1 && cache.limit != 0 {
        if LinkFree(env) {
          ModeIrrelevant(env, tmp, mode, isDir, linkIsDir);
          assert path[..][..j] == path[..j];
        }
        Remember(tmp, path[..j], linkIsDir, t);
      }
    }

    method ResolveOnDisk(path: array<char>, start: nat, tmp: string, i: nat, ll: nat, t: int, mode: Mode, isDir: bool)
        returns (j: int, ll': nat, linkIsDir: bool, save: bool)
      requires Callable(path, start, |tmp|, ll) && path[..|tmp|] == tmp
      requires start < |tmp| && i == CompStart(tmp, start) && IsName(tmp[i..])
      modifies path, cache, cache.chains
      ensures Returned(path[..], start, j, ll, ll')
      ensures LinkFree(env) ==> Delivers(Body(env, tmp, start, mode, isDir), path[..], j)
      ensures LinkFree(env) && save && j >= 0 ==> !mode.Expand? && env.lstat(tmp) == Plain(linkIsDir)
      ensures start == 0 ==> Slashed(path[..], j)
      decreases LINK_MAX + 1 - ll, |tmp|, 2
    {
      BodyOfName(env, tmp, start, mode, isDir);
      save := mode != Expand;
      var node := if save then env.lstat(tmp) else Missing;
      ll', linkIsDir := ll, false;
      if save && node.Missing? {
        if mode == RealPath {
          return -1, ll, false, save;
        }
        save := false;
      }
      if save && !node.Plain? {
        j, ll', linkIsDir := FollowLink(path, tmp, i, ll, t, mode, isDir, node);
      } else {
        if save {
          linkIsDir := node.isDir;
          if isDir && !linkIsDir {
            return -1, ll, linkIsDir, save;
          }
        }
        j, ll' := ResolveParent(path, start, tmp, i, ll, t, if save then FilePath else mode);
      }
    }

    /** realpath_cache_add of an answer that keeps the promise of a bucket */
    method Remember(key: string, answer: string, directory: bool, t: int)
      requires Valid()
      requires IsAbsolute(answer) && |answer| < MAX_PATH_LEN
      requires LinkFree(env) ==>
        env.lstat(key) == Plain(directory) && Body(env, key, 1, FilePath, false) == Some(answer)
      modifies cache, cache.chains
      ensures Valid()
    {
      cache.Add(key, answer, directory, t);
    }

    /** Resolves the parent, puts the name back behind it */
    method ResolveParent(path: array<char>, start: nat, tmp: string, i: nat, ll: nat, t: int, mode: Mode)
        returns (j: int, ll': nat)
      requires Callable(path, start, |tmp|, ll) && path[..|tmp|] == tmp
      requires start < |tmp| && i == CompStart(tmp, start) && IsName(tmp[i..])
      modifies path, cache, cache.chains
      ensures Returned(path[..], start, j, ll, ll')
      ensures LinkFree(env) ==> Delivers(Parented(env, tmp, i, start, mode), path[..], j)
      ensures start == 0 ==> Slashed(path[..], j)
      decreases LINK_MAX + 1 - ll, |tmp|, 1
    {
      ll' := ll;
      if i - 1 <= start {
        j := start;
        assert path[..j] == Root(start);
      } else {
        assert path[..i - 1] == tmp[..i - 1];
        var directory;
        j, ll', directory := RealpathR(path, start, i - 1, ll, t, mode, true);
        assert j >= 0 ==> path[..j] == path[..][..j];
      }
      if j < 0 {
        return -1, ll';
      }
      if LinkFree(env) {
        ParentedIs(env, tmp, i, start, mode, path[..j]);
      }
      j := PutBack(path, start, j, tmp[i..]);
      assert j >= 0 ==> path[..][..j] == path[..j];
    }

    /** Copies the name behind its resolved parent, unless that would not fit */
    method PutBack(path: array<char>, start: nat, len: nat, name: string) returns (j: int)
      requires path.Length == MAX_PATH_LEN && start <= len < MAX_PATH_LEN
      requires IsName(name) && '/' !in name && |name| < MAX_PATH_LEN
      modifies path
      ensures
        var v := Append(old(path[..len]), start, name);
        if |v| < MAX_PATH_LEN - 1 then j == |v| && path[..j] == v else j == -1
      ensures j >= 0 && old(path[0]) == '/' && len > 0 ==> path[0] == '/'
      ensures start == 0 ==> Slashed(path[..], j)
    {
      ghost var p := path[..len];
      j := len;
      if j > start {
        path[j] := '/';
        j := j + 1;
        assert path[..j] == p + "/";
      }
      if j + |name| >= MAX_PATH_LEN - 1 {
        return -1;
      }
      ghost var front := path[..j];
      CopyInto(path, j, name);
      j := j + |name|;
      assert path[..j] == front + name;
      path[j] := '\0';
      assert len > 0 ==> path[..j][0] == front[0] == p[0];
      if start == 0 {
        NameEndsPlain(p, name, path[..]);
      }
    }

    /** A symbolic link: read it, splice a relative target behind the directory, start over */
    method FollowLink(path: array<char>, tmp: string, i: nat, ll: nat, t: int, mode: Mode, isDir: bool, node: Node)
        returns (j: int, ll': nat, linkIsDir: bool)
      requires Valid() && path.Length == MAX_PATH_LEN && ll <= LINK_MAX
      requires 1 < |tmp| < MAX_PATH_LEN && 1 <= i <= |tmp| && tmp[0] == '/'
      requires node == env.lstat(tmp) && !node.Missing? && !node.Plain?
      modifies path, cache, cache.chains
      ensures Returned(path[..], 1, j, ll, ll')
      decreases LINK_MAX + 1 - ll, |tmp|, 1
    {
      ll', linkIsDir := ll + 1, false;
      if ll' > LINK_MAX || node.BrokenLink? {
        return -1, ll', false;
      }
      var target := node.target;
      CopyInto(path, 0, target);
      j := |target|;
      path[j] := '\0';
      if path[0] == '/' {
        j, ll', linkIsDir := RealpathR(path, 1, j, ll', t, mode, isDir);
      } else {
        if i + j >= MAX_PATH_LEN - 1 {
          return -1, ll', false;
        }
        Splice(path, tmp[..i - 1], target);
        j, ll', linkIsDir := RealpathR(path, 1, i + j, ll', t, mode, isDir);
      }
    }

    /** memmove the target behind the directory it is relative to */
    method Splice(path: array<char>, directory: string, target: string)
      requires path.Length == MAX_PATH_LEN && |directory| + 1 + |target| < MAX_PATH_LEN
      requires directory == "" || directory[0] == '/'
      modifies path
      ensures path[..|directory| + 1 + |target|] == directory + "/" + target
      ensures path[0] == '/' && path[|directory| + 1 + |target|] == '\0'
    {
      CopyInto(path, |directory| + 1, target);
      ghost var end := |directory| + 1 + |target|;
      assert path[|directory| + 1..end] == target;
      ghost var rest := path[|directory|..];
      assert rest[1..1 + |target|] == target;
      CopyInto(path, 0, directory);
      assert path[|directory|..] == rest && path[..|directory|] == directory;
      path[|directory|] := '/';
      path[|directory| + 1 + |target|] := '\0';
      assert path[..|directory|] == directory;
      assert path[|directory| + 1..end] == target;
      Glued(path, directory, target);
    }
  }
}
