/** When resolution succeeds: which prefixes of a path the file system is asked about, and which
    answers end the resolution.  Together with the component-stack normal form this says what the
    resolver returns without following its recursion. */
module PathOutcome {
  import opened Wrappers
  import opened PathSpec

  /** A component that names something ends at `k` */
  ghost predicate NameEnd(s: string, start: nat, k: nat) {
    && start < k <= |s|
    && (k == |s| || s[k] == '/')
    && IsName(s[..k][CompStart(s[..k], start)..])
  }

  /** The application roots are tried on the whole path and on what stands before each slash that a
      name or a '..' follows */
  predicate RootsTried(s: string, m: nat)
    requires m <= |s|
  {
    m == |s| ||
    (s[m] == '/' && m + 1 < |s| && s[m + 1] != '/' && !(s[m + 1] == '.' && (m + 2 == |s| || s[m + 2] == '/')))
  }

  /** Resolution stops at an application root before it gets to the name that ends at `k` */
  ghost predicate Covered(e: Env, s: string, start: nat, k: nat, below: int) {
    exists m: nat :: k <= m <= |s| && start < m < below && RootsTried(s, m) && OnRoot(e.roots, s[..m])
  }

  /** No directory on the way is a file.  `below` bounds where roots are tried. */
  ghost predicate NoFileInTheWay(e: Env, s: string, start: nat, isDir: bool, below: int) {
    forall k: nat :: NameEnd(s, start, k) && (k < |s| || isDir) && !Covered(e, s, start, k, below) ==>
      e.lstat(s[..k]) != Plain(false)
  }

  ghost predicate LastNameEnd(s: string, start: nat, k: nat) {
    NameEnd(s, start, k) && forall m: nat :: NameEnd(s, start, m) ==> m <= k
  }

  /** The last name exists */
  ghost predicate LastExists(e: Env, s: string, start: nat, below: int) {
    forall k: nat :: LastNameEnd(s, start, k) && !Covered(e, s, start, k, below) ==> e.lstat(s[..k]) != Missing
  }

  ghost predicate PassesBelow(e: Env, s: string, start: nat, mode: Mode, isDir: bool, below: int) {
    mode.Expand? ||
    (NoFileInTheWay(e, s, start, isDir, below) && (mode.RealPath? ==> LastExists(e, s, start, below)))
  }

  /** What the file system must answer for a resolution to succeed */
  ghost predicate Passes(e: Env, s: string, start: nat, mode: Mode, isDir: bool) {
    PassesBelow(e, s, start, mode, isDir, |s| + 1)
  }

  // ---------- One component at a time ----------

  lemma {:induction false} NameEndsShort(s: string, start: nat, k: nat)
    requires start <= 1 && NameEnd(s, start, k)
    ensures start < |s|
    ensures CompStart(s, start) == 0 ==> k == |s| && IsName(s)
  {
    if CompStart(s, start) == 0 {
      assert s[..|s|] == s && s[0..] == s;
    }
  }

  /** The names of a path are those of its directory and, perhaps, its last component */
  lemma {:induction false} NameEnds(s: string, start: nat, k: nat)
    requires start <= 1 && start < |s| && 0 < CompStart(s, start)
    requires start == 1 ==> s[0] == '/'
    ensures
      var i := CompStart(s, start);
      NameEnd(s, start, k) <==> NameEnd(s[..i - 1], start, k) || (k == |s| && IsName(s[i..]))
  {
    var i := CompStart(s, start);
    var a := s[..i - 1];
    assert s[i - 1] == '/';
    if k <= i - 1 {
      assert a[..k] == s[..k];
    } else if k == |s| {
      assert s[..k] == s;
    }
  }

  /** So are the places where the roots are tried */
  lemma {:induction false} RootsTriedBefore(s: string, start: nat, m: nat)
    requires start <= 1 && start < |s| && 0 < CompStart(s, start) && m < |s|
    requires start == 1 ==> s[0] == '/'
    ensures
      var i := CompStart(s, start);
      if m < i - 1 then RootsTried(s, m) == RootsTried(s[..i - 1], m)
      else RootsTried(s, m) <==> m == i - 1 && s[i..] != "" && s[i..] != "."
  {
    var i := CompStart(s, start);
    assert s[i - 1] == '/';
    assert s[i..] == "." <==> |s| == i + 1 && s[i] == '.' by {
      assert |s| == i + 1 ==> s[i..] == [s[i]];
    }
  }

  predicate IsDot(c: string) {
    c == "" || c == "."
  }

  /** Where roots are tried on the directory of `s`: an empty or '.' component is passed over first */
  function BelowDirectory(s: string, start: nat): int
    requires start <= 1 && start < |s| && 0 < CompStart(s, start)
  {
    var i := CompStart(s, start);
    if IsDot(s[i..]) then i - 1 else i
  }

  lemma {:induction false} CoveredBefore(e: Env, s: string, start: nat, k: nat)
    requires start <= 1 && start < |s| && 0 < CompStart(s, start) && k < CompStart(s, start)
    requires start == 1 ==> s[0] == '/'
    ensures
      var i := CompStart(s, start);
      Covered(e, s, start, k, |s|) <==> Covered(e, s[..i - 1], start, k, BelowDirectory(s, start))
  {
    var i := CompStart(s, start);
    var a := s[..i - 1];
    if Covered(e, s, start, k, |s|) {
      var m: nat :| k <= m <= |s| && start < m < |s| && RootsTried(s, m) && OnRoot(e.roots, s[..m]);
      RootsTriedBefore(s, start, m);
      assert a[..m] == s[..m];
    }
    if Covered(e, a, start, k, BelowDirectory(s, start)) {
      var m: nat :| k <= m <= |a| && start < m < BelowDirectory(s, start) && RootsTried(a, m) && OnRoot(e.roots, a[..m]);
      RootsTriedBefore(s, start, m);
      assert a[..m] == s[..m];
    }
  }

  /** No file is in the way if none is on the way to the directory and the last name is none */
  lemma {:induction false} NoFileSplit(e: Env, s: string, start: nat, isDir: bool)
    requires start <= 1 && start < |s| && 0 < CompStart(s, start)
    requires start == 1 ==> s[0] == '/'
    ensures
      var i := CompStart(s, start);
      NoFileInTheWay(e, s, start, isDir, |s|) <==>
        && NoFileInTheWay(e, s[..i - 1], start, true, BelowDirectory(s, start))
        && (IsName(s[i..]) && isDir ==> e.lstat(s) != Plain(false))
  {
    var i := CompStart(s, start);
    var a := s[..i - 1];
    forall k: nat | k < i ensures s[..k] == a[..k] || k > |a| {
    }
    forall k: nat ensures NameEnd(s, start, k) <==> NameEnd(a, start, k) || (k == |s| && IsName(s[i..])) {
      NameEnds(s, start, k);
    }
    forall k: nat | k < i
      ensures Covered(e, s, start, k, |s|) <==> Covered(e, a, start, k, BelowDirectory(s, start))
    {
      CoveredBefore(e, s, start, k);
    }
    assert s[..|s|] == s;
  }

  lemma {:induction false} SameLast(s: string, a: string, start: nat, k: nat)
    requires forall m: nat :: NameEnd(s, start, m) == NameEnd(a, start, m)
    ensures LastNameEnd(s, start, k) == LastNameEnd(a, start, k)
  {
  }

  lemma {:induction false} WholeIsLast(s: string, start: nat, k: nat)
    requires NameEnd(s, start, |s|)
    ensures LastNameEnd(s, start, k) <==> k == |s|
  {
    if LastNameEnd(s, start, k) {
      assert NameEnd(s, start, k) && |s| <= k;
    }
  }

  lemma {:induction false} LastNameEnds(s: string, start: nat, k: nat)
    requires start <= 1 && start < |s| && 0 < CompStart(s, start)
    requires start == 1 ==> s[0] == '/'
    ensures
      var i := CompStart(s, start);
      LastNameEnd(s, start, k) <==> if IsName(s[i..]) then k == |s| else LastNameEnd(s[..i - 1], start, k)
  {
    var name, a := s[CompStart(s, start)..], s[..CompStart(s, start) - 1];
    if IsName(name) {
      NameEnds(s, start, |s|);
      WholeIsLast(s, start, k);
    } else {
      forall m: nat ensures NameEnd(s, start, m) == NameEnd(a, start, m) {
        NameEnds(s, start, m);
      }
      SameLast(s, a, start, k);
    }
  }

  lemma {:induction false} LastSplit(e: Env, s: string, start: nat)
    requires start <= 1 && start < |s| && 0 < CompStart(s, start)
    requires start == 1 ==> s[0] == '/'
    ensures
      var i := CompStart(s, start);
      LastExists(e, s, start, |s|) <==>
        if IsName(s[i..]) then e.lstat(s) != Missing
        else LastExists(e, s[..i - 1], start, BelowDirectory(s, start))
  {
    var i := CompStart(s, start);
    var a, below := s[..i - 1], BelowDirectory(s, start);
    forall k: nat
      ensures LastNameEnd(s, start, k) <==> if IsName(s[i..]) then k == |s| else LastNameEnd(a, start, k)
    {
      LastNameEnds(s, start, k);
    }
    assert s[..|s|] == s;
    if IsName(s[i..]) {
      assert LastNameEnd(s, start, |s|);
    } else {
      forall k: nat | LastNameEnd(a, start, k)
        ensures s[..k] == a[..k] && Covered(e, s, start, k, |s|) == Covered(e, a, start, k, below)
      {
        CoveredBefore(e, s, start, k);
      }
    }
  }

  // ---------- The theorem ----------

  lemma {:induction false} PassesShort(e: Env, s: string, start: nat, mode: Mode, isDir: bool)
    requires start <= 1 && LinkFree(e)
    requires |s| <= start || CompStart(s, start) == 0
    ensures Body(e, s, start, mode, isDir).Some? <==> PassesBelow(e, s, start, mode, isDir, |s|)
  {
    forall k: nat | NameEnd(s, start, k) ensures k == |s| && IsName(s) && start < |s| {
      NameEndsShort(s, start, k);
    }
    assert s[..|s|] == s && s[0..] == s;
    if start < |s| && IsName(s) {
      BodyOfName(e, s, start, mode, isDir);
      assert NameEnd(s, start, |s|);
    }
  }

  lemma {:induction false} PassesLonger(e: Env, s: string, start: nat, mode: Mode, isDir: bool)
    requires start <= 1 && LinkFree(e)
    requires start < |s| && 0 < CompStart(s, start) && (start == 1 <==> s[0] == '/')
    requires
      var a := s[..CompStart(s, start) - 1];
      && (Body(e, a, start, mode, true).Some? <==> PassesBelow(e, a, start, mode, true, |a|))
      && (Resolve(e, a, start, mode, true).Some? <==> Passes(e, a, start, mode, true))
      && (Resolve(e, a, start, FilePath, true).Some? <==> Passes(e, a, start, FilePath, true))
    ensures Body(e, s, start, mode, isDir).Some? <==> PassesBelow(e, s, start, mode, isDir, |s|)
  {
    var i := CompStart(s, start);
    var a, name := s[..i - 1], s[i..];
    if IsDot(name) {
      BodyOfDot(e, s, start, mode, isDir);
      PassesDirectory(e, s, start, mode, isDir);
    } else if name == ".." {
      BodyOfDotDot(e, s, start, mode, isDir);
      PassesDirectory(e, s, start, mode, isDir);
      if |a| <= start {
        PassesAtTop(e, a, start, mode);
      }
    } else {
      BodyOfName(e, s, start, mode, isDir);
      PassesName(e, s, start, mode, isDir);
      if |a| <= start {
        PassesAtTop(e, a, start, FilePath);
      }
    }
  }

  /** Where the last component is no name, everything depends on the directory */
  lemma {:induction false} PassesDirectory(e: Env, s: string, start: nat, mode: Mode, isDir: bool)
    requires start <= 1 && start < |s| && 0 < CompStart(s, start)
    requires start == 1 ==> s[0] == '/'
    requires !IsName(s[CompStart(s, start)..])
    ensures
      PassesBelow(e, s, start, mode, isDir, |s|) ==
      PassesBelow(e, s[..CompStart(s, start) - 1], start, mode, true, BelowDirectory(s, start))
  {
    NoFileSplit(e, s, start, isDir);
    LastSplit(e, s, start);
  }

  /** Where it is one, the name is asked about, and the directory only whether a file is in the way */
  lemma {:induction false} PassesName(e: Env, s: string, start: nat, mode: Mode, isDir: bool)
    requires start <= 1 && start < |s| && 0 < CompStart(s, start)
    requires start == 1 ==> s[0] == '/'
    requires LinkFree(e) && IsName(s[CompStart(s, start)..])
    ensures
      PassesBelow(e, s, start, mode, isDir, |s|) <==>
        && !Rejected(e, s, mode, isDir)
        && (mode.Expand? || Passes(e, s[..CompStart(s, start) - 1], start, FilePath, true))
  {
    NoFileSplit(e, s, start, isDir);
    LastSplit(e, s, start);
  }

  /** Before the first component there is nothing to ask */
  lemma {:induction false} PassesAtTop(e: Env, a: string, start: nat, mode: Mode)
    requires |a| <= start
    ensures Passes(e, a, start, mode, true)
  {
  }

  /** Resolution succeeds, in any mode and with any application roots, exactly when the file system
      passes it */
  lemma {:induction false} SucceedsExactly(e: Env, s: string, start: nat, mode: Mode, isDir: bool)
    requires start <= 1 && LinkFree(e)
    requires s != "" ==> (start == 1 <==> s[0] == '/')
    ensures Body(e, s, start, mode, isDir).Some? <==> PassesBelow(e, s, start, mode, isDir, |s|)
    ensures Resolve(e, s, start, mode, isDir).Some? <==> Passes(e, s, start, mode, isDir)
    decreases |s|
  {
    if |s| <= start || CompStart(s, start) == 0 {
      PassesShort(e, s, start, mode, isDir);
    } else {
      var a := s[..CompStart(s, start) - 1];
      assert a != "" ==> a[0] == s[0];
      SucceedsExactly(e, a, start, mode, true);
      SucceedsExactly(e, a, start, FilePath, true);
      PassesLonger(e, s, start, mode, isDir);
    }
    PassesAtRoot(e, s, start, mode, isDir);
  }

  lemma {:induction false} PassesAtRoot(e: Env, s: string, start: nat, mode: Mode, isDir: bool)
    requires start <= 1
    requires Body(e, s, start, mode, isDir).Some? <==> PassesBelow(e, s, start, mode, isDir, |s|)
    ensures Resolve(e, s, start, mode, isDir).Some? <==> Passes(e, s, start, mode, isDir)
  {
    RootFirst(e, s, start, mode, isDir);
  }

  /** A root that the whole path is on covers every name */
  lemma {:induction false} RootFirst(e: Env, s: string, start: nat, mode: Mode, isDir: bool)
    ensures
      if start < |s| && OnRoot(e.roots, s) then Passes(e, s, start, mode, isDir)
      else Passes(e, s, start, mode, isDir) == PassesBelow(e, s, start, mode, isDir, |s|)
  {
    assert s[..|s|] == s;
    if start < |s| && OnRoot(e.roots, s) {
      forall k: nat | NameEnd(s, start, k) ensures Covered(e, s, start, k, |s| + 1) {
        assert RootsTried(s, |s|);
      }
    } else {
      forall k: nat ensures Covered(e, s, start, k, |s| + 1) == Covered(e, s, start, k, |s|) {
      }
    }
  }

  /** What the file system answers only decides whether the expansion of the path is given out */
  lemma {:induction false} OnlyWithheld(e: Env, s: string, start: nat, mode: Mode, isDir: bool, dir: bool)
    requires start <= 1
    ensures Body(e, s, start, mode, isDir).Some? ==>
      Body(e, s, start, mode, isDir) == Body(e, s, start, Expand, dir)
    ensures Resolve(e, s, start, mode, isDir).Some? ==>
      Resolve(e, s, start, mode, isDir) == Resolve(e, s, start, Expand, dir)
    decreases |s|
  {
    if start < |s| && 0 < CompStart(s, start) {
      var a := s[..CompStart(s, start) - 1];
      OnlyWithheld(e, a, start, mode, true, true);
      OnlyWithheld(e, a, start, FilePath, true, true);
      WithheldLonger(e, s, start, mode, isDir, dir);
    } else {
      WithheldShort(e, s, start, mode, isDir, dir);
    }
    WithheldAtRoot(e, s, start, mode, isDir, dir);
  }

  lemma {:induction false} WithheldAtRoot(e: Env, s: string, start: nat, mode: Mode, isDir: bool, dir: bool)
    requires start <= 1
    requires Body(e, s, start, mode, isDir).Some? ==>
      Body(e, s, start, mode, isDir) == Body(e, s, start, Expand, dir)
    ensures Resolve(e, s, start, mode, isDir).Some? ==>
      Resolve(e, s, start, mode, isDir) == Resolve(e, s, start, Expand, dir)
  {
  }

  lemma {:induction false} WithheldShort(e: Env, s: string, start: nat, mode: Mode, isDir: bool, dir: bool)
    requires start <= 1 && (|s| <= start || CompStart(s, start) == 0)
    ensures Body(e, s, start, mode, isDir).Some? ==>
      Body(e, s, start, mode, isDir) == Body(e, s, start, Expand, dir)
  {
    if start < |s| {
      assert s[0..] == s;
      if IsName(s) {
        BodyOfName(e, s, start, mode, isDir);
        BodyOfName(e, s, start, Expand, dir);
      }
    }
  }

  lemma {:induction false} WithheldLonger(e: Env, s: string, start: nat, mode: Mode, isDir: bool, dir: bool)
    requires start <= 1 && start < |s| && 0 < CompStart(s, start)
    requires
      var a := s[..CompStart(s, start) - 1];
      && (Body(e, a, start, mode, true).Some? ==> Body(e, a, start, mode, true) == Body(e, a, start, Expand, true))
      && (Resolve(e, a, start, mode, true).Some? ==>
            Resolve(e, a, start, mode, true) == Resolve(e, a, start, Expand, true))
      && (Resolve(e, a, start, FilePath, true).Some? ==>
            Resolve(e, a, start, FilePath, true) == Resolve(e, a, start, Expand, true))
    ensures Body(e, s, start, mode, isDir).Some? ==>
      Body(e, s, start, mode, isDir) == Body(e, s, start, Expand, dir)
  {
    var name := s[CompStart(s, start)..];
    if IsDot(name) {
      BodyOfDot(e, s, start, mode, isDir);
      BodyOfDot(e, s, start, Expand, dir);
    } else if name == ".." {
      BodyOfDotDot(e, s, start, mode, isDir);
      BodyOfDotDot(e, s, start, Expand, dir);
    } else {
      BodyOfName(e, s, start, mode, isDir);
      BodyOfName(e, s, start, Expand, dir);
    }
  }

  /** Without application roots, and for relative paths, this is all there is to say about a
      resolution: its condition and its value */
  lemma {:induction false} ResolvesExactly(e: Env, s: string, start: nat, mode: Mode, isDir: bool)
    requires start <= 1 && LinkFree(e) && OffRoots(e, start)
    requires s != "" ==> (start == 1 <==> s[0] == '/')
    ensures Resolve(e, s, start, mode, isDir) ==
      if Passes(e, s, start, mode, isDir) then Some(Normal(s, start)) else None
  {
    SucceedsExactly(e, s, start, mode, isDir);
    Lexical(e, s, start, mode, isDir);
  }

  /** Without application roots: FILEPATH succeeds exactly when no name on the way is a file, REALPATH
      when moreover the last name exists */
  lemma {:induction false} SucceedsWithoutRoots(e: Env, s: string, start: nat, isDir: bool)
    requires start <= 1 && LinkFree(e) && e.roots == []
    requires s != "" ==> (start == 1 <==> s[0] == '/')
    ensures Resolve(e, s, start, FilePath, isDir).Some? <==>
      forall k: nat :: NameEnd(s, start, k) && (k < |s| || isDir) ==> e.lstat(s[..k]) != Plain(false)
    ensures Resolve(e, s, start, RealPath, isDir).Some? <==>
      && (forall k: nat :: NameEnd(s, start, k) && (k < |s| || isDir) ==> e.lstat(s[..k]) != Plain(false))
      && (forall k: nat :: LastNameEnd(s, start, k) ==> e.lstat(s[..k]) != Missing)
  {
    SucceedsExactly(e, s, start, FilePath, isDir);
    SucceedsExactly(e, s, start, RealPath, isDir);
    var below := |s| + 1;
    forall k: nat ensures !Covered(e, s, start, k, below) {
    }
  }
}
