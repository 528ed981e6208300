/** Extension modules: the dependency sort, the ordered startup and the handler lists. */
module ModuleOrder {
  import opened Wrappers

  datatype DepKind = Required | Conflicts | Optional

  datatype Dep = Dep(name: string, kind: DepKind)

  datatype Module = Module(name: string, deps: seq<Dep>, started: bool,
                           requestStartup: bool, requestShutdown: bool, postDeactivate: bool)

  function LowerChar(c: char): char {
    if 'A' <= c <= 'Z' then (c as int + 32) as char else c
  }

  function Lower(s: string): string {
    seq(|s|, i requires 0 <= i < |s| => LowerChar(s[i]))
  }

  /** strcasecmp == 0; the registry also keys modules by their name in lower case */
  predicate SameName(a: string, b: string) {
    Lower(a) == Lower(b)
  }

  // ---------- The dependency relation ----------

  predicate DependsOn(m: Module, r: Module) {
    exists d :: 0 <= d < |m.deps| && !m.deps[d].kind.Conflicts? && SameName(m.deps[d].name, r.name)
  }

  /** The dependencies the sort respects: a started module has none left, a module's mention of
      itself does not matter */
  predicate Edge(m: Module, r: Module) {
    !m.started && DependsOn(m, r) && !SameName(m.name, r.name)
  }

  ghost predicate Distinct(ms: seq<Module>) {
    forall i, j :: 0 <= i < j < |ms| ==> !SameName(ms[i].name, ms[j].name)
  }

  ghost predicate Path(ms: seq<Module>, p: seq<Module>) {
    && (forall t :: 0 <= t < |p| ==> p[t] in ms)
    && (forall t :: 0 <= t < |p| - 1 ==> Edge(p[t], p[t + 1]))
  }

  ghost predicate Acyclic(ms: seq<Module>) {
    forall p :: |p| >= 2 && Path(ms, p) ==> p[0] != p[|p| - 1]
  }

  /** No module stands before one it depends on */
  ghost predicate Ordered(ms: seq<Module>) {
    forall i, j :: 0 <= i < j < |ms| ==> !Edge(ms[i], ms[j])
  }

  /** An order exists only where there is no cycle: on a cyclic relation the sort can never stop,
      since it stops in an ordered array */
  lemma {:induction false} OrderedIsAcyclic(ms: seq<Module>)
    requires Distinct(ms) && Ordered(ms)
    ensures Acyclic(ms)
  {
    forall p | |p| >= 2 && Path(ms, p) ensures p[0] != p[|p| - 1] {
      var i :| 0 <= i < |ms| && ms[i] == p[0];
      var j := PathDescends(ms, p, i);
      assert j != i && !SameName(ms[j].name, ms[i].name);
    }
  }

  lemma {:induction false} PathSlice(ms: seq<Module>, p: seq<Module>, lo: nat, hi: nat)
    requires Path(ms, p) && lo <= hi <= |p|
    ensures Path(ms, p[lo..hi])
  {
  }

  lemma {:induction false} PathExtends(ms: seq<Module>, p: seq<Module>, r: Module)
    requires Path(ms, p) && p != [] && r in ms && Edge(p[|p| - 1], r)
    ensures Path(ms, p + [r])
  {
  }

  /** Along a path positions go down */
  lemma {:induction false} PathDescends(ms: seq<Module>, p: seq<Module>, i: nat) returns (j: nat)
    requires Distinct(ms) && Ordered(ms)
    requires |p| >= 2 && Path(ms, p) && i < |ms| && ms[i] == p[0]
    ensures j < i && ms[j] == p[|p| - 1]
  {
    assert p[1] in ms;
    var k: nat :| k < |ms| && ms[k] == p[1];
    assert Edge(p[0], p[1]);
    assert k < i;
    if |p| == 2 {
      j := k;
    } else {
      PathSlice(ms, p, 1, |p|);
      assert p[1..|p|] == p[1..];
      j := PathDescends(ms, p[1..], k);
    }
  }

  // ---------- The sort ----------

  /** On an acyclic relation a path never returns, so it is no longer than the list */
  lemma {:induction false} PathBounded(ms: seq<Module>, p: seq<Module>)
    requires Acyclic(ms) && Path(ms, p)
    ensures |p| <= |ms|
  {
    forall s, t | 0 <= s < t < |p| ensures p[s] != p[t] {
      PathNeverReturns(ms, p, s, t);
    }
    DistinctFits(ms, p);
  }

  lemma {:induction false} PathNeverReturns(ms: seq<Module>, p: seq<Module>, s: nat, t: nat)
    requires Acyclic(ms) && Path(ms, p) && s < t < |p|
    ensures p[s] != p[t]
  {
    var q := p[s..t + 1];
    assert |q| == t - s + 1 && q[0] == p[s] && q[t - s] == p[t];
    PathSlice(ms, p, s, t + 1);
    assert q[0] != q[|q| - 1];
  }

  lemma {:induction false} DistinctFits<T>(ms: seq<T>, p: seq<T>)
    requires forall s, t :: 0 <= s < t < |p| ==> p[s] != p[t]
    requires forall s :: 0 <= s < |p| ==> p[s] in ms
    ensures |p| <= |ms|
  {
    if p != [] {
      var x := p[|p| - 1];
      var k :| 0 <= k < |ms| && ms[k] == x;
      var rest := ms[..k] + ms[k + 1..];
      forall s | 0 <= s < |p| - 1 ensures p[s] in rest {
        var m :| 0 <= m < |ms| && ms[m] == p[s];
        assert rest[if m < k then m else m - 1] == p[s];
      }
      DistinctFits(rest, p[..|p| - 1]);
    }
  }

  /** The two inner loops: the first later module that the dependency list of `a[b1]` names */
  method FindDependency(a: array<Module>, b1: nat) returns (b2: int)
    requires b1 < a.Length
    ensures b2 == -1 ==> a[b1].started || forall j :: b1 < j < a.Length ==> !DependsOn(a[b1], a[j])
    ensures b2 != -1 ==> b1 < b2 < a.Length && !a[b1].started && DependsOn(a[b1], a[b2])
  {
    var m := a[b1];
    if !m.started {
      var d := 0;
      while d < |m.deps|
        invariant 0 <= d <= |m.deps|
        invariant forall j, c :: b1 < j < a.Length && 0 <= c < d && !m.deps[c].kind.Conflicts? ==>
          !SameName(m.deps[c].name, a[j].name)
      {
        var dep := m.deps[d];
        if dep.kind == Required || dep.kind == Optional {
          b2 := b1 + 1;
          while b2 < a.Length
            invariant b1 < b2 <= a.Length
            invariant forall j :: b1 < j < b2 ==> !SameName(dep.name, a[j].name)
          {
            if SameName(dep.name, a[b2].name) {
              return;
            }
            b2 := b2 + 1;
          }
        }
        d := d + 1;
      }
    }
    b2 := -1;
  }

  /** The slots before `b1` are final */
  ghost predicate Settled(ms: seq<Module>, b1: nat) {
    forall i, j :: 0 <= i < b1 && i < j < |ms| ==> !Edge(ms[i], ms[j])
  }

  lemma {:induction false} SwapKeepsSettled(before: seq<Module>, after: seq<Module>, b1: nat, b2: nat)
    requires b1 < b2 < |before| && after == before[b1 := before[b2]][b2 := before[b1]]
    requires Settled(before, b1)
    ensures Settled(after, b1)
  {
  }

  /** The state of the sort at slot `b1`: a permutation of `ms` whose slots before `b1` are final;
      `path` leads to the module now in slot `b1` */
  ghost predicate Sorting(ms: seq<Module>, now: seq<Module>, b1: nat, path: seq<Module>) {
    && multiset(now) == multiset(ms)
    && Distinct(now) && Settled(now, b1)
    && Path(ms, path) && (path != [] ==> b1 < |now| && path[|path| - 1] == now[b1])
  }

  lemma {:induction false} SettleNext(ms: seq<Module>, now: seq<Module>, path: seq<Module>, b1: nat)
    requires b1 < |now| && Sorting(ms, now, b1, path)
    requires now[b1].started || forall j :: b1 < j < |now| ==> !DependsOn(now[b1], now[j])
    ensures Sorting(ms, now, b1 + 1, [])
  {
  }

  lemma {:induction false} AllSettled(ms: seq<Module>)
    requires Settled(ms, |ms|)
    ensures Ordered(ms)
  {
  }

  /** No module that has not started names, as required or optional, a later one */
  lemma {:induction false} OrderedMeans(ms: seq<Module>)
    requires Distinct(ms) && Ordered(ms)
    ensures forall i, j, d :: 0 <= i < j < |ms| && !ms[i].started && 0 <= d < |ms[i].deps| &&
                              ms[i].deps[d].kind != Conflicts ==>
              !SameName(ms[i].deps[d].name, ms[j].name)
  {
    forall i, j, d | 0 <= i < j < |ms| && !ms[i].started && 0 <= d < |ms[i].deps| && ms[i].deps[d].kind != Conflicts
      ensures !SameName(ms[i].deps[d].name, ms[j].name)
    {
      assert !Edge(ms[i], ms[j]) && !SameName(ms[i].name, ms[j].name);
    }
  }

  /** zend_sort_modules.  `path` is the chain of dependencies that was swapped into the current
      slot so far: each `try_again` makes it longer, and a cycle-free path cannot grow for ever. */
  method SortModules(a: array<Module>)
    requires Distinct(a[..]) && Acyclic(a[..])
    modifies a
    ensures multiset(a[..]) == multiset(old(a[..]))
    ensures Distinct(a[..]) && Ordered(a[..])
    ensures forall i, j, d :: 0 <= i < j < a.Length && !a[i].started && 0 <= d < |a[i].deps| &&
                              a[i].deps[d].kind != Conflicts ==>
              !SameName(a[i].deps[d].name, a[j].name)
  {
    ghost var ms := a[..];
    var b1 := 0;
    ghost var path := [];
    while b1 < a.Length
      invariant 0 <= b1 <= a.Length
      invariant Sorting(ms, a[..], b1, path)
      decreases a.Length - b1, a.Length - |path|
    {
      var b2 := FindDependency(a, b1);
      if b2 != -1 {
        path := TryAgain(ms, a, path, b1, b2);
      } else {
        SettleNext(ms, a[..], path, b1);
        b1 := b1 + 1;
        path := [];
      }
    }
    AllSettled(a[..]);
    OrderedMeans(a[..]);
  }

  /** Swaps the dependency into slot `b1`, which is then tried again */
  method TryAgain(ghost ms: seq<Module>, a: array<Module>, ghost path: seq<Module>, b1: nat, b2: nat)
      returns (ghost longer: seq<Module>)
    requires Acyclic(ms) && Sorting(ms, a[..], b1, path)
    requires b1 < b2 < a.Length && !a[b1].started && DependsOn(a[b1], a[b2])
    modifies a
    ensures Sorting(ms, a[..], b1, longer)
    ensures |path| < |longer| <= a.Length
  {
    longer := ExtendPath(ms, a[..], path, b1, b2);
    SwapKeepsSettled(a[..], a[..][b1 := a[b2]][b2 := a[b1]], b1, b2);
    Swap(a, b1, b2);
  }

  /** The dependency that a swap brings to slot `b1` continues the path, which stays short enough */
  lemma {:induction false} ExtendPath(ms: seq<Module>, now: seq<Module>, path: seq<Module>, b1: nat, b2: nat)
      returns (longer: seq<Module>)
    requires Acyclic(ms) && multiset(now) == multiset(ms) && Distinct(now)
    requires b1 < b2 < |now| && !now[b1].started && DependsOn(now[b1], now[b2])
    requires Path(ms, path) && (path != [] ==> path[|path| - 1] == now[b1])
    ensures |path| < |longer| <= |now|
    ensures Path(ms, longer) && longer[|longer| - 1] == now[b2]
  {
    SameMembers(now, ms);
    assert now[b1] in now && now[b2] in now;
    assert Edge(now[b1], now[b2]);
    var here := if path == [] then [now[b1]] else path;
    PathExtends(ms, here, now[b2]);
    longer := here + [now[b2]];
    PathBounded(ms, longer);
  }

  lemma {:induction false} SameMembers<T>(a: seq<T>, b: seq<T>)
    requires multiset(a) == multiset(b)
    ensures forall x :: x in a <==> x in b
    ensures |a| == |b|
  {
    forall x ensures x in a <==> x in b {
      assert x in a <==> x in multiset(a);
      assert x in b <==> x in multiset(b);
    }
    assert |a| == |multiset(a)|;
    assert |b| == |multiset(b)|;
  }

  method Swap(a: array<Module>, i: nat, j: nat)
    requires i < j < a.Length && Distinct(a[..])
    modifies a
    ensures a[..] == old(a[..][i := a[j]][j := a[i]])
    ensures multiset(a[..]) == multiset(old(a[..]))
    ensures Distinct(a[..])
  {
    a[i], a[j] := a[j], a[i];
  }

  // ---------- Startup ----------

  /** zend_hash_find on the registry, and the found module has started */
  predicate RequirementMet(ms: seq<Module>, d: Dep) {
    !d.kind.Required? || exists r :: 0 <= r < |ms| && SameName(ms[r].name, d.name) && ms[r].started
  }

  predicate RequirementsMet(ms: seq<Module>, m: Module) {
    forall d :: 0 <= d < |m.deps| ==> RequirementMet(ms, m.deps[d])
  }

  /** What zend_startup_module_ex does to module `k`: it counts as started while its own
      requirements are looked up, a missing requirement takes that back, a failing startup
      function does not */
  function StartOne(ms: seq<Module>, k: nat, startupOk: string -> bool): (bool, seq<Module>)
    requires k < |ms|
  {
    var m := ms[k];
    var ms' := ms[k := m.(started := true)];
    if m.started then (true, ms)
    else if !RequirementsMet(ms', m) then (false, ms)
    else (startupOk(m.name), ms')
  }

  /** What zend_hash_apply makes of it: FAILURE is -1, which has the REMOVE and the STOP bit set */
  function StartFrom(ms: seq<Module>, k: nat, startupOk: string -> bool): seq<Module>
    requires k <= |ms|
    decreases |ms| - k
  {
    if k == |ms| then ms
    else
      var (ok, ms') := StartOne(ms, k, startupOk);
      if ok then StartFrom(ms', k + 1, startupOk) else ms'[..k] + ms'[k + 1..]
  }

  function AllStarted(ms: seq<Module>): (r: seq<Module>)
    ensures |r| == |ms|
    ensures forall i :: 0 <= i < |ms| ==> r[i] == ms[i].(started := true)
  {
    seq(|ms|, i requires 0 <= i < |ms| => ms[i].(started := true))
  }

  /** Every required module is in the registry */
  ghost predicate AllRegistered(ms: seq<Module>) {
    forall i, d :: 0 <= i < |ms| && 0 <= d < |ms[i].deps| && ms[i].deps[d].kind.Required? ==>
      exists r :: 0 <= r < |ms| && SameName(ms[r].name, ms[i].deps[d].name)
  }

  /** Why a module does not come up: it requires a name that no module in the registry has, or its
      startup function fails.  Started modules are left alone. */
  ghost predicate Blocked(ms: seq<Module>, m: Module, startupOk: string -> bool) {
    !m.started &&
    (!startupOk(m.name) || exists d :: 0 <= d < |m.deps| && Unregistered(ms, m.deps[d]))
  }

  ghost predicate Unregistered(ms: seq<Module>, d: Dep) {
    d.kind.Required? && forall r :: 0 <= r < |ms| ==> !SameName(ms[r].name, d.name)
  }

  ghost predicate FirstBlocked(ms: seq<Module>, k: nat, startupOk: string -> bool) {
    && k < |ms| && Blocked(ms, ms[k], startupOk)
    && forall j :: 0 <= j < k ==> !Blocked(ms, ms[j], startupOk)
  }

  /** The outcome of startup: everything up to the first module that does not come up has started,
      that module is gone, and nothing behind it was touched */
  ghost predicate StartupOutcome(order: seq<Module>, startupOk: string -> bool, after: seq<Module>) {
    && (forall k: nat :: FirstBlocked(order, k, startupOk) ==> after == AllStarted(order[..k]) + order[k + 1..])
    && ((forall j :: 0 <= j < |order| ==> !Blocked(order, order[j], startupOk)) ==> after == AllStarted(order))
  }

  /** A requirement that no started module meets, nor module `k` itself */
  ghost predicate NotStarted(ms: seq<Module>, k: nat, d: Dep) {
    d.kind.Required? && forall r :: 0 <= r < |ms| && SameName(ms[r].name, d.name) ==> r != k && !ms[r].started
  }

  /** The three ends of starting one module */
  lemma {:induction false} StartOneCases(ms: seq<Module>, k: nat, startupOk: string -> bool)
    requires k < |ms|
    ensures
      var m, ms' := ms[k], ms[k := ms[k].(started := true)];
      var missing := exists d :: 0 <= d < |m.deps| && NotStarted(ms, k, m.deps[d]);
      StartOne(ms, k, startupOk) ==
        if m.started then (true, ms) else if missing then (false, ms) else (startupOk(m.name), ms')
  {
    var m, ms' := ms[k], ms[k := ms[k].(started := true)];
    forall d | 0 <= d < |m.deps| && m.deps[d].kind.Required?
      ensures RequirementMet(ms', m.deps[d]) <==> !NotStarted(ms, k, m.deps[d])
    {
      if r :| 0 <= r < |ms| && SameName(ms[r].name, m.deps[d].name) && !(r != k && !ms[r].started) {
        assert SameName(ms'[r].name, m.deps[d].name) && ms'[r].started;
      }
    }
  }

  lemma {:induction false} StartNext(order: seq<Module>, k: nat, startupOk: string -> bool)
    requires Distinct(order) && Ordered(order) && k < |order|
    ensures
      var now := AllStarted(order[..k]) + order[k..];
      var next := AllStarted(order[..k + 1]) + order[k + 1..];
      StartOne(now, k, startupOk).0 == !Blocked(order, order[k], startupOk)
      && (StartOne(now, k, startupOk).0 ==> StartOne(now, k, startupOk).1 == next)
      && (!StartOne(now, k, startupOk).0 ==>
            StartOne(now, k, startupOk).1[..k] + StartOne(now, k, startupOk).1[k + 1..] ==
            AllStarted(order[..k]) + order[k + 1..])
  {
    var now := AllStarted(order[..k]) + order[k..];
    var next := AllStarted(order[..k + 1]) + order[k + 1..];
    var m := order[k];
    assert now[k] == m;
    assert next == now[k := m.(started := true)];
    if m.started {
      assert m.(started := true) == m;
    }
    MetWhenRegistered(order, k, next);
  }

  /** When its turn comes in an ordered registry, a module finds started what is registered at all */
  lemma {:induction false} MetWhenRegistered(order: seq<Module>, k: nat, next: seq<Module>)
    requires Distinct(order) && Ordered(order) && k < |order|
    requires next == AllStarted(order[..k + 1]) + order[k + 1..]
    ensures !order[k].started ==>
      (RequirementsMet(next, order[k]) <==>
        !exists d :: 0 <= d < |order[k].deps| && Unregistered(order, order[k].deps[d]))
  {
    var m := order[k];
    forall r | 0 <= r < |order| ensures next[r].name == order[r].name && (r <= k ==> next[r].started) {
    }
    if !m.started {
      forall d | 0 <= d < |m.deps| && m.deps[d].kind.Required?
        ensures RequirementMet(next, m.deps[d]) <==> !Unregistered(order, m.deps[d])
      {
        if r :| 0 <= r < |order| && SameName(order[r].name, m.deps[d].name) {
          assert DependsOn(m, order[r]);
          assert r <= k;
          assert SameName(next[r].name, m.deps[d].name) && next[r].started;
        }
      }
    }
  }

  /** Startup of an ordered registry, whatever is missing and whatever fails */
  lemma {:induction false} StartupExact(order: seq<Module>, k: nat, startupOk: string -> bool)
    requires Distinct(order) && Ordered(order) && k <= |order|
    requires forall j :: 0 <= j < k ==> !Blocked(order, order[j], startupOk)
    ensures StartupOutcome(order, startupOk, StartFrom(AllStarted(order[..k]) + order[k..], k, startupOk))
    decreases |order| - k
  {
    var now := AllStarted(order[..k]) + order[k..];
    if k == |order| {
      assert order[..k] == order;
      assert now == AllStarted(order);
    } else {
      StartNext(order, k, startupOk);
      if Blocked(order, order[k], startupOk) {
        forall n: nat | FirstBlocked(order, n, startupOk) ensures n == k {
        }
      } else {
        StartupExact(order, k + 1, startupOk);
      }
    }
  }

  /** In an ordered registry no module is rejected: everything starts, nothing is removed */
  lemma {:induction false} OrderedStartup(order: seq<Module>, k: nat, startupOk: string -> bool)
    requires Distinct(order) && Ordered(order) && AllRegistered(order)
    requires forall i :: 0 <= i < |order| ==> startupOk(order[i].name)
    requires k <= |order|
    ensures StartFrom(AllStarted(order[..k]) + order[k..], k, startupOk) == AllStarted(order)
  {
    forall j | 0 <= j < |order| ensures !Blocked(order, order[j], startupOk) {
      forall d | 0 <= d < |order[j].deps| ensures !Unregistered(order, order[j].deps[d]) {
      }
    }
    StartupExact(order, k, startupOk);
  }

  lemma {:induction false} StartsAll(before: seq<Module>, order: seq<Module>, startupOk: string -> bool)
    requires multiset(before) == multiset(order) && AllRegistered(before)
    requires Distinct(order) && Ordered(order)
    requires forall m :: m in before ==> startupOk(m.name)
    ensures StartFrom(order, 0, startupOk) == AllStarted(order)
  {
    SameMembers(before, order);
    RegisteredAnyOrder(before, order);
    OrderedStartup(order, 0, startupOk);
    assert AllStarted(order[..0]) + order[0..] == order;
  }

  // ---------- The handler lists ----------

  function Filter(ms: seq<Module>, p: Module -> bool): seq<Module> {
    if ms == [] then []
    else Filter(ms[..|ms| - 1], p) + if p(ms[|ms| - 1]) then [ms[|ms| - 1]] else []
  }

  function Reverse(ms: seq<Module>): (r: seq<Module>)
    ensures |r| == |ms|
    ensures forall i :: 0 <= i < |ms| ==> r[i] == ms[|ms| - 1 - i]
  {
    seq(|ms|, i requires 0 <= i < |ms| => ms[|ms| - 1 - i])
  }

  lemma {:induction false} FilterLength(ms: seq<Module>, k: nat, p: Module -> bool)
    requires k <= |ms|
    ensures Filter(ms[..k], p) <= Filter(ms, p)
    decreases |ms| - k
  {
    if k == |ms| {
      assert ms[..k] == ms;
    } else {
      FilterLength(ms[..|ms| - 1], k, p);
      assert ms[..|ms| - 1][..k] == ms[..k];
    }
  }

  lemma {:induction false} FilterNext(ms: seq<Module>, k: nat, p: Module -> bool)
    requires k < |ms|
    ensures Filter(ms[..k + 1], p) == Filter(ms[..k], p) + if p(ms[k]) then [ms[k]] else []
    ensures |Filter(ms[..k + 1], p)| <= |Filter(ms, p)|
  {
    assert ms[..k + 1][..k] == ms[..k];
    FilterLength(ms, k + 1, p);
  }

  /** `picked` holds the modules with `p`, all of them, in their order: `at` says where they stand */
  ghost predicate Picks(ms: seq<Module>, p: Module -> bool, at: seq<nat>, picked: seq<Module>) {
    && |at| == |picked|
    && (forall k :: 0 <= k < |at| ==> at[k] < |ms| && picked[k] == ms[at[k]] && p(picked[k]))
    && (forall k, l :: 0 <= k < l < |at| ==> at[k] < at[l])
    && (forall i :: 0 <= i < |ms| && p(ms[i]) ==> i in at)
  }

  lemma {:induction false} PicksNext(ms: seq<Module>, p: Module -> bool, at: seq<nat>, picked: seq<Module>)
    requires ms != [] && Picks(ms[..|ms| - 1], p, at, picked)
    ensures
      var n := |ms| - 1;
      if p(ms[n]) then Picks(ms, p, at + [n], picked + [ms[n]]) else Picks(ms, p, at, picked)
  {
    var n := |ms| - 1;
    assert forall i :: 0 <= i < n ==> ms[..n][i] == ms[i];
    assert (at + [n])[|at|] == n;
  }

  /** What a list of handlers is: the modules that have the handler, all of them, in registry order */
  lemma {:induction false} FilterMeans(ms: seq<Module>, p: Module -> bool) returns (at: seq<nat>)
    ensures Picks(ms, p, at, Filter(ms, p))
  {
    at := [];
    if ms != [] {
      at := FilterMeans(ms[..|ms| - 1], p);
      PicksNext(ms, p, at, Filter(ms[..|ms| - 1], p));
      at := at + if p(ms[|ms| - 1]) then [|ms| - 1] else [];
    }
  }

  /** Which modules are in which list of handlers */
  lemma {:induction false} HandlersOf(ms: seq<Module>) returns (up: seq<nat>, down: seq<nat>, late: seq<nat>)
    ensures Picks(ms, WITH_STARTUP, up, Filter(ms, WITH_STARTUP))
    ensures Picks(ms, WITH_SHUTDOWN, down, Filter(ms, WITH_SHUTDOWN))
    ensures Picks(ms, WITH_DEACTIVATE, late, Filter(ms, WITH_DEACTIVATE))
    ensures forall i: nat :: i in up <==> i < |ms| && ms[i].requestStartup
    ensures forall i: nat :: i in down <==> i < |ms| && ms[i].requestShutdown
    ensures forall i: nat :: i in late <==> i < |ms| && ms[i].postDeactivate
  {
    up := FilterMeans(ms, WITH_STARTUP);
    down := FilterMeans(ms, WITH_SHUTDOWN);
    late := FilterMeans(ms, WITH_DEACTIVATE);
  }

  function Nullable(ms: seq<Module>): (r: seq<Option<Module>>)
    ensures |r| == |ms|
    ensures forall i :: 0 <= i < |ms| ==> r[i] == Some(ms[i])
  {
    seq(|ms|, i requires 0 <= i < |ms| => Some(ms[i]))
  }

  const WITH_STARTUP: Module -> bool := (m: Module) => m.requestStartup
  const WITH_SHUTDOWN: Module -> bool := (m: Module) => m.requestShutdown
  const WITH_DEACTIVATE: Module -> bool := (m: Module) => m.postDeactivate

  /** The module registry: a hash table that remembers its order */
  class Registry {
    var modules: seq<Module>
    const startupOk: string -> bool  // what each module's startup function returns

    constructor (modules: seq<Module>, startupOk: string -> bool)
      ensures this.modules == modules && this.startupOk == startupOk
    {
      this.modules := modules;
      this.startupOk := startupOk;
    }

    /** zend_hash_sort: the entries go into an array, are sorted there, and are linked again */
    method Sort()
      requires Distinct(modules) && Acyclic(modules)
      modifies this
      ensures multiset(modules) == multiset(old(modules))
      ensures Distinct(modules) && Ordered(modules)
    {
      if |modules| > 1 {
        var a := new Module[|modules|](i requires 0 <= i < |modules| reads this => modules[i]);
        assert a[..] == modules;
        SortModules(a);
        modules := a[..];
      }
    }

    method StartupModule(k: nat) returns (ok: bool)
      requires k < |modules|
      modifies this
      ensures (ok, modules) == StartOne(old(modules), k, startupOk)
      ensures
        var m, ms := old(modules)[k], old(modules);
        var missing := exists d :: 0 <= d < |m.deps| && NotStarted(ms, k, m.deps[d]);
        (ok, modules) ==
          if m.started then (true, ms)
          else if missing then (false, ms)
          else (startupOk(m.name), ms[k := m.(started := true)])
    {
      StartOneCases(modules, k, startupOk);
      var m := modules[k];
      if m.started {
        return true;
      }
      modules := modules[k := m.(started := true)];
      var d := 0;
      while d < |m.deps|
        invariant 0 <= d <= |m.deps| && modules == old(modules)[k := m.(started := true)]
        invariant forall c :: 0 <= c < d ==> RequirementMet(modules, m.deps[c])
      {
        if m.deps[d].kind == Required {
          var r := 0;
          while r < |modules| && !(SameName(modules[r].name, m.deps[d].name) && modules[r].started)
            invariant 0 <= r <= |modules|
            invariant forall q :: 0 <= q < r ==> !(SameName(modules[q].name, m.deps[d].name) && modules[q].started)
          {
            r := r + 1;
          }
          if r == |modules| {
            assert !RequirementMet(modules, m.deps[d]);
            modules := modules[k := m];
            assert modules == old(modules);
            return false;
          }
        }
        d := d + 1;
      }
      ok := startupOk(m.name);
    }

    /** zend_startup_modules */
    method StartupModules() returns (ghost order: seq<Module>)
      requires Distinct(modules) && Acyclic(modules)
      modifies this
      ensures multiset(order) == multiset(old(modules)) && Distinct(order) && Ordered(order)
      ensures StartupOutcome(order, startupOk, modules)
      ensures modules == StartFrom(order, 0, startupOk)
      ensures AllRegistered(old(modules)) && (forall m :: m in old(modules) ==> startupOk(m.name)) ==>
        modules == AllStarted(order)
    {
      Sort();
      order := modules;
      ApplyStartup();
      StartupExact(order, 0, startupOk);
      assert AllStarted(order[..0]) + order[0..] == order;
      if AllRegistered(old(modules)) && forall m :: m in old(modules) ==> startupOk(m.name) {
        StartsAll(old(modules), order, startupOk);
      }
    }

    /** zend_hash_apply with zend_startup_module_ex */
    method ApplyStartup()
      modifies this
      ensures modules == StartFrom(old(modules), 0, startupOk)
    {
      var k := 0;
      while k < |modules|
        invariant 0 <= k <= |modules|
        invariant StartFrom(modules, k, startupOk) == StartFrom(old(modules), 0, startupOk)
      {
        var ok := StartupModule(k);
        if ok {
          k := k + 1;
        } else {
          modules := modules[..k] + modules[k + 1..];
          break;
        }
      }
    }

    method CountHandlers() returns (startups: nat, shutdowns: nat, deactivates: nat)
      ensures startups == |Filter(modules, WITH_STARTUP)|
      ensures shutdowns == |Filter(modules, WITH_SHUTDOWN)|
      ensures deactivates == |Filter(modules, WITH_DEACTIVATE)|
    {
      startups, shutdowns, deactivates := 0, 0, 0;
      var k := 0;
      while k < |modules|
        invariant 0 <= k <= |modules|
        invariant startups == |Filter(modules[..k], WITH_STARTUP)|
        invariant shutdowns == |Filter(modules[..k], WITH_SHUTDOWN)|
        invariant deactivates == |Filter(modules[..k], WITH_DEACTIVATE)|
      {
        assert modules[..k + 1][..k] == modules[..k];
        if modules[k].requestStartup {
          startups := startups + 1;
        }
        if modules[k].requestShutdown {
          shutdowns := shutdowns + 1;
        }
        if modules[k].postDeactivate {
          deactivates := deactivates + 1;
        }
        k := k + 1;
      }
      assert modules[..k] == modules;
    }

    /** zend_collect_module_handlers: three NULL-terminated lists in one array; the shutdown and
        deactivation lists are filled from their ends */
    method CollectHandlers() returns (handlers: array<Option<Module>>)
      ensures handlers[..] ==
        Nullable(Filter(modules, WITH_STARTUP)) + [None] +
        Nullable(Reverse(Filter(modules, WITH_SHUTDOWN))) + [None] +
        Nullable(Reverse(Filter(modules, WITH_DEACTIVATE))) + [None]
    {
      var startups, shutdowns, deactivates := CountHandlers();
      handlers := new Option<Module>[startups + 1 + shutdowns + 1 + deactivates + 1];
      handlers[startups] := None;
      handlers[startups + 1 + shutdowns] := None;
      handlers[startups + 1 + shutdowns + 1 + deactivates] := None;
      var up, down, late := 0, shutdowns, deactivates;
      ghost var f, g, h := [], [], [];
      var k := 0;
      while k < |modules|
        invariant 0 <= k <= |modules|
        invariant f == Filter(modules[..k], WITH_STARTUP)
        invariant g == Filter(modules[..k], WITH_SHUTDOWN)
        invariant h == Filter(modules[..k], WITH_DEACTIVATE)
        invariant up == |f| && down == shutdowns - |g| && late == deactivates - |h|
        invariant Partly(handlers[..], startups, shutdowns, deactivates, f, g, h)
      {
        FilterNext(modules, k, WITH_STARTUP);
        FilterNext(modules, k, WITH_SHUTDOWN);
        FilterNext(modules, k, WITH_DEACTIVATE);
        var m := modules[k];
        if m.requestStartup {
          PlaceStartup(handlers, m, startups, shutdowns, deactivates, up, f, g, h);
          up := up + 1;
          f := f + [m];
        }
        if m.requestShutdown {
          down := down - 1;
          PlaceShutdown(handlers, m, startups, shutdowns, deactivates, startups + 1 + down, f, g, h);
          g := g + [m];
        }
        if m.postDeactivate {
          late := late - 1;
          PlaceDeactivate(handlers, m, startups, shutdowns, deactivates, startups + 1 + shutdowns + 1 + late, f, g, h);
          h := h + [m];
        }
        k := k + 1;
      }
      assert modules[..k] == modules;
      Assemble(handlers[..], f, g, h);
    }

    method PlaceStartup(handlers: array<Option<Module>>, m: Module, startups: nat, shutdowns: nat, deactivates: nat,
                        at: nat, ghost f: seq<Module>, ghost g: seq<Module>, ghost h: seq<Module>)
      requires Partly(handlers[..], startups, shutdowns, deactivates, f, g, h)
      requires at == |f| < startups
      modifies handlers
      ensures Partly(handlers[..], startups, shutdowns, deactivates, f + [m], g, h)
    {
      Kept(handlers[..], at, Some(m), 0, startups + 1 + shutdowns, g);
      Kept(handlers[..], at, Some(m), 0, startups + 1 + shutdowns + 1 + deactivates, h);
      ghost var before := handlers[..];
      handlers[at] := Some(m);
      assert handlers[..] == before[at := Some(m)];
    }

    method PlaceShutdown(handlers: array<Option<Module>>, m: Module, startups: nat, shutdowns: nat, deactivates: nat,
                         at: nat, ghost f: seq<Module>, ghost g: seq<Module>, ghost h: seq<Module>)
      requires Partly(handlers[..], startups, shutdowns, deactivates, f, g, h)
      requires |g| < shutdowns && at == startups + 1 + shutdowns - |g| - 1
      modifies handlers
      ensures Partly(handlers[..], startups, shutdowns, deactivates, f, g + [m], h)
    {
      Kept(handlers[..], at, Some(m), 0, 0, f);
      Kept(handlers[..], at, Some(m), 0, startups + 1 + shutdowns + 1 + deactivates, h);
      ghost var before := handlers[..];
      handlers[at] := Some(m);
      assert handlers[..] == before[at := Some(m)];
    }

    method PlaceDeactivate(handlers: array<Option<Module>>, m: Module, startups: nat, shutdowns: nat,
                           deactivates: nat, at: nat, ghost f: seq<Module>, ghost g: seq<Module>,
                           ghost h: seq<Module>)
      requires Partly(handlers[..], startups, shutdowns, deactivates, f, g, h)
      requires |h| < deactivates && at == startups + 1 + shutdowns + 1 + deactivates - |h| - 1
      modifies handlers
      ensures Partly(handlers[..], startups, shutdowns, deactivates, f, g, h + [m])
    {
      Kept(handlers[..], at, Some(m), 0, 0, f);
      Kept(handlers[..], at, Some(m), 0, startups + 1 + shutdowns, g);
      ghost var before := handlers[..];
      handlers[at] := Some(m);
      assert handlers[..] == before[at := Some(m)];
    }
  }

  /** The array while it is being filled */
  ghost predicate Partly(buf: seq<Option<Module>>, startups: nat, shutdowns: nat, deactivates: nat, f: seq<Module>,
                         g: seq<Module>, h: seq<Module>)
  {
    var end, last := startups + 1 + shutdowns, startups + 1 + shutdowns + 1 + deactivates;
    && |buf| == last + 1
    && |f| <= startups && |g| <= shutdowns && |h| <= deactivates
    && buf[startups] == None && buf[end] == None && buf[last] == None
    && Forward(buf, 0, f) && Backward(buf, end, g) && Backward(buf, last, h)
  }

  /** `list` stands in `buf` from `at` on */
  ghost predicate Forward(buf: seq<Option<Module>>, at: nat, list: seq<Module>) {
    at + |list| <= |buf| && forall i :: 0 <= i < |list| ==> buf[at + i] == Some(list[i])
  }

  /** `list` stands in `buf` backwards, ending before `end` */
  ghost predicate Backward(buf: seq<Option<Module>>, end: nat, list: seq<Module>) {
    |list| <= end <= |buf| && forall i :: 0 <= i < |list| ==> buf[end - 1 - i] == Some(list[i])
  }

  lemma {:induction false} Kept(buf: seq<Option<Module>>, at: nat, x: Option<Module>, from: nat, end: nat,
                                list: seq<Module>)
    requires at < |buf|
    ensures Forward(buf, from, list) && !(from <= at < from + |list|) ==> Forward(buf[at := x], from, list)
    ensures Backward(buf, end, list) && !(end - |list| <= at < end) ==> Backward(buf[at := x], end, list)
  {
  }

  lemma {:induction false} Assemble(buf: seq<Option<Module>>, f: seq<Module>, g: seq<Module>, h: seq<Module>)
    requires Partly(buf, |f|, |g|, |h|, f, g, h)
    ensures buf == Nullable(f) + [None] + Nullable(Reverse(g)) + [None] + Nullable(Reverse(h)) + [None]
  {
  }

  /** Reordering the registry does not unregister anything */
  lemma {:induction false} RegisteredAnyOrder(before: seq<Module>, after: seq<Module>)
    requires multiset(before) == multiset(after) && AllRegistered(before)
    ensures AllRegistered(after)
  {
    SameMembers(before, after);
    forall i, d | 0 <= i < |after| && 0 <= d < |after[i].deps| && after[i].deps[d].kind.Required?
      ensures exists r :: 0 <= r < |after| && SameName(after[r].name, after[i].deps[d].name)
    {
      assert after[i] in before;
      var i' :| 0 <= i' < |before| && before[i'] == after[i];
      var r' :| 0 <= r' < |before| && SameName(before[r'].name, after[i].deps[d].name);
      assert before[r'] in after;
    }
  }
}
