/** The line diff of the test runner: a bounded look-ahead decides on which side to skip a line,
    and the skipped lines of both sides are merged into one list. */
module LineDiff {

  /** A line of the wanted text that is not matched, or a line of the output that is not */
  datatype Entry = Minus(idx: nat, line: string) | Plus(idx: nat, line: string)

  type Comp = (string, string) -> bool

  // ---------- Matchings and the longest common subsequence ----------

  /** Pairs of matching lines at and after the two positions, ascending on both sides */
  ghost predicate Matching(ar1: seq<string>, ar2: seq<string>, comp: Comp, i: nat, j: nat, m: seq<(nat, nat)>) {
    && (forall k :: 0 <= k < |m| ==> i <= m[k].0 < |ar1| && j <= m[k].1 < |ar2| && comp(ar1[m[k].0], ar2[m[k].1]))
    && (forall k, l :: 0 <= k < l < |m| ==> m[k].0 < m[l].0 && m[k].1 < m[l].1)
  }

  function Max(a: nat, b: nat): nat {
    if a > b then a else b
  }

  function Lcs(ar1: seq<string>, ar2: seq<string>, comp: Comp, i: nat, j: nat): nat
    requires i <= |ar1| && j <= |ar2|
    decreases |ar1| - i + |ar2| - j
  {
    if i == |ar1| || j == |ar2| then 0
    else
      Max(if comp(ar1[i], ar2[j]) then 1 + Lcs(ar1, ar2, comp, i + 1, j + 1) else 0,
          Max(Lcs(ar1, ar2, comp, i + 1, j), Lcs(ar1, ar2, comp, i, j + 1)))
  }

  /** No matching is longer than the longest common subsequence */
  lemma {:induction false} MatchingWithinLcs(ar1: seq<string>, ar2: seq<string>, comp: Comp, i: nat, j: nat,
                                             m: seq<(nat, nat)>)
    requires i <= |ar1| && j <= |ar2| && Matching(ar1, ar2, comp, i, j, m)
    ensures |m| <= Lcs(ar1, ar2, comp, i, j)
    decreases |ar1| - i + |ar2| - j
  {
    if m != [] {
      if m[0] == (i, j) {
        MatchingWithinLcs(ar1, ar2, comp, i + 1, j + 1, m[1..]);
      } else if m[0].0 > i {
        MatchingWithinLcs(ar1, ar2, comp, i + 1, j, m);
      } else {
        MatchingWithinLcs(ar1, ar2, comp, i, j + 1, m);
      }
    }
  }

  /** and one is as long */
  lemma {:induction false} LcsReached(ar1: seq<string>, ar2: seq<string>, comp: Comp, i: nat, j: nat)
      returns (m: seq<(nat, nat)>)
    requires i <= |ar1| && j <= |ar2|
    ensures Matching(ar1, ar2, comp, i, j, m) && |m| == Lcs(ar1, ar2, comp, i, j)
    decreases |ar1| - i + |ar2| - j
  {
    if i == |ar1| || j == |ar2| {
      m := [];
    } else {
      var down := LcsReached(ar1, ar2, comp, i + 1, j);
      var right := LcsReached(ar1, ar2, comp, i, j + 1);
      m := if |down| > |right| then down else right;
      if comp(ar1[i], ar2[j]) {
        var both := LcsReached(ar1, ar2, comp, i + 1, j + 1);
        PairInFront(ar1, ar2, comp, i, j, both);
        if 1 + |both| > |m| {
          m := [(i, j)] + both;
        }
      }
    }
  }

  lemma {:induction false} PairInFront(ar1: seq<string>, ar2: seq<string>, comp: Comp, i: nat, j: nat,
                                       m: seq<(nat, nat)>)
    requires i < |ar1| && j < |ar2| && comp(ar1[i], ar2[j])
    requires Matching(ar1, ar2, comp, i + 1, j + 1, m)
    ensures Matching(ar1, ar2, comp, i, j, [(i, j)] + m)
  {
  }

  lemma {:induction false} MatchingsJoin(ar1: seq<string>, ar2: seq<string>, comp: Comp, i: nat, j: nat,
                                         m: seq<(nat, nat)>, i': nat, j': nat, m': seq<(nat, nat)>)
    requires i <= i' && j <= j'
    requires Matching(ar1, ar2, comp, i, j, m) && Matching(ar1, ar2, comp, i', j', m')
    requires forall k :: 0 <= k < |m| ==> m[k].0 < i' && m[k].1 < j'
    ensures Matching(ar1, ar2, comp, i, j, m + m')
  {
  }

  // ---------- The look-ahead ----------

  /** How many lines match from the two positions on without a gap */
  function Run(ar1: seq<string>, ar2: seq<string>, comp: Comp, i: nat, j: nat): (r: nat)
    ensures i <= |ar1| && j <= |ar2| ==> i + r <= |ar1| && j + r <= |ar2|
    decreases |ar1| - i
  {
    if i < |ar1| && j < |ar2| && comp(ar1[i], ar2[j]) then 1 + Run(ar1, ar2, comp, i + 1, j + 1) else 0
  }

  /** The best way on that the budget can see: a run of matches, then the best continuation after
      skipping lines of one list only, where every skipped line and every match costs a step and
      the first list has half the budget */
  function Ahead(ar1: seq<string>, ar2: seq<string>, comp: Comp, i: nat, j: nat, steps: real): nat
    requires i <= |ar1| && j <= |ar2|
    decreases |ar1| - i + |ar2| - j, 1
  {
    var r := Run(ar1, ar2, comp, i, j);
    var left := steps - r as real - 1.0;
    if left <= 0.0 then r
    else r + Max(AheadFirst(ar1, ar2, comp, i + r, j + r, left / 2.0), AheadSecond(ar1, ar2, comp, i + r, j + r, left))
  }

  function AheadFirst(ar1: seq<string>, ar2: seq<string>, comp: Comp, i: nat, j: nat, budget: real): nat
    requires i <= |ar1| && j <= |ar2|
    decreases |ar1| - i + |ar2| - j, 0
  {
    if i + 1 >= |ar1| || budget <= 0.0 then 0
    else Max(Ahead(ar1, ar2, comp, i + 1, j, budget - 1.0), AheadFirst(ar1, ar2, comp, i + 1, j, budget - 1.0))
  }

  function AheadSecond(ar1: seq<string>, ar2: seq<string>, comp: Comp, i: nat, j: nat, budget: real): nat
    requires i <= |ar1| && j <= |ar2|
    decreases |ar1| - i + |ar2| - j, 0
  {
    if j + 1 >= |ar2| || budget <= 0.0 then 0
    else Max(Ahead(ar1, ar2, comp, i, j + 1, budget - 1.0), AheadSecond(ar1, ar2, comp, i, j + 1, budget - 1.0))
  }

  /** count_array_diff.  `m` shows which lines the count stands for.  Halving the budget can leave
      half a step, as it does in the source. */
  method CountArrayDiff(ar1: seq<string>, ar2: seq<string>, comp: Comp, idx1: nat, idx2: nat, steps: real)
      returns (equal: nat, ghost m: seq<(nat, nat)>)
    requires idx1 <= |ar1| && idx2 <= |ar2|
    ensures equal == Ahead(ar1, ar2, comp, idx1, idx2, steps)
    ensures Matching(ar1, ar2, comp, idx1, idx2, m) && |m| == equal
    ensures equal <= Lcs(ar1, ar2, comp, idx1, idx2)
    decreases |ar1| - idx1 + |ar2| - idx2
  {
    var i, j, left;
    i, j, left, equal, m := MatchRun(ar1, ar2, comp, idx1, idx2, steps);
    left := left - 1.0;
    if left > 0.0 {
      var eq1, m1 := SkipFirst(ar1, ar2, comp, i, j, left / 2.0);
      var eq2, m2 := SkipSecond(ar1, ar2, comp, i, j, left);
      MatchingsJoin(ar1, ar2, comp, idx1, idx2, m, i, j, m1);
      MatchingsJoin(ar1, ar2, comp, idx1, idx2, m, i, j, m2);
      if eq1 > eq2 {
        equal := equal + eq1;
        m := m + m1;
      } else if eq2 > 0 {
        equal := equal + eq2;
        m := m + m2;
      }
    }
    MatchingWithinLcs(ar1, ar2, comp, idx1, idx2, m);
  }

  /** The first loop: matching lines */
  method MatchRun(ar1: seq<string>, ar2: seq<string>, comp: Comp, idx1: nat, idx2: nat, steps: real)
      returns (i: nat, j: nat, left: real, equal: nat, ghost m: seq<(nat, nat)>)
    requires idx1 <= |ar1| && idx2 <= |ar2|
    ensures equal == Run(ar1, ar2, comp, idx1, idx2) == |m| && left == steps - equal as real
    ensures i == idx1 + equal <= |ar1| && j == idx2 + equal <= |ar2|
    ensures Matching(ar1, ar2, comp, idx1, idx2, m)
    ensures forall k :: 0 <= k < |m| ==> m[k].0 < i && m[k].1 < j
  {
    i, j, left, equal, m := idx1, idx2, steps, 0, [];
    while i < |ar1| && j < |ar2| && comp(ar1[i], ar2[j])
      invariant i == idx1 + equal <= |ar1| && j == idx2 + equal <= |ar2|
      invariant left == steps - equal as real && |m| == equal
      invariant equal + Run(ar1, ar2, comp, i, j) == Run(ar1, ar2, comp, idx1, idx2)
      invariant Matching(ar1, ar2, comp, idx1, idx2, m)
      invariant forall k :: 0 <= k < |m| ==> m[k].0 < i && m[k].1 < j
    {
      m := m + [(i, j)];
      i, j, equal, left := i + 1, j + 1, equal + 1, left - 1.0;
    }
  }

  /** The first inner loop: the best count after skipping lines of the first list */
  method SkipFirst(ar1: seq<string>, ar2: seq<string>, comp: Comp, idx1: nat, idx2: nat, budget: real)
      returns (best: nat, ghost m: seq<(nat, nat)>)
    requires idx1 <= |ar1| && idx2 <= |ar2|
    ensures best == AheadFirst(ar1, ar2, comp, idx1, idx2, budget)
    ensures Matching(ar1, ar2, comp, idx1, idx2, m) && |m| == best
    decreases |ar1| - idx1 + |ar2| - idx2, 0
  {
    best, m := 0, [];
    var st := budget;
    var ofs := idx1 + 1;
    while ofs < |ar1| && st > 0.0
      invariant idx1 < ofs && (idx1 < |ar1| ==> ofs <= |ar1|)
      invariant ofs > |ar1| ==> best == 0
      invariant ofs <= |ar1| ==>
        Max(best, AheadFirst(ar1, ar2, comp, ofs - 1, idx2, st)) == AheadFirst(ar1, ar2, comp, idx1, idx2, budget)
      invariant Matching(ar1, ar2, comp, idx1, idx2, m) && |m| == best
      decreases |ar1| - ofs
    {
      st := st - 1.0;
      var eq, mm := CountArrayDiff(ar1, ar2, comp, ofs, idx2, st);
      if eq > best {
        best, m := eq, mm;
      }
      ofs := ofs + 1;
    }
  }

  /** The second inner loop: the best count after skipping lines of the second list */
  method SkipSecond(ar1: seq<string>, ar2: seq<string>, comp: Comp, idx1: nat, idx2: nat, budget: real)
      returns (best: nat, ghost m: seq<(nat, nat)>)
    requires idx1 <= |ar1| && idx2 <= |ar2|
    ensures best == AheadSecond(ar1, ar2, comp, idx1, idx2, budget)
    ensures Matching(ar1, ar2, comp, idx1, idx2, m) && |m| == best
    decreases |ar1| - idx1 + |ar2| - idx2, 0
  {
    best, m := 0, [];
    var st := budget;
    var ofs := idx2 + 1;
    while ofs < |ar2| && st > 0.0
      invariant idx2 < ofs && (idx2 < |ar2| ==> ofs <= |ar2|)
      invariant ofs > |ar2| ==> best == 0
      invariant ofs <= |ar2| ==>
        Max(best, AheadSecond(ar1, ar2, comp, idx1, ofs - 1, st)) == AheadSecond(ar1, ar2, comp, idx1, idx2, budget)
      invariant Matching(ar1, ar2, comp, idx1, idx2, m) && |m| == best
      decreases |ar2| - ofs
    {
      st := st - 1.0;
      var eq, mm := CountArrayDiff(ar1, ar2, comp, idx1, ofs, st);
      if eq > best {
        best, m := eq, mm;
      }
      ofs := ofs + 1;
    }
  }

  // ---------- What a diff says ----------

  function Minuses(diff: seq<Entry>): seq<Entry> {
    if diff == [] then []
    else Minuses(diff[..|diff| - 1]) + if diff[|diff| - 1].Minus? then [diff[|diff| - 1]] else []
  }

  function Pluses(diff: seq<Entry>): seq<Entry> {
    if diff == [] then []
    else Pluses(diff[..|diff| - 1]) + if diff[|diff| - 1].Plus? then [diff[|diff| - 1]] else []
  }

  function Entries(diff: seq<Entry>, minus: bool): seq<Entry> {
    if minus then Minuses(diff) else Pluses(diff)
  }

  lemma {:induction false} Sides(diff: seq<Entry>, e: Entry)
    ensures Minuses(diff + [e]) == Minuses(diff) + if e.Minus? then [e] else []
    ensures Pluses(diff + [e]) == Pluses(diff) + if e.Plus? then [e] else []
  {
  }

  lemma {:induction false} EntriesSnoc(diff: seq<Entry>, e: Entry)
    ensures Entries(diff + [e], e.Minus?) == Entries(diff, e.Minus?) + [e]
    ensures Entries(diff + [e], !e.Minus?) == Entries(diff, !e.Minus?)
  {
    Sides(diff, e);
  }

  ghost function Idxs(es: seq<Entry>): set<nat> {
    set e | e in es :: e.idx
  }

  /** The positions from `lo` to `hi` that are not removed */
  ghost function Survivors(lo: nat, hi: nat, removed: set<nat>): seq<nat>
    decreases hi - lo
  {
    if lo >= hi then [] else (if lo in removed then [] else [lo]) + Survivors(lo + 1, hi, removed)
  }

  /** Entries in ascending order, each with the line of its position */
  ghost predicate Faithful(es: seq<Entry>, lines: seq<string>) {
    && (forall k :: 0 <= k < |es| ==> es[k].idx < |lines| && es[k].line == lines[es[k].idx])
    && (forall k, l :: 0 <= k < l < |es| ==> es[k].idx < es[l].idx)
  }

  /** Without the '-' lines on one side and the '+' lines on the other, the two lists have the same
      length and match line by line */
  ghost predicate IsPatch(ar1: seq<string>, ar2: seq<string>, comp: Comp, diff: seq<Entry>) {
    var s1 := Survivors(0, |ar1|, Idxs(Minuses(diff)));
    var s2 := Survivors(0, |ar2|, Idxs(Pluses(diff)));
    && |s1| == |s2|
    && (forall k :: 0 <= k < |s1| ==> s1[k] < |ar1| && s2[k] < |ar2| && comp(ar1[s1[k]], ar2[s2[k]]))
  }

  lemma {:induction false} SurvivorsBounds(lo: nat, hi: nat, removed: set<nat>)
    ensures forall k :: 0 <= k < |Survivors(lo, hi, removed)| ==>
      lo <= Survivors(lo, hi, removed)[k] < hi && Survivors(lo, hi, removed)[k] !in removed
    decreases hi - lo
  {
    if lo < hi {
      SurvivorsBounds(lo + 1, hi, removed);
    }
  }

  lemma {:induction false} SurvivorsSnoc(lo: nat, hi: nat, removed: set<nat>)
    requires lo <= hi
    ensures Survivors(lo, hi + 1, removed) == Survivors(lo, hi, removed) + if hi in removed then [] else [hi]
    decreases hi - lo
  {
    if lo < hi {
      SurvivorsSnoc(lo + 1, hi, removed);
    } else {
      assert Survivors(hi + 1, hi + 1, removed) == [];
    }
  }

  lemma {:induction false} SurvivorsAgree(lo: nat, hi: nat, r1: set<nat>, r2: set<nat>)
    requires forall k :: lo <= k < hi ==> (k in r1 <==> k in r2)
    ensures Survivors(lo, hi, r1) == Survivors(lo, hi, r2)
    decreases hi - lo
  {
    if lo < hi {
      SurvivorsAgree(lo + 1, hi, r1, r2);
    }
  }

  // ---------- The diff ----------

  /** Lines matched so far, pairwise */
  ghost predicate Paired(ar1: seq<string>, ar2: seq<string>, comp: Comp, s1: seq<nat>, s2: seq<nat>) {
    && |s1| == |s2|
    && (forall k :: 0 <= k < |s1| ==> s1[k] < |ar1| && s2[k] < |ar2| && comp(ar1[s1[k]], ar2[s2[k]]))
  }

  /** Entries of one side for positions before `n` */
  ghost predicate Side(es: seq<Entry>, lines: seq<string>, n: nat, minus: bool) {
    && n <= |lines|
    && Faithful(es, lines)
    && (forall k :: 0 <= k < |es| ==> es[k].idx < n && es[k].Minus? == minus)
  }

  /** Recording a line as skipped keeps the surviving positions */
  lemma {:induction false} SkipLine(es: seq<Entry>, lines: seq<string>, n: nat, e: Entry)
    requires Side(es, lines, n, e.Minus?) && n < |lines| && e.idx == n && e.line == lines[n]
    ensures Side(es + [e], lines, n + 1, e.Minus?)
    ensures Survivors(0, n + 1, Idxs(es + [e])) == Survivors(0, n, Idxs(es))
  {
    var r, r' := Idxs(es), Idxs(es + [e]);
    assert (es + [e])[|es|] == e && n in r';
    SurvivorsSnoc(0, n, r');
    forall k | 0 <= k < n ensures k in r <==> k in r' {
      if k in r {
        var x :| x in es && x.idx == k;
        assert x in es + [e];
      }
    }
    SurvivorsAgree(0, n, r, r');
  }

  /** A matched line survives */
  lemma {:induction false} KeepLine(es: seq<Entry>, lines: seq<string>, n: nat, minus: bool)
    requires Side(es, lines, n, minus) && n < |lines|
    ensures Side(es, lines, n + 1, minus)
    ensures Survivors(0, n + 1, Idxs(es)) == Survivors(0, n, Idxs(es)) + [n]
  {
    SurvivorsSnoc(0, n, Idxs(es));
  }

  /** No entry lies in the first `n` lines */
  ghost predicate Past(es: seq<Entry>, n: nat) {
    forall k :: 0 <= k < |es| ==> n <= es[k].idx
  }

  /** On which sides a mismatch skips a line: the side whose rest promises more matches, the second
      where that is a tie, both where neither promises any */
  function Choice(ar1: seq<string>, ar2: seq<string>, comp: Comp, i: nat, j: nat): (bool, bool)
    requires i < |ar1| && j < |ar2|
  {
    var c1, c2 := Ahead(ar1, ar2, comp, i + 1, j, 10.0), Ahead(ar1, ar2, comp, i, j + 1, 10.0);
    if c1 > c2 then (true, false) else (c2 == 0, true)
  }

  /** The lines that the main loop skips from the two positions on */
  function Skips(ar1: seq<string>, ar2: seq<string>, comp: Comp, w: seq<string>, i: nat, j: nat)
      : (seq<Entry>, seq<Entry>)
    requires i <= |ar1| == |w| && j <= |ar2|
    decreases |ar1| - i + |ar2| - j
  {
    if i == |ar1| || j == |ar2| then ([], [])
    else if comp(ar1[i], ar2[j]) then Skips(ar1, ar2, comp, w, i + 1, j + 1)
    else
      var (b1, b2) := Choice(ar1, ar2, comp, i, j);
      var rest := Skips(ar1, ar2, comp, w, if b1 then i + 1 else i, if b2 then j + 1 else j);
      ((if b1 then [Minus(i, w[i])] else []) + rest.0, (if b2 then [Plus(j, ar2[j])] else []) + rest.1)
  }

  /** Where the main loop stops */
  function Stop(ar1: seq<string>, ar2: seq<string>, comp: Comp, i: nat, j: nat): (r: (nat, nat))
    requires i <= |ar1| && j <= |ar2|
    ensures i <= r.0 <= |ar1| && j <= r.1 <= |ar2| && (r.0 == |ar1| || r.1 == |ar2|)
    decreases |ar1| - i + |ar2| - j
  {
    if i == |ar1| || j == |ar2| then (i, j)
    else if comp(ar1[i], ar2[j]) then Stop(ar1, ar2, comp, i + 1, j + 1)
    else
      var (b1, b2) := Choice(ar1, ar2, comp, i, j);
      Stop(ar1, ar2, comp, if b1 then i + 1 else i, if b2 then j + 1 else j)
  }

  /** One entry for each of the lines from `lo` to `hi` */
  function Block(lines: seq<string>, lo: nat, hi: nat, minus: bool): (r: seq<Entry>)
    requires lo <= hi <= |lines|
    ensures |r| == hi - lo
    ensures forall k :: 0 <= k < |r| ==> r[k] == if minus then Minus(lo + k, lines[lo + k]) else Plus(lo + k, lines[lo + k])
    decreases hi - lo
  {
    if lo == hi then []
    else [if minus then Minus(lo, lines[lo]) else Plus(lo, lines[lo])] + Block(lines, lo + 1, hi, minus)
  }

  /** One entry for each of the lines from `i` on */
  function Rest(lines: seq<string>, i: nat, minus: bool): seq<Entry>
    requires i <= |lines|
  {
    Block(lines, i, |lines|, minus)
  }

  /** A run of matches is passed over */
  lemma {:induction false} SkipsAfterRun(ar1: seq<string>, ar2: seq<string>, comp: Comp, w: seq<string>, i: nat, j: nat)
    requires i <= |ar1| == |w| && j <= |ar2|
    ensures
      var r := Run(ar1, ar2, comp, i, j);
      Skips(ar1, ar2, comp, w, i, j) == Skips(ar1, ar2, comp, w, i + r, j + r)
    decreases |ar1| - i
  {
    if Run(ar1, ar2, comp, i, j) > 0 {
      SkipsAfterRun(ar1, ar2, comp, w, i + 1, j + 1);
    }
  }

  lemma {:induction false} SkipsPast(ar1: seq<string>, ar2: seq<string>, comp: Comp, w: seq<string>, i: nat, j: nat)
    requires i <= |ar1| == |w| && j <= |ar2|
    ensures Past(Skips(ar1, ar2, comp, w, i, j).0, i) && Past(Skips(ar1, ar2, comp, w, i, j).1, j)
    decreases |ar1| - i + |ar2| - j
  {
    if i < |ar1| && j < |ar2| {
      if comp(ar1[i], ar2[j]) {
        SkipsPast(ar1, ar2, comp, w, i + 1, j + 1);
      } else {
        var (b1, b2) := Choice(ar1, ar2, comp, i, j);
        SkipsPast(ar1, ar2, comp, w, if b1 then i + 1 else i, if b2 then j + 1 else j);
      }
    }
  }

  /** The main loop of generate_array_diff */
  method Collect(ar1: seq<string>, ar2: seq<string>, comp: Comp, w: seq<string>)
      returns (old1: seq<Entry>, old2: seq<Entry>, idx1: nat, idx2: nat)
    requires |w| == |ar1|
    ensures Side(old1, w, idx1, true) && Side(old2, ar2, idx2, false)
    ensures idx1 == |ar1| || idx2 == |ar2|
    ensures (old1, old2) == Skips(ar1, ar2, comp, w, 0, 0)
    ensures (idx1, idx2) == Stop(ar1, ar2, comp, 0, 0)
    ensures
      var r := Run(ar1, ar2, comp, 0, 0);
      r <= idx1 && r <= idx2 && Past(old1, r) && Past(old2, r)
    ensures Paired(ar1, ar2, comp, Survivors(0, idx1, Idxs(old1)), Survivors(0, idx2, Idxs(old2)))
  {
    old1, old2, idx1, idx2 := [], [], 0, 0;
    CollectStart(ar1, ar2, comp, w);
    while idx1 < |ar1| && idx2 < |ar2|
      invariant Collecting(ar1, ar2, comp, w, old1, old2, idx1, idx2)
      decreases |ar1| - idx1 + |ar2| - idx2
    {
      if comp(ar1[idx1], ar2[idx2]) {
        KeepLines(ar1, ar2, comp, w, old1, old2, idx1, idx2);
        idx1, idx2 := idx1 + 1, idx2 + 1;
      } else {
        old1, old2, idx1, idx2 := SkipLines(ar1, ar2, comp, w, old1, old2, idx1, idx2);
      }
    }
    CollectDone(ar1, ar2, comp, w, old1, old2, idx1, idx2);
  }

  /** The state of the main loop: what survives so far is paired, and what is recorded, followed by
      what will be, is what is skipped from the start */
  ghost predicate Collecting(ar1: seq<string>, ar2: seq<string>, comp: Comp, w: seq<string>, old1: seq<Entry>,
                             old2: seq<Entry>, i: nat, j: nat)
  {
    && i <= |ar1| == |w| && j <= |ar2|
    && Side(old1, w, i, true) && Side(old2, ar2, j, false)
    && Paired(ar1, ar2, comp, Survivors(0, i, Idxs(old1)), Survivors(0, j, Idxs(old2)))
    && StillToSkip(ar1, ar2, comp, w, old1, old2, i, j) == Skips(ar1, ar2, comp, w, 0, 0)
    && Stop(ar1, ar2, comp, i, j) == Stop(ar1, ar2, comp, 0, 0)
    && var r := Run(ar1, ar2, comp, 0, 0);
       (r <= i && r <= j) || (i == j && i + Run(ar1, ar2, comp, i, j) == r)
  }

  lemma {:induction false} CollectDone(ar1: seq<string>, ar2: seq<string>, comp: Comp, w: seq<string>,
                                       old1: seq<Entry>, old2: seq<Entry>, i: nat, j: nat)
    requires Collecting(ar1, ar2, comp, w, old1, old2, i, j) && (i == |ar1| || j == |ar2|)
    ensures (old1, old2) == Skips(ar1, ar2, comp, w, 0, 0) && (i, j) == Stop(ar1, ar2, comp, 0, 0)
    ensures
      var r := Run(ar1, ar2, comp, 0, 0);
      r <= i && r <= j && Past(old1, r) && Past(old2, r)
  {
    var r := Run(ar1, ar2, comp, 0, 0);
    assert old1 + [] == old1 && old2 + [] == old2;
    SkipsAfterRun(ar1, ar2, comp, w, 0, 0);
    SkipsPast(ar1, ar2, comp, w, r, r);
  }

  lemma {:induction false} CollectStart(ar1: seq<string>, ar2: seq<string>, comp: Comp, w: seq<string>)
    requires |w| == |ar1|
    ensures Collecting(ar1, ar2, comp, w, [], [], 0, 0)
  {
    var all := Skips(ar1, ar2, comp, w, 0, 0);
    assert [] + all.0 == all.0 && [] + all.1 == all.1;
  }

  /** The branch for lines that match */
  lemma {:induction false} KeepLines(ar1: seq<string>, ar2: seq<string>, comp: Comp, w: seq<string>, old1: seq<Entry>,
                                     old2: seq<Entry>, i: nat, j: nat)
    requires Collecting(ar1, ar2, comp, w, old1, old2, i, j)
    requires i < |ar1| && j < |ar2| && comp(ar1[i], ar2[j])
    ensures Collecting(ar1, ar2, comp, w, old1, old2, i + 1, j + 1)
  {
    KeepLine(old1, w, i, true);
    KeepLine(old2, ar2, j, false);
  }

  /** What is recorded, followed by what will be */
  ghost function StillToSkip(ar1: seq<string>, ar2: seq<string>, comp: Comp, w: seq<string>, old1: seq<Entry>,
                             old2: seq<Entry>, i: nat, j: nat): (seq<Entry>, seq<Entry>)
    requires i <= |ar1| == |w| && j <= |ar2|
  {
    var rest := Skips(ar1, ar2, comp, w, i, j);
    (old1 + rest.0, old2 + rest.1)
  }

  /** The branch for lines that do not match */
  method SkipLines(ar1: seq<string>, ar2: seq<string>, comp: Comp, w: seq<string>, old1: seq<Entry>, old2: seq<Entry>,
                   idx1: nat, idx2: nat)
      returns (old1': seq<Entry>, old2': seq<Entry>, idx1': nat, idx2': nat)
    requires idx1 < |ar1| == |w| && idx2 < |ar2| && !comp(ar1[idx1], ar2[idx2])
    requires Collecting(ar1, ar2, comp, w, old1, old2, idx1, idx2)
    ensures Collecting(ar1, ar2, comp, w, old1', old2', idx1', idx2')
    ensures idx1 + idx2 < idx1' + idx2'
  {
    var c1, m1 := CountArrayDiff(ar1, ar2, comp, idx1 + 1, idx2, 10.0);
    var c2, m2 := CountArrayDiff(ar1, ar2, comp, idx1, idx2 + 1, 10.0);
    old1', old2', idx1', idx2' := old1, old2, idx1, idx2;
    if c1 > c2 {
      old1', idx1' := old1 + [Minus(idx1, w[idx1])], idx1 + 1;
    } else if c2 > 0 {
      old2', idx2' := old2 + [Plus(idx2, ar2[idx2])], idx2 + 1;
    } else {
      old1', idx1' := old1 + [Minus(idx1, w[idx1])], idx1 + 1;
      old2', idx2' := old2 + [Plus(idx2, ar2[idx2])], idx2 + 1;
    }
    CollectSkipped(ar1, ar2, comp, w, old1, old2, idx1, idx2, old1', old2', idx1', idx2');
  }

  lemma {:induction false} CollectSkipped(ar1: seq<string>, ar2: seq<string>, comp: Comp, w: seq<string>,
                                          old1: seq<Entry>, old2: seq<Entry>, i: nat, j: nat, old1': seq<Entry>,
                                          old2': seq<Entry>, i': nat, j': nat)
    requires i < |ar1| == |w| && j < |ar2| && !comp(ar1[i], ar2[j])
    requires Collecting(ar1, ar2, comp, w, old1, old2, i, j)
    requires
      var (b1, b2) := Choice(ar1, ar2, comp, i, j);
      && old1' == (if b1 then old1 + [Minus(i, w[i])] else old1) && i' == (if b1 then i + 1 else i)
      && old2' == (if b2 then old2 + [Plus(j, ar2[j])] else old2) && j' == (if b2 then j + 1 else j)
    ensures Collecting(ar1, ar2, comp, w, old1', old2', i', j')
  {
    var rest := Skips(ar1, ar2, comp, w, i', j');
    SkipLine(old1, w, i, Minus(i, w[i]));
    SkipLine(old2, ar2, j, Plus(j, ar2[j]));
    AddInFront(old1, old1', Minus(i, w[i]), rest.0);
    AddInFront(old2, old2', Plus(j, ar2[j]), rest.1);
  }

  lemma {:induction false} AddInFront(before: seq<Entry>, after: seq<Entry>, e: Entry, rest: seq<Entry>)
    requires after == before || after == before + [e]
    ensures after + rest == before + ((if after == before then [] else [e]) + rest)
  {
  }

  /** Entry `k` goes on from the entry before it: the next line of the same side */
  predicate Continues(diff: seq<Entry>, k: nat)
    requires k < |diff|
  {
    k > 0 && diff[k - 1].Minus? == diff[k].Minus? && diff[k - 1].idx + 1 == diff[k].idx
  }

  predicate Before(x: Entry, y: Entry) {
    if x.Minus? then x.idx < y.idx else x.idx <= y.idx
  }

  /** Where a run of neighbouring lines starts, every later entry of the other side stands further
      down, an output line going before a wanted line of its own position */
  ghost predicate StartsInOrder(diff: seq<Entry>) {
    forall k, b :: 0 <= k < b < |diff| && diff[k].Minus? != diff[b].Minus? && !Continues(diff, k) ==> Before(diff[k], diff[b])
  }

  /** Neighbouring lines of one side stand next to each other */
  ghost predicate RunsTogether(diff: seq<Entry>) {
    forall a, b :: 0 <= a < b < |diff| && diff[a].Minus? == diff[b].Minus? && diff[b].idx == diff[a].idx + 1 ==> b == a + 1
  }

  ghost predicate Ascending(es: seq<Entry>, minus: bool) {
    && (forall k :: 0 <= k < |es| ==> es[k].Minus? == minus)
    && (forall k, l :: 0 <= k < l < |es| ==> es[k].idx < es[l].idx)
  }

  /** What the part of the merge that is done says about the next entry of a side: it is further
      down than those that are out, only the last entry may be its neighbour, and no run of the
      other side started too early */
  ghost predicate Pending(diff: seq<Entry>, x: Entry) {
    forall k :: 0 <= k < |diff| ==>
      if diff[k].Minus? == x.Minus? then diff[k].idx < x.idx && (x.idx == diff[k].idx + 1 ==> k == |diff| - 1)
      else !Continues(diff, k) ==> Before(diff[k], x)
  }

  lemma {:induction false} ContinuesSame(diff: seq<Entry>, x: Entry, k: nat)
    requires k < |diff|
    ensures Continues(diff + [x], k) == Continues(diff, k) && (diff + [x])[k] == diff[k]
  {
  }

  lemma {:induction false} EmitKeepsOrder(diff: seq<Entry>, x: Entry)
    requires StartsInOrder(diff) && RunsTogether(diff) && Pending(diff, x)
    ensures StartsInOrder(diff + [x]) && RunsTogether(diff + [x])
  {
    var d := diff + [x];
    forall k, b | 0 <= k < b < |d| && d[k].Minus? != d[b].Minus? && !Continues(d, k) ensures Before(d[k], d[b]) {
      ContinuesSame(diff, x, k);
      if b < |diff| {
        assert d[b] == diff[b];
      }
    }
    forall a, b | 0 <= a < b < |d| && d[a].Minus? == d[b].Minus? && d[b].idx == d[a].idx + 1 ensures b == a + 1 {
      assert d[a] == diff[a];
      if b < |diff| {
        assert d[b] == diff[b];
      }
    }
  }

  /** Behind `x` comes the next entry of its side */
  lemma {:induction false} NextPending(diff: seq<Entry>, x: Entry, y: Entry)
    requires Pending(diff, x) && x.Minus? == y.Minus? && x.idx < y.idx
    ensures Pending(diff + [x], y)
  {
  }

  /** The other side keeps waiting, if `x` goes on from the last entry or is the smaller start */
  lemma {:induction false} OtherPending(diff: seq<Entry>, x: Entry, y: Entry)
    requires Pending(diff, y) && x.Minus? != y.Minus?
    requires Continues(diff + [x], |diff|) || (!Continues(diff + [y], |diff|) && Before(x, y))
    ensures Pending(diff + [x], y)
  {
  }

  /** `last` is the position of the last entry of a side, -2 before there is one */
  ghost predicate Lasts(diff: seq<Entry>, last: int, minus: bool) {
    && (forall k :: 0 <= k < |diff| && diff[k].Minus? == minus ==> diff[k].idx <= last)
    && (last != -2 ==> exists k :: 0 <= k < |diff| && diff[k].Minus? == minus && diff[k].idx == last)
  }

  /** The source's test for neighbours */
  lemma {:induction false} ContinuesLast(diff: seq<Entry>, x: Entry, last: int)
    requires Lasts(diff, last, x.Minus?) && Pending(diff, x)
    ensures Continues(diff + [x], |diff|) <==> x.idx == last + 1
  {
  }

  lemma {:induction false} NewLast(diff: seq<Entry>, x: Entry, last: int, other: int)
    requires Pending(diff, x) && Lasts(diff, last, x.Minus?) && Lasts(diff, other, !x.Minus?)
    ensures Lasts(diff + [x], x.idx, x.Minus?) && Lasts(diff + [x], other, !x.Minus?)
  {
    var d := diff + [x];
    assert d[|diff|] == x;
    if other != -2 {
      var k :| 0 <= k < |diff| && diff[k].Minus? != x.Minus? && diff[k].idx == other;
      assert d[k] == diff[k];
    }
  }

  /** The state of the merge: what is out, and what comes next on either side */
  ghost predicate Merging(diff: seq<Entry>, rest1: seq<Entry>, rest2: seq<Entry>, l1: int, l2: int) {
    && StartsInOrder(diff) && RunsTogether(diff)
    && Ascending(rest1, true) && Ascending(rest2, false)
    && (rest1 != [] ==> Pending(diff, rest1[0])) && (rest2 != [] ==> Pending(diff, rest2[0]))
    && Lasts(diff, l1, true) && Lasts(diff, l2, false)
  }

  lemma {:induction false} MergeFirst(diff: seq<Entry>, rest1: seq<Entry>, rest2: seq<Entry>, l1: int, l2: int)
    requires Merging(diff, rest1, rest2, l1, l2) && rest1 != []
    requires rest2 == [] || rest1[0].idx == l1 + 1 || (rest2[0].idx != l2 + 1 && rest1[0].idx < rest2[0].idx)
    ensures Merging(diff + [rest1[0]], rest1[1..], rest2, rest1[0].idx, l2)
  {
    var x := rest1[0];
    ContinuesLast(diff, x, l1);
    EmitKeepsOrder(diff, x);
    NewLast(diff, x, l1, l2);
    if rest2 != [] {
      ContinuesLast(diff, rest2[0], l2);
      OtherPending(diff, x, rest2[0]);
    }
    if |rest1| > 1 {
      NextPending(diff, x, rest1[1]);
    }
  }

  lemma {:induction false} MergeSecond(diff: seq<Entry>, rest1: seq<Entry>, rest2: seq<Entry>, l1: int, l2: int)
    requires Merging(diff, rest1, rest2, l1, l2) && rest2 != []
    requires rest1 == [] || rest2[0].idx == l2 + 1 || (rest1[0].idx != l1 + 1 && rest2[0].idx <= rest1[0].idx)
    ensures Merging(diff + [rest2[0]], rest1, rest2[1..], l1, rest2[0].idx)
  {
    var x := rest2[0];
    ContinuesLast(diff, x, l2);
    EmitKeepsOrder(diff, x);
    NewLast(diff, x, l2, l1);
    if rest1 != [] {
      ContinuesLast(diff, rest1[0], l1);
      OtherPending(diff, x, rest1[0]);
    }
    if |rest2| > 1 {
      NextPending(diff, x, rest2[1]);
    }
  }

  ghost predicate Halfway(diff: seq<Entry>, old1: seq<Entry>, p1: nat, old2: seq<Entry>, p2: nat, l1: int, l2: int) {
    && p1 <= |old1| && p2 <= |old2|
    && Entries(diff, true) == old1[..p1] && Entries(diff, false) == old2[..p2]
    && Ascending(old1, true) && Ascending(old2, false)
    && Merging(diff, old1[p1..], old2[p2..], l1, l2)
  }

  lemma {:induction false} Advance(es: seq<Entry>, p: nat)
    requires p < |es|
    ensures es[p..][0] == es[p] && es[p..][1..] == es[p + 1..]
    ensures es[..p] + [es[p]] == es[..p + 1]
  {
  }

  lemma {:induction false} TakeFirst(diff: seq<Entry>, old1: seq<Entry>, p1: nat, old2: seq<Entry>, p2: nat, l1: int,
                                     l2: int)
    requires Halfway(diff, old1, p1, old2, p2, l1, l2) && p1 < |old1|
    requires p2 == |old2| || old1[p1].idx == l1 + 1 || (old2[p2].idx != l2 + 1 && old1[p1].idx < old2[p2].idx)
    ensures Halfway(diff + [old1[p1]], old1, p1 + 1, old2, p2, old1[p1].idx, l2)
  {
    Advance(old1, p1);
    MergeFirst(diff, old1[p1..], old2[p2..], l1, l2);
    EntriesSnoc(diff, old1[p1]);
  }

  lemma {:induction false} TakeSecond(diff: seq<Entry>, old1: seq<Entry>, p1: nat, old2: seq<Entry>, p2: nat, l1: int,
                                      l2: int)
    requires Halfway(diff, old1, p1, old2, p2, l1, l2) && p2 < |old2|
    requires p1 == |old1| || old2[p2].idx == l2 + 1 || (old1[p1].idx != l1 + 1 && old2[p2].idx <= old1[p1].idx)
    ensures Halfway(diff + [old2[p2]], old1, p1, old2, p2 + 1, l1, old2[p2].idx)
  {
    Advance(old2, p2);
    MergeSecond(diff, old1[p1..], old2[p2..], l1, l2);
    EntriesSnoc(diff, old2[p2]);
  }

  /** The merge: runs of neighbouring lines of one side stay together, otherwise the smaller
      position goes first.  Every recorded entry comes out once, each side in its order. */
  method Merge(old1: seq<Entry>, old2: seq<Entry>) returns (diff: seq<Entry>)
    requires Ascending(old1, true) && Ascending(old2, false)
    ensures Minuses(diff) == old1 && Pluses(diff) == old2
    ensures StartsInOrder(diff) && RunsTogether(diff)
  {
    diff := [];
    var p1, p2, l1: int, l2: int := 0, 0, -2, -2;
    assert old1[0..] == old1 && old2[0..] == old2;
    while p1 < |old1| || p2 < |old2|
      invariant 0 <= p1 && 0 <= p2 && Halfway(diff, old1, p1, old2, p2, l1, l2)
      decreases |old1| - p1 + |old2| - p2
    {
      var first: bool;
      if p2 == |old2| || (p1 < |old1| && old1[p1].idx == l1 + 1) {
        first := true;
      } else if p1 == |old1| || old2[p2].idx == l2 + 1 {
        first := false;
      } else {
        first := old1[p1].idx < old2[p2].idx;
      }
      if first {
        TakeFirst(diff, old1, p1, old2, p2, l1, l2);
        l1 := old1[p1].idx;
        diff := diff + [old1[p1]];
        p1 := p1 + 1;
      } else {
        TakeSecond(diff, old1, p1, old2, p2, l1, l2);
        l2 := old2[p2].idx;
        diff := diff + [old2[p2]];
        p2 := p2 + 1;
      }
    }
    assert old1[..p1] == old1 && old2[..p2] == old2;
  }

  /** generate_array_diff.  The array keys of the source may run one ahead of the positions, on
      both sides alike; the merge only compares keys with each other.  The diff is the merge of the
      skipped lines, followed by what the main loop left over of the one list or the other. */
  method GenerateArrayDiff(ar1: seq<string>, ar2: seq<string>, comp: Comp, w: seq<string>)
      returns (diff: seq<Entry>, ghost merged: seq<Entry>)
    requires |w| == |ar1|
    ensures Faithful(Minuses(diff), w) && Faithful(Pluses(diff), ar2)
    ensures IsPatch(ar1, ar2, comp, diff)
    ensures (Minuses(merged), Pluses(merged)) == Skips(ar1, ar2, comp, w, 0, 0)
    ensures StartsInOrder(merged) && RunsTogether(merged)
    ensures
      var stop := Stop(ar1, ar2, comp, 0, 0);
      diff == merged + Rest(w, stop.0, true) + Rest(ar2, stop.1, false)
    ensures forall p: nat, f: nat :: Inserted(ar1, ar2, comp, p, f) ==>
      (diff == Block(ar2, p, p + f, false) <==> p == |ar1| || f <= 10)
    ensures forall p: nat, g: nat :: Deleted(ar1, ar2, comp, p, g) ==>
      (diff == Block(w, p, p + g, true) <==> p == |ar2| || g <= 6)
    ensures forall p: nat :: Swapped(ar1, ar2, comp, p) ==> diff == [Plus(p, ar2[p]), Minus(p + 1, w[p + 1])]
    ensures
      var r := Run(ar1, ar2, comp, 0, 0);
      Past(Minuses(diff), r) && Past(Pluses(diff), r)
  {
    var old1, old2, idx1, idx2 := Collect(ar1, ar2, comp, w);
    ghost var r := Run(ar1, ar2, comp, 0, 0);
    diff := Merge(old1, old2);
    merged := diff;
    diff := RestOfWanted(w, idx1, diff, r);
    diff := RestOfOutput(ar2, idx2, diff, r);
    forall p: nat, f: nat | Inserted(ar1, ar2, comp, p, f)
      ensures diff == Block(ar2, p, p + f, false) <==> p == |ar1| || f <= 10
    {
      InsertedDiff(ar1, ar2, comp, w, diff, merged, p, f);
    }
    forall p: nat, g: nat | Deleted(ar1, ar2, comp, p, g)
      ensures diff == Block(w, p, p + g, true) <==> p == |ar2| || g <= 6
    {
      DeletedDiff(ar1, ar2, comp, w, diff, merged, p, g);
    }
    forall p: nat | Swapped(ar1, ar2, comp, p) ensures diff == [Plus(p, ar2[p]), Minus(p + 1, w[p + 1])] {
      SwappedDiff(ar1, ar2, comp, w, diff, merged, p);
    }
  }

  /** `longer` is `diff` with the lines of one side from `lo` to `i` behind it, which changes
      neither what survives of that side nor the other one */
  ghost predicate Added(diff: seq<Entry>, longer: seq<Entry>, lines: seq<string>, lo: nat, i: nat, minus: bool,
                        r: nat) {
    && lo <= i <= |lines|
    && longer + Rest(lines, i, minus) == diff + Rest(lines, lo, minus)
    && Entries(longer, !minus) == Entries(diff, !minus)
    && Side(Entries(longer, minus), lines, i, minus) && Past(Entries(longer, minus), r)
    && Survivors(0, i, Idxs(Entries(longer, minus))) == Survivors(0, lo, Idxs(Entries(diff, minus)))
  }

  lemma {:induction false} AddLine(diff: seq<Entry>, longer: seq<Entry>, lines: seq<string>, lo: nat, i: nat,
                                   minus: bool, r: nat)
    requires Added(diff, longer, lines, lo, i, minus, r) && r <= i < |lines|
    ensures Added(diff, longer + [if minus then Minus(i, lines[i]) else Plus(i, lines[i])], lines, lo, i + 1, minus, r)
  {
    var e := if minus then Minus(i, lines[i]) else Plus(i, lines[i]);
    var es := Entries(longer, minus);
    SkipLine(es, lines, i, e);
    EntriesSnoc(longer, e);
    RestFirst(longer, lines, i, minus);
    assert Past(es + [e], r);
  }

  lemma {:induction false} RestFirst(longer: seq<Entry>, lines: seq<string>, i: nat, minus: bool)
    requires i < |lines|
    ensures longer + Rest(lines, i, minus) ==
      longer + [if minus then Minus(i, lines[i]) else Plus(i, lines[i])] + Rest(lines, i + 1, minus)
  {
  }

  /** The wanted lines after the main loop are all missing from the output */
  method RestOfWanted(w: seq<string>, idx1: nat, diff: seq<Entry>, ghost r: nat) returns (longer: seq<Entry>)
    requires Side(Minuses(diff), w, idx1, true) && r <= idx1 && Past(Minuses(diff), r)
    ensures Added(diff, longer, w, idx1, |w|, true, r) && longer == diff + Rest(w, idx1, true)
  {
    longer := diff;
    var i := idx1;
    while i < |w|
      invariant Added(diff, longer, w, idx1, i, true, r)
    {
      AddLine(diff, longer, w, idx1, i, true, r);
      longer := longer + [Minus(i, w[i])];
      i := i + 1;
    }
    assert longer + [] == longer;
  }

  /** The output lines after the main loop are all extra */
  method RestOfOutput(ar2: seq<string>, idx2: nat, diff: seq<Entry>, ghost r: nat) returns (longer: seq<Entry>)
    requires Side(Pluses(diff), ar2, idx2, false) && r <= idx2 && Past(Pluses(diff), r)
    ensures Added(diff, longer, ar2, idx2, |ar2|, false, r) && longer == diff + Rest(ar2, idx2, false)
  {
    longer := diff;
    var i := idx2;
    while i < |ar2|
      invariant Added(diff, longer, ar2, idx2, i, false, r)
    {
      AddLine(diff, longer, ar2, idx2, i, false, r);
      longer := longer + [Plus(i, ar2[i])];
      i := i + 1;
    }
    assert longer + [] == longer;
  }

  // ---------- How far the look-ahead sees ----------

  lemma {:induction false} SecondReaches(ar1: seq<string>, ar2: seq<string>, comp: Comp, i: nat, j: nat, budget: real,
                                         k: nat)
    requires i <= |ar1| && 1 <= k && j + k < |ar2| && k as real < budget + 1.0
    ensures AheadSecond(ar1, ar2, comp, i, j, budget) >= Run(ar1, ar2, comp, i, j + k)
    decreases k
  {
    if k > 1 {
      SecondReaches(ar1, ar2, comp, i, j + 1, budget - 1.0, k - 1);
    }
  }

  lemma {:induction false} FirstReaches(ar1: seq<string>, ar2: seq<string>, comp: Comp, i: nat, j: nat, budget: real,
                                        k: nat)
    requires j <= |ar2| && 1 <= k && i + k < |ar1| && k as real < budget + 1.0
    ensures AheadFirst(ar1, ar2, comp, i, j, budget) >= Run(ar1, ar2, comp, i + k, j)
    decreases k
  {
    if k > 1 {
      FirstReaches(ar1, ar2, comp, i + 1, j, budget - 1.0, k - 1);
    }
  }

  /** Behind the run at hand the look-ahead finds every run that starts within its budget: one step
      for each match and each skipped line of the second list, twice that for lines of the first */
  lemma {:induction false} LooksAhead(ar1: seq<string>, ar2: seq<string>, comp: Comp, i: nat, j: nat, steps: real,
                                      k: nat)
    requires i <= |ar1| && j <= |ar2|
    ensures
      var r := Run(ar1, ar2, comp, i, j);
      && Ahead(ar1, ar2, comp, i, j, steps) >= r
      && (1 <= k && j + r + k < |ar2| && k as real < steps - r as real ==>
            Ahead(ar1, ar2, comp, i, j, steps) >= r + Run(ar1, ar2, comp, i + r, j + r + k))
      && (1 <= k && i + r + k < |ar1| && 2.0 * k as real < steps - r as real + 1.0 ==>
            Ahead(ar1, ar2, comp, i, j, steps) >= r + Run(ar1, ar2, comp, i + r + k, j + r))
  {
    var r := Run(ar1, ar2, comp, i, j);
    var left := steps - r as real - 1.0;
    if 1 <= k && j + r + k < |ar2| && k as real < steps - r as real {
      SecondReaches(ar1, ar2, comp, i + r, j + r, left, k);
    }
    if 1 <= k && i + r + k < |ar1| && 2.0 * k as real < steps - r as real + 1.0 {
      FirstReaches(ar1, ar2, comp, i + r, j + r, left / 2.0, k);
    }
  }

  /** and it never promises more than there are lines */
  lemma {:induction false} AheadBounded(ar1: seq<string>, ar2: seq<string>, comp: Comp, i: nat, j: nat, steps: real)
    requires i <= |ar1| && j <= |ar2|
    ensures Ahead(ar1, ar2, comp, i, j, steps) <= |ar1| - i && Ahead(ar1, ar2, comp, i, j, steps) <= |ar2| - j
    decreases |ar1| - i + |ar2| - j, 1
  {
    var r := Run(ar1, ar2, comp, i, j);
    var left := steps - r as real - 1.0;
    FirstBounded(ar1, ar2, comp, i + r, j + r, left / 2.0);
    SecondBounded(ar1, ar2, comp, i + r, j + r, left);
  }

  lemma {:induction false} FirstBounded(ar1: seq<string>, ar2: seq<string>, comp: Comp, i: nat, j: nat, budget: real)
    requires i <= |ar1| && j <= |ar2|
    ensures AheadFirst(ar1, ar2, comp, i, j, budget) <= |ar1| - i
    ensures AheadFirst(ar1, ar2, comp, i, j, budget) <= |ar2| - j
    decreases |ar1| - i + |ar2| - j, 0
  {
    if i + 1 < |ar1| && budget > 0.0 {
      AheadBounded(ar1, ar2, comp, i + 1, j, budget - 1.0);
      FirstBounded(ar1, ar2, comp, i + 1, j, budget - 1.0);
    }
  }

  lemma {:induction false} SecondBounded(ar1: seq<string>, ar2: seq<string>, comp: Comp, i: nat, j: nat, budget: real)
    requires i <= |ar1| && j <= |ar2|
    ensures AheadSecond(ar1, ar2, comp, i, j, budget) <= |ar1| - i
    ensures AheadSecond(ar1, ar2, comp, i, j, budget) <= |ar2| - j
    decreases |ar1| - i + |ar2| - j, 0
  {
    if j + 1 < |ar2| && budget > 0.0 {
      AheadBounded(ar1, ar2, comp, i, j + 1, budget - 1.0);
      SecondBounded(ar1, ar2, comp, i, j + 1, budget - 1.0);
    }
  }

  /** No line from `i` to `iEnd` matches one from `j` to `jEnd` */
  ghost predicate Foreign(ar1: seq<string>, ar2: seq<string>, comp: Comp, i: nat, iEnd: nat, j: nat, jEnd: nat) {
    forall a, c :: i <= a < iEnd && a < |ar1| && j <= c < jEnd && c < |ar2| ==> !comp(ar1[a], ar2[c])
  }

  /** Lines of the second list that match nothing hide what stands `steps` behind them */
  lemma {:induction false} BlindSecond(ar1: seq<string>, ar2: seq<string>, comp: Comp, i: nat, j: nat, steps: real,
                                       end: nat)
    requires i <= |ar1| && j <= |ar2| && Foreign(ar1, ar2, comp, i, |ar1|, j, end)
    requires j < end && j as real + steps <= end as real
    ensures Ahead(ar1, ar2, comp, i, j, steps) == 0
    decreases |ar1| - i + |ar2| - j, 1
  {
    assert Run(ar1, ar2, comp, i, j) == 0;
    if steps - 1.0 > 0.0 {
      BlindSecondByFirst(ar1, ar2, comp, i, j, (steps - 1.0) / 2.0, end);
      BlindSecondBySecond(ar1, ar2, comp, i, j, steps - 1.0, end);
    }
  }

  lemma {:induction false} BlindSecondByFirst(ar1: seq<string>, ar2: seq<string>, comp: Comp, i: nat, j: nat,
                                              budget: real, end: nat)
    requires i <= |ar1| && j <= |ar2| && Foreign(ar1, ar2, comp, i, |ar1|, j, end)
    requires j < end && j as real + budget <= end as real
    ensures AheadFirst(ar1, ar2, comp, i, j, budget) == 0
    decreases |ar1| - i + |ar2| - j, 0
  {
    if i + 1 < |ar1| && budget > 0.0 {
      BlindSecond(ar1, ar2, comp, i + 1, j, budget - 1.0, end);
      BlindSecondByFirst(ar1, ar2, comp, i + 1, j, budget - 1.0, end);
    }
  }

  lemma {:induction false} BlindSecondBySecond(ar1: seq<string>, ar2: seq<string>, comp: Comp, i: nat, j: nat,
                                               budget: real, end: nat)
    requires i <= |ar1| && j <= |ar2| && Foreign(ar1, ar2, comp, i, |ar1|, j, end)
    requires j as real + budget + 1.0 <= end as real
    ensures AheadSecond(ar1, ar2, comp, i, j, budget) == 0
    decreases |ar1| - i + |ar2| - j, 0
  {
    if j + 1 < |ar2| && budget > 0.0 {
      BlindSecond(ar1, ar2, comp, i, j + 1, budget - 1.0, end);
      BlindSecondBySecond(ar1, ar2, comp, i, j + 1, budget - 1.0, end);
    }
  }

  /** Such lines of the first list hide what stands half as far behind them */
  lemma {:induction false} BlindFirst(ar1: seq<string>, ar2: seq<string>, comp: Comp, i: nat, j: nat, steps: real,
                                      end: nat)
    requires i <= |ar1| && j <= |ar2| && Foreign(ar1, ar2, comp, i, end, j, |ar2|)
    requires i < end && i as real + (steps + 1.0) / 2.0 <= end as real
    ensures Ahead(ar1, ar2, comp, i, j, steps) == 0
    decreases |ar1| - i + |ar2| - j, 1
  {
    assert Run(ar1, ar2, comp, i, j) == 0;
    if steps - 1.0 > 0.0 {
      BlindFirstByFirst(ar1, ar2, comp, i, j, (steps - 1.0) / 2.0, end);
      BlindFirstBySecond(ar1, ar2, comp, i, j, steps - 1.0, end);
    }
  }

  lemma {:induction false} BlindFirstByFirst(ar1: seq<string>, ar2: seq<string>, comp: Comp, i: nat, j: nat,
                                             budget: real, end: nat)
    requires i <= |ar1| && j <= |ar2| && Foreign(ar1, ar2, comp, i, end, j, |ar2|)
    requires i as real + budget + 1.0 <= end as real
    ensures AheadFirst(ar1, ar2, comp, i, j, budget) == 0
    decreases |ar1| - i + |ar2| - j, 0
  {
    if i + 1 < |ar1| && budget > 0.0 {
      BlindFirst(ar1, ar2, comp, i + 1, j, budget - 1.0, end);
      BlindFirstByFirst(ar1, ar2, comp, i + 1, j, budget - 1.0, end);
    }
  }

  lemma {:induction false} BlindFirstBySecond(ar1: seq<string>, ar2: seq<string>, comp: Comp, i: nat, j: nat,
                                              budget: real, end: nat)
    requires i <= |ar1| && j <= |ar2| && Foreign(ar1, ar2, comp, i, end, j, |ar2|)
    requires i < end && i as real + budget / 2.0 <= end as real
    ensures AheadSecond(ar1, ar2, comp, i, j, budget) == 0
    decreases |ar1| - i + |ar2| - j, 0
  {
    if j + 1 < |ar2| && budget > 0.0 {
      BlindFirst(ar1, ar2, comp, i, j + 1, budget - 1.0, end);
      BlindFirstBySecond(ar1, ar2, comp, i, j + 1, budget - 1.0, end);
    }
  }

  // ---------- One inserted or deleted block ----------

  /** `ar2` is `ar1` with `f` lines inserted at `p` that match nothing behind `p` */
  ghost predicate Inserted(ar1: seq<string>, ar2: seq<string>, comp: Comp, p: nat, f: nat) {
    && p <= |ar1| && |ar2| == |ar1| + f
    && (forall a :: 0 <= a < p ==> comp(ar1[a], ar2[a]))
    && (forall a :: p <= a < |ar1| ==> comp(ar1[a], ar2[a + f]))
    && Foreign(ar1, ar2, comp, p, |ar1|, p, p + f)
  }

  /** `ar2` is `ar1` without `g` lines at `p` that match nothing behind `p` */
  ghost predicate Deleted(ar1: seq<string>, ar2: seq<string>, comp: Comp, p: nat, g: nat) {
    && p <= |ar2| && |ar1| == |ar2| + g
    && (forall a :: 0 <= a < p ==> comp(ar1[a], ar2[a]))
    && (forall a :: p <= a < |ar2| ==> comp(ar1[a + g], ar2[a]))
    && Foreign(ar1, ar2, comp, p, p + g, p, |ar2|)
  }

  lemma {:induction false} RunToEnd(ar1: seq<string>, ar2: seq<string>, comp: Comp, i: nat, j: nat)
    requires i <= |ar1| && j <= |ar2| && |ar1| - i == |ar2| - j
    requires forall a :: i <= a < |ar1| ==> comp(ar1[a], ar2[a - i + j])
    ensures Run(ar1, ar2, comp, i, j) == |ar1| - i
    decreases |ar1| - i
  {
    if i < |ar1| {
      assert comp(ar1[i], ar2[i - i + j]);
      forall a | i + 1 <= a < |ar1| ensures comp(ar1[a], ar2[a - (i + 1) + (j + 1)]) {
        assert comp(ar1[a], ar2[a - i + j]);
      }
      RunToEnd(ar1, ar2, comp, i + 1, j + 1);
    }
  }

  lemma {:induction false} InsertedRun(ar1: seq<string>, ar2: seq<string>, comp: Comp, p: nat, f: nat)
    requires Inserted(ar1, ar2, comp, p, f)
    ensures Run(ar1, ar2, comp, p, p + f) == |ar1| - p
  {
    forall a | p <= a < |ar1| ensures comp(ar1[a], ar2[a - p + (p + f)]) {
      assert comp(ar1[a], ar2[a + f]);
    }
    RunToEnd(ar1, ar2, comp, p, p + f);
  }

  lemma {:induction false} DeletedRun(ar1: seq<string>, ar2: seq<string>, comp: Comp, p: nat, g: nat)
    requires Deleted(ar1, ar2, comp, p, g)
    ensures Run(ar1, ar2, comp, p + g, p) == |ar2| - p
  {
    forall a | p + g <= a < |ar1| ensures comp(ar1[a], ar2[a - (p + g) + p]) {
      var c := a - g;
      assert comp(ar1[c + g], ar2[c]);
    }
    RunToEnd(ar1, ar2, comp, p + g, p);
  }

  /** What the main loop does from two positions on */
  ghost predicate LoopFrom(ar1: seq<string>, ar2: seq<string>, comp: Comp, w: seq<string>, i: nat, j: nat,
                           minuses: seq<Entry>, pluses: seq<Entry>, iEnd: nat, jEnd: nat)
  {
    && i <= |ar1| == |w| && j <= |ar2|
    && Skips(ar1, ar2, comp, w, i, j) == (minuses, pluses)
    && Stop(ar1, ar2, comp, i, j) == (iEnd, jEnd)
  }

  lemma {:induction false} LoopOverMatch(ar1: seq<string>, ar2: seq<string>, comp: Comp, w: seq<string>, i: nat,
                                         j: nat, minuses: seq<Entry>, pluses: seq<Entry>, iEnd: nat, jEnd: nat)
    requires i < |ar1| == |w| && j < |ar2| && comp(ar1[i], ar2[j])
    requires LoopFrom(ar1, ar2, comp, w, i + 1, j + 1, minuses, pluses, iEnd, jEnd)
    ensures LoopFrom(ar1, ar2, comp, w, i, j, minuses, pluses, iEnd, jEnd)
  {
  }

  lemma {:induction false} LoopOverPlus(ar1: seq<string>, ar2: seq<string>, comp: Comp, w: seq<string>, i: nat,
                                        j: nat, minuses: seq<Entry>, pluses: seq<Entry>, iEnd: nat, jEnd: nat)
    requires i < |ar1| == |w| && j < |ar2| && !comp(ar1[i], ar2[j]) && Choice(ar1, ar2, comp, i, j) == (false, true)
    requires LoopFrom(ar1, ar2, comp, w, i, j + 1, minuses, pluses, iEnd, jEnd)
    ensures LoopFrom(ar1, ar2, comp, w, i, j, minuses, [Plus(j, ar2[j])] + pluses, iEnd, jEnd)
  {
    assert [] + minuses == minuses;
  }

  lemma {:induction false} LoopOverMinus(ar1: seq<string>, ar2: seq<string>, comp: Comp, w: seq<string>, i: nat,
                                         j: nat, minuses: seq<Entry>, pluses: seq<Entry>, iEnd: nat, jEnd: nat)
    requires i < |ar1| == |w| && j < |ar2| && !comp(ar1[i], ar2[j]) && Choice(ar1, ar2, comp, i, j) == (true, false)
    requires LoopFrom(ar1, ar2, comp, w, i + 1, j, minuses, pluses, iEnd, jEnd)
    ensures LoopFrom(ar1, ar2, comp, w, i, j, [Minus(i, w[i])] + minuses, pluses, iEnd, jEnd)
  {
    assert [] + pluses == pluses;
  }

  lemma {:induction false} LoopOverPrefix(ar1: seq<string>, ar2: seq<string>, comp: Comp, w: seq<string>, i: nat,
                                          p: nat, minuses: seq<Entry>, pluses: seq<Entry>, iEnd: nat, jEnd: nat)
    requires i <= p <= |ar1| && p <= |ar2| && forall a :: i <= a < p ==> comp(ar1[a], ar2[a])
    requires LoopFrom(ar1, ar2, comp, w, p, p, minuses, pluses, iEnd, jEnd)
    ensures LoopFrom(ar1, ar2, comp, w, i, i, minuses, pluses, iEnd, jEnd)
    decreases p - i
  {
    if i < p {
      LoopOverPrefix(ar1, ar2, comp, w, i + 1, p, minuses, pluses, iEnd, jEnd);
      LoopOverMatch(ar1, ar2, comp, w, i, i, minuses, pluses, iEnd, jEnd);
    }
  }

  lemma {:induction false} LoopOverRest(ar1: seq<string>, ar2: seq<string>, comp: Comp, w: seq<string>, i: nat, j: nat)
    requires i <= |ar1| == |w| && j <= |ar2| && Run(ar1, ar2, comp, i, j) == |ar1| - i == |ar2| - j
    ensures LoopFrom(ar1, ar2, comp, w, i, j, [], [], |ar1|, |ar2|)
    decreases |ar1| - i
  {
    if i < |ar1| {
      LoopOverRest(ar1, ar2, comp, w, i + 1, j + 1);
      LoopOverMatch(ar1, ar2, comp, w, i, j, [], [], |ar1|, |ar2|);
    }
  }

  lemma {:induction false} ChoosesPlus(ar1: seq<string>, ar2: seq<string>, comp: Comp, p: nat, f: nat, b: nat)
    requires Inserted(ar1, ar2, comp, p, f) && p < |ar1| && b < f <= b + 10
    ensures Choice(ar1, ar2, comp, p, p + b) == (false, true)
  {
    InsertedRun(ar1, ar2, comp, p, f);
    AheadBounded(ar1, ar2, comp, p + 1, p + b, 10.0);
    if b + 1 == f {
      LooksAhead(ar1, ar2, comp, p, p + f, 10.0, 0);
    } else {
      assert Run(ar1, ar2, comp, p, p + b + 1) == 0;
      LooksAhead(ar1, ar2, comp, p, p + b + 1, 10.0, f - b - 1);
    }
  }

  lemma {:induction false} LoopOverInserted(ar1: seq<string>, ar2: seq<string>, comp: Comp, w: seq<string>, p: nat,
                                            f: nat, b: nat)
    requires Inserted(ar1, ar2, comp, p, f) && |w| == |ar1| && p < |ar1| && b <= f <= b + 10
    ensures LoopFrom(ar1, ar2, comp, w, p, p + b, [], Block(ar2, p + b, p + f, false), |ar1|, |ar2|)
    decreases f - b
  {
    if b == f {
      InsertedRun(ar1, ar2, comp, p, f);
      LoopOverRest(ar1, ar2, comp, w, p, p + f);
    } else {
      LoopOverInserted(ar1, ar2, comp, w, p, f, b + 1);
      ChoosesPlus(ar1, ar2, comp, p, f, b);
      LoopOverPlus(ar1, ar2, comp, w, p, p + b, [], Block(ar2, p + b + 1, p + f, false), |ar1|, |ar2|);
    }
  }

  lemma {:induction false} ChoosesMinus(ar1: seq<string>, ar2: seq<string>, comp: Comp, p: nat, g: nat, b: nat)
    requires Deleted(ar1, ar2, comp, p, g) && p < |ar2| && b < g <= b + 6
    ensures Choice(ar1, ar2, comp, p + b, p) == (true, false)
  {
    DeletedRun(ar1, ar2, comp, p, g);
    AheadBounded(ar1, ar2, comp, p + b, p + 1, 10.0);
    if b + 1 == g {
      LooksAhead(ar1, ar2, comp, p + g, p, 10.0, 0);
    } else {
      assert Run(ar1, ar2, comp, p + b + 1, p) == 0;
      LooksAhead(ar1, ar2, comp, p + b + 1, p, 10.0, g - b - 1);
    }
  }

  lemma {:induction false} LoopOverDeleted(ar1: seq<string>, ar2: seq<string>, comp: Comp, w: seq<string>, p: nat,
                                           g: nat, b: nat)
    requires Deleted(ar1, ar2, comp, p, g) && |w| == |ar1| && p < |ar2| && b <= g <= b + 6
    ensures LoopFrom(ar1, ar2, comp, w, p + b, p, Block(w, p + b, p + g, true), [], |ar1|, |ar2|)
    decreases g - b
  {
    if b == g {
      DeletedRun(ar1, ar2, comp, p, g);
      LoopOverRest(ar1, ar2, comp, w, p + g, p);
    } else {
      LoopOverDeleted(ar1, ar2, comp, w, p, g, b + 1);
      ChoosesMinus(ar1, ar2, comp, p, g, b);
      LoopOverMinus(ar1, ar2, comp, w, p + b, p, Block(w, p + b + 1, p + g, true), [], |ar1|, |ar2|);
    }
  }

  /** Behind a longer block the look-ahead sees nothing, and a line of each side is skipped */
  lemma {:induction false} ChoosesBoth(ar1: seq<string>, ar2: seq<string>, comp: Comp, p: nat, f: nat)
    requires p < |ar1| && p < |ar2|
    requires (Inserted(ar1, ar2, comp, p, f) && f > 10) || (Deleted(ar1, ar2, comp, p, f) && f > 6)
    ensures Choice(ar1, ar2, comp, p, p) == (true, true) && !comp(ar1[p], ar2[p])
  {
    if Inserted(ar1, ar2, comp, p, f) && f > 10 {
      BlindSecond(ar1, ar2, comp, p + 1, p, 10.0, p + f);
      BlindSecond(ar1, ar2, comp, p, p + 1, 10.0, p + f);
    } else {
      BlindFirst(ar1, ar2, comp, p + 1, p, 10.0, p + f);
      BlindFirst(ar1, ar2, comp, p, p + 1, 10.0, p + f);
    }
  }

  /** Without entries of one side, those of the other are all there is */
  lemma {:induction false} OneSided(es: seq<Entry>, minus: bool)
    requires Entries(es, !minus) == []
    ensures Entries(es, minus) == es
  {
    if es != [] {
      var front, e := es[..|es| - 1], es[|es| - 1];
      assert es == front + [e];
      EntriesSnoc(front, e);
      OneSided(front, minus);
    }
  }

  lemma {:induction false} BlockSides(lines: seq<string>, lo: nat, hi: nat, minus: bool)
    requires lo <= hi <= |lines|
    ensures Entries(Block(lines, lo, hi, minus), !minus) == []
    decreases hi
  {
    if lo < hi {
      var front := Block(lines, lo, hi - 1, minus);
      var e := if minus then Minus(hi - 1, lines[hi - 1]) else Plus(hi - 1, lines[hi - 1]);
      assert Block(lines, lo, hi, minus) == front + [e];
      BlockSides(lines, lo, hi - 1, minus);
      EntriesSnoc(front, e);
    }
  }

  /** What generate_array_diff returns, from what its main loop does */
  ghost predicate DiffOf(ar1: seq<string>, ar2: seq<string>, comp: Comp, w: seq<string>, diff: seq<Entry>,
                         merged: seq<Entry>) {
    && |w| == |ar1|
    && (Minuses(merged), Pluses(merged)) == Skips(ar1, ar2, comp, w, 0, 0)
    && var stop := Stop(ar1, ar2, comp, 0, 0);
       diff == merged + Rest(w, stop.0, true) + Rest(ar2, stop.1, false)
  }

  lemma {:induction false} EntriesPrefix(a: seq<Entry>, b: seq<Entry>, minus: bool)
    ensures Entries(a, minus) <= Entries(a + b, minus)
    decreases |b|
  {
    if b == [] {
      assert a + b == a;
    } else {
      var front, e := b[..|b| - 1], b[|b| - 1];
      EntriesPrefix(a, front, minus);
      EntriesSnoc(a + front, e);
      assert a + b == a + front + [e];
    }
  }

  /** Both sides skip at `p`, so both sides show */
  lemma {:induction false} BothShow(ar1: seq<string>, ar2: seq<string>, comp: Comp, w: seq<string>, diff: seq<Entry>,
                                    merged: seq<Entry>, p: nat, f: nat)
    requires DiffOf(ar1, ar2, comp, w, diff, merged) && p < |ar1| && p < |ar2|
    requires (Inserted(ar1, ar2, comp, p, f) && f > 10) || (Deleted(ar1, ar2, comp, p, f) && f > 6)
    ensures Minuses(diff) != [] && Pluses(diff) != []
  {
    ChoosesBoth(ar1, ar2, comp, p, f);
    var there, stop := Skips(ar1, ar2, comp, w, p, p), Stop(ar1, ar2, comp, p, p);
    LoopOverPrefix(ar1, ar2, comp, w, 0, p, there.0, there.1, stop.0, stop.1);
    var end := Stop(ar1, ar2, comp, 0, 0);
    var tail := Rest(w, end.0, true) + Rest(ar2, end.1, false);
    assert diff == merged + tail;
    EntriesPrefix(merged, tail, true);
    EntriesPrefix(merged, tail, false);
  }

  /** Where the main loop reaches both ends and skips on one side only, its entries are the diff */
  lemma {:induction false} DiffIsSkipped(ar1: seq<string>, ar2: seq<string>, comp: Comp, w: seq<string>,
                                         diff: seq<Entry>, merged: seq<Entry>, block: seq<Entry>, minus: bool)
    requires DiffOf(ar1, ar2, comp, w, diff, merged)
    requires
      var minuses, pluses := if minus then block else [], if minus then [] else block;
      LoopFrom(ar1, ar2, comp, w, 0, 0, minuses, pluses, |ar1|, |ar2|)
    ensures diff == block
  {
    OneSided(merged, minus);
    assert merged + [] + [] == merged;
  }

  /** Where it stops at the end of both without a skip, or of one, the rest of the other is the diff */
  lemma {:induction false} DiffIsRest(ar1: seq<string>, ar2: seq<string>, comp: Comp, w: seq<string>,
                                      diff: seq<Entry>, merged: seq<Entry>, i: nat, j: nat)
    requires DiffOf(ar1, ar2, comp, w, diff, merged) && i <= |ar1| && j <= |ar2|
    requires LoopFrom(ar1, ar2, comp, w, 0, 0, [], [], i, j)
    ensures diff == Rest(w, i, true) + Rest(ar2, j, false)
  {
    OneSided(merged, true);
    assert [] + Rest(w, i, true) == Rest(w, i, true);
  }

  lemma {:induction false} InsertedShort(ar1: seq<string>, ar2: seq<string>, comp: Comp, w: seq<string>,
                                         diff: seq<Entry>, merged: seq<Entry>, p: nat, f: nat)
    requires DiffOf(ar1, ar2, comp, w, diff, merged) && Inserted(ar1, ar2, comp, p, f)
    requires p == |ar1| || f <= 10
    ensures diff == Block(ar2, p, p + f, false)
  {
    var block := Block(ar2, p, p + f, false);
    if p == |ar1| {
      LoopOverPrefix(ar1, ar2, comp, w, 0, p, [], [], p, p);
      DiffIsRest(ar1, ar2, comp, w, diff, merged, p, p);
      assert [] + block == block;
    } else {
      LoopOverInserted(ar1, ar2, comp, w, p, f, 0);
      LoopOverPrefix(ar1, ar2, comp, w, 0, p, [], block, |ar1|, |ar2|);
      DiffIsSkipped(ar1, ar2, comp, w, diff, merged, block, false);
    }
  }

  lemma {:induction false} DeletedShort(ar1: seq<string>, ar2: seq<string>, comp: Comp, w: seq<string>,
                                        diff: seq<Entry>, merged: seq<Entry>, p: nat, g: nat)
    requires DiffOf(ar1, ar2, comp, w, diff, merged) && Deleted(ar1, ar2, comp, p, g)
    requires p == |ar2| || g <= 6
    ensures diff == Block(w, p, p + g, true)
  {
    var block := Block(w, p, p + g, true);
    if p == |ar2| {
      LoopOverPrefix(ar1, ar2, comp, w, 0, p, [], [], p, p);
      DiffIsRest(ar1, ar2, comp, w, diff, merged, p, p);
      assert block + [] == block;
    } else {
      LoopOverDeleted(ar1, ar2, comp, w, p, g, 0);
      LoopOverPrefix(ar1, ar2, comp, w, 0, p, block, [], |ar1|, |ar2|);
      DiffIsSkipped(ar1, ar2, comp, w, diff, merged, block, true);
    }
  }

  /** Resynchronisation: the diff of an inserted block is exactly its lines, if and only if the block
      stands at the end or has at most 10 lines */
  lemma {:induction false} InsertedDiff(ar1: seq<string>, ar2: seq<string>, comp: Comp, w: seq<string>,
                                        diff: seq<Entry>, merged: seq<Entry>, p: nat, f: nat)
    requires DiffOf(ar1, ar2, comp, w, diff, merged) && Inserted(ar1, ar2, comp, p, f)
    ensures diff == Block(ar2, p, p + f, false) <==> p == |ar1| || f <= 10
  {
    if p == |ar1| || f <= 10 {
      InsertedShort(ar1, ar2, comp, w, diff, merged, p, f);
    } else {
      BlockSides(ar2, p, p + f, false);
      BothShow(ar1, ar2, comp, w, diff, merged, p, f);
    }
  }

  /** The same for a deleted block, which may have at most 6 */
  lemma {:induction false} DeletedDiff(ar1: seq<string>, ar2: seq<string>, comp: Comp, w: seq<string>,
                                       diff: seq<Entry>, merged: seq<Entry>, p: nat, g: nat)
    requires DiffOf(ar1, ar2, comp, w, diff, merged) && Deleted(ar1, ar2, comp, p, g)
    ensures diff == Block(w, p, p + g, true) <==> p == |ar2| || g <= 6
  {
    if p == |ar2| || g <= 6 {
      DeletedShort(ar1, ar2, comp, w, diff, merged, p, g);
    } else {
      BlockSides(w, p, p + g, true);
      BothShow(ar1, ar2, comp, w, diff, merged, p, g);
    }
  }

  // ---------- Two swapped lines ----------

  /** `ar2` is `ar1` with the lines at `p` and `p` + 1 swapped, which match nothing else near by */
  ghost predicate Swapped(ar1: seq<string>, ar2: seq<string>, comp: Comp, p: nat) {
    && p + 1 < |ar1| == |ar2|
    && (forall a :: 0 <= a < |ar1| && a != p && a != p + 1 ==> comp(ar1[a], ar2[a]))
    && comp(ar1[p], ar2[p + 1]) && comp(ar1[p + 1], ar2[p]) && !comp(ar1[p], ar2[p])
    && (p + 2 < |ar1| ==> !comp(ar1[p + 2], ar2[p + 1]) && !comp(ar1[p + 1], ar2[p + 2]))
  }

  lemma {:induction false} SwappedRun(ar1: seq<string>, ar2: seq<string>, comp: Comp, p: nat)
    requires Swapped(ar1, ar2, comp, p)
    ensures Run(ar1, ar2, comp, p + 2, p + 2) == |ar1| - p - 2
  {
    RunToEnd(ar1, ar2, comp, p + 2, p + 2);
  }

  /** Both ways on promise the same, and then the line of the output is skipped */
  lemma {:induction false} SwappedTie(ar1: seq<string>, ar2: seq<string>, comp: Comp, p: nat)
    requires Swapped(ar1, ar2, comp, p)
    ensures Choice(ar1, ar2, comp, p, p) == (false, true)
  {
    SwappedRun(ar1, ar2, comp, p);
    assert Run(ar1, ar2, comp, p + 1, p) == 1 + Run(ar1, ar2, comp, p + 2, p + 1);
    assert Run(ar1, ar2, comp, p, p + 1) == 1 + Run(ar1, ar2, comp, p + 1, p + 2);
    LooksAhead(ar1, ar2, comp, p + 1, p, 10.0, 1);
    LooksAhead(ar1, ar2, comp, p, p + 1, 10.0, 1);
    AheadBounded(ar1, ar2, comp, p + 1, p, 10.0);
    AheadBounded(ar1, ar2, comp, p, p + 1, 10.0);
  }

  /** Behind the line that then matches, the other one is skipped in the wanted text */
  lemma {:induction false} SwappedBack(ar1: seq<string>, ar2: seq<string>, comp: Comp, p: nat)
    requires Swapped(ar1, ar2, comp, p) && p + 2 < |ar1|
    ensures Choice(ar1, ar2, comp, p + 1, p + 2) == (true, false)
  {
    SwappedRun(ar1, ar2, comp, p);
    LooksAhead(ar1, ar2, comp, p + 2, p + 2, 10.0, 0);
    AheadBounded(ar1, ar2, comp, p + 1, p + 3, 10.0);
  }

  lemma {:induction false} LoopOverSwapped(ar1: seq<string>, ar2: seq<string>, comp: Comp, w: seq<string>, p: nat)
    requires Swapped(ar1, ar2, comp, p) && |w| == |ar1|
    ensures
      if p + 2 == |ar1| then LoopFrom(ar1, ar2, comp, w, 0, 0, [], [Plus(p, ar2[p])], p + 1, p + 2)
      else LoopFrom(ar1, ar2, comp, w, 0, 0, [Minus(p + 1, w[p + 1])], [Plus(p, ar2[p])], |ar1|, |ar2|)
  {
    var n := |ar1|;
    var minuses := if p + 2 == n then [] else [Minus(p + 1, w[p + 1])];
    var iEnd := if p + 2 == n then p + 1 else n;
    if p + 2 < n {
      SwappedRun(ar1, ar2, comp, p);
      LoopOverRest(ar1, ar2, comp, w, p + 2, p + 2);
      SwappedBack(ar1, ar2, comp, p);
      LoopOverMinus(ar1, ar2, comp, w, p + 1, p + 2, [], [], n, n);
      assert [Minus(p + 1, w[p + 1])] + [] == minuses;
    }
    LoopOverMatch(ar1, ar2, comp, w, p, p + 1, minuses, [], iEnd, n);
    SwappedTie(ar1, ar2, comp, p);
    LoopOverPlus(ar1, ar2, comp, w, p, p, minuses, [], iEnd, n);
    assert [Plus(p, ar2[p])] + [] == [Plus(p, ar2[p])];
    LoopOverPrefix(ar1, ar2, comp, w, 0, p, minuses, [Plus(p, ar2[p])], iEnd, n);
  }

  lemma {:induction false} SidesLength(es: seq<Entry>)
    ensures |es| == |Minuses(es)| + |Pluses(es)|
  {
    if es != [] {
      var front, e := es[..|es| - 1], es[|es| - 1];
      assert es == front + [e];
      SidesLength(front);
      Sides(front, e);
    }
  }

  lemma {:induction false} PairSides(a: Entry, b: Entry)
    ensures Minuses([a, b]) == if a.Minus? && b.Minus? then [a, b] else if a.Minus? then [a] else if b.Minus? then [b] else []
    ensures Pluses([a, b]) == if a.Plus? && b.Plus? then [a, b] else if a.Plus? then [a] else if b.Plus? then [b] else []
  {
    assert [a, b] == ([] + [a]) + [b];
    Sides([], a);
    Sides([] + [a], b);
  }

  lemma {:induction false} TwoEntries(es: seq<Entry>, x: Entry, y: Entry)
    requires Minuses(es) == [y] && Pluses(es) == [x]
    requires StartsInOrder(es) && !Before(y, x)
    ensures es == [x, y]
  {
    SidesLength(es);
    var a, b := es[0], es[1];
    assert es == [a, b];
    PairSides(a, b);
    assert !Continues(es, 0);
  }

  /** The diff of two swapped lines: the second one appears early, and is missing in its place */
  lemma {:induction false} SwappedDiff(ar1: seq<string>, ar2: seq<string>, comp: Comp, w: seq<string>,
                                       diff: seq<Entry>, merged: seq<Entry>, p: nat)
    requires DiffOf(ar1, ar2, comp, w, diff, merged) && Swapped(ar1, ar2, comp, p) && StartsInOrder(merged)
    ensures diff == [Plus(p, ar2[p]), Minus(p + 1, w[p + 1])]
  {
    var x, y := Plus(p, ar2[p]), Minus(p + 1, w[p + 1]);
    LoopOverSwapped(ar1, ar2, comp, w, p);
    if p + 2 == |ar1| {
      OneSided(merged, false);
      assert Rest(w, p + 1, true) == [y] && Rest(ar2, p + 2, false) == [];
      assert [x] + [y] + [] == [x, y];
    } else {
      TwoEntries(merged, x, y);
      assert merged + [] + [] == merged;
    }
  }

  // ---------- Rebuilding the output in literal mode ----------

  /** Puts the '+' lines back at their positions among the surviving lines */
  function Weave(j: nat, kept: seq<string>, pluses: seq<Entry>): seq<string>
    decreases |kept| + |pluses|
  {
    if pluses != [] && pluses[0].idx == j then [pluses[0].line] + Weave(j + 1, kept, pluses[1..])
    else if kept != [] then [kept[0]] + Weave(j + 1, kept[1..], pluses)
    else []
  }

  ghost function LinesAt(lines: seq<string>, at: seq<nat>): (r: seq<string>)
    requires forall k :: 0 <= k < |at| ==> at[k] < |lines|
    ensures |r| == |at|
    ensures forall k :: 0 <= k < |at| ==> r[k] == lines[at[k]]
  {
    seq(|at|, k requires 0 <= k < |at| => lines[at[k]])
  }

  /** The text that the diff makes of the wanted lines */
  ghost function Patched(w: seq<string>, diff: seq<Entry>): seq<string> {
    SurvivorsBounds(0, |w|, Idxs(Minuses(diff)));
    Weave(0, LinesAt(w, Survivors(0, |w|, Idxs(Minuses(diff)))), Pluses(diff))
  }

  lemma {:induction false} WeaveRebuilds(lines: seq<string>, j: nat, kept: seq<string>, pluses: seq<Entry>)
    requires j <= |lines| && Faithful(pluses, lines)
    requires forall k :: 0 <= k < |pluses| ==> j <= pluses[k].idx
    requires
      var s := Survivors(j, |lines|, Idxs(pluses));
      |kept| == |s| && forall k :: 0 <= k < |s| ==> s[k] < |lines| && kept[k] == lines[s[k]]
    ensures Weave(j, kept, pluses) == lines[j..]
    decreases |lines| - j
  {
    if j < |lines| {
      var r := Idxs(pluses);
      var rest := Survivors(j + 1, |lines|, r);
      assert lines[j..] == [lines[j]] + lines[j + 1..];
      if pluses != [] && pluses[0].idx == j {
        assert pluses[0] in pluses;
        assert pluses == [pluses[0]] + pluses[1..];
        assert Survivors(j, |lines|, r) == rest;
        SurvivorsAgree(j + 1, |lines|, r, Idxs(pluses[1..]));
        WeaveRebuilds(lines, j + 1, kept, pluses[1..]);
      } else {
        assert j !in r by {
          assert forall e :: e in pluses ==> e.idx > j;
        }
        assert Survivors(j, |lines|, r) == [j] + rest;
        SurvivorsBounds(j + 1, |lines|, r);
        assert |kept| == 1 + |rest| && kept[0] == lines[([j] + rest)[0]];
        forall k | 0 <= k < |rest| ensures kept[1..][k] == lines[rest[k]] {
          assert ([j] + rest)[k + 1] == rest[k];
        }
        WeaveRebuilds(lines, j + 1, kept[1..], pluses);
      }
    } else {
      assert pluses == [] && kept == [];
    }
  }

  /** In literal mode the diff is an exact patch: the output is rebuilt from the wanted lines and
      the diff alone */
  lemma {:induction false} PatchRebuilds(w: seq<string>, ar2: seq<string>, diff: seq<Entry>)
    requires Faithful(Minuses(diff), w) && Faithful(Pluses(diff), ar2)
    requires IsPatch(w, ar2, (a, b) => a == b, diff)
    ensures Patched(w, diff) == ar2
  {
    var s1 := Survivors(0, |w|, Idxs(Minuses(diff)));
    SurvivorsBounds(0, |w|, Idxs(Minuses(diff)));
    WeaveRebuilds(ar2, 0, LinesAt(w, s1), Pluses(diff));
  }
}
