/** The argument parser of internal functions: a type specification says how many arguments there
    may be and which destination each one goes to; one marker collects the surplus. */
module ArgParser {
  import opened Wrappers

  /** One store through the variable argument list.  `slot` counts the pointers taken before it. */
  datatype Store =
    | ToArg(slot: nat, arg: nat)
    | ToVarargs(slot: nat, items: seq<nat>)

  /** `count` argument numbers from `first` on */
  function Range(first: nat, count: nat): (r: seq<nat>)
    ensures |r| == count && forall k :: 0 <= k < count ==> r[k] == first + k
  {
    if count == 0 then [] else Range(first, count - 1) + [first + count - 1]
  }

  datatype Parse = Failure | Success(stores: seq<Store>)

  predicate IsSpecifier(c: char) {
    || c == 'l' || c == 'd' || c == 's' || c == 'b' || c == 'r' || c == 'a' || c == 'o' || c == 'O' || c == 'z'
    || c == 'Z' || c == 'C' || c == 'h' || c == 'f' || c == 'A' || c == 'H' || c == 'p'
  }

  /** The specifiers zend_parse_arg_impl knows: it also has 'L' */
  predicate IsParsed(c: char) {
    IsSpecifier(c) || c == 'L'
  }

  predicate IsModifier(c: char) {
    c == '/' || c == '!'
  }

  /** How many pointers a specifier takes from the list */
  function Width(c: char): nat {
    if c == 's' || c == 'p' || c == 'O' || c == 'f' then 2 else 1
  }

  // ---------- The first pass: counting ----------

  datatype Counts = Bad | Counts(min: int, max: int, post: int, varargs: bool)

  function ScanChar(c: char, n: Counts): Counts {
    if n.Bad? then Bad
    else if IsSpecifier(c) then n.(max := n.max + 1)
    else if c == '|' then n.(min := n.max)
    else if IsModifier(c) then n
    else if c == '*' || c == '+' then
      if n.varargs then Bad
      else
        var max := if c == '+' then n.max + 1 else n.max;
        n.(varargs := true, max := max, post := max)
    else Bad
  }

  function Scan(spec: string, n: Counts): Counts
    decreases |spec|
  {
    if spec == "" then n else Scan(spec[1..], ScanChar(spec[0], n))
  }

  /** After the pass: no '|' means every argument is required; varargs have no upper limit */
  function Settle(n: Counts): Counts {
    if n.Bad? then Bad
    else
      var n1 := if n.min < 0 then n.(min := n.max) else n;
      if n1.varargs then n1.(post := n1.max - n1.post, max := -1) else n1
  }

  const START := Counts(-1, 0, 0, false)

  lemma {:induction false} ScanBad(spec: string)
    ensures Scan(spec, Bad) == Bad
    decreases |spec|
  {
    if spec != "" {
      ScanBad(spec[1..]);
    }
  }

  lemma {:induction false} ScanKeepsPost(spec: string, n: Counts)
    requires n.Bad? || 0 <= n.post <= n.max
    ensures Scan(spec, n).Bad? || 0 <= Scan(spec, n).post <= Scan(spec, n).max
    decreases |spec|
  {
    if spec != "" {
      ScanKeepsPost(spec[1..], ScanChar(spec[0], n));
    }
  }

  method CountSpec(spec: string) returns (n: Counts)
    ensures n == Settle(Scan(spec, START))
    ensures n.Counts? ==> n.post >= 0
  {
    ScanKeepsPost(spec, START);
    var min, max, post, varargs := -1, 0, 0, false;
    var k := 0;
    assert spec[0..] == spec;
    while k < |spec|
      invariant 0 <= k <= |spec|
      invariant Scan(spec[k..], Counts(min, max, post, varargs)) == Scan(spec, START)
    {
      var c := spec[k];
      assert spec[k..][1..] == spec[k + 1..] && spec[k..][0] == c;
      ScanBad(spec[k + 1..]);
      if IsSpecifier(c) {
        max := max + 1;
      } else if c == '|' {
        min := max;
      } else if IsModifier(c) {
      } else if c == '*' || c == '+' {
        if varargs {
          return Bad;
        }
        varargs := true;
        if c == '+' {
          max := max + 1;
        }
        post := max;
      } else {
        return Bad;
      }
      k := k + 1;
    }
    if min < 0 {
      min := max;
    }
    if varargs {
      post := max - post;
      max := -1;
    }
    n := Counts(min, max, post, varargs);
  }

  // ---------- The second pass: distributing ----------

  /** The modifiers at the front of `s` */
  function Modifiers(s: string): (m: string)
    ensures m <= s
    ensures forall k :: 0 <= k < |m| ==> IsModifier(m[k])
    ensures |m| < |s| ==> !IsModifier(s[|m|])
  {
    if s == "" || !IsModifier(s[0]) then "" else [s[0]] + Modifiers(s[1..])
  }

  function AndThen(store: Store, rest: Parse): Parse {
    if rest.Failure? then Failure else Success([store] + rest.stores)
  }

  /** `num` arguments are left, the next one is number `i`, `slot` pointers are taken */
  function Distribute<A>(spec: string, num: nat, i: nat, slot: nat, post: nat, args: seq<A>,
                         converts: (char, string, A) -> bool): Parse
    requires i + num <= |args|
    decreases num, 2
  {
    if num == 0 then Success([])
    else if spec != "" && spec[0] == '|' then DistributeBare(spec[1..], num, i, slot, post, args, converts)
    else DistributeBare(spec, num, i, slot, post, args, converts)
  }

  /** after a '|' has been passed over */
  function DistributeBare<A>(s: string, num: nat, i: nat, slot: nat, post: nat, args: seq<A>,
                             converts: (char, string, A) -> bool): Parse
    requires i + num <= |args| && num > 0
    decreases num, 1
  {
    if s != "" && (s[0] == '*' || s[0] == '+') then
      if num > post then
        AndThen(ToVarargs(slot, Range(i, num - post)),
                Distribute(s[1..], post, i + (num - post), slot + 2, post, args, converts))
      else
        AndThen(ToVarargs(slot, []), DistributeOne(s[1..], num, i, slot + 2, post, args, converts))
    else DistributeOne(s, num, i, slot, post, args, converts)
  }

  function DistributeOne<A>(s: string, num: nat, i: nat, slot: nat, post: nat, args: seq<A>,
                            converts: (char, string, A) -> bool): Parse
    requires i + num <= |args| && num > 0
    decreases num, 0
  {
    if s == "" || !IsParsed(s[0]) then Failure
    else
      var mods := Modifiers(s[1..]);
      if !converts(s[0], mods, args[i]) then Failure
      else
        AndThen(ToArg(slot, i),
                Distribute(s[1 + |mods|..], num - 1, i + 1, slot + Width(s[0]), post, args, converts))
  }

  /** What a call stores */
  function ParseSpec<A>(numArgs: nat, spec: string, args: seq<A>, converts: (char, string, A) -> bool): Parse {
    var n := Settle(Scan(spec, START));
    if n.Bad? then Failure
    else if numArgs < n.min || (numArgs > n.max && n.max > 0) then Failure
    else if numArgs > |args| then Failure
    else
      ScanKeepsPost(spec, START);
      Distribute(spec, numArgs, 0, 0, if n.post < 0 then 0 else n.post, args, converts)
  }

  function Prepend(stores: seq<Store>, rest: Parse): Parse {
    if rest.Failure? then Failure else Success(stores + rest.stores)
  }

  lemma {:induction false} PrependAndThen(stores: seq<Store>, store: Store, rest: Parse)
    ensures Prepend(stores, AndThen(store, rest)) == Prepend(stores + [store], rest)
  {
  }

  /** zend_parse_arg: one specifier and its modifiers; `pos` moves past them */
  method ParseArg<A>(spec: string, pos: nat, i: nat, args: seq<A>, converts: (char, string, A) -> bool)
      returns (ok: bool, next: nat, width: nat)
    requires pos <= |spec| && i < |args|
    ensures
      var s := spec[pos..];
      if s == "" || !IsParsed(s[0]) || !converts(s[0], Modifiers(s[1..]), args[i]) then !ok
      else ok && next == pos + 1 + |Modifiers(s[1..])| <= |spec| && width == Width(s[0])
  {
    ok, next, width := false, pos, 0;
    if pos < |spec| && IsParsed(spec[pos]) {
      next := SkipModifiers(spec, pos + 1);
      assert spec[pos..][1..] == spec[pos + 1..];
      ok := converts(spec[pos], spec[pos + 1..next], args[i]);
      width := Width(spec[pos]);
    }
  }

  method SkipModifiers(spec: string, pos: nat) returns (next: nat)
    requires pos <= |spec|
    ensures pos <= next <= |spec| && spec[pos..next] == Modifiers(spec[pos..])
  {
    next := pos;
    while next < |spec| && IsModifier(spec[next])
      invariant pos <= next <= |spec|
      invariant forall k :: pos <= k < next ==> IsModifier(spec[k])
    {
      next := next + 1;
    }
    ModifiersOf(spec[pos..next], spec[next..]);
    assert spec[pos..] == spec[pos..next] + spec[next..];
  }

  /** zend_parse_va_args: `converts` says whether an argument fits a specifier and its modifiers */
  method ParseVaArgs<A>(numArgs: nat, spec: string, args: seq<A>, converts: (char, string, A) -> bool)
      returns (p: Parse)
    ensures p == ParseSpec(numArgs, spec, args, converts)
  {
    var n := CountSpec(spec);
    if n.Bad? || numArgs < n.min || (numArgs > n.max && n.max > 0) || numArgs > |args| {
      return Failure;
    }
    p := StoreAll(numArgs, spec, n.post, args, converts);
  }

  /** The main loop */
  method StoreAll<A>(numArgs: nat, spec: string, post: nat, args: seq<A>, converts: (char, string, A) -> bool)
      returns (p: Parse)
    requires numArgs <= |args|
    ensures p == Distribute(spec, numArgs, 0, 0, post, args, converts)
  {
    var num: nat, i: nat, slot: nat, pos: nat := numArgs, 0, 0, 0;
    var stores := [];
    ghost var goal := Distribute(spec, numArgs, 0, 0, post, args, converts);
    assert spec[0..] == spec;
    assert goal.Success? ==> [] + goal.stores == goal.stores;
    while num > 0
      invariant pos <= |spec| && i + num == numArgs
      invariant Prepend(stores, Distribute(spec[pos..], num, i, slot, post, args, converts)) == goal
      decreases num
    {
      var ok;
      ok, num, i, slot, pos, stores := StoreNext(spec, num, i, slot, pos, post, args, converts, stores);
      if !ok {
        return Failure;
      }
    }
    assert Prepend(stores, Success([])) == Success(stores);
    p := Success(stores);
  }

  /** One round of the main loop */
  method StoreNext<A>(spec: string, num: nat, i: nat, slot: nat, pos: nat, post: nat, args: seq<A>,
                      converts: (char, string, A) -> bool, stores: seq<Store>)
      returns (ok: bool, num': nat, i': nat, slot': nat, pos': nat, stores': seq<Store>)
    requires pos <= |spec| && i + num <= |args| && num > 0
    ensures ok ==> pos' <= |spec| && i' + num' == i + num && num' < num
    ensures
      Prepend(stores, Distribute(spec[pos..], num, i, slot, post, args, converts)) ==
      if ok then Prepend(stores', Distribute(spec[pos'..], num', i', slot', post, args, converts)) else Failure
  {
    ghost var goal := Prepend(stores, Distribute(spec[pos..], num, i, slot, post, args, converts));
    ok, num', i', slot', pos', stores' := true, num, i, slot, pos, stores;
    if pos < |spec| && spec[pos] == '|' {
      assert spec[pos..][1..] == spec[pos + 1..];
      pos' := pos + 1;
    }
    assert goal == Prepend(stores, DistributeBare(spec[pos'..], num, i, slot, post, args, converts));
    var collected;
    collected, num', i', slot', pos', stores' := CollectVarargs(spec, num, i, slot, pos', post, args, converts, stores);
    if !collected {
      assert goal == Prepend(stores', DistributeOne(spec[pos'..], num', i', slot', post, args, converts));
      var next, width;
      ok, next, width := StoreArgument(spec, num', i', slot', pos', post, args, converts, stores');
      stores' := stores' + [ToArg(slot', i')];
      num', i', slot', pos' := num' - 1, i' + 1, slot' + width, next;
    }
  }

  method StoreArgument<A>(spec: string, num: nat, i: nat, slot: nat, pos: nat, ghost post: nat, args: seq<A>,
                          converts: (char, string, A) -> bool, ghost stores: seq<Store>)
      returns (ok: bool, next: nat, width: nat)
    requires pos <= |spec| && i + num <= |args| && num > 0
    ensures ok ==> next <= |spec|
    ensures
      Prepend(stores, DistributeOne(spec[pos..], num, i, slot, post, args, converts)) ==
      if ok
      then Prepend(stores + [ToArg(slot, i)],
                   Distribute(spec[next..], num - 1, i + 1, slot + width, post, args, converts))
      else Failure
  {
    StoreOne(spec, num, i, slot, pos, post, args, converts, stores);
    ok, next, width := ParseArg(spec, pos, i, args, converts);
  }

  lemma {:induction false} StoreOne<A>(spec: string, num: nat, i: nat, slot: nat, pos: nat, post: nat, args: seq<A>,
                                       converts: (char, string, A) -> bool, stores: seq<Store>)
    requires pos <= |spec| && i + num <= |args| && num > 0
    ensures
      var s := spec[pos..];
      var one := DistributeOne(s, num, i, slot, post, args, converts);
      if s == "" || !IsParsed(s[0]) || !converts(s[0], Modifiers(s[1..]), args[i]) then one == Failure
      else
        var next := pos + 1 + |Modifiers(s[1..])|;
        Prepend(stores, one) ==
          Prepend(stores + [ToArg(slot, i)],
                  Distribute(spec[next..], num - 1, i + 1, slot + Width(s[0]), post, args, converts))
  {
  }

  /** The marker: the surplus goes to one array and the loop restarts, or there is none and the
      next specifier gets the argument at hand */
  method CollectVarargs<A>(spec: string, num: nat, i: nat, slot: nat, pos: nat, post: nat, ghost args: seq<A>,
                           ghost converts: (char, string, A) -> bool, stores: seq<Store>)
      returns (collected: bool, num': nat, i': nat, slot': nat, pos': nat, stores': seq<Store>)
    requires pos <= |spec| && i + num <= |args| && num > 0
    ensures pos' <= |spec| && i' + num' == i + num && (if collected then num' < num else num' == num)
    ensures
      Prepend(stores, DistributeBare(spec[pos..], num, i, slot, post, args, converts)) ==
      if collected
      then Prepend(stores', Distribute(spec[pos'..], num', i', slot', post, args, converts))
      else Prepend(stores', DistributeOne(spec[pos'..], num', i', slot', post, args, converts))
  {
    collected, num', i', slot', pos', stores' := false, num, i, slot, pos, stores;
    if pos < |spec| && (spec[pos] == '*' || spec[pos] == '+') {
      assert spec[pos..][1..] == spec[pos + 1..];
      var count := num - post;
      slot' := slot + 2;
      pos' := pos + 1;
      if count > 0 {
        var items := CopyItems(i, count);
        var iv := |items|;
        PrependAndThen(stores, ToVarargs(slot, items),
                       Distribute(spec[pos'..], post, i + iv, slot', post, args, converts));
        collected, num', i', stores' := true, num - iv, i + iv, stores + [ToVarargs(slot, items)];
      } else {
        PrependAndThen(stores, ToVarargs(slot, []),
                       DistributeOne(spec[pos'..], num, i, slot', post, args, converts));
        stores' := stores + [ToVarargs(slot, [])];
      }
    }
  }

  /** The array of surplus arguments, filled from argument `i` on */
  method CopyItems(i: nat, count: nat) returns (items: seq<nat>)
    ensures items == Range(i, count)
  {
    items := [];
    var left, p := count, i;
    while left > 0
      invariant 0 <= left <= count && p == i + (count - left)
      invariant items == Range(i, count - left)
    {
      left := left - 1;
      items := items + [p];
      p := p + 1;
    }
  }

  // ---------- Well-formed specifications ----------

  /** A specifier and the modifiers behind it */
  datatype Piece = Piece(c: char, mods: string)

  ghost predicate WellFormed(ps: seq<Piece>) {
    forall k :: 0 <= k < |ps| ==> IsSpecifier(ps[k].c) && forall j :: 0 <= j < |ps[k].mods| ==> IsModifier(ps[k].mods[j])
  }

  function Text(ps: seq<Piece>): string {
    if ps == [] then "" else [ps[0].c] + ps[0].mods + Text(ps[1..])
  }

  function Slots(ps: seq<Piece>): nat {
    if ps == [] then 0 else Width(ps[0].c) + Slots(ps[1..])
  }

  /** In order, one store for each piece */
  function Stores(ps: seq<Piece>, i: nat, slot: nat): (r: seq<Store>)
    ensures |r| == |ps|
  {
    if ps == [] then [] else [ToArg(slot, i)] + Stores(ps[1..], i + 1, slot + Width(ps[0].c))
  }

  /** Every argument from number `i` on converts by the piece it meets */
  predicate AllConvert<A>(ps: seq<Piece>, i: nat, args: seq<A>, converts: (char, string, A) -> bool)
    requires i + |ps| <= |args|
  {
    ps == [] || (converts(ps[0].c, ps[0].mods, args[i]) && AllConvert(ps[1..], i + 1, args, converts))
  }

  lemma {:induction false} AllConvertAt<A>(ps: seq<Piece>, i: nat, args: seq<A>, converts: (char, string, A) -> bool)
    requires i + |ps| <= |args|
    ensures AllConvert(ps, i, args, converts) <==>
      forall k :: 0 <= k < |ps| ==> converts(ps[k].c, ps[k].mods, args[i + k])
  {
    if ps == [] {
      assert AllConvert(ps, i, args, converts);
    } else {
      AllConvertAt(ps[1..], i + 1, args, converts);
      if forall k :: 0 <= k < |ps| ==> converts(ps[k].c, ps[k].mods, args[i + k]) {
        assert converts(ps[0].c, ps[0].mods, args[i + 0]);
        forall k | 0 <= k < |ps[1..]| ensures converts(ps[1..][k].c, ps[1..][k].mods, args[i + 1 + k]) {
          assert converts(ps[k + 1].c, ps[k + 1].mods, args[i + (k + 1)]);
        }
        assert AllConvert(ps, i, args, converts);
      }
      if AllConvert(ps, i, args, converts) {
        forall k | 0 <= k < |ps| ensures converts(ps[k].c, ps[k].mods, args[i + k]) {
          if k > 0 {
            assert converts(ps[1..][k - 1].c, ps[1..][k - 1].mods, args[i + 1 + (k - 1)]);
          }
        }
        assert forall k :: 0 <= k < |ps| ==> converts(ps[k].c, ps[k].mods, args[i + k]);
      }
    }
  }

  /** What may follow a piece: the end, another piece, a bar or a marker */
  predicate Follows(rest: string) {
    rest == "" || !IsModifier(rest[0])
  }

  /** The k-th store of a list of pieces: argument i+k goes to the pointer its predecessors leave */
  lemma {:induction false} StoresAt(ps: seq<Piece>, i: nat, slot: nat, k: nat)
    requires k < |ps|
    ensures Stores(ps, i, slot)[k] == ToArg(slot + Slots(ps[..k]), i + k)
  {
    if k > 0 {
      StoresAt(ps[1..], i + 1, slot + Width(ps[0].c), k - 1);
      assert ps[..k][1..] == ps[1..][..k - 1];
    }
  }

  lemma {:induction false} TextCons(ps: seq<Piece>, rest: string)
    requires ps != []
    ensures Text(ps) + rest == [ps[0].c] + (ps[0].mods + (Text(ps[1..]) + rest))
  {
  }

  lemma {:induction false} ScanText(ps: seq<Piece>, rest: string, n: Counts)
    requires WellFormed(ps) && n.Counts?
    ensures Scan(Text(ps) + rest, n) == Scan(rest, n.(max := n.max + |ps|))
    decreases |ps|
  {
    if ps == [] {
      assert Text(ps) + rest == rest;
    } else {
      var tail, n1 := Text(ps[1..]) + rest, n.(max := n.max + 1);
      TextCons(ps, rest);
      assert (Text(ps) + rest)[1..] == ps[0].mods + tail;
      ScanModifiers(ps[0].mods, tail, n1);
      ScanText(ps[1..], rest, n1);
    }
  }

  lemma {:induction false} ScanModifiers(mods: string, rest: string, n: Counts)
    requires n.Counts? && forall j :: 0 <= j < |mods| ==> IsModifier(mods[j])
    ensures Scan(mods + rest, n) == Scan(rest, n)
    decreases |mods|
  {
    if mods == "" {
      assert mods + rest == rest;
    } else {
      assert (mods + rest)[1..] == mods[1..] + rest;
      ScanModifiers(mods[1..], rest, n);
    }
  }

  lemma {:induction false} ModifiersOf(mods: string, rest: string)
    requires Follows(rest) && forall j :: 0 <= j < |mods| ==> IsModifier(mods[j])
    ensures Modifiers(mods + rest) == mods
  {
    if mods == "" {
      assert mods + rest == rest;
    } else {
      assert (mods + rest)[1..] == mods[1..] + rest;
      ModifiersOf(mods[1..], rest);
      assert [mods[0]] + mods[1..] == mods;
    }
  }

  lemma {:induction false} TextFollows(ps: seq<Piece>, rest: string)
    requires WellFormed(ps) && Follows(rest)
    ensures Follows(Text(ps) + rest)
  {
  }

  /** Pieces take their arguments one by one, and the first that does not convert ends the call */
  lemma {:induction false} DistributePieces<A>(ps: seq<Piece>, rest: string, num: nat, i: nat, slot: nat, post: nat,
                                               args: seq<A>, converts: (char, string, A) -> bool)
    requires WellFormed(ps) && Follows(rest) && |ps| <= num && i + num <= |args|
    ensures Distribute(Text(ps) + rest, num, i, slot, post, args, converts) ==
      if AllConvert(ps, i, args, converts)
      then Prepend(Stores(ps, i, slot),
                   Distribute(rest, num - |ps|, i + |ps|, slot + Slots(ps), post, args, converts))
      else Failure
    decreases |ps|
  {
    if ps == [] {
      assert Text(ps) + rest == rest;
      var d := Distribute(rest, num, i, slot, post, args, converts);
      assert d.Success? ==> [] + d.stores == d.stores;
    } else {
      var store, slot1 := ToArg(slot, i), slot + Width(ps[0].c);
      var after := Distribute(rest, num - |ps|, i + |ps|, slot + Slots(ps), post, args, converts);
      DistributeFirst(ps, rest, num, i, slot, post, args, converts);
      DistributePieces(ps[1..], rest, num - 1, i + 1, slot1, post, args, converts);
      assert slot1 + Slots(ps[1..]) == slot + Slots(ps);
      PrependBoth(store, Stores(ps[1..], i + 1, slot1), after);
    }
  }

  lemma {:induction false} DistributeFirst<A>(ps: seq<Piece>, rest: string, num: nat, i: nat, slot: nat, post: nat,
                                              args: seq<A>, converts: (char, string, A) -> bool)
    requires WellFormed(ps) && Follows(rest) && 0 < |ps| <= num && i + num <= |args|
    ensures Distribute(Text(ps) + rest, num, i, slot, post, args, converts) ==
      if converts(ps[0].c, ps[0].mods, args[i])
      then AndThen(ToArg(slot, i),
                   Distribute(Text(ps[1..]) + rest, num - 1, i + 1, slot + Width(ps[0].c), post, args, converts))
      else Failure
  {
    TextCons(ps, rest);
    TextFollows(ps[1..], rest);
    DistributePiece(ps[0], Text(ps[1..]) + rest, num, i, slot, post, args, converts);
  }

  lemma {:induction false} PrependBoth(store: Store, stores: seq<Store>, rest: Parse)
    ensures AndThen(store, Prepend(stores, rest)) == Prepend([store] + stores, rest)
  {
  }

  lemma {:induction false} DistributePiece<A>(p: Piece, tail: string, num: nat, i: nat, slot: nat, post: nat,
                                              args: seq<A>, converts: (char, string, A) -> bool)
    requires IsSpecifier(p.c) && (forall j :: 0 <= j < |p.mods| ==> IsModifier(p.mods[j])) && Follows(tail)
    requires num > 0 && i + num <= |args|
    ensures Distribute([p.c] + (p.mods + tail), num, i, slot, post, args, converts) ==
      if converts(p.c, p.mods, args[i])
      then AndThen(ToArg(slot, i), Distribute(tail, num - 1, i + 1, slot + Width(p.c), post, args, converts))
      else Failure
  {
    var s := [p.c] + (p.mods + tail);
    assert s[1..] == p.mods + tail;
    ModifiersOf(p.mods, tail);
    assert s[1 + |p.mods|..] == tail;
    assert s[0] == p.c;
    assert Distribute(s, num, i, slot, post, args, converts) == DistributeOne(s, num, i, slot, post, args, converts);
  }

  // ---------- What a whole call does ----------

  /** Specifiers with at most one '|' between them and at most one marker behind it */
  datatype Layout = Layout(before: seq<Piece>, bar: bool, optional: seq<Piece>, marker: Option<char>, after: seq<Piece>) {
    ghost predicate Valid() {
      && WellFormed(before) && WellFormed(optional) && WellFormed(after)
      && (marker.None? ==> after == [])
      && (marker.Some? ==> marker.value == '*' || marker.value == '+')
    }

    function Leading(): seq<Piece> {
      before + optional
    }

    function Tail(): string {
      if marker.None? then "" else [marker.value] + (Text(after) + "")
    }

    function Middle(): string {
      (if bar then "|" else "") + (Text(optional) + Tail())
    }

    function Spec(): string {
      Text(before) + Middle()
    }

    /** How many arguments it demands: what stands before the '|', or everything, where '+' is one more */
    function Least(): nat {
      if bar then |before| else |before| + |optional| + |after| + if marker == Some('+') then 1 else 0
    }
  }

  lemma {:induction false} ScanTail(l: Layout, n: Counts)
    requires l.Valid() && n.Counts? && !n.varargs
    ensures
      var max := n.max + if l.marker == Some('+') then 1 else 0;
      Scan(l.Tail(), n) ==
        if l.marker.None? then n else n.(varargs := true, max := max + |l.after|, post := max)
  {
    if l.marker.Some? {
      assert l.Tail()[1..] == Text(l.after) + "";
      ScanText(l.after, "", ScanChar(l.marker.value, n));
    }
  }

  lemma {:induction false} ScanMiddle(l: Layout, n: Counts)
    requires l.Valid() && n.Counts?
    ensures Scan(l.Middle(), n) == Scan(Text(l.optional) + l.Tail(), if l.bar then n.(min := n.max) else n)
  {
    var m := Text(l.optional) + l.Tail();
    if l.bar {
      assert l.Middle()[1..] == m;
    } else {
      assert l.Middle() == m;
    }
  }

  /** The first pass over such a specification */
  lemma {:induction false} CountLayout(l: Layout)
    requires l.Valid()
    ensures Settle(Scan(l.Spec(), START)) ==
      if l.marker.None? then Counts(l.Least(), |l.Leading()|, 0, false) else Counts(l.Least(), -1, |l.after|, true)
  {
    var n0 := START.(max := |l.before|);
    var n1 := if l.bar then n0.(min := n0.max) else n0;
    ScanText(l.before, l.Middle(), START);
    ScanMiddle(l, n0);
    ScanText(l.optional, l.Tail(), n1);
    ScanTail(l, n1.(max := |l.Leading()|));
  }

  /** Passing a '|' changes nothing */
  lemma {:induction false} PassBar<A>(s: string, num: nat, i: nat, slot: nat, post: nat, args: seq<A>,
                                      converts: (char, string, A) -> bool)
    requires i + num <= |args| && (s == "" || s[0] != '|')
    ensures Distribute("|" + s, num, i, slot, post, args, converts) == Distribute(s, num, i, slot, post, args, converts)
  {
  }

  lemma {:induction false} StoresConcat(ps: seq<Piece>, qs: seq<Piece>, i: nat, slot: nat)
    ensures Slots(ps + qs) == Slots(ps) + Slots(qs)
    ensures Stores(ps + qs, i, slot) == Stores(ps, i, slot) + Stores(qs, i + |ps|, slot + Slots(ps))
  {
    if ps == [] {
      assert ps + qs == qs;
    } else {
      assert (ps + qs)[1..] == ps[1..] + qs;
      StoresConcat(ps[1..], qs, i + 1, slot + Width(ps[0].c));
    }
  }

  lemma {:induction false} ConvertConcat<A>(ps: seq<Piece>, qs: seq<Piece>, i: nat, args: seq<A>,
                                            converts: (char, string, A) -> bool)
    requires i + |ps| + |qs| <= |args|
    ensures AllConvert(ps + qs, i, args, converts) ==
      (AllConvert(ps, i, args, converts) && AllConvert(qs, i + |ps|, args, converts))
  {
    if ps == [] {
      assert ps + qs == qs;
    } else {
      assert (ps + qs)[1..] == ps[1..] + qs;
      ConvertConcat(ps[1..], qs, i + 1, args, converts);
    }
  }

  lemma {:induction false} TextConcat(ps: seq<Piece>, qs: seq<Piece>)
    ensures Text(ps + qs) == Text(ps) + Text(qs)
  {
    if ps == [] {
      assert ps + qs == qs;
    } else {
      assert (ps + qs)[1..] == ps[1..] + qs;
      TextConcat(ps[1..], qs);
    }
  }

  /** When the arguments run out first, the pieces left over store nothing */
  lemma {:induction false} DistributeFew<A>(ps: seq<Piece>, few: seq<Piece>, rest: string, i: nat, slot: nat,
                                            post: nat, args: seq<A>, converts: (char, string, A) -> bool)
    requires WellFormed(ps) && Follows(rest) && few <= ps && i + |few| <= |args|
    ensures Distribute(Text(ps) + rest, |few|, i, slot, post, args, converts) ==
      if AllConvert(few, i, args, converts) then Success(Stores(few, i, slot)) else Failure
  {
    var more := ps[|few|..];
    var stores := Stores(few, i, slot);
    assert few + more == ps;
    assert WellFormed(few) by { assert forall k :: 0 <= k < |few| ==> few[k] == ps[k]; }
    TextSplit(few, more, rest);
    TextFollows(more, rest);
    DistributePieces(few, Text(more) + rest, |few|, i, slot, post, args, converts);
    assert stores + [] == stores;
  }

  lemma {:induction false} TextSplit(few: seq<Piece>, more: seq<Piece>, rest: string)
    ensures Text(few + more) + rest == Text(few) + (Text(more) + rest)
  {
    TextConcat(few, more);
  }

  lemma {:induction false} MiddleFollows(l: Layout)
    requires l.Valid()
    ensures Follows(l.Tail()) && Follows(l.Middle())
    ensures var m := Text(l.optional) + l.Tail(); m == "" || m[0] != '|'
  {
    TextFollows(l.optional, l.Tail());
    if l.optional != [] {
      assert (Text(l.optional) + l.Tail())[0] == l.optional[0].c;
    } else {
      assert Text(l.optional) + l.Tail() == l.Tail();
    }
  }

  lemma {:induction false} DistributeMiddle<A>(l: Layout, num: nat, i: nat, slot: nat, args: seq<A>,
                                               converts: (char, string, A) -> bool)
    requires l.Valid() && i + num <= |args|
    ensures Distribute(l.Middle(), num, i, slot, |l.after|, args, converts)
      == Distribute(Text(l.optional) + l.Tail(), num, i, slot, |l.after|, args, converts)
  {
    var m := Text(l.optional) + l.Tail();
    MiddleFollows(l);
    if l.bar {
      PassBar(m, num, i, slot, |l.after|, args, converts);
    } else {
      assert l.Middle() == m;
    }
  }

  /** The specifiers before the '|' take the first arguments */
  lemma {:induction false} DistributeBefore<A>(l: Layout, num: nat, args: seq<A>, converts: (char, string, A) -> bool)
    requires l.Valid() && |l.before| <= num <= |args|
    ensures
      var b, slot := |l.before|, Slots(l.before);
      Distribute(l.Spec(), num, 0, 0, |l.after|, args, converts) ==
      if AllConvert(l.before, 0, args, converts)
      then Prepend(Stores(l.before, 0, 0),
                   Distribute(Text(l.optional) + l.Tail(), num - b, b, slot, |l.after|, args, converts))
      else Failure
  {
    MiddleFollows(l);
    DistributePieces(l.before, l.Middle(), num, 0, 0, |l.after|, args, converts);
    DistributeMiddle(l, num - |l.before|, |l.before|, Slots(l.before), args, converts);
  }

  /** The specifiers before the marker take the first arguments */
  lemma {:induction false} DistributeLeading<A>(l: Layout, num: nat, args: seq<A>, converts: (char, string, A) -> bool)
    requires l.Valid() && |l.before| + |l.optional| <= num <= |args|
    ensures
      var b, k, slot := |l.before|, |l.before| + |l.optional|, Slots(l.before);
      Distribute(l.Spec(), num, 0, 0, |l.after|, args, converts) ==
      if AllConvert(l.before, 0, args, converts) && AllConvert(l.optional, b, args, converts)
      then Prepend(Stores(l.before, 0, 0) + Stores(l.optional, b, slot),
                   Distribute(l.Tail(), num - k, k, slot + Slots(l.optional), |l.after|, args, converts))
      else Failure
  {
    var b, post := |l.before|, |l.after|;
    var num1, slot1 := num - b, Slots(l.before);
    MiddleFollows(l);
    DistributeBefore(l, num, args, converts);
    if AllConvert(l.before, 0, args, converts) {
      DistributePieces(l.optional, l.Tail(), num1, b, slot1, post, args, converts);
      if AllConvert(l.optional, b, args, converts) {
        PrependTwice(Stores(l.before, 0, 0), Stores(l.optional, b, slot1),
                     Distribute(l.Tail(), num1 - |l.optional|, b + |l.optional|, slot1 + Slots(l.optional), post, args, converts));
      }
    }
  }

  lemma {:induction false} PrependTwice(first: seq<Store>, second: seq<Store>, rest: Parse)
    ensures Prepend(first, Prepend(second, rest)) == Prepend(first + second, rest)
  {
  }

  /** With more arguments than before the '|', but no more than before the marker, the optional
      specifiers take the others */
  lemma {:induction false} OptionalFew<A>(l: Layout, some: seq<Piece>, args: seq<A>,
                                          converts: (char, string, A) -> bool)
    requires l.Valid() && some <= l.optional && |l.before| + |some| <= |args|
    ensures
      Distribute(l.Spec(), |l.before| + |some|, 0, 0, |l.after|, args, converts) ==
      if AllConvert(l.before + some, 0, args, converts) then Success(Stores(l.before + some, 0, 0)) else Failure
  {
    var b, post, slot := |l.before|, |l.after|, Slots(l.before);
    MiddleFollows(l);
    DistributeBefore(l, b + |some|, args, converts);
    ConvertConcat(l.before, some, 0, args, converts);
    if AllConvert(l.before, 0, args, converts) {
      DistributeFew(l.optional, some, l.Tail(), b, slot, post, args, converts);
      if AllConvert(some, b, args, converts) {
        StoresConcat(l.before, some, 0, 0);
      }
    }
  }

  /** With no more arguments than specifiers before the marker, these take them all */
  lemma {:induction false} LeadingFew<A>(l: Layout, few: seq<Piece>, args: seq<A>, converts: (char, string, A) -> bool)
    requires l.Valid() && few <= l.Leading() && |few| <= |args|
    ensures Distribute(l.Spec(), |few|, 0, 0, |l.after|, args, converts) ==
      if AllConvert(few, 0, args, converts) then Success(Stores(few, 0, 0)) else Failure
  {
    var b := |l.before|;
    MiddleFollows(l);
    if |few| <= b {
      assert few <= l.before;
      DistributeFew(l.before, few, l.Middle(), 0, 0, |l.after|, args, converts);
    } else {
      var some := few[b..];
      assert few == l.before + some && some <= l.optional;
      OptionalFew(l, some, args, converts);
    }
  }

  /** The marker takes the surplus, if there is one, and the specifiers behind it the last arguments */
  lemma {:induction false} DistributeTrailing<A>(l: Layout, num: nat, i: nat, slot: nat, taken: seq<Piece>,
                                                 args: seq<A>, converts: (char, string, A) -> bool)
    requires l.Valid() && l.marker.Some? && 0 < num && i + num <= |args|
    requires taken <= l.after && |taken| == if num <= |l.after| then num else |l.after|
    ensures
      var surplus := num - |taken|;
      Distribute(l.Tail(), num, i, slot, |l.after|, args, converts) ==
      if AllConvert(taken, i + surplus, args, converts)
      then Success([ToVarargs(slot, Range(i, surplus))] + Stores(taken, i + surplus, slot + 2))
      else Failure
  {
    var m := |l.after|;
    var text, surplus := Text(l.after) + "", num - |taken|;
    assert l.Tail()[1..] == text;
    DistributeFew(l.after, taken, "", i + surplus, slot + 2, m, args, converts);
    if surplus == 0 {
      assert text[0] == l.after[0].c;
      assert Distribute(text, num, i, slot + 2, m, args, converts) == DistributeOne(text, num, i, slot + 2, m, args, converts);
    }
  }

  /** When the second pass is reached */
  lemma {:induction false} ParseLayout<A>(l: Layout, n: nat, args: seq<A>, converts: (char, string, A) -> bool)
    requires l.Valid()
    ensures
      var tooMany := l.marker.None? && n > |l.Leading()|;
      ParseSpec(n, l.Spec(), args, converts) ==
      if n < l.Least() || n > |args| || tooMany then Failure
      else Distribute(l.Spec(), n, 0, 0, |l.after|, args, converts)
  {
    CountLayout(l);
    if l.marker.None? && 0 < n <= |args| && l.Leading() == [] {
      assert l.before == [] && l.optional == [];
      assert l.Spec() == if l.bar then "|" + "" else "";
      PassBar("", n, 0, 0, 0, args, converts);
      assert Distribute("", n, 0, 0, 0, args, converts) == DistributeOne("", n, 0, 0, 0, args, converts);
    }
  }

  lemma {:induction false} PrependSuccess(first: seq<Store>, x: Store, last: seq<Store>)
    ensures Prepend(first, Success([x] + last)) == Success(first + [x] + last)
  {
    assert first + ([x] + last) == first + [x] + last;
  }

  /** What a call stores when it reaches the marker: `taken` is what the arguments left of the
      specifiers behind it */
  function Collected(l: Layout, n: nat, taken: seq<Piece>): seq<Store>
    requires |l.before| + |l.optional| + |taken| <= n
  {
    var b, k, t := |l.before|, |l.before| + |l.optional|, |taken|;
    var slot := Slots(l.before) + Slots(l.optional);
    Stores(l.before, 0, 0) + Stores(l.optional, b, Slots(l.before)) +
    [ToVarargs(slot, Range(k, n - k - t))] + Stores(taken, n - t, slot + 2)
  }

  ghost predicate Takes(l: Layout, n: nat, taken: seq<Piece>)
    requires |l.before| + |l.optional| < n
  {
    var num := n - |l.before| - |l.optional|;
    taken <= l.after && |taken| == if num <= |l.after| then num else |l.after|
  }

  lemma {:induction false} DistributeMany<A>(l: Layout, n: nat, taken: seq<Piece>, args: seq<A>,
                                             converts: (char, string, A) -> bool)
    requires l.Valid() && l.marker.Some? && |l.before| + |l.optional| < n <= |args| && Takes(l, n, taken)
    ensures
      Distribute(l.Spec(), n, 0, 0, |l.after|, args, converts) ==
      if AllConvert(l.before, 0, args, converts) && AllConvert(l.optional, |l.before|, args, converts)
         && AllConvert(taken, n - |taken|, args, converts)
      then Success(Collected(l, n, taken))
      else Failure
  {
    var b, k, t := |l.before|, |l.before| + |l.optional|, |taken|;
    var slot := Slots(l.before) + Slots(l.optional);
    DistributeLeading(l, n, args, converts);
    if AllConvert(l.before, 0, args, converts) && AllConvert(l.optional, b, args, converts) {
      DistributeTrailing(l, n - k, k, slot, taken, args, converts);
      if AllConvert(taken, n - t, args, converts) {
        PrependSuccess(Stores(l.before, 0, 0) + Stores(l.optional, b, Slots(l.before)), ToVarargs(slot, Range(k, n - k - t)),
                       Stores(taken, n - t, slot + 2));
      }
    }
  }

  /** The first k arguments go in order to the k specifiers before the marker, the last to those behind
      it, as many as are left over, and the surplus between them, in order, to the varargs array; and
      the call fails if an argument that goes to a specifier does not convert */
  lemma {:induction false} Distribution<A>(l: Layout, n: nat, taken: seq<Piece>, args: seq<A>,
                                           converts: (char, string, A) -> bool)
    requires l.Valid() && l.marker.Some? && l.Least() <= n <= |args|
    requires |l.before| + |l.optional| < n && Takes(l, n, taken)
    ensures
      ParseSpec(n, l.Spec(), args, converts) ==
      if AllConvert(l.before, 0, args, converts) && AllConvert(l.optional, |l.before|, args, converts)
         && AllConvert(taken, n - |taken|, args, converts)
      then Success(Collected(l, n, taken))
      else Failure
  {
    ParseLayout(l, n, args, converts);
    DistributeMany(l, n, taken, args, converts);
  }

  /** With no more arguments than specifiers before the marker, or without a marker, each argument goes
      to its specifier, and the marker is not reached */
  lemma {:induction false} DistributionFew<A>(l: Layout, few: seq<Piece>, args: seq<A>,
                                              converts: (char, string, A) -> bool)
    requires l.Valid() && few <= l.Leading() && l.Least() <= |few| <= |args|
    ensures ParseSpec(|few|, l.Spec(), args, converts) ==
      if AllConvert(few, 0, args, converts) then Success(Stores(few, 0, 0)) else Failure
  {
    ParseLayout(l, |few|, args, converts);
    LeadingFew(l, few, args, converts);
  }

  /** Any other number of arguments is refused: less than the specification demands, more than it
      takes, or more than there are */
  lemma {:induction false} RefusedNumbers<A>(l: Layout, n: nat, args: seq<A>, converts: (char, string, A) -> bool)
    requires l.Valid()
    requires
      var least := if l.bar then |l.before|
                   else |l.before| + |l.optional| + |l.after| + if l.marker == Some('+') then 1 else 0;
      n < least || n > |args| || (l.marker.None? && n > |l.before| + |l.optional|)
    ensures ParseSpec(n, l.Spec(), args, converts) == Failure
  {
    ParseLayout(l, n, args, converts);
  }

  // ---------- Specifications that are refused ----------

  predicate IsMarker(c: char) {
    c == '*' || c == '+'
  }

  predicate IsKnown(c: char) {
    IsSpecifier(c) || IsModifier(c) || IsMarker(c) || c == '|'
  }

  /** The first pass refuses a specification exactly for an unknown character or a second marker */
  lemma {:induction false} RefusedExactly(spec: string, n: Counts)
    requires n.Counts?
    ensures Scan(spec, n).Bad? <==>
      || (exists k :: 0 <= k < |spec| && !IsKnown(spec[k]))
      || (exists k :: 0 <= k < |spec| && IsMarker(spec[k]) &&
                      (n.varargs || exists j :: 0 <= j < k && IsMarker(spec[j])))
    decreases |spec|
  {
    if spec != "" {
      var c, rest, n1 := spec[0], spec[1..], ScanChar(spec[0], n);
      assert forall k :: 0 < k < |spec| ==> spec[k] == rest[k - 1];
      if n1.Bad? {
        ScanBad(rest);
      } else {
        RefusedExactly(rest, n1);
      }
    }
  }
}
