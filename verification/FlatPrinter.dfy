/** The recursive printer for values: arrays and objects may contain themselves, and a counter on
    each hash table keeps the printer from running in circles. */
module FlatPrinter {
  import opened Wrappers

  datatype Key = StringKey(text: string) | NumberKey(number: int)

  /** `Scalar` stands for every value that prints without recursion */
  datatype Zval =
    | Scalar(text: string)
    | ArrayVal(table: HashTable)
    | ObjectVal(className: Option<string>, properties: Option<HashTable>)

  class HashTable {
    var nApplyCount: int
    var elements: seq<(Key, Zval)>

    constructor ()
      ensures nApplyCount == 0 && elements == []
    {
      nApplyCount := 0;
      elements := [];
    }
  }

  /** The hash table a value leads to */
  function TableOf(v: Zval): Option<HashTable> {
    match v
    case Scalar(_) => None
    case ArrayVal(t) => Some(t)
    case ObjectVal(_, p) => p
  }

  function Tables(v: Zval): set<HashTable> {
    match TableOf(v)
    case None => {}
    case Some(t) => {t}
  }

  /** A finite graph: every table reachable from a table of `graph` is in `graph` */
  ghost predicate Closed(graph: set<HashTable>)
    reads graph`elements
  {
    forall t, k :: t in graph && 0 <= k < |t.elements| ==> Tables(t.elements[k].1) <= graph
  }

  function Digits(n: nat): string {
    if n < 10 then [('0' as int + n) as char] else Digits(n / 10) + [('0' as int + n % 10) as char]
  }

  /** The number a string of decimal digits denotes */
  function Value(s: string): int {
    if s == "" then 0 else 10 * Value(s[..|s| - 1]) + (s[|s| - 1] as int - '0' as int)
  }

  /** The digits of a number read back as the number, with no zero in front */
  lemma {:induction false} DigitsReadBack(n: nat)
    ensures Value(Digits(n)) == n && Digits(n) != ""
    ensures forall k :: 0 <= k < |Digits(n)| ==> '0' <= Digits(n)[k] <= '9'
    ensures n > 0 ==> Digits(n)[0] != '0'
  {
    if n < 10 {
      assert Value("") == 0;
      assert Digits(n)[..0] == "";
    } else {
      DigitsReadBack(n / 10);
      assert Digits(n)[..|Digits(n)| - 1] == Digits(n / 10);
    }
  }

  function KeyText(k: Key): string {
    match k
    case StringKey(text) => text
    case NumberKey(n) => if n < 0 then "-" + Digits(-n) else Digits(n)
  }

  /** What stands before the value of element `i` */
  function Label(i: nat, key: Key): string {
    (if i > 0 then ",[" else "[") + KeyText(key) + "] => "
  }

  function Opening(v: Zval): string
    requires !v.Scalar?
  {
    match v
    case ArrayVal(_) => "Array ("
    case ObjectVal(name, _) => (if name.Some? then name.value else "Unknown Class") + " Object ("
  }

  // ---------- The printer without counters ----------

  /** Prints a value while carrying the set of tables on the path from the root */
  ghost function Flat(v: Zval, graph: set<HashTable>, path: set<HashTable>): string
    requires Closed(graph) && Tables(v) <= graph
    reads graph`elements
    decreases |graph - path|, 0
  {
    match TableOf(v)
    case None => if v.Scalar? then v.text else Opening(v) + ")"
    case Some(t) =>
      if t in path then Opening(v) + " *RECURSION*"
      else
        assert graph - (path + {t}) == (graph - path) - {t};
        Opening(v) + FlatFirst(t, |t.elements|, graph, path + {t}) + ")"
  }

  /** The first `n` elements of a table */
  ghost function FlatFirst(t: HashTable, n: nat, graph: set<HashTable>, path: set<HashTable>): string
    requires Closed(graph) && t in graph && n <= |t.elements|
    reads graph`elements
    decreases |graph - path|, n
  {
    if n == 0 then ""
    else
      var (key, value) := t.elements[n - 1];
      FlatFirst(t, n - 1, graph, path) + Label(n - 1, key) + Flat(value, graph, path)
  }

  ghost function FlatFirstOrStop(t: HashTable, graph: set<HashTable>, path: set<HashTable>): string
    requires Closed(graph) && t in graph
    reads graph`elements
  {
    if t in path then " *RECURSION*" else FlatFirst(t, |t.elements|, graph, path + {t})
  }

  lemma {:induction false} Assoc(a: string, b: string, c: string)
    ensures a + b + c == a + (b + c)
  {
  }

  // ---------- The printer with counters ----------

  class Printer {
    var out: string

    constructor ()
      ensures out == ""
    {
      out := "";
    }

    method Puts(s: string)
      modifies this
      ensures out == old(out) + s
    {
      out := out + s;
    }

    /** The counters stand for the path: 1 on it, 0 off it */
    ghost predicate Counts(graph: set<HashTable>, path: set<HashTable>)
      reads graph`nApplyCount
    {
      forall t :: t in graph ==> t.nApplyCount == if t in path then 1 else 0
    }

    /** zend_print_flat_zval_r */
    method PrintFlat(v: Zval, ghost graph: set<HashTable>, ghost path: set<HashTable>)
      requires Closed(graph) && Tables(v) <= graph && Counts(graph, path)
      modifies this, graph`nApplyCount
      ensures Counts(graph, path)
      ensures out == old(out) + Flat(v, graph, path)
      decreases |graph - path|, 1
    {
      match v {
        case Scalar(text) =>
          Puts(text);
        case ArrayVal(t) =>
          Puts("Array (");
          ghost var body := FlatFirstOrStop(t, graph, path);
          var stop := PrintTable(t, graph, path);
          Assoc(old(out), "Array (", body);
          if stop {
            return;
          }
          Puts(")");
          Assoc(old(out), "Array (" + body, ")");
        case ObjectVal(name, properties) =>
          Puts(if name.Some? then name.value else "Unknown Class");
          Puts(" Object (");
          Assoc(old(out), if name.Some? then name.value else "Unknown Class", " Object (");
          if properties.Some? {
            ghost var body := FlatFirstOrStop(properties.value, graph, path);
            var stop := PrintTable(properties.value, graph, path);
            Assoc(old(out), Opening(v), body);
            if stop {
              return;
            }
            Puts(")");
            Assoc(old(out), Opening(v) + body, ")");
          } else {
            Puts(")");
            Assoc(old(out), Opening(v), ")");
          }
      }
    }

    /** The guard both kinds of value put around their table */
    method PrintTable(t: HashTable, ghost graph: set<HashTable>, ghost path: set<HashTable>) returns (stop: bool)
      requires Closed(graph) && t in graph && Counts(graph, path)
      modifies this, graph`nApplyCount
      ensures Counts(graph, path) && stop == (t in path)
      ensures out == old(out) + FlatFirstOrStop(t, graph, path)
      decreases |graph - path|, 0
    {
      t.nApplyCount := t.nApplyCount + 1;
      if t.nApplyCount > 1 {
        Puts(" *RECURSION*");
        t.nApplyCount := t.nApplyCount - 1;
        return true;
      }
      PrintGuarded(t, graph, path);
      t.nApplyCount := t.nApplyCount - 1;
      stop := false;
    }

    /** The table while its counter stands */
    method PrintGuarded(t: HashTable, ghost graph: set<HashTable>, ghost path: set<HashTable>)
      requires Closed(graph) && t in graph && t !in path && Counts(graph, path + {t})
      modifies this, graph`nApplyCount
      ensures Counts(graph, path + {t})
      ensures out == old(out) + FlatFirstOrStop(t, graph, path)
      decreases |graph - path| - 1, 3
    {
      ghost var inner := path + {t};
      assert graph - inner == (graph - path) - {t};
      PrintFlatHash(t, graph, inner);
    }

    /** print_flat_hash */
    method PrintFlatHash(t: HashTable, ghost graph: set<HashTable>, ghost path: set<HashTable>)
      requires Closed(graph) && t in graph && Counts(graph, path)
      modifies this, graph`nApplyCount
      ensures Counts(graph, path)
      ensures out == old(out) + FlatFirst(t, |t.elements|, graph, path)
      decreases |graph - path|, 2
    {
      var i := 0;
      while i < |t.elements|
        invariant 0 <= i <= |t.elements| && Counts(graph, path)
        invariant out == old(out) + FlatFirst(t, i, graph, path)
      {
        ghost var first, value := FlatFirst(t, i, graph, path), Flat(t.elements[i].1, graph, path);
        PutsLabel(i, t.elements[i].0);
        PrintFlat(t.elements[i].1, graph, path);
        Assoc(old(out), first, Label(i, t.elements[i].0));
        Assoc(old(out), first + Label(i, t.elements[i].0), value);
        i := i + 1;
      }
    }

    method PutsLabel(i: nat, key: Key)
      modifies this
      ensures out == old(out) + Label(i, key)
    {
      if i > 0 {
        Puts(",");
      }
      Puts("[");
      Puts(KeyText(key));
      Puts("] => ");
    }

    /** A call from outside: on any finite graph whose counters are 0, printing ends, leaves every
        counter at 0 and writes what the printer without counters writes */
    method Print(v: Zval, ghost graph: set<HashTable>)
      requires Closed(graph) && Tables(v) <= graph
      requires forall t :: t in graph ==> t.nApplyCount == 0
      modifies this, graph`nApplyCount
      ensures forall t :: t in graph ==> t.nApplyCount == 0
      ensures out == old(out) + Flat(v, graph, {})
    {
      PrintFlat(v, graph, {});
    }
  }

  // ---------- Without cycles the guard is invisible ----------

  ghost function Height(v: Zval, rank: HashTable -> nat): nat {
    match TableOf(v)
    case None => 0
    case Some(t) => rank(t) + 1
  }

  /** The graph has no cycle: ranks fall along every reference */
  ghost predicate Ranked(graph: set<HashTable>, rank: HashTable -> nat)
    reads graph`elements
  {
    forall t, k :: t in graph && 0 <= k < |t.elements| ==> Height(t.elements[k].1, rank) <= rank(t)
  }

  /** The printer nobody would dare to run on a cycle */
  ghost function Plain(v: Zval, graph: set<HashTable>, rank: HashTable -> nat): string
    requires Closed(graph) && Tables(v) <= graph && Ranked(graph, rank)
    reads graph`elements
    decreases Height(v, rank), 0
  {
    match TableOf(v)
    case None => if v.Scalar? then v.text else Opening(v) + ")"
    case Some(t) => Opening(v) + PlainFirst(t, |t.elements|, graph, rank) + ")"
  }

  ghost function PlainFirst(t: HashTable, n: nat, graph: set<HashTable>, rank: HashTable -> nat): string
    requires Closed(graph) && t in graph && n <= |t.elements| && Ranked(graph, rank)
    reads graph`elements
    decreases rank(t), n
  {
    if n == 0 then ""
    else
      var (key, value) := t.elements[n - 1];
      PlainFirst(t, n - 1, graph, rank) + Label(n - 1, key) + Plain(value, graph, rank)
  }

  /** A shared table that is not part of a cycle is printed in full every time */
  lemma {:induction false} AcyclicPrintsPlain(v: Zval, graph: set<HashTable>, path: set<HashTable>,
                                              rank: HashTable -> nat)
    requires Closed(graph) && Tables(v) <= graph && Ranked(graph, rank)
    requires forall t :: t in path ==> Height(v, rank) <= rank(t)
    ensures Flat(v, graph, path) == Plain(v, graph, rank)
    decreases Height(v, rank), 0
  {
    if TableOf(v).Some? {
      var t := TableOf(v).value;
      FirstPrintsPlain(t, |t.elements|, graph, path + {t}, rank);
    }
  }

  lemma {:induction false} FirstPrintsPlain(t: HashTable, n: nat, graph: set<HashTable>, path: set<HashTable>,
                                            rank: HashTable -> nat)
    requires Closed(graph) && t in graph && n <= |t.elements| && Ranked(graph, rank)
    requires forall u :: u in path ==> rank(t) <= rank(u)
    ensures FlatFirst(t, n, graph, path) == PlainFirst(t, n, graph, rank)
    decreases rank(t), n
  {
    if n > 0 {
      FirstPrintsPlain(t, n - 1, graph, path, rank);
      AcyclicPrintsPlain(t.elements[n - 1].1, graph, path, rank);
    }
  }

  // ---------- A table of scalars ----------

  /** From the front: each element behind its label, the first one without a comma */
  function Listing(es: seq<(Key, Zval)>, i: nat): string
    requires forall k :: 0 <= k < |es| ==> es[k].1.Scalar?
  {
    if es == [] then ""
    else Item(es[0], i) + Listing(es[1..], i + 1)
  }

  function Item(e: (Key, Zval), i: nat): string
    requires e.1.Scalar?
  {
    (if i == 0 then "[" else ",[") + KeyText(e.0) + "] => " + e.1.text
  }

  lemma {:induction false} ListingSnoc(es: seq<(Key, Zval)>, e: (Key, Zval), i: nat)
    requires e.1.Scalar? && forall k :: 0 <= k < |es| ==> es[k].1.Scalar?
    ensures Listing(es + [e], i) == Listing(es, i) + Item(e, i + |es|)
    decreases |es|
  {
    if es == [] {
      assert [] + [e] == [e] && [e][1..] == [];
      assert Listing([e], i) == Item(e, i) + Listing([], i + 1);
    } else {
      assert (es + [e])[1..] == es[1..] + [e];
      ListingSnoc(es[1..], e, i + 1);
      Assoc(Item(es[0], i), Listing(es[1..], i + 1), Item(e, i + |es|));
    }
  }

  lemma {:induction false} FirstNext(t: HashTable, n: nat, graph: set<HashTable>, path: set<HashTable>)
    requires Closed(graph) && t in graph && 0 < n <= |t.elements| && t.elements[n - 1].1.Scalar?
    ensures FlatFirst(t, n, graph, path) == FlatFirst(t, n - 1, graph, path) + Item(t.elements[n - 1], n - 1)
  {
    var (key, value) := t.elements[n - 1];
    assert Flat(value, graph, path) == value.text;
    Assoc(FlatFirst(t, n - 1, graph, path), Label(n - 1, key), value.text);
  }

  lemma {:induction false} FirstListed(t: HashTable, n: nat, graph: set<HashTable>, path: set<HashTable>)
    requires Closed(graph) && t in graph && n <= |t.elements|
    requires forall k :: 0 <= k < |t.elements| ==> t.elements[k].1.Scalar?
    ensures FlatFirst(t, n, graph, path) == Listing(t.elements[..n], 0)
    decreases n
  {
    if n > 0 {
      FirstListed(t, n - 1, graph, path);
      FirstNext(t, n, graph, path);
      assert t.elements[..n] == t.elements[..n - 1] + [t.elements[n - 1]];
      ListingSnoc(t.elements[..n - 1], t.elements[n - 1], 0);
    }
  }

  /** An array of scalars prints them all, in order, between its parentheses */
  lemma {:induction false} ScalarsListed(t: HashTable, graph: set<HashTable>, path: set<HashTable>)
    requires Closed(graph) && t in graph && t !in path
    requires forall k :: 0 <= k < |t.elements| ==> t.elements[k].1.Scalar?
    ensures Flat(ArrayVal(t), graph, path) == "Array (" + Listing(t.elements, 0) + ")"
  {
    FirstListed(t, |t.elements|, graph, path + {t});
    assert t.elements[..|t.elements|] == t.elements;
  }
}
