/** The thread-safe resource manager: per-thread storage arrays behind a hash table of chains,
    a global table of resource types, and each thread's own pointer to its storage.

    Every method is one critical section.  The ghost field `life` records, for each block,
    everything that happened to it, in order; a block is named by the entry that owns it and its
    slot in that entry's storage. */
module Tsrm {
  import opened Wrappers

  type ThreadId = nat

  datatype Block = Block(owner: nat, slot: nat)

  datatype ResourceType = ResourceType(size: nat, ctor: bool, dtor: bool, done: bool)

  // ---------- What happens to a block ----------

  datatype Kind = Malloc | Ctor | Dtor | Free

  /** The life of a block while it is in use: allocated once, constructed once */
  function Born(t: ResourceType): seq<Kind> {
    [Malloc] + if t.ctor then [Ctor] else []
  }

  /** The destructor, if any, has run */
  function Ended(t: ResourceType): seq<Kind> {
    Born(t) + if t.dtor then [Dtor] else []
  }

  /** The whole life of a block: destroyed once, then freed once */
  function Gone(t: ResourceType): seq<Kind> {
    Ended(t) + [Free]
  }

  /** In a whole life everything happens at most once, and in order: allocated first, constructed next
      if there is a constructor, destroyed right before the end if there is a destructor, freed last */
  lemma {:induction false} OnceEach(t: ResourceType)
    ensures
      var g := Gone(t);
      && multiset(g) == multiset{Malloc, Free} + (if t.ctor then multiset{Ctor} else multiset{})
                                               + (if t.dtor then multiset{Dtor} else multiset{})
      && g[0] == Malloc && g[|g| - 1] == Free
      && (t.ctor ==> g[1] == Ctor)
      && (t.dtor ==> g[|g| - 2] == Dtor)
    ensures Born(t) < Gone(t)
  {
  }

  /** History is only ever added to, and this is all there is to add: nothing, or the step from
      `before` to `after` */
  ghost predicate Moves(h: seq<Kind>, h': seq<Kind>, before: seq<Kind>, after: seq<Kind>) {
    h' == h || (h == before && h' == after)
  }

  /** At shutdown a block that was ever made ends as it must, and no other appears */
  ghost predicate Dead(ts: seq<ResourceType>, h: seq<Kind>, h': seq<Kind>, b: Block) {
    if h == [] then h' == [] else b.slot < |ts| && h' == Gone(ts[b.slot])
  }

  class TlsEntry {
    const threadId: ThreadId
    const id: nat                       // stands for the address malloc returned
    var storage: seq<Option<Block>>
    var count: nat

    constructor (threadId: ThreadId, id: nat)
      ensures this.threadId == threadId && this.id == id && storage == [] && count == 0
    {
      this.threadId := threadId;
      this.id := id;
      storage := [];
      count := 0;
    }
  }

  /** The walk along a chain */
  function FindIn(chain: seq<TlsEntry>, thread: ThreadId): (r: Option<TlsEntry>)
    ensures r.Some? ==> r.value in chain && r.value.threadId == thread
    ensures r.None? ==> forall e :: e in chain ==> e.threadId != thread
  {
    if chain == [] then None
    else if chain[0].threadId == thread then Some(chain[0])
    else FindIn(chain[1..], thread)
  }

  lemma {:induction false} FindInAt(chain: seq<TlsEntry>, thread: ThreadId, k: nat)
    requires k < |chain| && chain[k].threadId == thread
    requires forall i :: 0 <= i < k ==> chain[i].threadId != thread
    ensures FindIn(chain, thread) == Some(chain[k])
  {
    if k > 0 {
      FindInAt(chain[1..], thread, k - 1);
    }
  }

  lemma {:induction false} FindInSnoc(chain: seq<TlsEntry>, e: TlsEntry, thread: ThreadId)
    ensures FindIn(chain + [e], thread) ==
      if FindIn(chain, thread).Some? then FindIn(chain, thread)
      else if e.threadId == thread then Some(e) else None
  {
    if chain == [] {
      assert [] + [e] == [e];
    } else {
      assert (chain + [e])[1..] == chain[1..] + [e];
      FindInSnoc(chain[1..], e, thread);
    }
  }

  lemma {:induction false} FindInNone(chain: seq<TlsEntry>, thread: ThreadId)
    requires forall e :: e in chain ==> e.threadId != thread
    ensures FindIn(chain, thread) == None
  {
  }

  /** Taking out one thread's entry hides that thread and no other */
  lemma {:induction false} FindInWithout(chain: seq<TlsEntry>, k: nat, thread: ThreadId)
    requires k < |chain| && OnePerThread(chain)
    ensures FindIn(chain[..k] + chain[k + 1..], thread) ==
      if chain[k].threadId == thread then None else FindIn(chain, thread)
  {
  }

  /** No two entries of a chain serve the same thread */
  ghost predicate OnePerThread(chain: seq<TlsEntry>) {
    forall k, l :: 0 <= k < l < |chain| ==> chain[k].threadId != chain[l].threadId
  }

  /** What a slot of a linked entry must look like */
  ghost predicate SlotOk(t: ResourceType, slot: Option<Block>, b: Block, h: seq<Kind>) {
    if t.done then slot.None? && (h == [] || h == Gone(t))
    else slot == Some(b) && h == Born(t)
  }

  class Manager {
    const tableSize: nat
    var up: bool                        // tsrm_tls_table != NULL
    var table: seq<seq<TlsEntry>>       // the chains
    var types: seq<ResourceType>        // id_count is its length
    var tls: map<ThreadId, TlsEntry>    // each thread's own pointer
    ghost var life: Block -> seq<Kind>  // what happened to each block
    var nextId: nat

    // ---------- The invariant ----------

    ghost function Entries(): set<TlsEntry>
      reads this
    {
      set i, k | 0 <= i < |table| && 0 <= k < |table[i]| :: table[i][k]
    }

    ghost function Ids(): set<nat>
      reads this
    {
      IdsOf(Entries())
    }

    ghost function IdsOf(all: set<TlsEntry>): (ids: set<nat>)
      ensures forall e :: e in all ==> e.id in ids
    {
      set e | e in all :: e.id
    }

    /** Every entry is in the chain of its thread, at most one per thread */
    ghost predicate Chained()
      reads this
    {
      && 0 < tableSize == |table|
      && (forall i :: 0 <= i < |table| ==> OnePerThread(table[i]))
      && (forall i, k :: 0 <= i < |table| && 0 <= k < |table[i]| ==> table[i][k].threadId % tableSize == i)
    }

    /** `e` has one slot for each of the types `ts`, in the state the type demands, and no other history */
    ghost predicate EntryOk(e: TlsEntry, ts: seq<ResourceType>)
      reads this, e
    {
      && e.id < nextId
      && e.count == |e.storage| == |ts|
      && (forall j :: 0 <= j < |ts| ==> SlotOk(ts[j], e.storage[j], Block(e.id, j), life(Block(e.id, j))))
      && (forall j: nat :: |ts| <= j ==> life(Block(e.id, j)) == [])
    }

    /** A block nobody holds: never allocated, or destroyed and freed */
    ghost predicate Settled(b: Block)
      reads this
    {
      life(b) == [] || (b.slot < |types| && life(b) == Gone(types[b.slot]))
    }

    /** A block of a type that is still in use */
    ghost predicate InUse(b: Block)
      reads this
    {
      b.slot < |types| && !types[b.slot].done
    }

    ghost predicate Core()
      reads this, Entries()
    {
      && Chained()
      && (forall e, f :: e in Entries() && f in Entries() && e.id == f.id ==> e == f)
      && (forall e :: e in Entries() ==> EntryOk(e, types))
      && (forall b: Block :: b.owner >= nextId ==> life(b) == [])
      && (forall b: Block :: b.owner !in Ids() ==> Settled(b))
    }

    /** The chain search for a thread */
    ghost function Lookup(thread: ThreadId): Option<TlsEntry>
      requires 0 < tableSize == |table|
      reads this
    {
      FindIn(table[thread % tableSize], thread)
    }

    ghost predicate Valid()
      reads this, Entries()
    {
      && up && Core()
      && forall thread: ThreadId :: Lookup(thread) == if thread in tls then Some(tls[thread]) else None
    }

    // ---------- The life of a block ----------

    ghost method Emit(kind: Kind, b: Block)
      modifies this`life
      ensures forall c :: life(c) == old(life(c)) + if b == c then [kind] else []
    {
      var before := life;
      life := c => before(c) + if b == c then [kind] else [];
    }

    /** malloc and constructor */
    method Make(ghost b: Block, t: ResourceType)
      modifies this`life
      ensures forall c :: life(c) == old(life(c)) + if b == c then Born(t) else []
    {
      Emit(Malloc, b);
      if t.ctor {
        Emit(Ctor, b);
      }
    }

    constructor (expectedThreads: nat)
      requires expectedThreads > 0
      ensures Valid() && table == seq(expectedThreads, _ => []) && types == [] && tls == map[] && (forall b :: life(b) == [])
    {
      tableSize := expectedThreads;
      up := true;
      table := seq(expectedThreads, _ => []);
      types := [];
      tls := map[];
      life := _ => [];
      nextId := 0;
    }

    /** Walking all chains turns every entry from the state `before` into the state `after` */
    ghost predicate Between(e: TlsEntry, before: seq<ResourceType>, after: seq<ResourceType>)
      reads this, e
    {
      EntryOk(e, before) || EntryOk(e, after)
    }

    ghost predicate DistinctIds(all: set<TlsEntry>) {
      forall e, f :: e in all && f in all && e.id == f.id ==> e == f
    }

    // ---------- ts_allocate_id ----------

    /** The loop body: enlarges one storage array to the number of ids */
    method Grow(p: TlsEntry, ghost before: seq<ResourceType>)
      requires before <= types && forall j :: |before| <= j < |types| ==> !types[j].done
      requires Between(p, before, types)
      modifies p, this`life
      ensures EntryOk(p, types)
      ensures forall b: Block :: b.owner != p.id || b.slot < |before| || |types| <= b.slot ==> life(b) == old(life(b))
    {
      ghost var n := |p.storage|;
      if p.count < |types| {
        var j := p.count;
        while j < |types|
          invariant n <= j <= |types|
          invariant |p.storage| == j && old(p.storage) <= p.storage
          invariant forall k :: n <= k < j ==> p.storage[k] == Some(Block(p.id, k))
          invariant forall k: nat :: n <= k < j ==> life(Block(p.id, k)) == Born(types[k])
          invariant forall b: Block :: b.owner != p.id || b.slot < n || j <= b.slot ==> life(b) == old(life(b))
        {
          Make(Block(p.id, j), types[j]);
          p.storage := p.storage + [Some(Block(p.id, j))];
          j := j + 1;
        }
        p.count := |types|;
      }
    }

    method GrowStep(p: TlsEntry, ghost before: seq<ResourceType>, ghost all: set<TlsEntry>, ghost ready: set<TlsEntry>)
      requires before <= types && forall j :: |before| <= j < |types| ==> !types[j].done
      requires p in all && DistinctIds(all) && forall e :: e in all ==> Between(e, before, types)
      requires ready <= all && forall e :: e in ready ==> EntryOk(e, types)
      modifies p, this`life
      ensures EntryOk(p, types)
      ensures forall e :: e in all ==> Between(e, before, types)
      ensures forall e :: e in ready ==> EntryOk(e, types)
      ensures forall b: Block :: b.owner != p.id || b.slot < |before| || |types| <= b.slot ==> life(b) == old(life(b))
    {
      Grow(p, before);
      forall e | e in all && e != p
        ensures EntryOk(e, before) == old(EntryOk(e, before)) && EntryOk(e, types) == old(EntryOk(e, types))
      {
        assert e.id != p.id;
      }
    }

    method GrowChain(chain: seq<TlsEntry>, ghost before: seq<ResourceType>, ghost all: set<TlsEntry>,
                     ghost ready: set<TlsEntry>)
      requires forall e :: e in chain ==> e in all
      requires before <= types && forall j :: |before| <= j < |types| ==> !types[j].done
      requires DistinctIds(all) && forall e :: e in all ==> Between(e, before, types)
      requires ready <= all && forall e :: e in ready ==> EntryOk(e, types)
      modifies all, this`life
      ensures forall e :: e in all ==> Between(e, before, types)
      ensures forall e :: e in ready ==> EntryOk(e, types)
      ensures forall e :: e in chain ==> EntryOk(e, types)
      ensures forall b: Block :: b.owner !in IdsOf(all) || b.slot < |before| || |types| <= b.slot ==>
        life(b) == old(life(b))
    {
      var k := 0;
      while k < |chain|
        invariant 0 <= k <= |chain|
        invariant forall e :: e in all ==> Between(e, before, types)
        invariant forall e :: e in ready ==> EntryOk(e, types)
        invariant forall l :: 0 <= l < k ==> EntryOk(chain[l], types)
        invariant forall b: Block :: b.owner !in IdsOf(all) || b.slot < |before| || |types| <= b.slot ==>
          life(b) == old(life(b))
      {
        GrowStep(chain[k], before, all, ready + set l | 0 <= l < k :: chain[l]);
        k := k + 1;
      }
    }

    method GrowAll(ghost before: seq<ResourceType>)
      requires before <= types && forall j :: |before| <= j < |types| ==> !types[j].done
      requires DistinctIds(Entries()) && forall e :: e in Entries() ==> EntryOk(e, before)
      modifies Entries(), this`life
      ensures forall e :: e in Entries() ==> EntryOk(e, types)
      ensures forall b: Block :: b.owner !in Ids() || b.slot < |before| || |types| <= b.slot ==> life(b) == old(life(b))
    {
      ghost var all, ready := Entries(), {};
      var i := 0;
      while i < |table|
        invariant 0 <= i <= |table|
        invariant forall e :: e in all ==> Between(e, before, types)
        invariant ready <= all && forall e :: e in ready ==> EntryOk(e, types)
        invariant forall m, l :: 0 <= m < i && 0 <= l < |table[m]| ==> table[m][l] in ready
        invariant forall b: Block :: b.owner !in Ids() || b.slot < |before| || |types| <= b.slot ==>
          life(b) == old(life(b))
        modifies all, this`life
      {
        forall k | 0 <= k < |table[i]| ensures table[i][k] in all {
        }
        GrowChain(table[i], before, all, ready);
        ready := ready + set k | 0 <= k < |table[i]| :: table[i][k];
        i := i + 1;
      }
    }

    /** ts_allocate_id: a new type, and a constructed block of it for every thread there is */
    method AllocateId(size: nat, ctor: bool, dtor: bool) returns (id: nat)
      requires Valid()
      modifies this`types, this`life, Entries()
      ensures Valid()
      ensures types == old(types) + [ResourceType(size, ctor, dtor, false)]
      ensures id == |types|
      ensures forall e :: e in Entries() ==> e.storage == old(e.storage) + [Some(Block(e.id, id - 1))]
      ensures forall b: Block :: old(life(b)) <= life(b)
      ensures forall b: Block ::
        life(b) == if b.owner in Ids() && b.slot == id - 1 then Born(types[b.slot]) else old(life(b))
    {
      types := types + [ResourceType(size, ctor, dtor, false)];
      id := |types|;
      GrowAll(old(types));
    }

    // ---------- ts_free_id ----------

    ghost predicate MarksDone(before: seq<ResourceType>, j: nat, after: seq<ResourceType>) {
      && j < |before| == |after|
      && (forall k :: 0 <= k < |before| && k != j ==> after[k] == before[k])
      && after[j] == before[j].(done := true)
    }

    /** The loop body: destroys and frees one slot, unless that happened before */
    method Clear(p: TlsEntry, j: nat, ghost after: seq<ResourceType>)
      requires MarksDone(types, j, after)
      requires Between(p, types, after)
      modifies p, this`life
      ensures EntryOk(p, after)
      ensures forall b: Block :: b.owner != p.id || b.slot != j ==> life(b) == old(life(b))
      ensures forall b: Block :: Moves(old(life(b)), life(b), Born(types[j]), Gone(types[j]))
    {
      if p.count > j && p.storage[j].Some? {
        if types[j].dtor {
          Emit(Dtor, p.storage[j].value);
        }
        Emit(Free, p.storage[j].value);
        p.storage := p.storage[j := None];
      }
    }

    method ClearStep(p: TlsEntry, j: nat, ghost after: seq<ResourceType>, ghost all: set<TlsEntry>,
                     ghost ready: set<TlsEntry>)
      requires MarksDone(types, j, after)
      requires p in all && DistinctIds(all) && forall e :: e in all ==> Between(e, types, after)
      requires ready <= all && forall e :: e in ready ==> EntryOk(e, after)
      modifies p, this`life
      ensures EntryOk(p, after)
      ensures forall e :: e in all ==> Between(e, types, after)
      ensures forall e :: e in ready ==> EntryOk(e, after)
      ensures forall b: Block :: b.owner != p.id || b.slot != j ==> life(b) == old(life(b))
      ensures forall b: Block :: Moves(old(life(b)), life(b), Born(types[j]), Gone(types[j]))
    {
      Clear(p, j, after);
      forall e | e in all && e != p
        ensures EntryOk(e, types) == old(EntryOk(e, types)) && EntryOk(e, after) == old(EntryOk(e, after))
      {
        assert e.id != p.id;
      }
    }

    method ClearChain(chain: seq<TlsEntry>, j: nat, ghost after: seq<ResourceType>, ghost all: set<TlsEntry>,
                      ghost ready: set<TlsEntry>)
      requires forall e :: e in chain ==> e in all
      requires MarksDone(types, j, after)
      requires DistinctIds(all) && forall e :: e in all ==> Between(e, types, after)
      requires ready <= all && forall e :: e in ready ==> EntryOk(e, after)
      modifies all, this`life
      ensures forall e :: e in all ==> Between(e, types, after)
      ensures forall e :: e in ready ==> EntryOk(e, after)
      ensures forall e :: e in chain ==> EntryOk(e, after)
      ensures forall b: Block :: b.owner !in IdsOf(all) || b.slot != j ==> life(b) == old(life(b))
      ensures forall b: Block :: Moves(old(life(b)), life(b), Born(types[j]), Gone(types[j]))
    {
      var k := 0;
      while k < |chain|
        invariant 0 <= k <= |chain|
        invariant forall e :: e in all ==> Between(e, types, after)
        invariant forall e :: e in ready ==> EntryOk(e, after)
        invariant forall l :: 0 <= l < k ==> EntryOk(chain[l], after)
        invariant forall b: Block :: b.owner !in IdsOf(all) || b.slot != j ==> life(b) == old(life(b))
        invariant forall b: Block :: Moves(old(life(b)), life(b), Born(types[j]), Gone(types[j]))
      {
        ClearStep(chain[k], j, after, all, ready + set l | 0 <= l < k :: chain[l]);
        k := k + 1;
      }
    }

    method ClearAll(j: nat, ghost after: seq<ResourceType>)
      requires MarksDone(types, j, after)
      requires DistinctIds(Entries()) && forall e :: e in Entries() ==> EntryOk(e, types)
      modifies Entries(), this`life
      ensures forall e :: e in Entries() ==> EntryOk(e, after)
      ensures forall b: Block :: b.owner !in Ids() || b.slot != j ==> life(b) == old(life(b))
      ensures forall b: Block :: Moves(old(life(b)), life(b), Born(types[j]), Gone(types[j]))
    {
      ghost var all, ready := Entries(), {};
      var i := 0;
      while i < |table|
        invariant 0 <= i <= |table|
        invariant forall e :: e in all ==> Between(e, types, after)
        invariant ready <= all && forall e :: e in ready ==> EntryOk(e, after)
        invariant forall m, l :: 0 <= m < i && 0 <= l < |table[m]| ==> table[m][l] in ready
        invariant forall b: Block :: b.owner !in Ids() || b.slot != j ==> life(b) == old(life(b))
        invariant forall b: Block :: Moves(old(life(b)), life(b), Born(types[j]), Gone(types[j]))
        modifies all, this`life
      {
        forall k | 0 <= k < |table[i]| ensures table[i][k] in all {
        }
        ClearChain(table[i], j, after, all, ready);
        ready := ready + set k | 0 <= k < |table[i]| :: table[i][k];
        i := i + 1;
      }
    }

    /** The walk over all threads: what it does to every block */
    method ClearBlocks(j: nat, ghost after: seq<ResourceType>)
      requires MarksDone(types, j, after)
      requires DistinctIds(Entries()) && forall e :: e in Entries() ==> EntryOk(e, types)
      modifies Entries(), this`life
      ensures forall e :: e in Entries() ==> EntryOk(e, after) && old(j < |e.storage|)
      ensures forall e :: e in Entries() ==> e.storage == old(e.storage)[j := None]
      ensures forall b: Block :: old(life(b)) <= life(b)
      ensures forall b: Block ::
        life(b) == if InUse(b) && b.slot == j && b.owner in Ids() then Gone(types[j]) else old(life(b))
    {
      ClearAll(j, after);
      forall b: Block | b.owner in Ids() && b.slot == j
        ensures life(b) == if InUse(b) then Gone(types[j]) else old(life(b))
      {
        var e :| e in Entries() && e.id == b.owner;
        assert b == Block(e.id, j);
        assert old(EntryOk(e, types)) && EntryOk(e, after);
      }
    }

    method MarkDone(j: nat, ghost after: seq<ResourceType>)
      requires MarksDone(types, j, after) && Chained() && DistinctIds(Entries())
      requires forall e :: e in Entries() ==> EntryOk(e, after)
      requires forall b: Block :: b.owner >= nextId ==> life(b) == []
      requires forall b: Block :: b.owner !in Ids() ==> Settled(b)
      requires up && forall thread: ThreadId :: Lookup(thread) == if thread in tls then Some(tls[thread]) else None
      modifies this`types
      ensures Valid() && types == after
    {
      types := types[j := types[j].(done := true)];
      assert types == after;
    }

    /** ts_free_id: every thread's block of one type goes, and the type is done */
    method FreeId(id: nat)
      requires Valid() && 1 <= id <= |types|
      modifies this`types, this`life, Entries()
      ensures Valid()
      ensures types == old(types)[id - 1 := old(types)[id - 1].(done := true)]
      ensures forall e :: e in Entries() ==> |e.storage| == |types| && e.storage == old(e.storage)[id - 1 := None]
      ensures forall b: Block :: old(life(b)) <= life(b)
      ensures forall b: Block ::
        life(b) == if old(InUse(b)) && b.slot == id - 1 && b.owner in Ids() then Gone(types[b.slot]) else old(life(b))
    {
      var j := id - 1;
      ghost var after := types[j := types[j].(done := true)];
      ClearBlocks(j, after);
      MarkDone(j, after);
    }

    // ---------- ts_resource_ex ----------

    /** allocate_new_resource: storage with a constructed block for every type that is not done */
    method NewEntry(thread: ThreadId) returns (e: TlsEntry)
      requires forall b: Block :: b.owner >= nextId ==> life(b) == []
      modifies this`life, this`nextId
      ensures fresh(e) && e.threadId == thread && e.id == old(nextId) && nextId == old(nextId) + 1
      ensures EntryOk(e, types)
      ensures forall b: Block ::
        life(b) == if b.owner == e.id && InUse(b) then Born(types[b.slot]) else old(life(b))
    {
      e := new TlsEntry(thread, nextId);
      nextId := nextId + 1;
      var i := 0;
      while i < |types|
        invariant 0 <= i <= |types| == |types|
        invariant |e.storage| == i
        invariant forall j :: 0 <= j < i ==> SlotOk(types[j], e.storage[j], Block(e.id, j), life(Block(e.id, j)))
        invariant forall j: nat :: i <= j ==> life(Block(e.id, j)) == []
        invariant forall b: Block ::
          life(b) == if b.owner == e.id && InUse(b) && b.slot < i then Born(types[b.slot]) else old(life(b))
        modifies e, this`life
      {
        if types[i].done {
          e.storage := e.storage + [None];
        } else {
          Make(Block(e.id, i), types[i]);
          e.storage := e.storage + [Some(Block(e.id, i))];
        }
        i := i + 1;
      }
      e.count := |types|;
    }

    /** Links a new entry at the end of its chain and makes it the thread's own */
    method Link(thread: ThreadId) returns (e: TlsEntry)
      requires Valid() && Lookup(thread).None?
      modifies this`life, this`nextId, this`table, this`tls
      ensures Valid() && fresh(e) && Lookup(thread) == Some(e)
      ensures table == old(table)[thread % tableSize := old(table)[thread % tableSize] + [e]]
      ensures tls == old(tls)[thread := e]
      ensures e.id !in old(Ids())
      ensures forall b: Block ::
        life(b) == if b.owner == e.id && InUse(b) then Born(types[b.slot]) else old(life(b))
      ensures forall b: Block :: old(life(b)) <= life(b)
    {
      var h := thread % tableSize;
      e := NewEntry(thread);
      tls := tls[thread := e];
      forall f | f in Entries() + {e} ensures EntryOk(f, types) {
        assert f != e ==> old(EntryOk(f, types)) && f.id != e.id;
      }
      Append(e);
      forall other: ThreadId ensures Lookup(other) == if other in tls then Some(tls[other]) else None {
        if other % tableSize == h {
          FindInSnoc(old(table)[h], e, other);
        }
      }
    }

    method Append(e: TlsEntry)
      requires Chained() && Lookup(e.threadId).None?
      requires DistinctIds(Entries() + {e})
      requires forall f :: f in Entries() + {e} ==> EntryOk(f, types)
      requires forall b: Block :: b.owner >= nextId ==> life(b) == []
      requires forall b: Block :: b.owner !in Ids() && b.owner != e.id ==> Settled(b)
      modifies this`table
      ensures Core()
      ensures
        var h := e.threadId % tableSize;
        table == old(table)[h := old(table)[h] + [e]]
    {
      var h := e.threadId % tableSize;
      table := table[h := table[h] + [e]];
      LinkedSet(old(table), table, h, e);
    }

    lemma {:induction false} LinkedSet(before: seq<seq<TlsEntry>>, after: seq<seq<TlsEntry>>, h: nat, e: TlsEntry)
      requires h < |before| && after == before[h := before[h] + [e]] && after == table
      ensures Entries() == (set i, k | 0 <= i < |before| && 0 <= k < |before[i]| :: before[i][k]) + {e}
    {
      forall i, k | 0 <= i < |before| && 0 <= k < |before[i]| ensures before[i][k] in Entries() {
        assert after[i][k] == before[i][k];
      }
      assert after[h][|before[h]|] == e;
    }

    /** The locked part of ts_resource_ex: the chain search, and a new entry where it finds none */
    method Search(thread: ThreadId) returns (e: TlsEntry)
      requires Valid()
      modifies this`life, this`nextId, this`table, this`tls
      ensures Valid() && Lookup(thread) == Some(e)
      ensures old(Lookup(thread)).Some? ==> unchanged(this)
      ensures old(Lookup(thread)).None? ==>
        && fresh(e) && tls == old(tls)[thread := e]
        && table == old(table)[thread % tableSize := old(table)[thread % tableSize] + [e]]
        && e.id !in old(Ids())
        && (forall b: Block ::
              life(b) == if b.owner == e.id && InUse(b) then Born(types[b.slot]) else old(life(b)))
      ensures forall b: Block :: old(life(b)) <= life(b)
    {
      var chain := table[thread % tableSize];
      var k := 0;
      while k < |chain| && chain[k].threadId != thread
        invariant 0 <= k <= |chain|
        invariant forall i :: 0 <= i < k ==> chain[i].threadId != thread
      {
        k := k + 1;
      }
      if k < |chain| {
        FindInAt(chain, thread, k);
        e := chain[k];
      } else {
        FindInNone(chain, thread);
        e := Link(thread);
      }
    }

    /** ts_resource_ex for the calling thread: `explicit` when it passes its own id instead of NULL.
        Either way the answer is the entry the chain search finds, made now if there was none. */
    method Fetch(thread: ThreadId, id: nat, explicit: bool) returns (e: TlsEntry, slot: Option<Block>)
      requires Valid() && id <= |types|
      modifies this
      ensures Valid() && types == old(types)
      ensures Lookup(thread) == Some(e)
      ensures old(Lookup(thread)).Some? ==> unchanged(this) && old(Lookup(thread)) == Some(e)
      ensures old(Lookup(thread)).None? ==>
        && fresh(e) && tls == old(tls)[thread := e]
        && table == old(table)[thread % tableSize := old(table)[thread % tableSize] + [e]]
        && e.id !in old(Ids())
        && (forall b: Block ::
              life(b) == if b.owner == e.id && InUse(b) then Born(types[b.slot]) else old(life(b)))
      ensures forall b: Block :: old(life(b)) <= life(b)
      ensures id > 0 ==> slot == if types[id - 1].done then None else Some(Block(e.id, id - 1))
    {
      if !explicit && thread in tls {
        e := tls[thread];
      } else {
        e := Search(thread);
      }
      assert e in Entries();
      slot := if id == 0 then None else e.storage[id - 1];
    }

    // ---------- ts_free_thread and tsrm_shutdown ----------

    /** The first loop of ts_free_thread: the destructors.  They also see the NULL of a done type;
        only blocks are recorded. */
    method DestroyAll(e: TlsEntry)
      requires EntryOk(e, types)
      modifies this`life
      ensures forall j :: 0 <= j < |types| && !types[j].done ==> life(Block(e.id, j)) == Ended(types[j])
      ensures forall b: Block :: b.owner != e.id || |types| <= b.slot || types[b.slot].done ==> life(b) == old(life(b))
    {
      var i := 0;
      while i < e.count
        invariant 0 <= i <= e.count
        invariant forall j :: 0 <= j < i && !types[j].done ==> life(Block(e.id, j)) == Ended(types[j])
        invariant forall b: Block :: b.owner != e.id || i <= b.slot || types[b.slot].done ==> life(b) == old(life(b))
      {
        assert SlotOk(types[i], e.storage[i], Block(e.id, i), old(life(Block(e.id, i))));
        if types[i].dtor && e.storage[i].Some? {
          Emit(Dtor, e.storage[i].value);
        }
        i := i + 1;
      }
    }

    /** The second loop: free */
    method FreeAll(e: TlsEntry)
      requires e.count == |e.storage| == |types|
      requires forall j :: 0 <= j < |types| ==>
        e.storage[j] == if types[j].done then None else Some(Block(e.id, j))
      requires forall j :: 0 <= j < |types| && !types[j].done ==> life(Block(e.id, j)) == Ended(types[j])
      modifies this`life
      ensures forall j :: 0 <= j < |types| && !types[j].done ==> life(Block(e.id, j)) == Gone(types[j])
      ensures forall b: Block :: b.owner != e.id || |types| <= b.slot || types[b.slot].done ==> life(b) == old(life(b))
    {
      var i := 0;
      while i < e.count
        invariant 0 <= i <= e.count
        invariant forall j :: 0 <= j < i && !types[j].done ==> life(Block(e.id, j)) == Gone(types[j])
        invariant forall b: Block :: b.owner != e.id || i <= b.slot || types[b.slot].done ==> life(b) == old(life(b))
      {
        if e.storage[i].Some? {
          Emit(Free, e.storage[i].value);
        }
        i := i + 1;
      }
    }

    method FreeEntry(e: TlsEntry)
      requires EntryOk(e, types)
      modifies this`life
      ensures forall j: nat :: Settled(Block(e.id, j))
      ensures forall b: Block ::
        life(b) == if b.owner == e.id && InUse(b) then Gone(types[b.slot]) else old(life(b))
    {
      DestroyAll(e);
      FreeAll(e);
      forall j: nat ensures Settled(Block(e.id, j)) {
        assert j < |types| ==>
          SlotOk(types[j], e.storage[j], Block(e.id, j), old(life(Block(e.id, j))));
      }
    }

    /** Takes the entry at position `k` of chain `h` out of the table */
    ghost function Without(h: nat, k: nat): seq<seq<TlsEntry>>
      requires h < |table| && k < |table[h]|
      reads this
    {
      table[h := table[h][..k] + table[h][k + 1..]]
    }

    /** An entry whose blocks are settled may be unlinked */
    lemma {:induction false} UnlinkKeepsCore(h: nat, k: nat, others: set<TlsEntry>)
      requires Chained() && h < |table| && k < |table[h]|
      requires others == set i, m | 0 <= i < |Without(h, k)| && 0 <= m < |Without(h, k)[i]| :: Without(h, k)[i][m]
      ensures others == Entries() - {table[h][k]}
    {
      var t := Without(h, k);
      forall e | e in Entries() && e != table[h][k] ensures e in others {
        var i, m :| 0 <= i < |table| && 0 <= m < |table[i]| && table[i][m] == e;
        if i == h {
          assert e == t[h][if m < k then m else m - 1];
        } else {
          assert e == t[i][m];
        }
      }
      forall e | e in others ensures e in Entries() && e != table[h][k] {
        var i, m :| 0 <= i < |t| && 0 <= m < |t[i]| && t[i][m] == e;
        if i == h {
          var m' := if m < k then m else m + 1;
          assert e == table[h][m'] && table[h][m'].threadId != table[h][k].threadId;
        } else {
          assert e == table[i][m] && table[i][m].threadId % tableSize == i;
          assert table[h][k].threadId % tableSize == h;
        }
      }
    }

    method Unlink(h: nat, k: nat)
      requires Chained() && h < |table| && k < |table[h]|
      requires DistinctIds(Entries()) && forall e :: e in Entries() && e != table[h][k] ==> EntryOk(e, types)
      requires forall b: Block :: b.owner >= nextId ==> life(b) == []
      requires forall b: Block :: b.owner !in Ids() || b.owner == table[h][k].id ==> Settled(b)
      modifies this`table
      ensures Core() && table == old(Without(h, k)) && Entries() == old(Entries() - {table[h][k]})
    {
      ghost var t := Without(h, k);
      UnlinkKeepsCore(h, k, set i, m | 0 <= i < |t| && 0 <= m < |t[i]| :: t[i][m]);
      table := table[h := table[h][..k] + table[h][k + 1..]];
    }

    /** The entry found at position `k` of chain `h` is freed and unlinked, its thread's pointer cleared */
    method RemoveThread(h: nat, k: nat)
      requires Valid() && h < |table| && k < |table[h]|
      modifies this`life, this`table, this`tls
      ensures Valid()
      ensures Lookup(old(table[h][k]).threadId).None?
      ensures old(Lookup(table[h][k].threadId)) == Some(old(table[h][k]))
      ensures Entries() == old(Entries() - {table[h][k]})
      ensures tls == old(tls) - {old(table[h][k]).threadId}
      ensures forall b: Block ::
        life(b) == if b.owner == old(table[h][k]).id && InUse(b) then Gone(types[b.slot]) else old(life(b))
    {
      ghost var chain, thread := table[h], table[h][k].threadId;
      FindInAt(chain, thread, k);
      FreeEntry(table[h][k]);
      tls := tls - {table[h][k].threadId};
      Unlink(h, k);
      forall other: ThreadId ensures Lookup(other) == if other in tls then Some(tls[other]) else None {
        FindInWithout(chain, k, other);
      }
    }

    /** ts_free_thread: the calling thread's entry goes, with everything in it */
    method FreeThread(thread: ThreadId)
      requires Valid()
      modifies this
      ensures Valid() && types == old(types) && Lookup(thread).None?
      ensures old(Lookup(thread)).None? ==> unchanged(this)
      ensures old(Lookup(thread)).Some? ==>
        && Entries() == old(Entries()) - {old(Lookup(thread)).value}
        && tls == old(tls) - {thread}
        && (forall b: Block ::
              life(b) == if b.owner == old(Lookup(thread)).value.id && InUse(b) then Gone(types[b.slot]) else old(life(b)))
      ensures forall b: Block :: old(life(b)) <= life(b)
    {
      var h := thread % tableSize;
      var k := 0;
      while k < |table[h]| && table[h][k].threadId != thread
        invariant 0 <= k <= |table[h]|
        invariant forall i :: 0 <= i < k ==> table[h][i].threadId != thread
      {
        k := k + 1;
      }
      if k < |table[h]| {
        RemoveThread(h, k);
      } else {
        FindInNone(table[h], thread);
      }
    }

    /** The inner loop of tsrm_shutdown: one entry, each destructor right before its free */
    method ShutdownEntry(e: TlsEntry)
      requires EntryOk(e, types)
      modifies this`life
      ensures forall j: nat :: Settled(Block(e.id, j))
      ensures forall b: Block ::
        life(b) == if b.owner == e.id && InUse(b) then Gone(types[b.slot]) else old(life(b))
    {
      var j := 0;
      while j < e.count
        invariant 0 <= j <= e.count
        invariant forall b: Block ::
          life(b) == if b.owner == e.id && InUse(b) && b.slot < j then Gone(types[b.slot]) else old(life(b))
      {
        assert SlotOk(types[j], e.storage[j], Block(e.id, j), old(life(Block(e.id, j))));
        if e.storage[j].Some? {
          if !types[j].done && types[j].dtor {
            Emit(Dtor, e.storage[j].value);
          }
          Emit(Free, e.storage[j].value);
        }
        j := j + 1;
      }
      forall j: nat ensures Settled(Block(e.id, j)) {
        assert j < |types| ==> SlotOk(types[j], e.storage[j], Block(e.id, j), old(life(Block(e.id, j))));
      }
    }

    /** tsrm_shutdown: every block there ever was has been destroyed and freed, once */
    method Shutdown()
      requires Valid()
      modifies this
      ensures !up && table == [] && types == [] && tls == map[]
      ensures forall b: Block :: Dead(old(types), old(life(b)), life(b), b) && old(life(b)) <= life(b)
    {
      var i := 0;
      while i < |table|
        invariant 0 <= i <= |table| && Core()
        invariant forall m :: 0 <= m < i ==> table[m] == []
        invariant Entries() <= old(Entries()) && types == old(types)
        invariant forall b: Block :: life(b) == old(life(b)) || Dead(types, old(life(b)), life(b), b)
      {
        while table[i] != []
          invariant i < |table| && Core()
          invariant forall m :: 0 <= m < i ==> table[m] == []
          invariant Entries() <= old(Entries()) && types == old(types)
          invariant forall b: Block :: life(b) == old(life(b)) || Dead(types, old(life(b)), life(b), b)
          decreases |table[i]|
        {
          // the source frees the entry and follows its next pointer; here it leaves the chain
          assert table[i][0] in Entries();
          ShutdownEntry(table[i][0]);
          Unlink(i, 0);
        }
        i := i + 1;
      }
      assert Entries() == {};
      up, table, types, tls := false, [], [], map[];
    }

    // ---------- Runs ----------

    /** Conservation: every block has no history, is in use, or is gone; and it is in use exactly
        while a linked entry holds it */
    lemma {:induction false} Conservation(b: Block)
      requires Valid()
      ensures life(b) != [] ==>
        b.slot < |types| && (life(b) == Born(types[b.slot]) || life(b) == Gone(types[b.slot]))
      ensures (b.slot < |types| && life(b) == Born(types[b.slot])) <==>
        exists e :: e in Entries() && b.slot < |e.storage| && e.storage[b.slot] == Some(b)
    {
    }

    ghost function Now(): Summary
      reads this
    {
      Summary(types, tls.Keys)
    }

    /** One operation.  An id that was never handed out is not passed to the manager. */
    method Do(op: Op)
      requires Valid()
      modifies this, Entries()
      ensures Valid() && Now() == Step(old(Now()), op)
      ensures fresh(Entries() - old(Entries()))
      ensures forall b: Block :: old(life(b)) <= life(b)
    {
      match op {
        case AllocateOp(size, ctor, dtor) =>
          var id := AllocateId(size, ctor, dtor);
        case FetchOp(thread, id, explicit) =>
          if id <= |types| {
            DoFetch(thread, id, explicit);
          }
        case FreeIdOp(id) =>
          if 1 <= id <= |types| {
            FreeId(id);
          }
        case FreeThreadOp(thread) =>
          FreeThread(thread);
      }
    }

    method DoFetch(thread: ThreadId, id: nat, explicit: bool)
      requires Valid() && id <= |types|
      modifies this
      ensures Valid() && Now() == old(Now()).(threads := old(Now()).threads + {thread})
      ensures fresh(Entries() - old(Entries()))
      ensures forall b: Block :: old(life(b)) <= life(b)
    {
      var e, slot := Fetch(thread, id, explicit);
      if table != old(table) {
        LinkedSet(old(table), table, thread % tableSize, e);
      }
    }

    /** Any run of operations by any threads.  No history is ever lost, and a final shutdown leaves
        no block behind: whatever was made has been constructed, destroyed and freed as its own
        type demands, once each and in this order. */
    method Run(ops: seq<Op>, shutdown: bool) returns (ghost end: Summary)
      requires Valid()
      modifies this, Entries()
      ensures end == After(old(Now()), ops)
      ensures forall b: Block :: old(life(b)) <= life(b)
      ensures !shutdown ==> Valid() && Now() == end
      ensures shutdown ==> forall b: Block ::
        life(b) == [] || (b.slot < |end.types| && life(b) == Gone(end.types[b.slot]))
    {
      var k := 0;
      assert ops[0..] == ops;
      while k < |ops|
        invariant 0 <= k <= |ops| && Valid()
        invariant fresh(Entries() - old(Entries()))
        invariant After(Now(), ops[k..]) == After(old(Now()), ops)
        invariant forall b: Block :: old(life(b)) <= life(b)
      {
        assert ops[k..][1..] == ops[k + 1..];
        Do(ops[k]);
        k := k + 1;
      }
      end := Now();
      if shutdown {
        Shutdown();
      }
    }
  }

  /** The resource types there are, and the threads that have storage */
  datatype Summary = Summary(types: seq<ResourceType>, threads: set<ThreadId>)

  /** What an operation does to them; an id that was never handed out is not passed */
  function Step(s: Summary, op: Op): Summary {
    match op
    case AllocateOp(size, ctor, dtor) => s.(types := s.types + [ResourceType(size, ctor, dtor, false)])
    case FetchOp(thread, id, _) => if id <= |s.types| then s.(threads := s.threads + {thread}) else s
    case FreeIdOp(id) =>
      if 1 <= id <= |s.types| then s.(types := s.types[id - 1 := s.types[id - 1].(done := true)]) else s
    case FreeThreadOp(thread) => s.(threads := s.threads - {thread})
  }

  function After(s: Summary, ops: seq<Op>): Summary
    decreases |ops|
  {
    if ops == [] then s else After(Step(s, ops[0]), ops[1..])
  }

  datatype Op =
    | AllocateOp(size: nat, ctor: bool, dtor: bool)
    | FetchOp(thread: ThreadId, id: nat, explicit: bool)
    | FreeIdOp(id: nat)
    | FreeThreadOp(thread: ThreadId)
}
