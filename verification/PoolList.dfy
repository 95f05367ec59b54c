/** The slab allocator of pool_list.c, on the pointer-level lists of KList. */
module PoolList {
  import opened Basics
  import opened KList

  /** An element: the address of its record and the address of the block it owns. */
  datatype Elem = Elem(self: nat, addr: nat)

  /** One allocation: a list node, `num` blocks of `size` bytes, `num` element records. */
  datatype Slab = Slab(base: nat, num: nat, size: nat) {
    function Blocks(): nat { base + LINK_BYTES }
    function Records(): nat { Blocks() + num * size }
    function End(): nat { Records() + num * ELEM_BYTES }
    function At(i: nat): Elem { Elem(Records() + i * ELEM_BYTES, Blocks() + i * size) }
  }

  const LINK_BYTES := 16
  const ELEM_BYTES := 24
  const UNLIMITED := 0xffff_ffff
  const PREALLOC_NUM := 16

  ghost function SlabElems(s: Slab): set<Elem> {
    set i: nat | i < s.num :: s.At(i)
  }

  /** Every element ever allocated. */
  ghost function Allocated(slabs: seq<Slab>): set<Elem> {
    if slabs == [] then {} else SlabElems(slabs[0]) + Allocated(slabs[1..])
  }

  ghost predicate Separate(a: Slab, b: Slab) {
    a.End() <= b.base || b.End() <= a.base
  }

  ghost predicate AllSeparate(slabs: seq<Slab>) {
    forall i, j :: 0 <= i < j < |slabs| ==> Separate(slabs[i], slabs[j])
  }

  /** The first `n` elements of a slab. */
  ghost function Carved(s: Slab, n: nat): set<Elem> {
    set i: nat | i < n :: s.At(i)
  }

  // ----- Blocks -----

  lemma ScaledOrder(i: nat, j: nat, num: nat, size: nat)
    requires i < j <= num
    ensures i * size + size <= j * size <= num * size
  {
    assert (j - i - 1) * size >= 0;
    assert (num - j) * size >= 0;
  }

  /** The layout of a slab: a list node of 16 bytes, the blocks, then the records of 24 bytes. */
  lemma Layout(s: Slab, i: nat)
    ensures s.At(i).addr == s.base + 16 + i * s.size
    ensures s.At(i).self == s.base + 16 + s.num * s.size + i * 24
  {
  }

  /** An element's block and record lie inside its slab. */
  lemma InsideSlab(s: Slab, i: nat)
    requires i < s.num
    ensures s.base + LINK_BYTES <= s.At(i).addr && s.At(i).addr + s.size <= s.Records()
    ensures s.Records() <= s.At(i).self && s.At(i).self + ELEM_BYTES <= s.End()
  {
    ScaledOrder(i, s.num, s.num, s.size);
  }

  lemma {:induction false} AllocatedFrom(slabs: seq<Slab>, e: Elem) returns (k: nat, i: nat)
    requires e in Allocated(slabs)
    ensures k < |slabs| && i < slabs[k].num && e == slabs[k].At(i)
  {
    if e in SlabElems(slabs[0]) {
      i :| i < slabs[0].num && e == slabs[0].At(i);
      k := 0;
    } else {
      k, i := AllocatedFrom(slabs[1..], e);
      k := k + 1;
    }
  }

  /** Distinct elements own disjoint blocks. */
  lemma BlocksDisjoint(slabs: seq<Slab>, size: nat, e: Elem, f: Elem)
    requires SlabsOk(slabs, size)
    requires e in Allocated(slabs) && f in Allocated(slabs) && e != f
    ensures e.addr + size <= f.addr || f.addr + size <= e.addr
    ensures e.self != f.self
  {
    var k, i := AllocatedFrom(slabs, e);
    var m, j := AllocatedFrom(slabs, f);
    InsideSlab(slabs[k], i);
    InsideSlab(slabs[m], j);
    if k < m {
      assert Separate(slabs[k], slabs[m]);
    } else if m < k {
      assert Separate(slabs[m], slabs[k]);
    } else if i < j {
      ScaledOrder(i, j, slabs[k].num, size);
    } else {
      ScaledOrder(j, i, slabs[k].num, size);
    }
  }

  /** A slab apart from all others has only new elements. */
  lemma NewElems(s: Slab, slabs: seq<Slab>, e: Elem)
    requires SeparateFrom(s, slabs)
    requires e in SlabElems(s)
    ensures e !in Allocated(slabs)
  {
    var i: nat :| i < s.num && e == s.At(i);
    InsideSlab(s, i);
    if e in Allocated(slabs) {
      var m, j := AllocatedFrom(slabs, e);
      InsideSlab(slabs[m], j);
    }
  }

  lemma CarveNext(s: Slab, slabs: seq<Slab>, i: nat)
    requires SeparateFrom(s, slabs)
    requires i < s.num
    ensures s.At(i) !in Allocated(slabs) + Carved(s, i)
    ensures Carved(s, i + 1) == Carved(s, i) + {s.At(i)}
  {
    NewElems(s, slabs, s.At(i));
  }

  lemma AtFirst(s: Slab)
    ensures s.At(0).addr == s.Blocks()
  {
  }

  lemma AtNext(s: Slab, i: nat)
    ensures s.At(i) == Elem(s.Records() + i * ELEM_BYTES, s.At(i).addr)
    ensures s.At(i + 1).addr == s.At(i).addr + s.size
  {
  }

  lemma CarvedAll(s: Slab, slabs: seq<Slab>)
    ensures Carved(s, 0) == {} && Allocated(slabs) + Carved(s, s.num) == Allocated([s] + slabs)
  {
    assert ([s] + slabs)[1..] == slabs;
    assert Carved(s, s.num) == SlabElems(s);
  }

  /** Slabs of blocks of one size, apart from each other. */
  ghost predicate SlabsOk(slabs: seq<Slab>, size: nat) {
    AllSeparate(slabs) && forall k :: 0 <= k < |slabs| ==> slabs[k].size == size
  }

  ghost predicate SeparateFrom(s: Slab, slabs: seq<Slab>) {
    forall k :: 0 <= k < |slabs| ==> Separate(s, slabs[k])
  }

  lemma SlabsNext(s: Slab, slabs: seq<Slab>)
    requires SlabsOk(slabs, s.size) && SeparateFrom(s, slabs)
    ensures SlabsOk([s] + slabs, s.size)
  {
  }

  // ----- Elements and their list nodes -----

  /** Every allocated element is the container of exactly one node. */
  ghost predicate Contains(elems: map<Node, Elem>, all: set<Elem>) {
    && (forall n, m :: n in elems && m in elems && elems[n] == elems[m] ==> n == m)
    && elems.Values == all
  }

  lemma ContainsNext(elems: map<Node, Elem>, all: set<Elem>, node: Node, e: Elem)
    requires Contains(elems, all) && node !in elems && e !in all
    ensures Contains(elems[node := e], all + {e})
  {
    var m := elems[node := e];
    assert forall n :: n in elems ==> m[n] == elems[n] && elems[n] in elems.Values;
    forall x | x in all + {e}
      ensures x in m.Values
    {
      if x in all {
        var n: Node :| n in elems && elems[n] == x;
        assert m[n] == x;
      } else {
        assert m[node] == x;
      }
    }
  }

  ghost function Elements(s: seq<Node>): set<Node> {
    set n | n in s
  }

  /** Where the nodes of elements are: on the free list, on the available list, or in hand and
      then on no list. */
  ghost predicate Placed(lists: map<Node, seq<Node>>, free: Node, available: Node,
                         nodes: set<Node>, inHand: set<Node>)
    requires free in lists && available in lists
  {
    && free != available
    && nodes == Elements(lists[free]) + Elements(lists[available]) + inHand
    && forall n :: n in inHand ==> Loose(lists, n)
  }

  lemma LooseStays(lists: map<Node, seq<Node>>, head: Node, s: seq<Node>, n: Node)
    requires head in lists && Loose(lists, n) && n !in s
    ensures Loose(lists[head := s], n)
  {
    var m := lists[head := s];
    assert n !in Cycle(lists, head) && n != Cycle(lists, head)[0];
    assert forall h :: h in m && h != head ==> Cycle(m, h) == Cycle(lists, h);
  }

  lemma AllStayLoose(lists: map<Node, seq<Node>>, head: Node, s: seq<Node>, ns: set<Node>)
    requires head in lists && forall n :: n in ns ==> Loose(lists, n) && n !in s
    ensures forall n :: n in ns ==> Loose(lists[head := s], n)
  {
    hide Loose;
    forall n | n in ns
      ensures Loose(lists[head := s], n)
    {
      LooseStays(lists, head, s, n);
    }
  }

  lemma LooseApart(lists: map<Node, seq<Node>>, head: Node, n: Node)
    requires head in lists && Loose(lists, n)
    ensures n !in lists[head] && n != head
  {
    assert n !in Cycle(lists, head);
    assert Cycle(lists, head)[0] == head;
    assert forall m :: m in lists[head] ==> m in Cycle(lists, head);
  }

  lemma AllApart(lists: map<Node, seq<Node>>, head: Node, ns: set<Node>)
    requires head in lists && forall n :: n in ns ==> Loose(lists, n)
    ensures forall n :: n in ns ==> n !in lists[head]
  {
    hide Loose;
    forall n | n in ns
      ensures n !in lists[head]
    {
      LooseApart(lists, head, n);
    }
  }

  lemma PlacedNone(lists: map<Node, seq<Node>>, free: Node, available: Node)
    requires free in lists && available in lists && free != available && lists[free] == lists[available] == []
    ensures Placed(lists, free, available, {}, {}) && Contains(map[], Allocated([]))
  {
  }

  lemma PlacedNew(lists: map<Node, seq<Node>>, free: Node, available: Node, nodes: set<Node>, inHand: set<Node>,
                  entry: Node)
    requires free in lists && available in lists && Placed(lists, free, available, nodes, inHand)
    requires Loose(lists, entry) && entry !in inHand
    ensures Placed(lists[free := [entry] + lists[free]], free, available, nodes + {entry}, inHand)
    ensures entry !in nodes
  {
    hide Loose;
    LooseApart(lists, free, entry);
    LooseApart(lists, available, entry);
    AllApart(lists, free, inHand);
    AllStayLoose(lists, free, [entry] + lists[free], inHand);
  }

  lemma PlacedSlab(lists: map<Node, seq<Node>>, free: Node, available: Node, nodes: set<Node>, inHand: set<Node>,
                   slub: Node, entry: Node)
    requires free in lists && available in lists && Placed(lists, free, available, nodes, inHand)
    requires slub in lists && slub != free && slub != available && entry !in inHand
    ensures Placed(lists[slub := [entry] + lists[slub]], free, available, nodes, inHand)
  {
    hide Loose;
    AllApart(lists, slub, inHand);
    AllStayLoose(lists, slub, [entry] + lists[slub], inHand);
  }

  lemma PlacedTake(lists: map<Node, seq<Node>>, free: Node, available: Node, nodes: set<Node>, inHand: set<Node>)
    requires free in lists && available in lists && Placed(lists, free, available, nodes, inHand)
    requires lists[free] != []
    requires Loose(lists[free := Without(lists[free], 0)], lists[free][0])
    ensures Placed(lists[free := Without(lists[free], 0)], free, available, nodes, inHand + {lists[free][0]})
    ensures lists[free][0] !in inHand
  {
    hide Loose;
    var s := lists[free];
    AllApart(lists, free, inHand);
    assert s == [s[0]] + Without(s, 0);
    AllStayLoose(lists, free, Without(s, 0), inHand);
    assert Elements(s) == Elements(Without(s, 0)) + {s[0]};
  }

  lemma PlacedPut(lists: map<Node, seq<Node>>, free: Node, available: Node, nodes: set<Node>, inHand: set<Node>,
                  entry: Node)
    requires free in lists && available in lists && Placed(lists, free, available, nodes, inHand)
    requires entry in inHand
    ensures Placed(lists[available := lists[available] + [entry]], free, available, nodes, inHand - {entry})
  {
    hide Loose;
    AllApart(lists, available, inHand);
    AllStayLoose(lists, available, lists[available] + [entry], inHand - {entry});
  }

  lemma PlacedMove(lists: map<Node, seq<Node>>, free: Node, available: Node, nodes: set<Node>, inHand: set<Node>,
                   k: nat)
    requires free in lists && available in lists && Placed(lists, free, available, nodes, inHand)
    requires k < |lists[available]|
    ensures Placed(Inserted(Removed(lists, available, k), free, lists[available][k]), free, available, nodes, inHand)
  {
    hide Loose;
    var s, t := lists[available], Without(lists[available], k);
    var entry := s[k];
    AllApart(lists, available, inHand);
    AllApart(lists, free, inHand);
    AllStayLoose(lists, available, t, inHand);
    AllStayLoose(lists[available := t], free, [entry] + lists[free], inHand);
    WithoutElements(s, k);
  }

  lemma WithoutElements(s: seq<Node>, k: nat)
    requires k < |s|
    ensures Elements(s) == Elements(Without(s, k)) + {s[k]}
  {
    assert s == s[..k] + [s[k]] + s[k + 1..];
  }

  lemma MembersAdd(lists: map<Node, seq<Node>>, head: Node, entry: Node)
    requires head in lists
    ensures Members(lists[head := [entry] + lists[head]]) == Members(lists) + {entry}
  {
    var m := lists[head := [entry] + lists[head]];
    assert Cycle(m, head) == [head] + [entry] + lists[head];
    assert forall h :: h in lists && h != head ==> Cycle(m, h) == Cycle(lists, h);
    assert entry in Cycle(m, head);
    forall n | n in Members(lists)
      ensures n in Members(m)
    {
      var h: Node :| h in lists && n in Cycle(lists, h);
      assert n in Cycle(m, h);
    }
    forall n | n in Members(m) && n != entry
      ensures n in Members(lists)
    {
      var h: Node :| h in m && n in Cycle(m, h);
      assert n in Cycle(lists, h);
    }
  }

  lemma EmptyLists(lists: map<Node, seq<Node>>)
    requires forall h :: h in lists ==> lists[h] == []
    ensures Members(lists) == lists.Keys
    ensures forall n :: n !in lists ==> Loose(lists, n)
  {
    assert forall h :: h in lists ==> Cycle(lists, h) == [h];
    assert forall h :: h in lists ==> h in Cycle(lists, h);
  }

  /** The first `n` elements of `slab` were put in front of a free list, newest first, and the
      elements before are as they were. */
  ghost predicate CarvedFrom(slab: Slab, elems: map<Node, Elem>, free: seq<Node>,
                             elems': map<Node, Elem>, free': seq<Node>, n: nat)
  {
    && (forall m :: m in elems ==> m in elems' && elems'[m] == elems[m])
    && |free'| == n + |free| && free'[n..] == free
    && forall j :: 0 <= j < n ==> free'[j] in elems' && elems'[free'[j]] == slab.At(n - 1 - j)
  }

  lemma CarvedFromNone(slab: Slab, elems: map<Node, Elem>, free: seq<Node>)
    ensures CarvedFrom(slab, elems, free, elems, free, 0)
  {
  }

  lemma CarvedFromIs(slab: Slab, elems: map<Node, Elem>, free: seq<Node>,
                     elems': map<Node, Elem>, free': seq<Node>, n: nat)
    requires CarvedFrom(slab, elems, free, elems', free', n)
    ensures |free'| == n + |free| && free'[n..] == free
    ensures forall j :: 0 <= j < n ==> free'[j] in elems' && elems'[free'[j]] == slab.At(n - 1 - j)
  {
  }

  lemma CarvedFromNext(slab: Slab, elems: map<Node, Elem>, free: seq<Node>,
                       elems': map<Node, Elem>, free': seq<Node>, n: nat, node: Node)
    requires CarvedFrom(slab, elems, free, elems', free', n) && node !in elems'
    ensures CarvedFrom(slab, elems, free, elems'[node := slab.At(n)], [node] + free', n + 1)
  {
    assert ([node] + free')[n + 1..] == free'[n..];
  }

  /** The heads of a pool, made into empty lists. */
  method NewLists() returns (slub: Node, free: Node, available: Node, lists: Lists)
    ensures lists.Valid() && lists.lists == map[slub := [], free := [], available := []]
    ensures slub != free && slub != available && free != available
    ensures fresh(lists) && fresh(slub) && fresh(free) && fresh(available)
  {
    hide Members, Lists.Valid;
    lists := new Lists();
    available := NewHead(lists);
    free := NewHead(lists);
    slub := NewHead(lists);
  }

  /** One more empty list. */
  method NewHead(lists: Lists) returns (head: Node)
    requires lists.Valid() && forall h :: h in lists.lists ==> lists.lists[h] == []
    modifies lists
    ensures lists.Valid() && head !in old(lists.lists) && lists.lists == old(lists.lists)[head := []]
    ensures fresh(head)
  {
    hide Loose, Apart, Ring, Cycle;
    head := new Node();
    EmptyLists(lists.lists);
    lists.InitHead(head);
  }

  class Pool {
    const slub: Node
    const free: Node
    const available: Node
    const lists: Lists
    /** The element that contains a node. */
    var elems: map<Node, Elem>
    var freeNum: int
    var curSlub: int
    var maxSlub: int
    var elemSize: nat
    var preallocNum: nat
    ghost var slabs: seq<Slab>
    ghost var inHand: set<Node>

    ghost predicate Heads()
      reads this, lists
    {
      && lists.lists.Keys == {slub, free, available}
      && slub != free && slub != available && free != available
    }

    ghost function Free(): seq<Node>
      requires Heads()
      reads this, lists
    {
      lists.lists[free]
    }

    ghost function Available(): seq<Node>
      requires Heads()
      reads this, lists
    {
      lists.lists[available]
    }

    /** The lists, and the nodes of elements on them. */
    ghost predicate Arranged()
      reads this, lists, Members(lists.lists)
    {
      lists.Valid() && Heads() && Placed(lists.lists, free, available, elems.Keys, inHand)
    }

    ghost predicate Valid()
      reads this, lists, Members(lists.lists)
      ensures Valid() ==> Heads() && lists.Valid()
    {
      && Arranged()
      && Contains(elems, Allocated(slabs))
      && SlabsOk(slabs, elemSize)
      && freeNum == |Free()|
      && curSlub == |slabs| == |lists.lists[slub]|
      && 0 <= maxSlub <= UNLIMITED
    }

    /** `pool_list_init`. */
    constructor (elemSize: nat)
      ensures Valid() && slabs == [] && Free() == [] && Available() == [] && inHand == {} && elems == map[]
      ensures this.elemSize == elemSize && maxSlub == 0xffff_ffff && preallocNum == 16
      ensures fresh(lists) && fresh(Members(lists.lists))
    {
      hide Loose, Apart, Ring, Members, Cycle, Placed, Contains, Allocated;
      var slub, free, available, lists := NewLists();
      EmptyLists(lists.lists);
      PlacedNone(lists.lists, free, available);
      this.slub, this.free, this.available, this.lists := slub, free, available, lists;
      slabs, inHand, elems := [], {}, map[];
      maxSlub := UNLIMITED;
      this.elemSize := elemSize;
      freeNum, curSlub := 0, 0;
      preallocNum := PREALLOC_NUM;
      new;
      assert elems.Keys == {};
    }

    /** `pool_list_set_limit`. */
    method SetLimit(maxSlub: int, preallocNum: nat)
      requires Valid() && 0 <= maxSlub <= UNLIMITED
      modifies this`maxSlub, this`preallocNum
      ensures Valid() && this.maxSlub == maxSlub && this.preallocNum == preallocNum
    {
      this.maxSlub := maxSlub;
      this.preallocNum := preallocNum;
    }

    /** What the system allocator returns: nothing, or memory apart from every slab in use. */
    ghost predicate Fresh(memory: Option<nat>)
      reads this
    {
      memory.Some? ==> SeparateFrom(Slab(memory.value, preallocNum, elemSize), slabs)
    }

    /** `list_add` of a node in memory that the system allocator just returned. */
    method AddNew(head: Node) returns (node: Node)
      requires lists.Valid() && head in lists.lists
      modifies lists, Members(lists.lists)
      ensures lists.Valid() && lists.lists == old(lists.lists)[head := [node] + old(lists.lists[head])]
      ensures fresh(node) && Loose(old(lists.lists), node)
      ensures Members(lists.lists) == old(Members(lists.lists)) + {node}
    {
      node := new Node();
      HeadLinks(lists, head);
      MembersAdd(lists.lists, head, node);
      lists.Add(node, head);
    }

    /** The part of the state that no operation on elements changes. */
    twostate predicate SameLimits()
      reads this
    {
      elemSize == old(elemSize) && preallocNum == old(preallocNum) && maxSlub == old(maxSlub)
    }

    /** The list node of a new slab. */
    method AddSlab()
      requires Arranged()
      modifies lists, Members(lists.lists)
      ensures Arranged() && |lists.lists[slub]| == old(|lists.lists[slub]|) + 1
      ensures Free() == old(Free()) && Available() == old(Available())
      ensures fresh(Members(lists.lists) - old(Members(lists.lists)))
    {
      hide Placed, Loose, Members, Lists.Valid;
      var node := AddNew(slub);
      PlacedSlab(old(lists.lists), free, available, elems.Keys, inHand, slub, node);
    }

    /** `expand_pool_list`, with the caller's count of slabs. */
    method Expand(memory: Option<nat>) returns (code: int)
      requires Valid() && Fresh(memory)
      modifies this, lists, Members(lists.lists)
      ensures Valid() && SameLimits() && inHand == old(inHand) && Available() == old(Available())
      ensures fresh(Members(lists.lists) - old(Members(lists.lists)))
      ensures memory.None? ==> code == -1 && slabs == old(slabs) && Free() == old(Free()) && elems == old(elems)
      ensures memory.Some? ==> |Free()| == preallocNum + |old(Free())|
      ensures memory.Some? ==> code == 0 && var s := Slab(memory.value, preallocNum, elemSize);
        slabs == [s] + old(slabs) && CarvedFrom(s, old(elems), old(Free()), elems, Free(), s.num)
      ensures memory.Some? ==> Free()[preallocNum..] == old(Free())
      ensures memory.Some? ==> forall j :: 0 <= j < preallocNum ==>
                Free()[j] in elems
                && elems[Free()[j]] == Slab(memory.value, preallocNum, elemSize).At(preallocNum - 1 - j)
    {
      hide Placed, Contains, Allocated, SlabsOk, SeparateFrom, Loose, Members, Lists.Valid, CarvedFrom;
      if memory.None? {
        return -1;
      }
      var slab := Slab(memory.value, preallocNum, elemSize);
      CarvedAll(slab, slabs);
      SlabsNext(slab, slabs);
      RecordAndCarve(slab);
      CarvedFromIs(slab, old(elems), old(Free()), elems, Free(), slab.num);
      slabs := [slab] + slabs;
      freeNum := freeNum + preallocNum;
      curSlub := curSlub + 1;
      return 0;
    }

    /** A new element at the front of the free list. */
    method AddElem(e: Elem, ghost all: set<Elem>) returns (node: Node)
      requires Arranged() && Contains(elems, all) && e !in all
      modifies this`elems, lists, Members(lists.lists)
      ensures Arranged() && Contains(elems, all + {e})
      ensures node !in old(elems) && elems == old(elems)[node := e]
      ensures lists.lists == old(lists.lists)[free := [node] + old(Free())]
      ensures fresh(node) && Members(lists.lists) == old(Members(lists.lists)) + {node}
    {
      hide Placed, Contains, Loose, Members, Lists.Valid;
      node := AddNew(free);
      PlacedNew(old(lists.lists), free, available, elems.Keys, inHand, node);
      ContainsNext(elems, all, node, e);
      elems := elems[node := e];
      assert elems.Keys == old(elems).Keys + {node};
    }

    /** The slab's own node goes on the list of slabs, its elements on the free list. */
    method RecordAndCarve(slab: Slab)
      requires Arranged() && Contains(elems, Allocated(slabs)) && SeparateFrom(slab, slabs)
      modifies this`elems, lists, Members(lists.lists)
      ensures Arranged() && Contains(elems, Allocated(slabs) + Carved(slab, slab.num))
      ensures CarvedFrom(slab, old(elems), old(Free()), elems, Free(), slab.num)
      ensures |Free()| == slab.num + |old(Free())| && Available() == old(Available())
      ensures |lists.lists[slub]| == old(|lists.lists[slub]|) + 1
      ensures fresh(Members(lists.lists) - old(Members(lists.lists)))
    {
      hide Placed, Contains, Allocated, SeparateFrom, Loose, Lists.Valid, Carved, CarvedFrom;
      AddSlab();
      ghost var middle := Members(lists.lists);
      label Recorded:
      Carve(slab);
      forall n | n in Members(lists.lists) - old(Members(lists.lists))
        ensures fresh(n)
      {
        if n in middle {
          assert n in middle - old(Members(lists.lists));
        } else {
          assert n in Members(lists.lists) - middle;
          assert fresh@Recorded(n);
        }
      }
    }

    /** The loop that cuts a slab into elements and puts each at the front of the free list. */
    method Carve(slab: Slab)
      requires Arranged() && Contains(elems, Allocated(slabs)) && SeparateFrom(slab, slabs)
      modifies this`elems, lists, Members(lists.lists)
      ensures Arranged() && Contains(elems, Allocated(slabs) + Carved(slab, slab.num))
      ensures CarvedFrom(slab, old(elems), old(Free()), elems, Free(), slab.num)
      ensures |Free()| == slab.num + |old(Free())|
      ensures Available() == old(Available()) && lists.lists[slub] == old(lists.lists[slub])
      ensures fresh(Members(lists.lists) - old(Members(lists.lists)))
    {
      hide Placed, Contains, Allocated, SeparateFrom, Loose, Members, Lists.Valid, Carved, CarvedFrom, Slab.At;
      var ptr := slab.Blocks();
      CarvedAll(slab, slabs);
      AtFirst(slab);
      CarvedFromNone(slab, elems, Free());
      assert Allocated(slabs) + {} == Allocated(slabs);
      for i := 0 to slab.num
        invariant ptr == slab.At(i).addr
        invariant Arranged() && Contains(elems, Allocated(slabs) + Carved(slab, i))
        invariant CarvedFrom(slab, old(elems), old(Free()), elems, Free(), i)
        invariant |Free()| == i + |old(Free())|
        invariant Available() == old(Available()) && lists.lists[slub] == old(lists.lists[slub])
        invariant fresh(Members(lists.lists) - old(Members(lists.lists)))
      {
        AtNext(slab, i);
        CarveNext(slab, slabs, i);
        assert Allocated(slabs) + Carved(slab, i + 1) == Allocated(slabs) + Carved(slab, i) + {slab.At(i)};
        ghost var elems', free' := elems, Free();
        var node := AddElem(Elem(slab.Records() + i * ELEM_BYTES, ptr), Allocated(slabs) + Carved(slab, i));
        CarvedFromNext(slab, old(elems), old(Free()), elems', free', i, node);
        ptr := ptr + slab.size;
      }
    }

    /** `list_first_entry` and `list_del` on the free list. */
    method TakeFirst() returns (node: Node)
      requires Arranged() && Free() != []
      modifies this`inHand, lists, Members(lists.lists)
      ensures Arranged() && lists.lists == old(lists.lists)[free := old(Free())[1..]]
      ensures node == old(Free()[0]) && node !in old(inHand) && inHand == old(inHand) + {node}
      ensures Members(lists.lists) <= old(Members(lists.lists)) && node in old(Members(lists.lists))
    {
      hide Placed, Loose, Ring, Apart, Cycle;
      EntryLinks(lists, free, 0);
      MembersDel(lists.lists, free, 0);
      node := free.next;
      lists.Del(node, free, 0);
      assert Without(old(Free()), 0) == old(Free())[1..];
      PlacedTake(old(lists.lists), free, available, elems.Keys, inHand);
      inHand := inHand + {node};
    }

    /** The first part of `pool_list_get_free_elem`: expand an empty free list if that is allowed. */
    method Refill(memory: Option<nat>)
      requires Valid() && Fresh(memory)
      modifies this, lists, Members(lists.lists)
      ensures Valid() && SameLimits() && inHand == old(inHand) && Available() == old(Available())
      ensures Free() == [] <==>
                old(Free()) == []
                && (memory.None? || preallocNum == 0 || (old(curSlub) >= maxSlub && maxSlub != 0xffff_ffff))
      ensures old(Free()) != [] ==> Free() == old(Free()) && slabs == old(slabs)
      ensures slabs != old(slabs) ==> old(Free()) == [] && curSlub == old(curSlub) + 1
      ensures slabs != old(slabs) ==> maxSlub == 0xffff_ffff || curSlub <= maxSlub
      ensures maxSlub != UNLIMITED && old(curSlub) <= maxSlub ==> curSlub <= maxSlub
      ensures fresh(Members(lists.lists) - old(Members(lists.lists)))
    {
      hide Placed, Contains, Allocated, SlabsOk, SeparateFrom, Loose, Ring, Apart, Cycle, CarvedFrom;
      if lists.IsEmpty(free) {
        if maxSlub == UNLIMITED || curSlub < maxSlub {
          var _ := Expand(memory);
        }
      }
    }

    /** The last part: the first free element goes to the caller. */
    method Take() returns (node: Node)
      requires Valid() && Free() != []
      modifies this`inHand, this`freeNum, lists, Members(lists.lists)
      ensures Valid() && Free() == old(Free())[1..] && Available() == old(Available())
      ensures node == old(Free()[0]) && node !in old(inHand) && inHand == old(inHand) + {node}
    {
      hide Placed, Contains, Allocated, SlabsOk, Loose, Ring, Apart, Cycle;
      node := TakeFirst();
      freeNum := freeNum - 1;
    }

    /** `pool_list_get_free_elem`. */
    method GetFree(memory: Option<nat>) returns (node: Node?)
      requires Valid() && Fresh(memory)
      modifies this, lists, Members(lists.lists)
      ensures Valid() && SameLimits() && Available() == old(Available())
      ensures node != null ==> node !in old(inHand) && inHand == old(inHand) + {node}
      ensures node == null ==> inHand == old(inHand) && Free() == []
      ensures node == null <==>
                old(Free()) == []
                && (memory.None? || preallocNum == 0 || (old(curSlub) >= maxSlub && maxSlub != 0xffff_ffff))
      ensures old(Free()) != [] ==> node == old(Free()[0]) && Free() == old(Free())[1..] && slabs == old(slabs)
      ensures slabs != old(slabs) ==> old(Free()) == [] && curSlub == old(curSlub) + 1
      ensures slabs != old(slabs) ==> maxSlub == 0xffff_ffff || curSlub <= maxSlub
      ensures maxSlub != UNLIMITED && old(curSlub) <= maxSlub ==> curSlub <= maxSlub
    {
      hide Valid, Fresh, Lists.Valid, Members;
      Refill(memory);
      if lists.IsEmpty(free) {
        return null;
      }
      node := Take();
    }

    /** `pool_list_put_available_elem`. */
    method PutAvailable(node: Node)
      requires Valid() && node in inHand
      modifies this`inHand, lists, Members(lists.lists), node
      ensures Valid() && Free() == old(Free()) && Available() == old(Available()) + [node]
      ensures inHand == old(inHand) - {node}
    {
      hide Placed, Contains, Allocated, SlabsOk, Loose, Ring, Apart, Cycle;
      HeadLinks(lists, available);
      PlacedPut(lists.lists, free, available, elems.Keys, inHand, node);
      InHandLoose(lists.lists, free, available, elems.Keys, inHand, node);
      lists.AddTail(node, available);
      inHand := inHand - {node};
    }

    /** `pool_list_get_available_elem`: looks at the element put longest ago, leaving it. */
    method GetAvailable() returns (node: Node?)
      requires Valid()
      ensures node == null <==> Available() == []
      ensures node != null ==> node == Available()[0] && node in elems && node !in inHand
    {
      hide Contains, Allocated, SlabsOk, Ring, Apart, Cycle;
      if lists.IsEmpty(available) {
        return null;
      }
      EntryLinks(lists, available, 0);
      node := available.next;
      LooseInHand(lists.lists, free, available, elems.Keys, inHand, node);
    }

    /** `pool_list_put_free_elem` on the element at place `k` of the available list. */
    method PutFree(node: Node, ghost k: nat)
      requires Valid() && k < |Available()| && Available()[k] == node
      modifies this`freeNum, lists, Members(lists.lists)
      ensures Valid() && Free() == [node] + old(Free()) && Available() == Without(old(Available()), k)
    {
      hide Placed, Contains, Allocated, SlabsOk, Loose, Ring, Apart, Cycle;
      CycleInMembers(lists.lists, available);
      CycleInMembers(lists.lists, free);
      PlacedMove(lists.lists, free, available, elems.Keys, inHand, k);
      lists.Move(node, free, available, k);
      freeNum := freeNum + 1;
    }
  }

  /** Nodes of different elements have records and blocks apart. */
  lemma NodesDisjoint(p: Pool, n: Node, m: Node)
    requires p.Valid() && n in p.elems && m in p.elems && n != m
    ensures p.elems[n].self != p.elems[m].self
    ensures p.elems[n].addr + p.elemSize <= p.elems[m].addr || p.elems[m].addr + p.elemSize <= p.elems[n].addr
  {
    hide Allocated, SlabsOk, Members, Lists.Valid, Placed;
    assert p.elems[n] in p.elems.Values && p.elems[m] in p.elems.Values;
    BlocksDisjoint(p.slabs, p.elemSize, p.elems[n], p.elems[m]);
  }

  /** How often a node is on the free list, on the available list, or in hand. */
  ghost function Places(p: Pool, n: Node): nat
    requires p.Heads()
    reads p, p.lists
  {
    multiset(p.Free() + p.Available())[n] + if n in p.inHand then 1 else 0
  }

  /** Conservation: every element ever allocated has one node, which is in exactly one place. */
  lemma Conserved(p: Pool, e: Elem)
    requires p.Valid() && e in Allocated(p.slabs)
    ensures exists n :: n in p.elems && p.elems[n] == e && Places(p, n) == 1
  {
    hide Allocated, SlabsOk;
    var n: Node :| n in p.elems && p.elems[n] == e;
    var lists, free, available := p.lists.lists, p.free, p.available;
    if n in p.inHand {
      InHandLoose(lists, free, available, p.elems.Keys, p.inHand, n);
      LooseApart(lists, free, n);
      LooseApart(lists, available, n);
    } else {
      LooseInHand(lists, free, available, p.elems.Keys, p.inHand, n);
      OnceOnLists(lists, free, available, n);
    }
  }

  lemma OnceOnLists(lists: map<Node, seq<Node>>, free: Node, available: Node, n: Node)
    requires free in lists && available in lists && free != available && Apart(lists)
    requires Distinct(Cycle(lists, free)) && Distinct(Cycle(lists, available))
    requires n in lists[free] || n in lists[available]
    ensures multiset(lists[free] + lists[available])[n] == 1
  {
    var s, t := lists[free], lists[available];
    OnceOnList(free, s, n);
    OnceOnList(available, t, n);
    assert n in s ==> n in Cycle(lists, free);
    assert n in t ==> n in Cycle(lists, available);
    assert multiset(s + t) == multiset(s) + multiset(t);
  }

  lemma OnceOnList(head: Node, s: seq<Node>, n: Node)
    requires Distinct([head] + s)
    ensures multiset(s)[n] == if n in s then 1 else 0
  {
    if n in s {
      var i :| 0 <= i < |s| && s[i] == n;
      assert s == s[..i] + [n] + s[i + 1..];
      assert forall j :: 0 <= j < |s| && j != i ==> s[j] != n by {
        assert forall j :: 0 <= j < |s| ==> ([head] + s)[j + 1] == s[j];
      }
      assert n !in s[..i] && n !in s[i + 1..];
    }
  }

  lemma InHandLoose(lists: map<Node, seq<Node>>, free: Node, available: Node, nodes: set<Node>, inHand: set<Node>,
                    node: Node)
    requires free in lists && available in lists && Placed(lists, free, available, nodes, inHand)
    requires node in inHand
    ensures Loose(lists, node)
  {
  }

  lemma LooseInHand(lists: map<Node, seq<Node>>, free: Node, available: Node, nodes: set<Node>, inHand: set<Node>,
                    node: Node)
    requires free in lists && available in lists && Placed(lists, free, available, nodes, inHand)
    requires node in lists[available] || (node in nodes && node !in inHand)
    ensures node in nodes && node !in inHand && (node in lists[free] || node in lists[available])
  {
    AllApart(lists, available, inHand);
  }

  /** The links of the `k`-th entry stay inside its list. */
  lemma EntryLinks(lists: Lists, head: Node, k: nat)
    requires lists.Valid() && head in lists.lists && k < |lists.lists[head]|
    ensures var entry := lists.lists[head][k];
      entry in Members(lists.lists) && entry.next in Members(lists.lists) && entry.prev in Members(lists.lists)
    ensures head.next == lists.lists[head][0]
  {
    CycleInMembers(lists.lists, head);
    InCycles(lists.lists, head, head, k);
    Neighbours(Cycle(lists.lists, head), 0);
  }

  lemma MembersDel(lists: map<Node, seq<Node>>, head: Node, k: nat)
    requires head in lists && k < |lists[head]|
    ensures Members(Removed(lists, head, k)) <= Members(lists)
  {
    var m := Removed(lists, head, k);
    forall n | n in Members(m)
      ensures n in Members(lists)
    {
      var h: Node :| h in m && n in Cycle(m, h);
      assert n in Cycle(lists, h);
    }
  }

  /** The neighbours of a head are members. */
  lemma HeadLinks(lists: Lists, head: Node)
    requires lists.Valid() && head in lists.lists
    ensures head in Members(lists.lists) && head.next in Members(lists.lists) && head.prev in Members(lists.lists)
  {
    var c := Cycle(lists.lists, head);
    CycleInMembers(lists.lists, head);
    Neighbours(c, 0);
    Neighbours(c, |c| - 1);
    assert c[0] in c && c[After(c, 0)] in c && c[|c| - 1] in c;
  }
}
