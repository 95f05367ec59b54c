/** The intrusive circular lists of klist.h at pointer level, against ghost sequences. */
module KList {

  class Node {
    var next: Node?
    var prev: Node?
    constructor ()
      ensures next == null && prev == null
    {
      next, prev := null, null;
    }
  }

  ghost predicate Linked(a: Node, b: Node)
    reads a, b
  {
    a.next == b && b.prev == a
  }

  function After(c: seq<Node>, i: int): int { if i + 1 < |c| then i + 1 else 0 }

  ghost predicate Distinct(c: seq<Node>) {
    forall i, j :: 0 <= i < j < |c| ==> c[i] != c[j]
  }

  /** `c` is one cycle: `next` and `prev` are inverse to each other along it. */
  ghost predicate Ring(c: seq<Node>)
    reads c
  {
    |c| >= 1 && Distinct(c) && forall i :: 0 <= i < |c| ==> Linked(c[i], c[After(c, i)])
  }

  lemma Neighbours(c: seq<Node>, i: nat)
    requires Ring(c) && i < |c|
    ensures Distinct(c) && c[i].next == c[After(c, i)] && c[After(c, i)].prev == c[i]
  {
    assert Linked(c[i], c[After(c, i)]);
  }

  function Without<T>(s: seq<T>, k: nat): seq<T>
    requires k < |s|
  {
    s[..k] + s[k + 1..]
  }

  lemma DifferentPlaces(c: seq<Node>, i: int, j: int)
    requires Distinct(c) && 0 <= i < |c| && 0 <= j < |c| && i != j
    ensures c[i] != c[j]
  {
  }

  /** `__list_add`: link `entry` between two neighbours of a ring. */
  method Link(entry: Node, prev: Node, next: Node, ghost c: seq<Node>, ghost i: nat)
    requires Ring(c) && i < |c| && entry !in c
    requires prev == c[i] && next == c[After(c, i)]
    modifies entry, prev, next
    ensures Ring(c[..i + 1] + [entry] + c[i + 1..])
  {
    next.prev := entry;
    entry.next := next;
    entry.prev := prev;
    prev.next := entry;
    ghost var d := c[..i + 1] + [entry] + c[i + 1..];
    DistinctWith(c, i, entry);
    hide Distinct;
    forall j | 0 <= j < |d|
      ensures Linked(d[j], d[After(d, j)])
    {
      if j == i {
        assert d[j] == prev && d[After(d, j)] == entry;
      } else if j == i + 1 {
        assert d[j] == entry && d[After(d, j)] == next;
      } else {
        var k := if j < i then j else j - 1;
        assert old(Linked(c[k], c[After(c, k)]));
        assert d[j] == c[k] && d[After(d, j)] == c[After(c, k)];
        DifferentPlaces(c, k, i);
        DifferentPlaces(c, After(c, k), After(c, i));
      }
    }
  }

  /** `__list_del`: close the ring over `c[k]`, whose own links stay as they are. */
  method Unlink(prev: Node, next: Node, ghost c: seq<Node>, ghost k: nat)
    requires Ring(c) && 0 < k < |c|
    requires prev == c[k - 1] && next == c[After(c, k)]
    modifies prev, next
    ensures Ring(Without(c, k))
    ensures c[k].next == old(c[k].next) && c[k].prev == old(c[k].prev)
  {
    next.prev := prev;
    prev.next := next;
    ghost var d := Without(c, k);
    DistinctWithout(c, k);
    hide Distinct;
    forall j | 0 <= j < |d|
      ensures Linked(d[j], d[After(d, j)])
    {
      var i := if j < k then j else j + 1;
      assert d[j] == c[i];
      if j != k - 1 {
        assert old(Linked(c[i], c[After(c, i)]));
        assert d[After(d, j)] == c[After(c, i)];
        DifferentPlaces(c, i, k - 1);
        DifferentPlaces(c, After(c, i), After(c, k));
      } else {
        assert d[After(d, j)] == c[After(c, k)];
      }
    }
    DifferentPlaces(c, k, k - 1);
    DifferentPlaces(c, k, After(c, k));
  }

  lemma DistinctWith(c: seq<Node>, i: nat, entry: Node)
    requires Distinct(c) && i < |c| && entry !in c
    ensures Distinct(c[..i + 1] + [entry] + c[i + 1..])
  {
  }

  lemma DistinctWithout(c: seq<Node>, k: nat)
    requires Distinct(c) && k < |c|
    ensures Distinct(Without(c, k))
  {
  }

  /** `__list_splice` followed by `INIT_LIST_HEAD`: the nodes after `list` move to just after
      `head`, and `list` is left alone. */
  method SpliceRings(list: Node, head: Node, ghost s: seq<Node>, ghost t: seq<Node>)
    requires Ring([list] + s) && Ring([head] + t) && s != []
    requires Distinct([list] + s + ([head] + t))
    modifies list, head, list.next, list.prev, head.next
    ensures Ring([list]) && Ring([head] + s + t)
  {
    ghost var all := [list] + s + ([head] + t);
    ghost var c, d := [list] + s, [head] + t;
    ghost var n := |s|;
    assert c == all[..n + 1] && d == all[n + 1..];
    assert Linked(c[0], c[After(c, 0)]) && Linked(c[n], c[After(c, n)]) && Linked(d[0], d[After(d, 0)]);
    var first := list.next;
    var last := list.prev;
    var at := head.next;
    first.prev := head;
    head.next := first;
    last.next := at;
    at.prev := last;
    list.next := list;
    list.prev := list;
    ghost var e := [head] + s + t;
    assert forall j :: 0 < j <= n ==> e[j] == c[j];
    assert forall j :: n < j < |e| ==> e[j] == d[j - n];
    forall j | 0 <= j < |e|
      ensures Linked(e[j], e[After(e, j)])
    {
      if 0 < j < n {
        assert old(Linked(c[j], c[After(c, j)]));
        assert all[j] == c[j] && all[j + 1] == c[j + 1];
      } else if j > n {
        assert old(Linked(d[j - n], d[After(d, j - n)]));
      }
    }
  }

  /** The nodes of the list at `head` in order, head included. */
  ghost function Cycle(lists: map<Node, seq<Node>>, head: Node): seq<Node>
    requires head in lists
  {
    [head] + lists[head]
  }

  ghost predicate Apart(lists: map<Node, seq<Node>>) {
    forall g, h, n :: g in lists && h in lists && n in Cycle(lists, g) && n in Cycle(lists, h) ==> g == h
  }

  /** `entry` is in no list. */
  ghost predicate Loose(lists: map<Node, seq<Node>>, entry: Node) {
    forall h :: h in lists ==> entry !in Cycle(lists, h)
  }

  ghost function Members(lists: map<Node, seq<Node>>): set<Node> {
    set h, n | h in lists && n in Cycle(lists, h) :: n
  }

  lemma CycleInMembers(lists: map<Node, seq<Node>>, head: Node)
    requires head in lists
    ensures forall n :: n in Cycle(lists, head) ==> n in Members(lists)
  {
  }

  /** A list may change to any sequence of its own nodes and loose ones. */
  lemma ApartUpdate(lists: map<Node, seq<Node>>, head: Node, s: seq<Node>)
    requires Apart(lists) && head in lists
    requires forall n :: n in s ==> n in Cycle(lists, head) || Loose(lists, n)
    ensures Apart(lists[head := s])
    ensures forall h :: h in lists && h != head ==> Cycle(lists[head := s], h) == Cycle(lists, h)
  {
    var m := lists[head := s];
    assert forall h :: h in lists && h != head ==> Cycle(m, h) == Cycle(lists, h);
    assert Cycle(lists, head)[0] == head;
    forall g, h, n | g in m && h in m && n in Cycle(m, g) && n in Cycle(m, h)
      ensures g == h
    {
      if g == head {
        assert n in Cycle(lists, head) || Loose(lists, n);
      }
      if h == head {
        assert n in Cycle(lists, head) || Loose(lists, n);
      }
    }
  }

  lemma ApartAdd(lists: map<Node, seq<Node>>, head: Node, entry: Node)
    requires Apart(lists) && head in lists && Loose(lists, entry)
    ensures entry !in Cycle(lists, head)
    ensures Apart(lists[head := [entry] + lists[head]]) && Apart(lists[head := lists[head] + [entry]])
    ensures forall h :: h in lists && h != head ==>
      && Cycle(lists[head := [entry] + lists[head]], h) == Cycle(lists, h)
      && Cycle(lists[head := lists[head] + [entry]], h) == Cycle(lists, h)
  {
    ApartUpdate(lists, head, [entry] + lists[head]);
    ApartUpdate(lists, head, lists[head] + [entry]);
  }

  lemma OnlyIn(lists: map<Node, seq<Node>>, head: Node, n: Node)
    requires Apart(lists) && head in lists && (n in Cycle(lists, head) || Loose(lists, n))
    ensures forall h :: h in lists && h != head ==> n !in Cycle(lists, h)
  {
  }

  /** Any number of lists that share no node, as heads and the nodes they lead to. */
  class Lists {
    ghost var lists: map<Node, seq<Node>>

    ghost predicate Valid()
      reads this, Members(lists)
    {
      Apart(lists) && forall h :: h in lists ==> (CycleInMembers(lists, h); Ring(Cycle(lists, h)))
    }

    constructor ()
      ensures Valid() && lists == map[]
    {
      lists := map[];
    }

    /** `INIT_LIST_HEAD` on a node that is in no list. */
    method InitHead(head: Node)
      requires Valid() && Loose(lists, head)
      modifies this, head
      ensures Valid() && lists == old(lists)[head := []]
    {
      head.next := head;
      head.prev := head;
      assert head !in lists by {
        assert head in lists ==> head in Cycle(lists, head);
      }
      lists := lists[head := []];
      assert forall h :: h in old(lists) ==> Cycle(lists, h) == Cycle(old(lists), h);
    }

    /** `list_add`: insert after the head. */
    method Add(entry: Node, head: Node)
      requires Valid() && head in lists && Loose(lists, entry)
      modifies this, entry, head, head.next
      ensures Valid() && lists == old(lists)[head := [entry] + old(lists[head])]
    {
      hide Apart, Loose, Ring, Linked;
      ghost var c := Cycle(lists, head);
      ghost var s := [entry] + lists[head];
      Neighbours(c, 0);
      OnlyIn(lists, head, entry);
      OnlyIn(lists, head, c[0]);
      OnlyIn(lists, head, c[After(c, 0)]);
      ApartAdd(lists, head, entry);
      Link(entry, head, head.next, c, 0);
      assert [head] + s == c[..1] + [entry] + c[1..];
      lists := lists[head := s];
    }

    /** `list_add_tail`: insert before the head. */
    method AddTail(entry: Node, head: Node)
      requires Valid() && head in lists && Loose(lists, entry)
      modifies this, entry, head, head.prev
      ensures Valid() && lists == old(lists)[head := old(lists[head]) + [entry]]
    {
      ghost var c := Cycle(lists, head);
      hide Apart, Loose, Ring, Linked;
      ghost var s := lists[head] + [entry];
      ghost var i := |c| - 1;
      Neighbours(c, i);
      OnlyIn(lists, head, entry);
      OnlyIn(lists, head, c[0]);
      OnlyIn(lists, head, c[i]);
      ApartAdd(lists, head, entry);
      Link(entry, head.prev, head, c, i);
      assert [head] + s == c[..i + 1] + [entry] + c[i + 1..];
      lists := lists[head := s];
    }

    /** `list_del`: remove the entry and clear its links. */
    method Del(entry: Node, ghost head: Node, ghost k: nat)
      requires Valid() && head in lists && k < |lists[head]| && entry == lists[head][k]
      modifies this, entry, entry.prev, entry.next
      ensures Valid() && lists == old(lists)[head := Without(old(lists[head]), k)]
      ensures Loose(lists, entry) && entry.next == null && entry.prev == null
    {
      Remove(entry, head, k);
      entry.next := null;
      entry.prev := null;
    }

    /** The part of removal that `list_del` and `list_move` share. */
    method Remove(entry: Node, ghost head: Node, ghost k: nat)
      requires Valid() && head in lists && k < |lists[head]| && entry == lists[head][k]
      modifies this, entry.prev, entry.next
      ensures Valid() && lists == old(lists)[head := Without(old(lists[head]), k)]
      ensures Loose(lists, entry)
    {
      hide Apart, Loose, Ring, Linked, Without;
      ghost var c := Cycle(lists, head);
      ghost var s := Without(lists[head], k);
      Neighbours(c, k);
      Neighbours(c, k + 1);
      RemovedFrom(lists, head, k);
      OnlyIn(lists, head, c[k]);
      OnlyIn(lists, head, c[After(c, k + 1)]);
      assert c[k + 1] == entry;
      Unlink(entry.prev, entry.next, c, k + 1);
      lists := lists[head := s];
    }

    /** `list_move`: remove the entry from its list and insert it after a head, of the same list
        or of another. */
    method Move(entry: Node, head: Node, ghost from: Node, ghost k: nat)
      requires Valid() && head in lists
      requires from in lists && k < |lists[from]| && entry == lists[from][k]
      modifies this, Cycle(lists, from), Cycle(lists, head)
      ensures Valid() && lists == Inserted(Removed(old(lists), from, k), head, entry)
      ensures lists.Keys == old(lists).Keys
      ensures from != head ==>
                lists[head] == [entry] + old(lists[head]) && lists[from] == Without(old(lists[from]), k)
      ensures from == head ==> lists[head] == [entry] + Without(old(lists[head]), k)
      ensures forall h :: h in lists && h != head && h != from ==> lists[h] == old(lists)[h]
    {
      InCycles(lists, from, head, k);
      ghost var was := lists;
      Remove(entry, from, k);
      assert lists == Removed(was, from, k);
      ghost var c := Cycle(lists, head);
      assert Linked(c[0], c[After(c, 0)]);
      assert head.next in c && Cycle(was, head)[0] == head;
      assert entry in Cycle(was, from);
      Add(entry, head);
    }

    /** `list_move_tail`: as `list_move`, before the head. */
    method MoveTail(entry: Node, head: Node, ghost from: Node, ghost k: nat)
      requires Valid() && head in lists
      requires from in lists && k < |lists[from]| && entry == lists[from][k]
      modifies this, Cycle(lists, from), Cycle(lists, head)
      ensures Valid() && lists == Appended(Removed(old(lists), from, k), head, entry)
      ensures lists.Keys == old(lists).Keys
      ensures from != head ==>
                lists[head] == old(lists[head]) + [entry] && lists[from] == Without(old(lists[from]), k)
      ensures from == head ==> lists[head] == Without(old(lists[head]), k) + [entry]
      ensures forall h :: h in lists && h != head && h != from ==> lists[h] == old(lists)[h]
    {
      InCycles(lists, from, head, k);
      ghost var was := lists;
      Remove(entry, from, k);
      assert lists == Removed(was, from, k);
      ghost var c := Cycle(lists, head);
      assert Linked(c[|c| - 1], c[After(c, |c| - 1)]);
      assert head.prev in c && Cycle(was, head)[0] == head;
      assert entry in Cycle(was, from);
      AddTail(entry, head);
    }

    /** `list_splice_init`: the nodes of `list` go in front of those of `head`. */
    method SpliceInit(list: Node, head: Node)
      requires Valid() && list in lists && head in lists && list != head
      modifies this, list, head, list.next, list.prev, head.next
      ensures Valid() && lists == old(lists)[list := []][head := old(lists[list]) + old(lists[head])]
    {
      if IsEmpty(list) {
        assert lists[list] + lists[head] == lists[head];
      } else {
        SpliceNonempty(list, head);
      }
    }

    method SpliceNonempty(list: Node, head: Node)
      requires Valid() && list in lists && head in lists && list != head && lists[list] != []
      modifies this, list, head, list.next, list.prev, head.next
      ensures Valid() && lists == old(lists)[list := []][head := old(lists[list]) + old(lists[head])]
    {
      hide Apart, Loose, Ring, Linked, Distinct;
      ghost var s, t := lists[list], lists[head];
      ghost var c, d := Cycle(lists, list), Cycle(lists, head);
      Neighbours(c, 0);
      Neighbours(c, |s|);
      Neighbours(d, 0);
      Spliced(lists, list, head);
      OnlyIn(lists, list, c[0]);
      OnlyIn(lists, list, c[1]);
      OnlyIn(lists, list, c[|s|]);
      OnlyIn(lists, head, d[0]);
      OnlyIn(lists, head, d[After(d, 0)]);
      SpliceRings(list, head, s, t);
      assert [head] + s + t == [head] + (s + t) && [list] == [list] + [];
      lists := lists[list := []][head := s + t];
    }

    /** `list_empty`. */
    function IsEmpty(head: Node): (empty: bool)
      requires Valid() && head in lists
      reads this, Members(lists), head
      ensures empty <==> lists[head] == []
    {
      HeadAlone(Cycle(lists, head));
      head.next == head
    }
  }

  lemma HeadAlone(c: seq<Node>)
    requires Ring(c)
    ensures c[0].next == c[0] <==> |c| == 1
  {
    Neighbours(c, 0);
    if |c| > 1 {
      DifferentPlaces(c, 0, 1);
    }
  }

  ghost function Removed(lists: map<Node, seq<Node>>, from: Node, k: nat): map<Node, seq<Node>>
    requires from in lists && k < |lists[from]|
  {
    lists[from := Without(lists[from], k)]
  }

  ghost function Inserted(lists: map<Node, seq<Node>>, head: Node, entry: Node): map<Node, seq<Node>>
    requires head in lists
  {
    lists[head := [entry] + lists[head]]
  }

  ghost function Appended(lists: map<Node, seq<Node>>, head: Node, entry: Node): map<Node, seq<Node>>
    requires head in lists
  {
    lists[head := lists[head] + [entry]]
  }

  /** Everything a move touches lies on the two lists involved. */
  lemma InCycles(lists: map<Node, seq<Node>>, from: Node, head: Node, k: nat)
    requires from in lists && head in lists && k < |lists[from]|
    requires Ring(Cycle(lists, from))
    ensures var entry := lists[from][k];
      && entry in Cycle(lists, from) && entry.prev in Cycle(lists, from) && entry.next in Cycle(lists, from)
    ensures forall n :: n in Cycle(Removed(lists, from, k), head) ==> n in Cycle(lists, from) || n in Cycle(lists, head)
  {
    var c := Cycle(lists, from);
    assert c[k + 1] == lists[from][k];
    assert Linked(c[k], c[After(c, k)]) && Linked(c[k + 1], c[After(c, k + 1)]);
  }

  lemma Spliced(lists: map<Node, seq<Node>>, list: Node, head: Node)
    requires Apart(lists) && list in lists && head in lists && list != head
    requires Distinct(Cycle(lists, list)) && Distinct(Cycle(lists, head))
    ensures Distinct([list] + lists[list] + ([head] + lists[head]))
    ensures var m := lists[list := []][head := lists[list] + lists[head]];
      Apart(m) && forall h :: h in lists && h != head && h != list ==> Cycle(m, h) == Cycle(lists, h)
  {
    var s, t := lists[list], lists[head];
    var m := lists[list := []];
    ApartUpdate(lists, list, []);
    forall n | n in s
      ensures Loose(m, n)
    {
      assert n in Cycle(lists, list);
      OnlyIn(lists, list, n);
      var i :| 0 <= i < |s| && s[i] == n;
      assert Cycle(lists, list)[i + 1] == n;
      DifferentPlaces(Cycle(lists, list), 0, i + 1);
      assert Cycle(m, list) == [list];
    }
    forall n | n in t
      ensures n in Cycle(m, head)
    {
    }
    ApartUpdate(m, head, s + t);
    var c, d := Cycle(lists, list), Cycle(lists, head);
    forall i, j | 0 <= i < |c| && 0 <= j < |d|
      ensures c[i] != d[j]
    {
      assert c[i] in c && d[j] in d;
    }
  }

  lemma RemovedFrom(lists: map<Node, seq<Node>>, head: Node, k: nat)
    requires Apart(lists) && head in lists && k < |lists[head]| && Distinct(Cycle(lists, head))
    ensures var m := lists[head := Without(lists[head], k)];
      && Apart(m) && Loose(m, lists[head][k])
      && Cycle(m, head) == Without(Cycle(lists, head), k + 1)
      && forall h :: h in lists && h != head ==> Cycle(m, h) == Cycle(lists, h)
  {
    var c := Cycle(lists, head);
    var s := Without(lists[head], k);
    ApartUpdate(lists, head, s);
    assert [head] + s == Without(c, k + 1);
    assert c[k + 1] == lists[head][k];
    GoneFrom(c, k + 1);
    OnlyIn(lists, head, c[k + 1]);
  }

  lemma GoneFrom(c: seq<Node>, k: nat)
    requires Distinct(c) && k < |c|
    ensures c[k] !in Without(c, k)
  {
  }
}
