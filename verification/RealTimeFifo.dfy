/** The queue of real_time_fifo.c on a pointer-level circular list, with the history of what was
    put and how it left. */
module RealTimeFifo {
  import opened KList

  /** How a node left the queue: handed to a caller of get, or taken out by the queue itself. */
  datatype Departure = Got(node: Node) | Evicted(node: Node)

  ghost function Nodes(left: seq<Departure>): (s: seq<Node>)
    ensures |s| == |left|
  {
    seq(|left|, i requires 0 <= i < |left| => left[i].node)
  }

  /** The number of successful gets. */
  ghost function Gets(left: seq<Departure>): nat {
    if left == [] then 0 else Gets(left[..|left| - 1]) + if left[|left| - 1].Got? then 1 else 0
  }

  /** The nodes evicted, in order. */
  ghost function Evictions(left: seq<Departure>): seq<Node> {
    if left == [] then []
    else Evictions(left[..|left| - 1]) + if left[|left| - 1].Evicted? then [left[|left| - 1].node] else []
  }

  lemma LeaveNext(left: seq<Departure>, d: Departure)
    ensures Nodes(left + [d]) == Nodes(left) + [d.node]
    ensures Gets(left + [d]) == Gets(left) + if d.Got? then 1 else 0
    ensures Evictions(left + [d]) == Evictions(left) + if d.Evicted? then [d.node] else []
  {
    assert (left + [d])[..|left|] == left;
  }

  lemma {:induction false} DepartureCounts(left: seq<Departure>)
    ensures |left| == Gets(left) + |Evictions(left)|
  {
    if left != [] {
      DepartureCounts(left[..|left| - 1]);
    }
  }

  /** With a positive `size`, the queue is within it exactly while the puts exceed the gets by no more. */
  lemma BoundedIff(f: Fifo)
    requires f.Valid() && f.size > 0
    ensures |f.queue| <= f.size <==> |f.puts| - Gets(f.departures) <= f.size
  {
    hide Ring, Gets, Evictions;
    DepartureCounts(f.departures);
  }

  /** One put more than `size` on a fresh queue: nothing is evicted and the queue exceeds its size. */
  method Overfill(size: nat, hasRelease: bool) returns (f: Fifo)
    requires size > 0
    ensures fresh(f) && f.Valid() && f.size == size && |f.queue| == size + 1
  {
    hide Ring, Nodes, Gets, Evictions;
    f := new Fifo();
    var _ := f.Init(size, hasRelease);
    for i := 0 to size + 1
      invariant f.Valid() && f.isInitial && f.size == size && |f.queue| == i
      invariant fresh(f) && fresh(f.head) && fresh(f.queue)
    {
      var node := new Node();
      var _ := f.Put(node);
    }
  }

  ghost function Departing(s: seq<Node>): seq<Departure> {
    seq(|s|, i requires 0 <= i < |s| => Evicted(s[i]))
  }

  lemma DepartingNext(s: seq<Node>, k: nat)
    requires k < |s|
    ensures Departing(s[..k + 1]) == Departing(s[..k]) + [Evicted(s[k])]
  {
  }

  lemma DepartingEnds(s: seq<Node>)
    ensures Departing(s[..0]) == [] && Departing(s[..|s|]) == Departing(s)
  {
    assert s[..|s|] == s;
  }

  lemma RingFirst(head: Node, queue: seq<Node>)
    requires Ring([head] + queue)
    ensures head.next == (if queue == [] then head else queue[0]) && head !in queue
  {
    var c := [head] + queue;
    assert Linked(c[0], c[After(c, 0)]);
    forall i | 0 <= i < |queue|
      ensures queue[i] != head
    {
      DifferentPlaces(c, 0, i + 1);
    }
  }

  class Fifo {
    const head: Node
    var entered: int
    var left: int
    var size: int
    var hasRelease: bool
    var isInitial: bool

    ghost var queue: seq<Node>
    ghost var puts: seq<Node>
    ghost var departures: seq<Departure>
    ghost var releases: seq<Node>

    /** Everything put has left or is queued, in the order it was put; the callback saw every
        eviction once; the counters differ by the number of gets; and a positive `size` never evicts. */
    ghost predicate Valid()
      reads this, head, queue
    {
      && Ring([head] + queue)
      && Nodes(departures) + queue == puts
      && releases == (if hasRelease then Evictions(departures) else [])
      && entered - left == Gets(departures)
      && (size > 0 ==> Evictions(departures) == [])
    }

    constructor ()
      ensures !isInitial && fresh(head)
    {
      head := new Node();
      isInitial := false;
      queue, puts, departures, releases := [], [], [], [];
    }

    method Init(size: int, hasRelease: bool) returns (code: int)
      modifies this, head
      ensures Valid() && isInitial && code == 0
      ensures this.size == size && this.hasRelease == hasRelease
      ensures queue == [] && puts == [] && departures == [] && releases == []
    {
      this.size := size;
      entered, left := 0, 0;
      this.hasRelease := hasRelease;
      isInitial := true;
      head.next, head.prev := head, head;
      queue, puts, departures, releases := [], [], [], [];
      return 0;
    }

    /** `list_del` on the first node. */
    method Take(node: Node, ghost got: bool)
      requires Ring([head] + queue) && queue != [] && node == queue[0]
      requires Nodes(departures) + queue == puts
      modifies this`queue, this`departures, head, queue
      ensures queue == old(queue)[1..] && head.next == old(node.next)
      ensures departures == old(departures) + [if got then Got(node) else Evicted(node)]
      ensures Ring([head] + queue) && Nodes(departures) + queue == puts
    {
      hide Ring, Linked, Distinct, Nodes, Gets, Evictions;
      ghost var c := [head] + queue;
      ghost var d := if got then Got(node) else Evicted(node);
      Neighbours(c, 0);
      Neighbours(c, 1);
      Unlink(node.prev, node.next, c, 1);
      LeaveNext(departures, d);
      departures := departures + [d];
      queue := queue[1..];
      assert Without(c, 1) == [head] + queue;
      Neighbours([head] + queue, 0);
      assert Nodes(old(departures)) + ([node] + queue) == Nodes(old(departures)) + [node] + queue;
    }

    /** Evict the first node and pass it to the callback, if there is one. */
    method Evict(node: Node)
      requires Ring([head] + queue) && queue != [] && node == queue[0]
      requires Nodes(departures) + queue == puts
      requires releases == if hasRelease then Evictions(departures) else []
      modifies this`queue, this`departures, this`releases, head, queue
      ensures queue == old(queue)[1..] && head.next == old(node.next)
      ensures departures == old(departures) + [Evicted(node)] && Gets(departures) == Gets(old(departures))
      ensures Ring([head] + queue) && Nodes(departures) + queue == puts
      ensures releases == if hasRelease then Evictions(departures) else []
      ensures releases == old(releases) + if hasRelease then [node] else []
    {
      Take(node, false);
      LeaveNext(old(departures), Evicted(node));
      if hasRelease {
        releases := releases + [node];
      }
    }

    /** `real_time_fifo_put`. */
    method Put(node: Node?) returns (code: int)
      requires isInitial ==> Valid()
      requires node != null ==> node != head && node !in queue
      modifies this, head, queue, node
      ensures code == (if node == null || !old(isInitial) then -1 else 0)
      ensures isInitial == old(isInitial) && size == old(size) && hasRelease == old(hasRelease)
      ensures code != 0 ==> queue == old(queue) && puts == old(puts) && departures == old(departures)
      ensures code != 0 && isInitial ==> Valid()
      ensures code == 0 ==> node != null && Valid() && puts == old(puts) + [node]
      ensures code == 0 && size > 0 ==> departures == old(departures)
      ensures code == 0 ==>
        if Gets(old(departures)) + size == 0 && old(queue) != []
        then departures == old(departures) + [Evicted(old(queue[0]))] && queue == old(queue)[1..] + [node]
             && releases == old(releases) + (if hasRelease then [old(queue[0])] else [])
        else departures == old(departures) && queue == old(queue) + [node] && releases == old(releases)
    {
      hide Ring, Nodes, Gets, Evictions;
      if node == null || !isInitial {
        return -1;
      }
      EvictIfFull();
      entered := entered + 1;
      Append(node);
      left := left + 1;
      return 0;
    }

    /** The locked part of put: evict the first node when the counters differ by `size`. */
    method EvictIfFull()
      requires Valid()
      modifies this`queue, this`departures, this`releases, head, queue
      ensures Valid()
      ensures if Gets(old(departures)) + size == 0 && old(queue) != []
              then departures == old(departures) + [Evicted(old(queue[0]))] && queue == old(queue)[1..]
                   && releases == old(releases) + (if hasRelease then [old(queue[0])] else [])
              else departures == old(departures) && queue == old(queue) && releases == old(releases)
    {
      hide Ring, Nodes, Gets, Evictions;
      RingFirst(head, queue);
      if left - entered == size && head.next != head {
        Evict(head.next);
      }
    }

    /** `list_add_tail`. */
    method Append(node: Node)
      requires Ring([head] + queue) && Nodes(departures) + queue == puts
      requires node != head && node !in queue
      modifies this`queue, this`puts, head, queue, node
      ensures Ring([head] + queue) && Nodes(departures) + queue == puts
      ensures queue == old(queue) + [node] && puts == old(puts) + [node]
    {
      hide Ring, Linked, Distinct, Nodes;
      ghost var c := [head] + queue;
      ghost var i := |c| - 1;
      Neighbours(c, i);
      assert head.prev == head || head.prev in queue;
      Link(node, head.prev, head, c, i);
      queue := queue + [node];
      assert [head] + queue == c[..i + 1] + [node] + c[i + 1..];
      assert Nodes(departures) + queue == puts + [node];
      puts := puts + [node];
    }

    /** `real_time_fifo_get`. */
    method Get() returns (code: int, node: Node?)
      requires isInitial ==> Valid()
      modifies this, head, queue
      ensures code == (if !old(isInitial) || old(queue) == [] then -1 else 0)
      ensures isInitial == old(isInitial) && size == old(size) && hasRelease == old(hasRelease)
      ensures puts == old(puts) && releases == old(releases)
      ensures code != 0 ==> queue == old(queue) && departures == old(departures) && (isInitial ==> Valid())
      ensures code == 0 ==> Valid() && queue == old(queue)[1..]
      ensures code == 0 ==> node == old(queue[0]) && departures == old(departures) + [Got(old(queue[0]))]
    {
      hide Ring, Nodes, Gets, Evictions;
      node := null;
      if !isInitial {
        return -1, null;
      }
      RingFirst(head, queue);
      if head.next == head {
        return -1, null;
      }
      var first := head.next;
      Take(first, true);
      LeaveNext(old(departures), Got(first));
      entered := entered + 1;
      return 0, first;
    }

    /** `real_time_fifo_destroy`: the safe iteration removes every queued node once. */
    method Destroy() returns (code: int)
      requires Valid()
      modifies this, head, queue
      ensures code == 0 && !isInitial && queue == [] && entered == left == 0
      ensures puts == old(puts) && Nodes(departures) == puts
      ensures departures == old(departures) + Departing(old(queue))
      ensures releases == if hasRelease then Evictions(departures) else []
      ensures releases == old(releases) + if hasRelease then old(queue) else []
      ensures hasRelease == old(hasRelease) && size == old(size)
    {
      hide Ring, Nodes, Gets, Evictions, Departing;
      DepartingEnds(queue);
      RingFirst(head, queue);
      var pos: Node := head.next;
      var next := pos.next;
      ghost var k := 0;
      while pos != head
        invariant Ring([head] + queue) && k <= |old(queue)| && queue == old(queue)[k..]
        invariant Nodes(departures) + queue == puts == old(puts)
        invariant departures == old(departures) + Departing(old(queue)[..k])
        invariant releases == if hasRelease then Evictions(departures) else []
        invariant releases == old(releases) + if hasRelease then old(queue)[..k] else []
        invariant hasRelease == old(hasRelease) && size == old(size)
        invariant pos == (if queue == [] then head else queue[0]) && next == pos.next && pos == head.next
        invariant head !in queue
        decreases |queue|
      {
        DepartingNext(old(queue), k);
        Evict(pos);
        k := k + 1;
        RingFirst(head, queue);
        pos := next;
        next := pos.next;
      }
      entered, left := 0, 0;
      isInitial := false;
      return 0;
    }
  }
}
