/**
 The intrusive circular list of `system/platform/arm-cortex/common/osal/qosa_queue_list.c`, on the
 heap: a queue is a sentinel link and a count, and the links of the queued items form a ring
 through the sentinel. `items` is the queue from head to tail.

 Each operation runs under the queue's own mutex and is one atomic step.
 */
module QueueList {
  class Link {
    var next: Link?
    var prev: Link?

    /** qosa_link */
    constructor ()
      ensures next == null && prev == null
    {
      next, prev := null, null;
    }
  }

  ghost predicate Distinct(s: seq<Link>) {
    forall i, j :: 0 <= i < j < |s| ==> s[i] != s[j]
  }

  lemma InsertedAt(s: seq<Link>, k: nat, n: Link)
    requires k <= |s| && Distinct(s) && n !in s
    ensures var t := s[..k] + [n] + s[k..];
      && Distinct(t) && t[k] == n
      && (forall j :: 0 <= j < k ==> t[j] == s[j])
      && (forall j :: k < j < |t| ==> t[j] == s[j - 1])
      && (forall x :: x in t <==> x == n || x in s)
  {
    var t := s[..k] + [n] + s[k..];
    assert s == s[..k] + s[k..];
  }

  lemma RemovedAt(s: seq<Link>, k: nat)
    requires k < |s| && Distinct(s)
    ensures var t := s[..k] + s[k + 1..];
      && Distinct(t) && s[k] !in t
      && (forall j :: 0 <= j < k ==> t[j] == s[j])
      && (forall j :: k <= j < |t| ==> t[j] == s[j + 1])
      && (forall x :: x in t <==> x != s[k] && x in s)
  {
    var t := s[..k] + s[k + 1..];
    assert s == s[..k] + [s[k]] + s[k + 1..];
  }

  class Queue {
    const link: Link
    var cnt: int
    ghost var items: seq<Link>

    /** The sentinel and the items behind it. */
    ghost function Nodes(): (s: seq<Link>)
      reads this`items
    {
      [link] + items
    }

    /** Following `next` from the sentinel visits the items once each and comes back. */
    ghost predicate Chain()
      reads this, link, items
    {
      && cnt == |items|
      && link !in items
      && Distinct(items)
      && link.next == (if items == [] then link else items[0])
      && (forall i {:trigger items[i].next} :: 0 <= i < |items| ==>
            items[i].next == if i + 1 < |items| then items[i + 1] else link)
    }

    ghost function Last(): Link
      reads this`items
    {
      if items == [] then link else items[|items| - 1]
    }

    /** What every operation keeps: the forward chain, the count and the tail pointer. */
    ghost predicate Valid()
      reads this, link, items
    {
      Chain() && link.prev == Last()
    }

    /** The back links mirror the forward chain. */
    ghost predicate BackLinks()
      reads this`items, items
    {
      forall i {:trigger items[i].prev} :: 0 <= i < |items| ==>
        items[i].prev == if i == 0 then link else items[i - 1]
    }

    /** qosa_init */
    constructor ()
      ensures Valid() && BackLinks() && items == [] && fresh(link)
    {
      link := new Link();
      cnt, items := 0, [];
      new;
      link.next := link;
      link.prev := link;
    }

    /** qosa_put: behind the last item. */
    method Put(n: Link)
      requires Valid() && n !in Nodes()
      modifies this, link, items, n
      ensures Valid() && items == old(items) + [n]
      ensures old(BackLinks()) ==> BackLinks()
    {
      n.next := link;
      n.prev := link.prev;
      if link.prev != null {
        link.prev.next := n;
      }
      link.prev := n;
      cnt := cnt + 1;
      items := items + [n];
    }

    /** qosa_put_head: in front of the first item. */
    method PutHead(n: Link)
      requires Valid() && n !in Nodes()
      modifies this, link, items, n
      ensures Valid() && items == [n] + old(items)
      ensures old(BackLinks()) ==> BackLinks()
    {
      if cnt == 0 {
        n.next := link;
        n.prev := link.prev;
        if link.prev != null {
          link.prev.next := n;
        }
        link.prev := n;
        cnt := cnt + 1;
      } else {
        n.prev := link;
        n.next := n.prev.next;
        n.prev.next := n;
        n.next.prev := n;
        cnt := cnt + 1;
      }
      items := [n] + items;
    }

    /** qosa_get: takes the first item, or returns null exactly when there is none. */
    method Get() returns (r: Link?)
      requires Valid()
      modifies this, link, items
      ensures Valid()
      ensures r == if old(items) == [] then null else old(items)[0]
      ensures items == if old(items) == [] then [] else old(items)[1..]
      ensures r != null ==> r.next == null
      ensures old(BackLinks()) ==> BackLinks()
    {
      r := null;
      var first := link.next;
      if cnt > 0 {
        link.next := first.next;
        if first.next != null {
          first.next.prev := link;
        }
        cnt := cnt - 1;
        first.next := null;
        r := first;
        items := items[1..];
      }
    }

    /** qosa_last_get: walks to the item before the last one and unlinks the last. */
    method LastGet() returns (r: Link?)
      requires Valid()
      modifies this, link, items
      ensures Valid()
      ensures r == if old(items) == [] then null else old(items)[|old(items)| - 1]
      ensures items == if old(items) == [] then [] else old(items)[..|old(items)| - 1]
      ensures r != null ==> r.next == null
      ensures old(BackLinks()) ==> BackLinks()
    {
      r := null;
      var p := link;
      ghost var k := 0;
      while p.next != link.prev
        invariant 0 <= k <= |items| && p == Nodes()[k]
        invariant items != [] ==> k < |items|
        decreases |items| - k
      {
        p := p.next;
        k := k + 1;
      }
      if cnt > 0 {
        r := p.next;
        link.prev := p;
        p.next := link;
        cnt := cnt - 1;
        r.next := null;
        items := items[..|items| - 1];
      }
    }

    /** qosa_check */
    method Check() returns (r: Link?)
      requires Valid()
      ensures r == if items == [] then null else items[0]
    {
      r := if cnt > 0 then link.next else null;
    }

    /** qosa_next: null behind the last item. */
    method Next(p: Link, ghost i: nat) returns (r: Link?)
      requires Valid() && i < |items| && items[i] == p
      ensures r == if i + 1 < |items| then items[i + 1] else null
    {
      r := if p.next != link then p.next else null;
    }

    /** qosa_linear_search: the first item the caller's comparison accepts, null if there is none. */
    method LinearSearch(accept: Link -> bool) returns (r: Link?)
      requires Valid()
      ensures r == null <==> forall j :: 0 <= j < |items| ==> !accept(items[j])
      ensures r != null ==> exists i :: 0 <= i < |items| && items[i] == r && IsFirst(accept, i)
    {
      r := Check();
      ghost var i := 0;
      while r != null
        invariant if r == null then i == |items| else i < |items| && items[i] == r
        invariant forall j :: 0 <= j < i ==> !accept(items[j])
        decreases |items| - i
      {
        if accept(r) {
          assert IsFirst(accept, i);
          return;
        }
        r := Next(r, i);
        i := i + 1;
      }
    }

    ghost predicate IsFirst(accept: Link -> bool, i: nat)
      requires i < |items|
      reads this
    {
      accept(items[i]) && forall j :: 0 <= j < i ==> !accept(items[j])
    }

    /** The loop of qosa_delete: stops before `d`, or when the count is used up. */
    method CountedSearch(d: Link) returns (p: Link, qcount: int, ghost k: nat)
      requires Chain()
      ensures k <= |items| && p == Nodes()[k] && qcount == |items| - k
      ensures qcount > 0 ==> items[k] == d
      ensures qcount == 0 ==> d !in items
    {
      qcount := cnt;
      p := link;
      k := 0;
      while p.next != d && qcount > 0
        invariant 0 <= k <= |items| && p == Nodes()[k] && qcount == |items| - k
        invariant forall j :: 0 <= j < k ==> items[j] != d
        decreases qcount
      {
        p := p.next;
        qcount := qcount - 1;
        k := k + 1;
      }
    }

    /**
     qosa_delete: unlinks `d` if it is queued, else changes nothing. The successor's back link is
     left pointing at `d`, so the back links survive exactly when there is no successor.
     */
    method Delete(d: Link) returns (ghost k: nat)
      requires Valid()
      modifies this, link, items, d
      ensures Valid()
      ensures d !in old(items) ==>
        items == old(items) && unchanged(this, link, d) && (forall p :: p in items ==> unchanged(p))
      ensures d in old(items) ==> d.next == null && d.prev == null
      ensures d in old(items) ==> k < |old(items)| && old(items)[k] == d
      ensures d in old(items) ==> items == old(items)[..k] + old(items)[k + 1..]
      ensures old(BackLinks()) ==>
        (BackLinks() <==> d !in old(items) || d == old(Last()))
    {
      var p, qcount;
      p, qcount, k := CountedSearch(d);
      if qcount > 0 {
        p.next := d.next;
        if p.next == link {
          link.prev := p;
        }
        cnt := cnt - 1;
        d.next := null;
        d.prev := null;
        RemovedAt(items, k);
        hide Distinct;
        items := items[..k] + items[k + 1..];
        if old(BackLinks()) && k < |items| {
          assert items[k].prev == d;
        }
      }
    }

    /** The loop of qosa_insert, which has no other way to stop than to meet `at`. */
    method Predecessor(at: Link) returns (p: Link, ghost k: nat)
      requires Chain() && at in Nodes()
      ensures k <= |items| && p == Nodes()[k] && p.next == at
      ensures at == if k < |items| then items[k] else link
    {
      p := link;
      k := 0;
      while p.next != at
        invariant 0 <= k <= |items| && p == Nodes()[k]
        invariant forall j :: 0 <= j < k ==> items[j] != at
        decreases |items| - k
      {
        p := p.next;
        k := k + 1;
      }
    }

    /** Where the walk of qosa_insert is after `k` steps: it goes round and round. */
    ghost function Walk(k: nat): (p: Link)
      requires Chain()
      reads this, link, items
      ensures p in Nodes()
    {
      if k == 0 then link else Walk(k - 1).next
    }

    lemma {:induction false} WalkIs(k: nat)
      requires Chain() && k <= |items|
      ensures Walk(k) == Nodes()[k]
    {
      if k == 0 {
        assert Walk(0) == link;
      } else {
        WalkIs(k - 1);
      }
    }

    /** The walk of qosa_insert ever meets `at` exactly when `at` is an item or the sentinel. */
    lemma WalkStopsIff(at: Link)
      requires Chain()
      ensures (exists k: nat :: Walk(k).next == at) <==> at in Nodes()
    {
      if at in Nodes() {
        var i: nat :| i < |Nodes()| && Nodes()[i] == at;
        var k := if i == 0 then |items| else i - 1;
        WalkIs(k);
        assert Walk(k).next == at;
      }
      forall k: nat
        ensures Walk(k).next in Nodes()
      {
        assert Walk(k + 1) in Nodes();
      }
    }

    /** Links `n` in behind `p`; only the forward chain and the count follow. */
    method SpliceIn(p: Link, n: Link, ghost k: nat)
      requires Chain() && n !in Nodes() && k <= |items| && p == Nodes()[k] && n.next == p.next
      modifies p`next, this`cnt, this`items
      ensures Chain()
      ensures items == old(items)[..k] + [n] + old(items)[k..]
    {
      InsertedAt(items, k, n);
      hide Distinct;
      p.next := n;
      cnt := cnt + 1;
      items := items[..k] + [n] + items[k..];
    }

    /**
     qosa_insert: in front of `at`. Neither back links nor the tail pointer are touched, so
     inserting before the sentinel, behind the last item, leaves the tail pointer stale.
     */
    method Insert(n: Link, at: Link) returns (ghost k: nat)
      requires Valid() && n !in Nodes() && at in Nodes()
      modifies this, link, items, n
      ensures Chain() && link.prev == old(link.prev)
      ensures Valid() <==> at != link
      ensures at == link ==> items == old(items) + [n]
      ensures at != link ==> k < |old(items)| && old(items)[k] == at
      ensures at != link ==> items == old(items)[..k] + [n] + old(items)[k..]
      ensures old(BackLinks()) && at != link ==> !BackLinks()
    {
      n.next := at;
      var p;
      p, k := Predecessor(at);
      ghost var before := items;
      SpliceIn(p, n, k);
      InsertedAt(before, k, n);
      hide Distinct, Chain;
      if old(BackLinks()) && at != link {
        assert items[k + 1].prev == old(Nodes()[k]);
      }
    }
  }

  // ----- Whole runs -----

  datatype Call =
    | PutCall(n: Link) | PutHeadCall(n: Link) | GetCall | LastGetCall
    | DeleteCall(n: Link) | InsertCall(n: Link, at: Link)

  /** A link is queued once, and inserted in front of an item that is there. */
  predicate Legal(items: seq<Link>, c: Call) {
    match c
    case PutCall(n) => n !in items
    case PutHeadCall(n) => n !in items
    case InsertCall(n, at) => n !in items && at in items
    case _ => true
  }

  function Removed(items: seq<Link>, d: Link): seq<Link> {
    if items == [] then []
    else if items[0] == d then items[1..]
    else [items[0]] + Removed(items[1..], d)
  }

  function InsertedBefore(items: seq<Link>, n: Link, at: Link): seq<Link> {
    if items == [] || items[0] == at then [n] + items
    else [items[0]] + InsertedBefore(items[1..], n, at)
  }

  /** What a call makes of a sequence of items. */
  function Step(items: seq<Link>, c: Call): seq<Link> {
    match c
    case PutCall(n) => items + [n]
    case PutHeadCall(n) => [n] + items
    case GetCall => if items == [] then [] else items[1..]
    case LastGetCall => if items == [] then [] else items[..|items| - 1]
    case DeleteCall(n) => Removed(items, n)
    case InsertCall(n, at) => InsertedBefore(items, n, at)
  }

  function Steps(items: seq<Link>, calls: seq<Call>): seq<Link>
    decreases |calls|
  {
    if calls == [] then items
    else Step(Steps(items, calls[..|calls| - 1]), calls[|calls| - 1])
  }

  lemma {:induction false} RemovedIs(items: seq<Link>, k: nat)
    requires k < |items| && Distinct(items)
    ensures Removed(items, items[k]) == items[..k] + items[k + 1..]
  {
    if k == 0 {
    } else {
      RemovedIs(items[1..], k - 1);
    }
  }

  lemma {:induction false} RemovedNothing(items: seq<Link>, d: Link)
    requires d !in items
    ensures Removed(items, d) == items
  {
    if items == [] {
    } else {
      assert items[0] in items;
      RemovedNothing(items[1..], d);
    }
  }

  lemma {:induction false} InsertedIs(items: seq<Link>, k: nat, n: Link)
    requires k < |items| && Distinct(items)
    ensures InsertedBefore(items, n, items[k]) == items[..k] + [n] + items[k..]
  {
    if k == 0 {
    } else {
      InsertedIs(items[1..], k - 1, n);
    }
  }

  /** The links a call may touch besides the queue's own. */
  predicate Within(c: Call, pool: set<Link>) {
    match c
    case PutCall(n) => n in pool
    case PutHeadCall(n) => n in pool
    case DeleteCall(n) => n in pool
    case InsertCall(n, at) => n in pool
    case _ => true
  }

  /** One call does to the queue what `Step` does to its items. */
  method Serve(q: Queue, c: Call, ghost pool: set<Link>)
    requires q.Valid() && q.link !in pool && (forall x :: x in q.items ==> x in pool)
    requires Legal(q.items, c) && Within(c, pool)
    modifies q, q.link, pool
    ensures q.Valid() && q.items == Step(old(q.items), c)
    ensures forall x :: x in q.items ==> x in pool
    ensures old(q.BackLinks()) && !c.DeleteCall? && !c.InsertCall? ==> q.BackLinks()
  {
    ghost var before := q.items;
    match c {
      case PutCall(n) =>
        q.Put(n);
      case PutHeadCall(n) =>
        q.PutHead(n);
      case GetCall =>
        var _ := q.Get();
      case LastGetCall =>
        var _ := q.LastGet();
      case DeleteCall(n) =>
        ghost var k := q.Delete(n);
        if n in before {
          RemovedIs(before, k);
        } else {
          RemovedNothing(before, n);
        }
      case InsertCall(n, at) =>
        ghost var k := q.Insert(n, at);
        InsertedIs(before, k, n);
    }
  }

  /**
   Every run of legal calls keeps the forward chain equal to the abstract sequence, the count its
   length and the sentinel's back link its last item; while nothing is deleted or inserted the
   back links mirror the sequence as well.
   */
  method Run(q: Queue, calls: seq<Call>, ghost pool: set<Link>)
    requires q.Valid() && q.link !in pool && (forall x :: x in q.items ==> x in pool)
    requires forall i :: 0 <= i < |calls| ==> LegalAt(q.items, calls, i) && Within(calls[i], pool)
    modifies q, q.link, pool
    ensures q.Valid() && q.items == Steps(old(q.items), calls)
    ensures old(q.BackLinks()) && (forall c :: c in calls ==> !c.DeleteCall? && !c.InsertCall?)
      ==> q.BackLinks()
  {
    hide Step, Legal, Within, Queue.Valid, Queue.BackLinks;
    var served := 0;
    while served < |calls|
      invariant served <= |calls| && q.Valid() && (forall x :: x in q.items ==> x in pool)
      invariant q.items == Steps(old(q.items), calls[..served])
      invariant old(q.BackLinks()) && (forall c :: c in calls ==> !c.DeleteCall? && !c.InsertCall?)
        ==> q.BackLinks()
    {
      assert LegalAt(old(q.items), calls, served);
      assert calls[..served + 1][..served] == calls[..served];
      Serve(q, calls[served], pool);
      served := served + 1;
    }
    assert calls[..served] == calls;
  }

  /** The `i`th call is legal on what the calls before it make of the items. */
  predicate LegalAt(items: seq<Link>, calls: seq<Call>, i: nat)
    requires i < |calls|
  {
    Legal(Steps(items, calls[..i]), calls[i])
  }
}
