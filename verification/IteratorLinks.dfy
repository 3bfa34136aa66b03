/** The list of active iterators of a hash, with its links (libasn1common/genhash.c:600-684). */
module IteratorLinks {
  import opened NodeLists
  import opened Genhash

  /** An iterator's part in the list; a closed one points to no hash any more. */
  class Iterator {
    var prev: Iterator?
    var next: Iterator?
    var closed: bool

    constructor ()
      ensures prev == null && next == null && !closed
    {
      prev, next, closed := null, null, false;
    }
  }

  function Get(s: seq<Iterator>, i: nat): Iterator? {
    if i < |s| then s[i] else null
  }

  /** From head, the next links go through s; nothing points back. */
  ghost predicate Chained(head: Iterator?, s: seq<Iterator>)
    reads s
  {
    && Distinct(s) && head == Get(s, 0)
    && forall i :: 0 <= i < |s| ==> s[i].next == Get(s, i + 1) && s[i].prev == null
  }

  lemma TailChained(head: Iterator?, s: seq<Iterator>, k: nat)
    requires Chained(head, s) && k < |s|
    ensures Chained(s[k].next, s[k + 1..]) && s[k] !in s[k + 1..]
    ensures forall i :: 0 <= i < k ==> s[i] != s[k] && s[i] !in s[k + 1..]
  {
  }

  class IteratorList {
    var head: Iterator?
    ghost var active: seq<Iterator>

    constructor ()
      ensures Valid() && active == []
    {
      head, active := null, [];
    }

    ghost predicate Valid()
      reads this, active
    {
      Chained(head, active)
    }

    /** All active iterators are open. */
    ghost predicate AllOpen()
      reads this, active
    {
      forall i :: 0 <= i < |active| ==> !active[i].closed
    }

    /** Put an iterator at the head; the old head does not learn of it. */
    method Init(iter: Iterator)
      requires Valid() && iter !in active
      modifies this, iter
      ensures Valid() && active == [iter] + old(active) && !iter.closed && iter.next == old(head)
    {
      iter.prev := null;
      iter.next := head;
      head := iter;
      iter.closed := false;
      active := [iter] + active;
    }

    /**
     Close an iterator, active or not, that goes before those of tail; the list continues with them, whatever
     it was. When the list is empty an assertion fails.
     */
    method Done(iter: Iterator, ghost tail: seq<Iterator>) returns (aborted: bool)
      requires iter !in tail && iter.prev !in tail && Chained(iter.next, tail)
      modifies this, iter, tail, if iter.prev == null then {} else {iter.prev}
      ensures aborted <==> old(head) == null
      ensures aborted ==> head == old(head) && active == old(active) && iter.closed == old(iter.closed)
      ensures !aborted && old(iter.prev) == null ==>
                Valid() && active == tail && iter.closed && iter.next == old(iter.next)
      ensures old(iter.prev) == null ==> iter.prev == null
      ensures forall i :: 0 <= i < |tail| ==> tail[i].closed == old(tail[i].closed) && tail[i].next == old(tail[i].next)
    {
      if head == null {
        return true;
      }
      if iter.next != null {
        iter.next.prev := iter.prev;
      }
      if iter.prev != null {
        iter.prev.next := iter.next;
      } else {
        head := iter.next;
        active := tail;
      }
      iter.closed := true;
      return false;
    }

    /**
     Close the k-th active iterator: the list continues after it, and it alone goes if and only if it is the
     newest. The newer ones keep their links.
     */
    method CloseActive(iter: Iterator, ghost s: seq<Iterator>, ghost k: nat)
      requires Valid() && s == active && k < |s| && s[k] == iter
      modifies this, iter, s
      ensures Valid() && active == s[k + 1..] && iter.closed
      ensures active == Without(s, k) <==> k == 0
      ensures old(AllOpen()) ==> AllOpen()
      ensures forall i :: 0 <= i < |s| ==> s[i].next == Get(s, i + 1) && s[i].prev == null
      ensures forall i :: 0 <= i < |s| && i != k ==> s[i].closed == old(s[i].closed)
    {
      ghost var tail := s[k + 1..];
      TailChained(head, s, k);
      var aborted := Done(iter, tail);
      assert |tail| == |Without(s, k)| ==> k == 0;
      forall i | 0 <= i < |s|
        ensures s[i].next == Get(s, i + 1) && s[i].prev == null && (i != k ==> s[i].closed == old(s[i].closed))
      {
        if i > k {
          assert s[i] == tail[i - k - 1];
        }
      }
    }

    /**
     Close the k-th iterator and then a newer one, the j-th, which has been dropped with it. If none is
     older, that fails an assertion; or else it makes the closed one active again.
     */
    method CloseThenNewer(closing: Iterator, dropped: Iterator, ghost s: seq<Iterator>, ghost k: nat, ghost j: nat)
      returns (aborted: bool)
      requires Valid() && AllOpen() && s == active && j < k < |s| && s[k] == closing && s[j] == dropped
      modifies this, s
      ensures aborted <==> k == |s| - 1
      ensures !aborted ==> Valid() && active == s[j + 1..] && closing in active && closing.closed && !AllOpen()
    {
      CloseActive(closing, s, k);
      ghost var tail := s[j + 1..];
      assert dropped !in tail;
      aborted := Done(dropped, tail);
      assert tail[k - j - 1] == closing;
    }
  }

  // ----- Together with the hash -----

  /** The active iterators are those whose positions the hash keeps, newest first. */
  ghost predicate InStep<K(!new), V>(h: Hash<K, V>, links: IteratorList)
    reads h, h.nodes, links, links.active
  {
    h.Valid() && links.Valid() && |links.active| == |h.cursors|
  }

  method OpenIterator<K(==, !new), V(==)>(h: Hash<K, V>, links: IteratorList, iter: Iterator, reverseOrder: bool)
    returns (count: nat)
    requires InStep(h, links) && iter !in links.active
    modifies h`cursors, links, iter
    ensures InStep(h, links) && links.active == [iter] + old(links.active) && !iter.closed
    ensures h.cursors == [h.cursors[0]] + old(h.cursors) && count == |h.Entries()|
  {
    hide Hash.Valid;
    links.Init(iter);
    count := h.IterInit(reverseOrder);
  }

  /** The positions go as the links do. */
  method CloseIterator<K(==, !new), V(==)>(h: Hash<K, V>, links: IteratorList, iter: Iterator, k: nat)
    requires InStep(h, links) && k < |links.active| && links.active[k] == iter
    modifies h`cursors, links, iter, links.active
    ensures InStep(h, links) && links.active == old(links.active)[k + 1..] && h.cursors == old(h.cursors)[k + 1..]
    ensures links.active == Without(old(links.active), k) <==> k == 0
    ensures var s := old(links.active);
            forall i :: 0 <= i < |s| ==>
              && s[i].next == Get(s, i + 1) && s[i].prev == null
              && (i != k ==> s[i].closed == old(s[i].closed))
  {
    hide Hash.Valid, Chained, Distinct;
    links.CloseActive(iter, links.active, k);
    h.IterDone(k);
  }

  method OpenTwo(h: Hash<int, int>, links: IteratorList) returns (older: Iterator, newer: Iterator)
    requires InStep(h, links) && links.active == []
    modifies h`cursors, links
    ensures InStep(h, links) && links.active == [newer, older] && !newer.closed && fresh(older) && fresh(newer)
  {
    hide Hash.Valid;
    older := new Iterator();
    newer := new Iterator();
    var _ := OpenIterator(h, links, older, false);
    var _ := OpenIterator(h, links, newer, false);
  }

  /** Close the older of two iterators, and then the newer one. */
  method CloseOlderFirst(h: Hash<int, int>, links: IteratorList, older: Iterator, newer: Iterator)
    returns (aborted: bool)
    requires InStep(h, links) && links.active == [newer, older] && !newer.closed
    modifies h`cursors, links, older, newer
    ensures InStep(h, links) && links.active == [] && h.cursors == [] && !newer.closed && aborted
  {
    hide Hash.Valid;
    ghost var s := links.active;
    assert s[0] == newer && s[1] == older;
    CloseIterator(h, links, older, 1);
    assert newer.next == older && older.next == null;
    aborted := links.Done(newer, [older]);
  }

  /** Of two iterators the older one is closed first: the newer one, still open, is lost, and cannot be closed. */
  method OlderClosedFirst() returns (h: Hash<int, int>, links: IteratorList, newer: Iterator, aborted: bool)
    ensures InStep(h, links) && links.active == [] && h.cursors == [] && !newer.closed && aborted
  {
    h := new Hash((k: int) => if k < 0 then 0 else k, 100);
    links := new IteratorList();
    var older;
    older, newer := OpenTwo(h, links);
    aborted := CloseOlderFirst(h, links, older, newer);
  }
}
