/** The ring behind the blocking queue (raw_examples/thread_pool/data_container.h). */
module DataContainer {

  /** The slots from `head` up to `tail`, around the end of the array if need be. */
  function Around<T>(a: seq<T>, head: nat, tail: nat): (s: seq<T>)
    requires head < |a| && tail < |a|
    ensures |s| == if tail >= head then tail - head else |a| - (head - tail)
  {
    if head <= tail then a[head..tail] else a[head..] + a[..tail]
  }

  function NextPlace(i: nat, n: nat): nat
    requires i < n
  {
    if i + 1 == n then 0 else i + 1
  }

  lemma AroundPush<T>(a: seq<T>, head: nat, tail: nat, x: T)
    requires head < |a| && tail < |a| && NextPlace(tail, |a|) != head
    ensures Around(a[tail := x], head, NextPlace(tail, |a|)) == Around(a, head, tail) + [x]
  {
  }

  lemma AroundPop<T>(a: seq<T>, head: nat, tail: nat)
    requires head < |a| && tail < |a| && head != tail
    ensures Around(a, head, tail) == [a[head]] + Around(a, NextPlace(head, |a|), tail)
  {
  }

  /** Writing the last free slot and moving the head on drops the oldest item. */
  lemma AroundOverrun<T>(a: seq<T>, head: nat, tail: nat, x: T)
    requires head < |a| && tail < |a| && NextPlace(tail, |a|) == head
    ensures Around(a[tail := x], NextPlace(head, |a|), head) == (Around(a, head, tail) + [x])[1..]
  {
    var n := |a|;
    if n == 1 {
    } else if head == 0 {
      assert Around(a, head, tail) == a[..n - 1];
      assert Around(a[tail := x], 1, 0) == a[tail := x][1..] + a[tail := x][..0];
    } else {
      assert tail == head - 1;
      if head == n - 1 {
        assert Around(a[tail := x], 0, head) == a[tail := x][0..head];
      }
    }
  }

  class Container<T(0)> {
    const m_max_items: nat
    var m_head: nat
    var m_tail: nat
    var m_overrun_counter: nat
    const m_container: array<T>

    ghost predicate Valid()
      reads this
    {
      m_container.Length == m_max_items && m_head < m_max_items && m_tail < m_max_items
    }

    /** The items in order; one slot always stays unused. */
    ghost function Items(): (s: seq<T>)
      reads this, m_container
      requires Valid()
      ensures |s| == if m_tail >= m_head then m_tail - m_head else m_max_items - (m_head - m_tail)
    {
      Around(m_container[..], m_head, m_tail)
    }

    constructor (max_items: nat)
      ensures Valid() && Items() == [] && m_overrun_counter == 0 && fresh(m_container)
      ensures m_max_items == max_items + 1
    {
      m_max_items := max_items + 1;
      m_container := new T[max_items + 1];
      m_head, m_tail, m_overrun_counter := 0, 0, 0;
    }

    /** The next place of the ring: (i + 1) % m_max_items. */
    function Next(i: nat): (n: nat)
      requires i < m_max_items
      ensures n == if i + 1 == m_max_items then 0 else i + 1
    {
      (i + 1) % m_max_items
    }

    /** push_back: append; when the last free slot is taken the oldest item is overrun. */
    method PushBack(item: T)
      requires Valid()
      modifies this`m_head, this`m_tail, this`m_overrun_counter, m_container
      ensures Valid()
      ensures old(|Items()|) + 1 < m_max_items ==>
                Items() == old(Items()) + [item] && m_overrun_counter == old(m_overrun_counter)
      ensures old(|Items()|) + 1 == m_max_items ==>
                Items() == (old(Items()) + [item])[1..] && m_overrun_counter == old(m_overrun_counter) + 1
    {
      hide Around;
      ghost var a, head, tail := m_container[..], m_head, m_tail;
      m_container[m_tail] := item;
      assert m_container[..] == a[tail := item];
      m_tail := Next(m_tail);
      if m_tail == m_head {
        AroundOverrun(a, head, tail, item);
      } else {
        AroundPush(a, head, tail, item);
      }
      if m_tail == m_head {
        m_head := Next(m_head);
        m_overrun_counter := m_overrun_counter + 1;
      }
    }

    /** front and pop_front on a non-empty ring. */
    method PopFront() returns (item: T)
      requires Valid() && Items() != []
      modifies this`m_head
      ensures Valid() && [item] + Items() == old(Items())
    {
      AroundPop(m_container[..], m_head, m_tail);
      item := m_container[m_head];
      m_head := Next(m_head);
    }

    /** size, empty and full. */
    method Measure() returns (size: nat, empty: bool, full: bool)
      requires Valid()
      ensures size == |Items()|
      ensures empty <==> Items() == []
      ensures full <==> |Items()| + 1 == m_max_items
    {
      size := if m_tail >= m_head then m_tail - m_head else m_max_items - (m_head - m_tail);
      empty := m_tail == m_head;
      full := Next(m_tail) == m_head;
    }
  }
}
