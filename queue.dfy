/**
 * The two FIFO queues of the playground: the naive `Queue<T>`, which removes
 * from the front of its array, and `Queue2<T>`, which leaves consumed slots
 * empty behind a `head` index and compacts the array from time to time.
 */
module Queues {
  import opened Wrappers

  /** Every slot of a naive queue holds a value (only `enqueue` adds slots). */
  ghost predicate AllPresent<T>(slots: seq<Option<T>>)
  {
    forall i :: 0 <= i < |slots| ==> slots[i].Some?
  }

  /**
   * Representation invariant of `Queue2`: the consumed slots below `head` are
   * empty, the live slots from `head` on are present.
   */
  ghost predicate Wellformed<T>(slots: seq<Option<T>>, head: nat)
  {
    head <= |slots| &&
    (forall i :: 0 <= i < head ==> slots[i].None?) &&
    (forall i :: head <= i < |slots| ==> slots[i].Some?)
  }

  /** The queue's contents: the values of the slots from `head` on, in order. */
  function Live<T>(slots: seq<Option<T>>, head: nat): (r: seq<T>)
    requires head <= |slots|
    requires forall i :: head <= i < |slots| ==> slots[i].Some?
    ensures |r| == |slots| - head
    ensures forall k :: 0 <= k < |r| ==> slots[head + k] == Some(r[k])
  {
    seq(|slots| - head, k requires 0 <= k < |slots| - head => slots[head + k].value)
  }

  /** A naive queue stores no empty slots, so it holds `Live(slots, 0)`. */
  function Values<T>(slots: seq<Option<T>>): (r: seq<T>)
    requires AllPresent(slots)
    ensures |r| == |slots|
    ensures forall k :: 0 <= k < |r| ==> slots[k] == Some(r[k])
  {
    Live(slots, 0)
  }

  /** Smallest number of remaining elements for which `Queue2` compacts. */
  const CompactionMinimum := 50

  /**
   * The compaction test of `Queue2.dequeue`, taken after `head` was advanced:
   * more than 50 elements remain and `head / length > 0.25`. The floating-point
   * ratio is stated as the exact integer inequality `4 * head > length`.
   */
  predicate ShouldCompact(length: nat, head: nat)
  {
    length - head > CompactionMinimum && 4 * head > length
  }

  /** The outcome of one `Queue2.dequeue`: the returned value and the new fields. */
  datatype Step<T> = Step(result: Option<T>, slots: seq<Option<T>>, head: nat)

  /** What `Queue2.dequeue` does to its array and `head`, and what it returns. */
  function DequeueStep<T>(slots: seq<Option<T>>, head: nat): (r: Step<T>)
  {
    if head >= |slots| || slots[head].None? then
      Step(None, slots, head)
    else
      var cleared := slots[head := None];
      var next := head + 1;
      if ShouldCompact(|cleared|, next) then Step(slots[head], cleared[next..], 0)
      else Step(slots[head], cleared, next)
  }

  /** Dropping the consumed prefix keeps the invariant and leaves the contents unchanged. */
  lemma CompactionKeepsContents<T>(slots: seq<Option<T>>, head: nat)
    requires Wellformed(slots, head)
    ensures Wellformed(slots[head..], 0)
    ensures Live(slots[head..], 0) == Live(slots, head)
    ensures |slots[head..]| == |slots| - head
  {
    var dropped := slots[head..];
    forall i | 0 <= i < |dropped| ensures dropped[i].Some? {
      assert dropped[i] == slots[head + i];
    }
    var a, b := Live(dropped, 0), Live(slots, head);
    assert |a| == |b|;
    forall k | 0 <= k < |a| ensures a[k] == b[k] {
      assert dropped[k] == slots[head + k];
    }
  }

  /**
   * `dequeue` is a FIFO step on the contents: on an empty queue it returns None
   * and changes nothing, otherwise it returns the first element and the
   * contents lose exactly that element. Either way the invariant is kept.
   */
  lemma {:induction false} DequeueIsFifo<T>(slots: seq<Option<T>>, head: nat)
    requires Wellformed(slots, head)
    ensures var st := DequeueStep(slots, head);
      Wellformed(st.slots, st.head) &&
      (Live(slots, head) == [] ==> st == Step(None, slots, head)) &&
      (Live(slots, head) != [] ==>
        st.result == Some(Live(slots, head)[0]) &&
        Live(st.slots, st.head) == Live(slots, head)[1..])
  {
    if head < |slots| {
      var before := Live(slots, head);
      var cleared := slots[head := None];
      var next := head + 1;
      assert Wellformed(cleared, next);
      var after := Live(cleared, next);
      assert |after| == |before| - 1;
      forall k | 0 <= k < |after| ensures after[k] == before[1..][k] {
        assert cleared[next + k] == slots[head + 1 + k];
      }
      if ShouldCompact(|cleared|, next) {
        CompactionKeepsContents(cleared, next);
      }
    }
  }

  /**
   * Compaction fires exactly when, after `head` is advanced, more than 50
   * elements remain and more than a quarter of the elements is consumed; it then
   * drops the `head` consumed slots and resets `head` to 0, and otherwise the
   * array keeps its length.
   */
  lemma CompactionFiresExactly<T>(slots: seq<Option<T>>, head: nat)
    requires Wellformed(slots, head) && head < |slots|
    ensures var st := DequeueStep(slots, head);
      var count := |slots| - (head + 1);
      (st.head == 0 && |st.slots| == count <==> count > 50 && 4 * (head + 1) > |slots|) &&
      (count > 50 && 4 * (head + 1) > |slots| ==> st.slots == slots[head + 1..]) &&
      (!(count > 50 && 4 * (head + 1) > |slots|) ==>
         st.head == head + 1 && st.slots == slots[head := None])
  {
  }

  /** Example: 80 enqueues and 21 dequeues leave 59 elements in a compacted array. */
  lemma CompactionExample(slots: seq<Option<int>>)
    requires |slots| == 80 && Wellformed(slots, 20)
    ensures var st := DequeueStep(slots, 20); st.head == 0 && |st.slots| == 59
  {
  }

  /**
   * A `Queue2` is empty exactly when `head` is the array's length, so the
   * unchecked read `array[head]` of `front` is out of range exactly on an
   * empty queue.
   */
  lemma EmptyFrontOutOfRange<T>(slots: seq<Option<T>>, head: nat)
    requires Wellformed(slots, head)
    ensures Live(slots, head) == [] <==> !(head < |slots|)
  {
  }

  /** The naive queue: `dequeue` removes the first slot of its array. */
  class Queue<T> {
    var elements: seq<Option<T>>

    ghost predicate Valid()
      reads this
    {
      AllPresent(elements)
    }

    /** The queued elements, earliest first. */
    ghost function Contents(): seq<T>
      reads this
      requires Valid()
    {
      Values(elements)
    }

    constructor ()
      ensures Valid() && Contents() == []
    {
      elements := [];
    }

    function IsEmpty(): (b: bool)
      reads this
      requires Valid()
      ensures b <==> Contents() == []
    {
      |elements| == 0
    }

    function Count(): (n: nat)
      reads this
      requires Valid()
      ensures n == |Contents()|
    {
      |elements|
    }

    /** The earliest enqueued element, or None on an empty queue. */
    function Front(): (r: Option<T>)
      reads this
      requires Valid()
      ensures r.None? <==> Contents() == []
      ensures r.Some? ==> r.value == Contents()[0]
    {
      if |elements| == 0 then None else elements[0]
    }

    method Enqueue(element: T)
      requires Valid()
      modifies this
      ensures Valid()
      ensures elements == old(elements) + [Some(element)]
      ensures Contents() == old(Contents()) + [element]
    {
      elements := elements + [Some(element)];
      assert Contents()[..|old(Contents())|] == old(Contents());
    }

    /** Removes and returns the earliest enqueued element; None exactly when the queue is empty. */
    method Dequeue() returns (r: Option<T>)
      requires Valid()
      modifies this
      ensures Valid()
      ensures old(Contents()) == [] ==> r == None && elements == old(elements)
      ensures old(Contents()) != [] ==>
        r == Some(old(Contents())[0]) && elements == old(elements)[1..] &&
        Contents() == old(Contents())[1..]
    {
      if |elements| == 0 {
        r := None;
      } else {
        r := elements[0];
        elements := elements[1..];
      }
    }
  }

  /**
   * The efficient queue. Consumed slots stay in the array as empty slots
   * below `head` until a `dequeue` finds enough of them to compact.
   */
  class Queue2<T> {
    var slots: seq<Option<T>>
    var head: nat

    ghost predicate Valid()
      reads this
    {
      Wellformed(slots, head)
    }

    /** The queued elements, earliest first: the slots from `head` on. */
    ghost function Contents(): seq<T>
      reads this
      requires Valid()
    {
      Live(slots, head)
    }

    constructor ()
      ensures Valid() && slots == [] && head == 0 && Contents() == []
    {
      slots := [];
      head := 0;
    }

    function Count(): (n: int)
      reads this
      requires Valid()
      ensures n == |Contents()|
    {
      |slots| - head
    }

    function IsEmpty(): (b: bool)
      reads this
      requires Valid()
      ensures b <==> Contents() == []
    {
      Count() == 0
    }

    /**
     * The earliest enqueued element. `front` reads `array[head]` with no bounds
     * check, which traps on an empty queue, so the queue must not be empty.
     */
    function Front(): (r: Option<T>)
      reads this
      requires Valid() && head < |slots|
      ensures r == Some(Contents()[0])
    {
      slots[head]
    }

    /** `front` as evidently intended: None on an empty queue instead of an out-of-range read. */
    function FrontOrNone(): (r: Option<T>)
      reads this
      requires Valid()
      ensures r.None? <==> Contents() == []
      ensures r.Some? ==> r.value == Contents()[0]
    {
      if head < |slots| then Front() else None
    }

    method Enqueue(element: T)
      requires Valid()
      modifies this
      ensures Valid()
      ensures slots == old(slots) + [Some(element)] && head == old(head)
      ensures Contents() == old(Contents()) + [element]
    {
      slots := slots + [Some(element)];
      assert Contents()[..|old(Contents())|] == old(Contents());
    }

    /**
     * Removes and returns the earliest enqueued element, or returns None on an
     * empty queue; compacts the array when `ShouldCompact` holds afterwards.
     */
    method Dequeue() returns (r: Option<T>)
      requires Valid()
      modifies this
      ensures Valid()
      ensures Step(r, slots, head) == DequeueStep(old(slots), old(head))
      ensures old(Contents()) == [] ==> r == None && Contents() == []
      ensures old(Contents()) != [] ==>
        r == Some(old(Contents())[0]) && Contents() == old(Contents())[1..]
    {
      DequeueIsFifo(slots, head);
      if head >= |slots| || slots[head].None? {
        return None;
      }
      var element := slots[head];
      slots := slots[head := None];
      head := head + 1;
      if ShouldCompact(|slots|, head) {
        slots := slots[head..];
        head := 0;
      }
      return element;
    }
  }
}
