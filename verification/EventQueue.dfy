/** The on-chain event queue of a perp market: a ring buffer of `MAX_NUM_EVENTS` slots whose
    header counts every event ever pushed. */
module EventQueues {

  const MAX_NUM_EVENTS: nat := 488

  /** `AnyEvent`: a fill carries its sequence number, the data that is published for it, and the
      bytes that are not; an out event carries its sequence number; the other types are opaque. */
  datatype Event =
    | Fill(seqNum: nat, data: int, unpublished: int)
    | Out(seqNum: nat, bytes: int)
    | Other(eventType: nat, bytes: int)

  /** The buffer index of sequence number `s`. */
  function Slot(s: nat): (i: nat)
    ensures i < MAX_NUM_EVENTS
  {
    s % MAX_NUM_EVENTS
  }

  /** The first sequence number still available when `n` events have been pushed. */
  function WindowStart(n: nat): (s: nat)
    ensures s <= n
  {
    if n <= MAX_NUM_EVENTS then 0 else n - MAX_NUM_EVENTS
  }

  /** `ring` shows the last `MAX_NUM_EVENTS` events of `history`. */
  ghost predicate Shows(ring: seq<Event>, history: seq<Event>) {
    && |ring| == MAX_NUM_EVENTS
    && forall s: nat :: WindowStart(|history|) <= s < |history| ==> ring[Slot(s)] == history[s]
  }

  /** Fill events are numbered by their position in the history. */
  ghost predicate Numbered(history: seq<Event>) {
    forall i :: 0 <= i < |history| && history[i].Fill? ==> history[i].seqNum == i
  }

  lemma SlotsInWindowDiffer(s: nat, t: nat)
    requires s < t < s + MAX_NUM_EVENTS
    ensures Slot(s) != Slot(t)
  {}

  /** Every sequence number below `n` shares its slot with one in the window of `n`. */
  lemma RepresentativeInWindow(s: nat, n: nat) returns (w: nat)
    requires s < n
    ensures WindowStart(n) <= w < n && Slot(w) == Slot(s)
    ensures WindowStart(n) <= s ==> w == s
    ensures s <= w
    decreases n - s
  {
    w := s;
    if s < WindowStart(n) {
      w := RepresentativeInWindow(s + MAX_NUM_EVENTS, n);
    }
  }

  class EventQueue {
    var head: nat
    var count: nat
    var seqNum: nat
    const buf: array<Event>

    /** Every event ever pushed, and how many of them were popped. */
    ghost var history: seq<Event>
    ghost var popped: nat

    ghost predicate Valid()
      reads this, buf
    {
      && buf.Length == MAX_NUM_EVENTS
      && popped <= |history| <= popped + MAX_NUM_EVENTS
      && seqNum == |history|
      && count == |history| - popped
      && head == Slot(popped)
      && Shows(buf[..], history)
    }

    /** A zeroed account: every slot decodes as a fill with number 0, none is in the window. */
    constructor ()
      ensures Valid() && Numbered(history) && history == [] && popped == 0 && fresh(buf)
    {
      buf := new Event[MAX_NUM_EVENTS](_ => Fill(0, 0, 0));
      head, count, seqNum := 0, 0, 0;
      history, popped := [], 0;
    }

    /** Fails exactly when the queue is full. Fills stay numbered if they are stamped with the
        header's sequence number, as the matching code does. */
    method PushBack(value: Event) returns (ok: bool)
      requires Valid()
      modifies this, buf
      ensures Valid()
      ensures popped == old(popped)
      ensures ok <==> old(count) < MAX_NUM_EVENTS
      ensures history == if ok then old(history) + [value] else old(history)
      ensures ok && old(Numbered(history)) ==> (Numbered(history) <==> (value.Fill? ==> value.seqNum == old(seqNum)))
      ensures !ok ==> unchanged(this) && unchanged(buf)
    {
      if count == buf.Length {
        return false;
      }
      var slot := (head + count) % buf.Length;
      assert slot == Slot(seqNum);
      ghost var before := buf[..];
      buf[slot] := value;
      count := count + 1;
      seqNum := seqNum + 1;
      history := history + [value];
      forall s: nat | WindowStart(|history|) <= s < |history| - 1
        ensures buf[..][Slot(s)] == history[s]
      {
        SlotsInWindowDiffer(s, seqNum - 1);
        assert before[Slot(s)] == history[s];
      }
      return true;
    }

    /** Hands out the events in the order they were pushed; the buffer is left as it is. */
    method PopFront() returns (value: Event, ok: bool)
      requires Valid()
      modifies this
      ensures Valid()
      ensures ok <==> old(count) > 0
      ensures history == old(history)
      ensures ok ==> popped == old(popped) + 1 && value == history[old(popped)]
      ensures !ok ==> unchanged(this)
    {
      value := buf[head];
      if count == 0 {
        return value, false;
      }
      count := count - 1;
      head := (head + 1) % buf.Length;
      popped := popped + 1;
      return value, true;
    }
  }
}
