/** The fills service: turns successive snapshots of an event queue into New and Revoke messages,
    so that a consumer keyed by sequence number follows the queue's history through growth,
    in-place changes and rollbacks. */
module FillFeed {
  import opened Options
  import opened EventQueues

  /** The published form of a fill event. */
  datatype FillRow = FillRow(seqNum: nat, data: int)

  datatype Status = New | Revoke

  datatype Message =
    | Update(status: Status, row: FillRow)
    | HeadUpdate(head: nat, prevHead: nat, headSeqNum: nat, prevHeadSeqNum: nat)
    | Checkpoint(rows: seq<FillRow>)

  /** A decoded event queue account. */
  datatype Snapshot = Snapshot(seqNum: nat, head: nat, buf: seq<Event>)

  function Row(e: Event): FillRow
    requires e.Fill?
  {
    FillRow(e.seqNum, e.data)
  }

  function Publish(e: Event): seq<Message> {
    if e.Fill? then [Update(New, Row(e))] else []
  }

  function Retract(e: Event): seq<Message> {
    if e.Fill? then [Update(Revoke, Row(e))] else []
  }

  // ---- What publish_changes_perp sends ----

  function StartSeqNum(seqNum: nat, prevSeqNum: nat): nat {
    WindowStart(if seqNum < prevSeqNum then prevSeqNum else seqNum)
  }

  /** The messages for one sequence number of the new queue. */
  function ChangeAt(s: nat, cur: seq<Event>, prevSeqNum: nat, prev: seq<Event>): seq<Message>
    requires |cur| == |prev| == MAX_NUM_EVENTS
  {
    var i := Slot(s);
    if s >= prevSeqNum then Publish(cur[i])
    else if prev[i] != cur[i] then Retract(prev[i]) + Publish(cur[i])
    else []
  }

  function Changes(lo: nat, hi: nat, cur: seq<Event>, prevSeqNum: nat, prev: seq<Event>): seq<Message>
    requires |cur| == |prev| == MAX_NUM_EVENTS
  {
    if hi <= lo then [] else Changes(lo, hi - 1, cur, prevSeqNum, prev) + ChangeAt(hi - 1, cur, prevSeqNum, prev)
  }

  function Drops(lo: nat, hi: nat, prev: seq<Event>): seq<Message>
    requires |prev| == MAX_NUM_EVENTS
  {
    if hi <= lo then [] else Drops(lo, hi - 1, prev) + Retract(prev[Slot(hi - 1)])
  }

  function RowsOfSlots(lo: nat, hi: nat, cur: seq<Event>): seq<FillRow>
    requires |cur| == MAX_NUM_EVENTS
  {
    if hi <= lo then []
    else RowsOfSlots(lo, hi - 1, cur) + (if cur[Slot(hi - 1)].Fill? then [Row(cur[Slot(hi - 1)])] else [])
  }

  function Updates(cur: Snapshot, prev: Snapshot): seq<Message>
    requires |cur.buf| == |prev.buf| == MAX_NUM_EVENTS
  {
    Changes(StartSeqNum(cur.seqNum, prev.seqNum), cur.seqNum, cur.buf, prev.seqNum, prev.buf)
    + Drops(cur.seqNum, prev.seqNum, prev.buf)
  }

  /** The number after the last consumed event, 0 when that event is neither a fill nor an out. */
  function HeadSeqNum(s: Snapshot): nat
    requires 1 <= s.head <= |s.buf|
  {
    var e := s.buf[s.head - 1];
    if e.Fill? || e.Out? then e.seqNum + 1 else 0
  }

  /** What follows the updates: nothing if a head is 0, because `head - 1` then panics. */
  function Trailer(cur: Snapshot, prev: Snapshot): seq<Message>
    requires |cur.buf| == |prev.buf| == MAX_NUM_EVENTS
    requires cur.head < MAX_NUM_EVENTS && prev.head < MAX_NUM_EVENTS
  {
    if cur.head == 0 || prev.head == 0 then []
    else
      (if cur.head == prev.head then []
       else [HeadUpdate(cur.head, prev.head, HeadSeqNum(cur), HeadSeqNum(prev))])
      + [Checkpoint(RowsOfSlots(StartSeqNum(cur.seqNum, prev.seqNum), cur.seqNum, cur.buf))]
  }

  /** The first loop: walks the sequence numbers of the new queue. */
  method SendChanges(cur: Snapshot, prev: Snapshot) returns (sent: seq<Message>, checkpoint: seq<FillRow>)
    requires |cur.buf| == |prev.buf| == MAX_NUM_EVENTS
    ensures var start := StartSeqNum(cur.seqNum, prev.seqNum);
            && sent == Changes(start, cur.seqNum, cur.buf, prev.seqNum, prev.buf)
            && checkpoint == RowsOfSlots(start, cur.seqNum, cur.buf)
  {
    hide Slot;
    var start := StartSeqNum(cur.seqNum, prev.seqNum);
    sent, checkpoint := [], [];
    if cur.seqNum <= start {
      return;
    }
    for s := start to cur.seqNum
      invariant sent == Changes(start, s, cur.buf, prev.seqNum, prev.buf)
      invariant checkpoint == RowsOfSlots(start, s, cur.buf)
    {
      var e, known := cur.buf[Slot(s)], prev.buf[Slot(s)];
      if s >= prev.seqNum {
        if e.Fill? {
          sent := sent + [Update(New, Row(e))];
        }
      } else if known != e {
        if known.Fill? {
          sent := sent + [Update(Revoke, Row(known))];
        }
        if e.Fill? {
          sent := sent + [Update(New, Row(e))];
        }
      }
      if e.Fill? {
        checkpoint := checkpoint + [Row(e)];
      }
    }
  }

  /** The second loop: revokes what the new queue no longer reaches. */
  method SendDrops(cur: Snapshot, prev: Snapshot) returns (sent: seq<Message>)
    requires |prev.buf| == MAX_NUM_EVENTS
    ensures sent == Drops(cur.seqNum, prev.seqNum, prev.buf)
  {
    sent := [];
    if cur.seqNum >= prev.seqNum {
      return;
    }
    for s := cur.seqNum to prev.seqNum
      invariant sent == Drops(cur.seqNum, s, prev.buf)
    {
      var dropped := prev.buf[Slot(s)];
      if dropped.Fill? {
        sent := sent + [Update(Revoke, Row(dropped))];
      }
    }
  }

  /** Compares two snapshots and sends the difference. */
  method PublishChanges(cur: Snapshot, prev: Snapshot) returns (sent: seq<Message>, panicked: bool)
    requires |cur.buf| == |prev.buf| == MAX_NUM_EVENTS
    requires cur.head < MAX_NUM_EVENTS && prev.head < MAX_NUM_EVENTS
    ensures panicked <==> cur.head == 0 || prev.head == 0
    ensures sent == Updates(cur, prev) + Trailer(cur, prev)
  {
    var changes, checkpoint := SendChanges(cur, prev);
    var drops := SendDrops(cur, prev);
    sent := changes + drops;
    if cur.head == 0 || prev.head == 0 {
      return sent, true;
    }
    if cur.head != prev.head {
      sent := sent + [HeadUpdate(cur.head, prev.head, HeadSeqNum(cur), HeadSeqNum(prev))];
    }
    sent := sent + [Checkpoint(checkpoint)];
    panicked := false;
  }

  // ---- The consumer ----

  type Store = map<nat, FillRow>

  /** Insert-if-absent for New, delete for Revoke, both by sequence number. */
  function Apply(store: Store, m: Message): Store {
    match m
    case Update(New, row) => if row.seqNum in store then store else store[row.seqNum := row]
    case Update(Revoke, row) => store - {row.seqNum}
    case _ => store
  }

  function Replay(store: Store, ms: seq<Message>): Store {
    if ms == [] then store else Apply(Replay(store, ms[..|ms| - 1]), ms[|ms| - 1])
  }

  lemma {:induction false} ReplayConcat(store: Store, a: seq<Message>, b: seq<Message>)
    ensures Replay(store, a + b) == Replay(Replay(store, a), b)
  {
    if b == [] {
      assert a + b == a;
    } else {
      ReplayConcat(store, a, b[..|b| - 1]);
      assert (a + b)[..|a + b| - 1] == a + b[..|b| - 1];
    }
  }

  lemma ReplayNothing(store: Store)
    ensures Replay(store, []) == store
  {}

  function Lookup(store: Store, s: nat): Option<FillRow> {
    if s in store then Some(store[s]) else None
  }

  lemma ReplayPublish(store: Store, e: Event, s: nat)
    ensures Lookup(Replay(store, Publish(e)), s)
            == if e.Fill? && e.seqNum == s && s !in store then Some(Row(e)) else Lookup(store, s)
  {
    if e.Fill? { assert Publish(e)[..0] == []; }
  }

  lemma ReplayRetract(store: Store, e: Event, s: nat)
    ensures Lookup(Replay(store, Retract(e)), s)
            == if e.Fill? && e.seqNum == s then None else Lookup(store, s)
  {
    if e.Fill? { assert Retract(e)[..0] == []; }
  }

  // ---- The reference: a store that holds exactly the fills of a history ----

  /** The fill at sequence number `s` of a history, if there is one. */
  function FillAt(history: seq<Event>, s: nat): Option<FillRow> {
    if s < |history| && history[s].Fill? then Some(Row(history[s])) else None
  }

  /** `s` is a decoded queue whose pushes so far are `history`. */
  ghost predicate Pictures(s: Snapshot, history: seq<Event>)
    ensures Pictures(s, history) ==> |s.buf| == MAX_NUM_EVENTS
  {
    Numbered(history) && Shows(s.buf, history) && s.seqNum == |history|
  }

  ghost predicate Holds(store: Store, history: seq<Event>) {
    forall s: nat :: Lookup(store, s) == FillAt(history, s)
  }

  /** The fills of `g` in the interval [from, to), those of `h` elsewhere. */
  ghost predicate HoldsSplice(store: Store, h: seq<Event>, g: seq<Event>, from: nat, to: nat) {
    forall s: nat :: Lookup(store, s) == FillAt(if from <= s < to then g else h, s)
  }

  lemma ReplayOneChange(store: Store, g: seq<Event>, cur: seq<Event>, h: seq<Event>, prev: seq<Event>, hi: nat)
    requires Numbered(g) && Numbered(h) && Shows(cur, g) && Shows(prev, h)
    requires StartSeqNum(|g|, |h|) < hi <= |g|
    requires HoldsSplice(store, h, g, StartSeqNum(|g|, |h|), hi - 1)
    ensures HoldsSplice(Replay(store, ChangeAt(hi - 1, cur, |h|, prev)), h, g, StartSeqNum(|g|, |h|), hi)
  {
    hide Replay, Slot;
    var s := hi - 1;
    assert cur[Slot(s)] == g[s];
    assert Lookup(store, s) == FillAt(h, s);
    if s >= |h| {
      forall k: nat { ReplayPublish(store, g[s], k); }
    } else {
      assert prev[Slot(s)] == h[s];
      if h[s] == g[s] {
        ReplayNothing(store);
      } else {
        ReplayConcat(store, Retract(h[s]), Publish(g[s]));
        var between := Replay(store, Retract(h[s]));
        forall k: nat
          ensures Lookup(Replay(between, Publish(g[s])), k) == if k == s then FillAt(g, s) else Lookup(store, k)
        {
          ReplayRetract(store, h[s], k);
          ReplayPublish(between, g[s], k);
        }
      }
    }
  }

  lemma ReplayNextChange(store: Store, lo: nat, hi: nat, cur: seq<Event>, prevSeqNum: nat, prev: seq<Event>)
    requires |cur| == |prev| == MAX_NUM_EVENTS && lo < hi
    ensures Replay(store, Changes(lo, hi, cur, prevSeqNum, prev))
            == Replay(Replay(store, Changes(lo, hi - 1, cur, prevSeqNum, prev)), ChangeAt(hi - 1, cur, prevSeqNum, prev))
  {
    ReplayConcat(store, Changes(lo, hi - 1, cur, prevSeqNum, prev), ChangeAt(hi - 1, cur, prevSeqNum, prev));
  }

  lemma SpliceNothing(store: Store, h: seq<Event>, g: seq<Event>, from: nat, to: nat)
    requires Holds(store, h) && to <= from
    ensures HoldsSplice(store, h, g, from, to)
  {}

  lemma {:induction false} ReplayChanges(store: Store, g: seq<Event>, cur: seq<Event>, h: seq<Event>, prev: seq<Event>, hi: nat)
    requires Numbered(g) && Numbered(h) && Shows(cur, g) && Shows(prev, h)
    requires hi <= |g|
    requires Holds(store, h)
    ensures var start := StartSeqNum(|g|, |h|);
            HoldsSplice(Replay(store, Changes(start, hi, cur, |h|, prev)), h, g, start, hi)
  {
    hide Replay, Slot, ChangeAt;
    var start := StartSeqNum(|g|, |h|);
    if hi <= start {
      ReplayNothing(store);
      SpliceNothing(store, h, g, start, hi);
    } else {
      var before := Changes(start, hi - 1, cur, |h|, prev);
      ReplayChanges(store, g, cur, h, prev, hi - 1);
      ReplayOneChange(Replay(store, before), g, cur, h, prev, hi);
      ReplayNextChange(store, start, hi, cur, |h|, prev);
    }
  }

  ghost predicate HoldsFill(prev: seq<Event>, t: nat, s: nat)
    requires |prev| == MAX_NUM_EVENTS
  {
    prev[Slot(t)].Fill? && prev[Slot(t)].seqNum == s
  }

  /** The second loop looks at slot `t` for some `t` in [lo, hi) that holds a fill numbered `s`. */
  ghost predicate Dropped(lo: nat, hi: nat, prev: seq<Event>, s: nat)
    requires |prev| == MAX_NUM_EVENTS
  {
    exists t: nat :: lo <= t < hi && HoldsFill(prev, t, s)
  }

  lemma DroppedStep(lo: nat, hi: nat, prev: seq<Event>, s: nat)
    requires |prev| == MAX_NUM_EVENTS && lo < hi
    ensures Dropped(lo, hi, prev, s) <==> Dropped(lo, hi - 1, prev, s) || HoldsFill(prev, hi - 1, s)
  {}

  lemma ReplayNextDrop(store: Store, lo: nat, hi: nat, prev: seq<Event>)
    requires |prev| == MAX_NUM_EVENTS && lo < hi
    ensures Replay(store, Drops(lo, hi, prev))
            == Replay(Replay(store, Drops(lo, hi - 1, prev)), Retract(prev[Slot(hi - 1)]))
  {
    ReplayConcat(store, Drops(lo, hi - 1, prev), Retract(prev[Slot(hi - 1)]));
  }

  lemma {:induction false} ReplayDrops(store: Store, lo: nat, hi: nat, prev: seq<Event>, s: nat)
    requires |prev| == MAX_NUM_EVENTS
    ensures Lookup(Replay(store, Drops(lo, hi, prev)), s)
            == if Dropped(lo, hi, prev, s) then None else Lookup(store, s)
  {
    if lo < hi {
      var e := prev[Slot(hi - 1)];
      ReplayDrops(store, lo, hi - 1, prev, s);
      ReplayNextDrop(store, lo, hi, prev);
      ReplayRetract(Replay(store, Drops(lo, hi - 1, prev)), e, s);
      DroppedStep(lo, hi, prev, s);
    }
  }

  /** The second loop revokes exactly the old fills that are in the old window and at or past the
      new end, even where a deep rollback makes it look up slots that were overwritten. */
  lemma DroppedExactly(h: seq<Event>, prev: seq<Event>, lo: nat, s: nat)
    requires Numbered(h) && Shows(prev, h)
    ensures Dropped(lo, |h|, prev, s) <==> WindowStart(|h|) <= s < |h| && lo <= s && h[s].Fill?
  {
    if Dropped(lo, |h|, prev, s) {
      var t: nat :| lo <= t < |h| && HoldsFill(prev, t, s);
      var w := RepresentativeInWindow(t, |h|);
      assert prev[Slot(w)] == h[w];
    }
    if WindowStart(|h|) <= s < |h| && lo <= s && h[s].Fill? {
      assert HoldsFill(prev, s, s);
    }
  }

  /** What one diff does to a consumer that held the old history's fills: everything from the
      start of the longer history's window on is replaced, everything below is left alone. */
  lemma ReplaySplices(store: Store, g: seq<Event>, h: seq<Event>, cur: Snapshot, prev: Snapshot)
    requires Pictures(cur, g) && Pictures(prev, h)
    requires Holds(store, h)
    ensures HoldsSplice(Replay(store, Updates(cur, prev)), h, g, StartSeqNum(|g|, |h|), |g| + |h|)
  {
    var start := StartSeqNum(|g|, |h|);
    var changes := Changes(start, |g|, cur.buf, |h|, prev.buf);
    ReplayConcat(store, changes, Drops(|g|, |h|, prev.buf));
    ReplayChanges(store, g, cur.buf, h, prev.buf, |g|);
    forall s: nat
      ensures Lookup(Replay(store, Updates(cur, prev)), s)
              == FillAt(if start <= s < |g| + |h| then g else h, s)
    {
      ReplayDrops(Replay(store, changes), |g|, |h|, prev.buf, s);
      DroppedExactly(h, prev.buf, |g|, s);
      assert Lookup(Replay(store, changes), s) == FillAt(if start <= s < |g| then g else h, s);
    }
  }

  /** The two histories have the same fills below `k`. */
  ghost predicate AgreeBelow(g: seq<Event>, h: seq<Event>, k: nat) {
    forall s: nat :: s < k ==> FillAt(g, s) == FillAt(h, s)
  }

  /** The consumer ends with exactly the new history's fills if and only if the two histories had
      the same fills below the window of the longer one. */
  lemma ReplayReplacesHistory(store: Store, g: seq<Event>, h: seq<Event>, cur: Snapshot, prev: Snapshot)
    requires Pictures(cur, g) && Pictures(prev, h)
    requires Holds(store, h)
    ensures Holds(Replay(store, Updates(cur, prev)), g) <==> AgreeBelow(g, h, StartSeqNum(|g|, |h|))
  {
    ReplaySplices(store, g, h, cur, prev);
    var r := Replay(store, Updates(cur, prev));
    if Holds(r, g) {
      forall s: nat | s < StartSeqNum(|g|, |h|)
        ensures FillAt(g, s) == FillAt(h, s)
      {
        assert Lookup(r, s) == FillAt(g, s);
      }
    }
  }

  /** A queue that grew by more than a window loses the fills that were already overwritten. */
  lemma GrowthBeyondWindowLosesFills(g: seq<Event>, cur: Snapshot, prev: Snapshot)
    requires Pictures(cur, g) && Pictures(prev, [])
    requires |g| == MAX_NUM_EVENTS + 1 && g[0].Fill?
    ensures !Holds(Replay(map[], Updates(cur, prev)), g)
  {
    assert FillAt(g, 0) != FillAt([], 0);
    ReplayReplacesHistory(map[], g, [], cur, prev);
  }

  /** A common prefix reaches to within the window of the longer history: growth by at most a
      window, change in place, or rollback inside it. */
  ghost predicate SharePrefix(g: seq<Event>, h: seq<Event>) {
    exists k: nat :: IsShared(g, h, k) && |g| <= k + MAX_NUM_EVENTS && |h| <= k + MAX_NUM_EVENTS
  }

  ghost predicate IsShared(g: seq<Event>, h: seq<Event>, k: nat) {
    k <= |g| && k <= |h| && g[..k] == h[..k]
  }

  lemma SharedPrefixAgrees(g: seq<Event>, h: seq<Event>)
    requires SharePrefix(g, h)
    ensures AgreeBelow(g, h, StartSeqNum(|g|, |h|))
  {
    var k: nat :| IsShared(g, h, k) && |g| <= k + MAX_NUM_EVENTS && |h| <= k + MAX_NUM_EVENTS;
    forall s: nat | s < StartSeqNum(|g|, |h|)
      ensures FillAt(g, s) == FillAt(h, s)
    {
      assert g[s] == g[..k][s] == h[..k][s] == h[s];
    }
  }

  /** All updates of a run over the given snapshots. The first one is only cached. */
  function RunUpdates(snapshots: seq<Snapshot>): seq<Message>
    requires FullBuffers(snapshots)
  {
    if |snapshots| <= 1 then []
    else
      var n := |snapshots|;
      RunUpdates(snapshots[..n - 1]) + Updates(snapshots[n - 1], snapshots[n - 2])
  }

  predicate FullBuffers(snapshots: seq<Snapshot>) {
    forall i :: 0 <= i < |snapshots| ==> |snapshots[i].buf| == MAX_NUM_EVENTS
  }

  ghost predicate IsRun(snapshots: seq<Snapshot>, histories: seq<seq<Event>>) {
    && |snapshots| == |histories|
    && forall i :: 0 <= i < |snapshots| ==> Pictures(snapshots[i], histories[i])
  }

  /** Over every run, a consumer that starts with the first history's fills ends with exactly the
      last history's, provided each step agrees below its window. */
  lemma {:induction false} RunTracksHistory(store: Store, snapshots: seq<Snapshot>, histories: seq<seq<Event>>)
    requires IsRun(snapshots, histories) && |histories| > 0
    requires Holds(store, histories[0])
    requires forall i :: 0 < i < |histories| ==>
               AgreeBelow(histories[i], histories[i - 1], StartSeqNum(|histories[i]|, |histories[i - 1]|))
    ensures Holds(Replay(store, RunUpdates(snapshots)), histories[|histories| - 1])
  {
    var n := |snapshots|;
    if n > 1 {
      RunTracksHistory(store, snapshots[..n - 1], histories[..n - 1]);
      var before := RunUpdates(snapshots[..n - 1]);
      ReplayConcat(store, before, Updates(snapshots[n - 1], snapshots[n - 2]));
      ReplayReplacesHistory(Replay(store, before), histories[n - 1], histories[n - 2], snapshots[n - 1], snapshots[n - 2]);
    }
  }

  /** In particular when each history shares a prefix with the one before. */
  lemma RunWithSharedPrefixes(store: Store, snapshots: seq<Snapshot>, histories: seq<seq<Event>>)
    requires IsRun(snapshots, histories) && |histories| > 0
    requires Holds(store, histories[0])
    requires forall i :: 0 < i < |histories| ==> SharePrefix(histories[i], histories[i - 1])
    ensures Holds(Replay(store, RunUpdates(snapshots)), histories[|histories| - 1])
  {
    hide SharePrefix, AgreeBelow, Holds, Replay, RunUpdates;
    forall i | 0 < i < |histories|
      ensures AgreeBelow(histories[i], histories[i - 1], StartSeqNum(|histories[i]|, |histories[i - 1]|))
    {
      SharedPrefixAgrees(histories[i], histories[i - 1]);
    }
    RunTracksHistory(store, snapshots, histories);
  }

  // ---- Checkpoints ----

  /** The fills of `history` with sequence numbers in [lo, hi), in sequence order. */
  function FillRows(history: seq<Event>, lo: nat, hi: nat): seq<FillRow>
    requires hi <= |history|
  {
    if hi <= lo then []
    else FillRows(history, lo, hi - 1) + if history[hi - 1].Fill? then [Row(history[hi - 1])] else []
  }

  lemma {:induction false} RowsOfWindow(g: seq<Event>, cur: seq<Event>, lo: nat, hi: nat)
    requires Shows(cur, g) && WindowStart(|g|) <= lo && hi <= |g|
    ensures RowsOfSlots(lo, hi, cur) == FillRows(g, lo, hi)
  {
    if lo < hi {
      RowsOfWindow(g, cur, lo, hi - 1);
      assert cur[Slot(hi - 1)] == g[hi - 1];
    }
  }

  lemma {:induction false} FillRowsSplit(g: seq<Event>, lo: nat, mid: nat, hi: nat)
    requires lo <= mid <= hi <= |g|
    ensures FillRows(g, lo, hi) == FillRows(g, lo, mid) + FillRows(g, mid, hi)
  {
    if mid < hi {
      FillRowsSplit(g, lo, mid, hi - 1);
    }
  }

  lemma {:induction false} NoFillRows(g: seq<Event>, lo: nat, hi: nat)
    requires hi <= |g|
    ensures FillRows(g, lo, hi) == [] <==> forall s: nat :: lo <= s < hi ==> !g[s].Fill?
  {
    if lo < hi {
      NoFillRows(g, lo, hi - 1);
      assert !g[hi - 1].Fill? || FillRows(g, lo, hi) != [];
    }
  }

  /** The checkpoint lists the current window's fills in order if and only if the part of the
      window below the previous queue's window has no fills; that part is empty unless the
      sequence number went back. */
  lemma CheckpointIsWindow(g: seq<Event>, h: seq<Event>, cur: Snapshot)
    requires Shows(cur.buf, g) && cur.seqNum == |g|
    ensures var start, window := StartSeqNum(|g|, |h|), WindowStart(|g|);
            && (RowsOfSlots(start, |g|, cur.buf) == FillRows(g, window, |g|)
                <==> forall s: nat :: window <= s < start && s < |g| ==> !g[s].Fill?)
            && (|h| <= |g| ==> start == window)
  {
    var start, window := StartSeqNum(|g|, |h|), WindowStart(|g|);
    var mid := if start <= |g| then start else |g|;
    RowsOfWindow(g, cur.buf, start, |g|);
    FillRowsSplit(g, window, mid, |g|);
    NoFillRows(g, window, mid);
  }

  // ---- The processing loop: version guard and caches ----

  datatype Version = Version(slot: nat, writeVersion: nat)

  predicate Less(a: Version, b: Version) {
    a.slot < b.slot || (a.slot == b.slot && a.writeVersion < b.writeVersion)
  }

  /** The head update and the checkpoint do not change the store. */
  lemma ReplayTrailer(store: Store, cur: Snapshot, prev: Snapshot)
    requires |cur.buf| == |prev.buf| == MAX_NUM_EVENTS
    requires cur.head < MAX_NUM_EVENTS && prev.head < MAX_NUM_EVENTS
    ensures Replay(store, Trailer(cur, prev)) == store
  {
    var t := Trailer(cur, prev);
    if |t| == 1 { assert t[..0] == []; }
    if |t| == 2 {
      assert t[..1] == [t[0]] && t[..1][..0] == [];
      assert Replay(store, t[..1]) == Apply(Replay(store, []), t[0]);
    }
  }

  ghost predicate Increasing(versions: seq<Version>) {
    forall i, j :: 0 <= i < j < |versions| ==> Less(versions[i], versions[j])
  }

  lemma IncreasingExtends(versions: seq<Version>, v: Version)
    requires Increasing(versions)
    requires versions != [] ==> Less(versions[|versions| - 1], v)
    ensures Increasing(versions + [v])
  {}

  lemma RunExtends(snapshots: seq<Snapshot>, histories: seq<seq<Event>>, cur: Snapshot, history: seq<Event>)
    requires IsRun(snapshots, histories)
    requires Pictures(cur, history)
    ensures IsRun(snapshots + [cur], histories + [history])
  {}

  lemma RunUpdatesExtend(snapshots: seq<Snapshot>, cur: Snapshot)
    requires FullBuffers(snapshots) && |cur.buf| == MAX_NUM_EVENTS
    ensures RunUpdates(snapshots + [cur])
            == RunUpdates(snapshots) + if snapshots == [] then [] else Updates(cur, snapshots[|snapshots| - 1])
  {
    assert (snapshots + [cur])[..|snapshots|] == snapshots;
  }

  /** Processed versions strictly increase, the cache is the last processed snapshot, and the
      updates sent are those of the run, to which RunTracksHistory applies. */
  ghost predicate Consistent(last: Version, cache: Option<Snapshot>, processed: seq<Version>,
                             snapshots: seq<Snapshot>, histories: seq<seq<Event>>, updates: seq<Message>)
  {
    && |processed| == |snapshots|
    && Increasing(processed)
    && last == (if processed == [] then Version(0, 0) else processed[|processed| - 1])
    && IsRun(snapshots, histories)
    && cache == (if snapshots == [] then None else Some(snapshots[|snapshots| - 1]))
    && (cache.Some? ==> cache.value.head < MAX_NUM_EVENTS)
    && updates == RunUpdates(snapshots)
  }

  /** The updates sent when `cur` replaces the cached snapshot. */
  function Sent(cache: Option<Snapshot>, cur: Snapshot): seq<Message>
    requires |cur.buf| == MAX_NUM_EVENTS && (cache.Some? ==> |cache.value.buf| == MAX_NUM_EVENTS)
  {
    if cache.None? then [] else Updates(cur, cache.value)
  }

  lemma ConsistentStep(last: Version, cache: Option<Snapshot>, processed: seq<Version>, snapshots: seq<Snapshot>,
                       histories: seq<seq<Event>>, updates: seq<Message>,
                       version: Version, cur: Snapshot, history: seq<Event>)
    requires Consistent(last, cache, processed, snapshots, histories, updates)
    requires Less(last, version) && Pictures(cur, history) && cur.head < MAX_NUM_EVENTS
    ensures cache.Some? ==> |cache.value.buf| == MAX_NUM_EVENTS
    ensures Consistent(version, Some(cur), processed + [version], snapshots + [cur], histories + [history],
                       updates + Sent(cache, cur))
  {
    IncreasingExtends(processed, version);
    RunExtends(snapshots, histories, cur, history);
    RunUpdatesExtend(snapshots, cur);
  }

  /** The entries of the service's version, sequence number, head and event maps for one queue. */
  class QueueFeed {
    var lastVersion: Version
    var cache: Option<Snapshot>

    /** The versions processed so far, their snapshots and histories, and all updates sent. */
    ghost var processed: seq<Version>
    ghost var snapshots: seq<Snapshot>
    ghost var histories: seq<seq<Event>>
    ghost var updates: seq<Message>

    ghost predicate Valid()
      reads this
    {
      Consistent(lastVersion, cache, processed, snapshots, histories, updates)
    }

    constructor ()
      ensures Valid() && processed == []
    {
      lastVersion, cache := Version(0, 0), None;
      processed, snapshots, histories, updates := [], [], [], [];
    }

    /** One pass of the loop over this queue. A version that is not newer is skipped. When
        publishing panics the task ends with the updates sent but the cache not replaced. */
    method Process(version: Version, cur: Snapshot, ghost history: seq<Event>)
      returns (sent: seq<Message>, panicked: bool)
      requires Valid()
      requires Pictures(cur, history) && cur.head < MAX_NUM_EVENTS
      modifies this
      ensures !panicked ==> Valid()
      ensures !Less(old(lastVersion), version) ==> sent == [] && !panicked && unchanged(this)
      ensures Less(old(lastVersion), version) ==>
                && processed == old(processed) + [version]
                && histories == old(histories) + [history]
                && snapshots == old(snapshots) + [cur]
                && FullBuffers(snapshots) && updates == RunUpdates(snapshots)
                && (old(cache).None? ==> sent == [] && !panicked)
                && (old(cache).Some? ==>
                      && panicked == (cur.head == 0 || old(cache).value.head == 0)
                      && sent == Updates(cur, old(cache).value) + Trailer(cur, old(cache).value))
                && (!panicked ==> cache == Some(cur))
    {
      sent, panicked := [], false;
      if version == lastVersion || version.slot < lastVersion.slot
         || (version.slot == lastVersion.slot && version.writeVersion < lastVersion.writeVersion) {
        return;
      }
      ConsistentStep(lastVersion, cache, processed, snapshots, histories, updates, version, cur, history);
      lastVersion := version;
      processed := processed + [version];
      histories := histories + [history];
      snapshots := snapshots + [cur];
      updates := updates + Sent(cache, cur);
      if cache.Some? {
        sent, panicked := PublishChanges(cur, cache.value);
        if panicked {
          return;
        }
      }
      cache := Some(cur);
    }
  }
}
