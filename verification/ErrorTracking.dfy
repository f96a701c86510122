/** `ErrorTracking`: counts recent errors by type and key, keeps the most recent distinct messages,
    and tells when a key should be skipped. Instants and durations are numbers. */
module ErrorTracking {
  import opened Options

  datatype Message = Message(text: string)

  datatype ErrorState = ErrorState(errors: seq<Message>, count: nat, lastAt: nat)

  /** The errors of one type, with optional overrides of the global settings. */
  datatype TypeState<Key(==)> = TypeState(
    stateByKey: map<Key, ErrorState>,
    skipThreshold: Option<nat>,
    skipDuration: Option<nat>)

  // ---- Messages ----

  function IndexOf(s: seq<Message>, m: Message): (i: nat)
    requires m in s
    ensures i < |s| && s[i] == m && m !in s[..i]
  {
    if s[0] == m then 0 else 1 + IndexOf(s[1..], m)
  }

  function Without(s: seq<Message>, m: Message): seq<Message> {
    if m in s then Cut(s, IndexOf(s, m)) else s
  }

  /** The message list after recording one more message. */
  function Remember(errors: seq<Message>, m: Message, limit: nat): seq<Message> {
    var pushed := Without(errors, m) + [m];
    if |pushed| > limit then pushed[1..] else pushed
  }

  function LastOf(s: seq<Message>, limit: nat): seq<Message> {
    if |s| <= limit then s else s[|s| - limit..]
  }

  /** The distinct messages of a history, by last occurrence. */
  function ByLastOccurrence(history: seq<Message>): seq<Message> {
    if history == [] then []
    else
      var n := |history| - 1;
      Without(ByLastOccurrence(history[..n]), history[n]) + [history[n]]
  }

  ghost predicate NoDuplicates(s: seq<Message>) {
    forall i, j :: 0 <= i < j < |s| ==> s[i] != s[j]
  }

  /** The last position of `m` in a history, -1 if it does not occur. */
  function LastPosition(history: seq<Message>, m: Message): (i: int)
    ensures -1 <= i < |history|
    ensures i >= 0 <==> m in history
    ensures i >= 0 ==> history[i] == m
  {
    if history == [] then -1
    else
      var n := |history| - 1;
      assert history == history[..n] + [history[n]];
      if history[n] == m then n else LastPosition(history[..n], m)
  }

  ghost predicate InOrder(history: seq<Message>, d: seq<Message>) {
    forall i, j :: 0 <= i < j < |d| ==> LastPosition(history, d[i]) < LastPosition(history, d[j])
  }

  lemma WithoutRemoves(s: seq<Message>, m: Message)
    requires NoDuplicates(s)
    ensures NoDuplicates(Without(s, m)) && m !in Without(s, m)
    ensures forall x :: x in Without(s, m) <==> x in s && x != m
    ensures |Without(s, m)| == if m in s then |s| - 1 else |s|
  {
    if m in s {
      var i := IndexOf(s, m);
      assert s == s[..i] + [m] + s[i + 1..];
    }
  }

  lemma CutInOrder(history: seq<Message>, s: seq<Message>, c: nat)
    requires InOrder(history, s) && c < |s|
    ensures InOrder(history, Cut(s, c))
  {
    var w := Cut(s, c);
    forall i, j | 0 <= i < j < |w| ensures LastPosition(history, w[i]) < LastPosition(history, w[j]) {
      assert w[i] == s[if i < c then i else i + 1];
      assert w[j] == s[if j < c then j else j + 1];
    }
  }

  lemma NewestLast(history: seq<Message>, m: Message, d: seq<Message>)
    requires InOrder(history, d) && m !in d
    ensures InOrder(history + [m], d + [m])
  {
    assert (history + [m])[..|history|] == history;
    forall i | 0 <= i < |d|
      ensures LastPosition(history + [m], d[i]) == LastPosition(history, d[i]) < |history|
    {
      assert d[i] in d;
    }
  }

  /** ByLastOccurrence lists each message once, ordered by when it was last recorded. */
  lemma {:induction false} ByLastOccurrenceOrdered(history: seq<Message>)
    ensures var d := ByLastOccurrence(history);
            NoDuplicates(d) && InOrder(history, d) && forall x :: x in d <==> x in history
  {
    if history != [] {
      var n, m := |history| - 1, history[|history| - 1];
      var before := ByLastOccurrence(history[..n]);
      ByLastOccurrenceOrdered(history[..n]);
      WithoutRemoves(before, m);
      if m in before { CutInOrder(history[..n], before, IndexOf(before, m)); }
      NewestLast(history[..n], m, Without(before, m));
      assert history == history[..n] + [m];
    }
  }

  lemma {:induction false} IndexOfConcat(a: seq<Message>, b: seq<Message>, m: Message)
    requires m in a + b
    ensures IndexOf(a + b, m) == if m in a then IndexOf(a, m) else |a| + IndexOf(b, m)
  {
    if a == [] {
      assert a + b == b;
    } else if a[0] != m {
      assert (a + b)[1..] == a[1..] + b;
      IndexOfConcat(a[1..], b, m);
    }
  }

  function Cut(s: seq<Message>, i: nat): seq<Message>
    requires i < |s|
  {
    s[..i] + s[i + 1..]
  }

  lemma CutConcat(a: seq<Message>, b: seq<Message>, i: nat)
    ensures i < |a| ==> Cut(a + b, i) == Cut(a, i) + b
    ensures i < |b| ==> Cut(a + b, |a| + i) == a + Cut(b, i)
  {
    if i < |b| {
      assert (a + b)[..|a| + i] == a + b[..i];
    }
  }

  lemma WithoutConcat(a: seq<Message>, b: seq<Message>, m: Message)
    ensures Without(a + b, m) == if m in a then Without(a, m) + b else a + Without(b, m)
  {
    if m in a + b {
      IndexOfConcat(a, b, m);
      CutConcat(a, b, if m in a then IndexOf(a, m) else IndexOf(b, m));
    }
  }

  lemma LastOfConcat(a: seq<Message>, b: seq<Message>, limit: nat)
    requires limit <= |b|
    ensures LastOf(a + b, limit) == LastOf(b, limit)
  {}

  /** Remembering a message keeps exactly the last `limit` distinct messages. */
  lemma RememberKeepsLast(history: seq<Message>, m: Message, limit: nat)
    ensures Remember(LastOf(ByLastOccurrence(history), limit), m, limit)
            == LastOf(ByLastOccurrence(history + [m]), limit)
  {
    ByLastOccurrenceOrdered(history);
    assert (history + [m])[..|history|] == history;
    RememberInList(ByLastOccurrence(history), m, limit);
  }

  lemma RememberTail(front: seq<Message>, kept: seq<Message>, m: Message)
    ensures Remember(kept, m, |kept|) == LastOf(front + Without(kept, m) + [m], |kept|)
  {
    assert front + Without(kept, m) + [m] == front + (Without(kept, m) + [m]);
    LastOfConcat(front, Without(kept, m) + [m], |kept|);
  }

  /** Messages that were dropped make no difference: the last `limit` decide. */
  lemma RememberInList(d: seq<Message>, m: Message, limit: nat)
    requires NoDuplicates(d)
    ensures Remember(LastOf(d, limit), m, limit) == LastOf(Without(d, m) + [m], limit)
  {
    if |d| > limit {
      var dropped, kept := d[..|d| - limit], d[|d| - limit..];
      assert d == dropped + kept;
      WithoutConcat(dropped, kept, m);
      if m in dropped {
        NotInBoth(dropped, kept, m);
        RememberTail(Without(dropped, m), kept, m);
      } else {
        RememberTail(dropped, kept, m);
      }
    }
  }

  lemma NotInBoth(a: seq<Message>, b: seq<Message>, m: Message)
    requires NoDuplicates(a + b) && m in a
    ensures m !in b
  {
    assert (a + b)[IndexOf(a, m)] == m;
    forall j | 0 <= j < |b| ensures b[j] != m {
      assert (a + b)[|a| + j] == b[j];
    }
  }

  // ---- Skipping and wiping ----

  /** `Instant::duration_since`, which saturates. */
  function Since(now: nat, at: nat): nat {
    if now < at then 0 else now - at
  }

  predicate ShouldSkip(state: ErrorState, threshold: nat, duration: nat, now: nat) {
    state.count >= threshold && Since(now, state.lastAt) < duration
  }

  predicate Retained(state: ErrorState, keep: nat, now: nat) {
    Since(now, state.lastAt) < keep
  }

  /** Wiping a state at `now` changes an answer at or after `now`. */
  ghost predicate WipeShows(state: ErrorState, threshold: nat, duration: nat, keep: nat, now: nat, at: nat) {
    now <= at && !Retained(state, keep, now) && ShouldSkip(state, threshold, duration, at)
  }

  /** Wiping old states never changes an answer until the next record if and only if states are
      kept at least as long as they cause skipping. */
  lemma WipingIsInvisible(threshold: nat, duration: nat, keep: nat)
    ensures (forall state, now, at :: !WipeShows(state, threshold, duration, keep, now, at)) <==> duration <= keep
  {
    if keep < duration {
      assert WipeShows(ErrorState([], threshold, 0), threshold, duration, keep, keep, keep);
    }
  }

  // ---- The tracker ----

  datatype Entry = Entry(message: Message, at: nat)

  function Messages(history: seq<Entry>): seq<Message> {
    seq(|history|, i requires 0 <= i < |history| => history[i].message)
  }

  /** A state is exactly what the records since the last removal amount to. */
  ghost predicate Matches(state: Option<ErrorState>, history: seq<Entry>, limit: nat) {
    && (state.None? <==> history == [])
    && (state.Some? ==>
          && state.value.count == |history|
          && state.value.lastAt == history[|history| - 1].at
          && state.value.errors == LastOf(ByLastOccurrence(Messages(history)), limit))
  }

  function Recorded(state: Option<ErrorState>, message: Message, now: nat, limit: nat): ErrorState {
    var s := if state.Some? then state.value else ErrorState([], 0, now);
    ErrorState(Remember(s.errors, message, limit), s.count + 1, now)
  }

  lemma NothingRecorded(limit: nat)
    ensures LastOf(ByLastOccurrence([]), limit) == []
  {}

  lemma RecordMatches(state: Option<ErrorState>, history: seq<Entry>, message: Message, now: nat, limit: nat)
    requires Matches(state, history, limit)
    ensures Matches(Some(Recorded(state, message, now, limit)), history + [Entry(message, now)], limit)
  {
    hide Remember, LastOf, ByLastOccurrence;
    assert Messages(history + [Entry(message, now)]) == Messages(history) + [message];
    NothingRecorded(limit);
    RememberKeepsLast(Messages(history), message, limit);
  }

  class Tracker<Key(==,!new), ErrorType(==,!new)> {
    var errorsByType: map<ErrorType, TypeState<Key>>
    const skipThreshold: nat
    const skipDuration: nat
    const uniqueMessagesToKeep: nat
    const keepDuration: nat

    /** The records since the last removal, for each type and key. */
    ghost var histories: map<(ErrorType, Key), seq<Entry>>

    function Get(t: ErrorType, k: Key): Option<ErrorState>
      reads this
    {
      if t in errorsByType && k in errorsByType[t].stateByKey then Some(errorsByType[t].stateByKey[k]) else None
    }

    ghost function History(t: ErrorType, k: Key): seq<Entry>
      reads this
    {
      if (t, k) in histories then histories[(t, k)] else []
    }

    ghost predicate Valid()
      reads this
    {
      forall t, k :: Matches(Get(t, k), History(t, k), uniqueMessagesToKeep)
    }

    function Threshold(t: ErrorType): nat
      reads this
    {
      if t in errorsByType && errorsByType[t].skipThreshold.Some? then errorsByType[t].skipThreshold.value else skipThreshold
    }

    function Duration(t: ErrorType): nat
      reads this
    {
      if t in errorsByType && errorsByType[t].skipDuration.Some? then errorsByType[t].skipDuration.value else skipDuration
    }

    /** The answer of `HadTooManyErrors`. */
    function Answer(t: ErrorType, k: Key, now: nat): Option<ErrorState>
      reads this
    {
      var state := Get(t, k);
      if state.Some? && ShouldSkip(state.value, Threshold(t), Duration(t), now) then state else None
    }

    /** The builder, with thresholds of their own for some types. */
    constructor (thresholds: map<ErrorType, nat>, skipThreshold: nat, skipDuration: nat, uniqueMessagesToKeep: nat, keepDuration: nat)
      ensures Valid() && histories == map[] && this.keepDuration == keepDuration
      ensures forall t :: Threshold(t) == (if t in thresholds then thresholds[t] else skipThreshold) && Duration(t) == skipDuration
    {
      errorsByType := map t | t in thresholds :: TypeState(map[], Some(thresholds[t]), None);
      histories := map[];
      this.skipThreshold, this.skipDuration := skipThreshold, skipDuration;
      this.uniqueMessagesToKeep, this.keepDuration := uniqueMessagesToKeep, keepDuration;
    }

    /** The state of a key that should be skipped: enough records since the last removal, the last
        of them recent enough. */
    method HadTooManyErrors(t: ErrorType, k: Key, now: nat) returns (r: Option<ErrorState>)
      requires Valid()
      ensures r.Some? <==> |History(t, k)| >= Threshold(t) && History(t, k) != []
                           && Since(now, History(t, k)[|History(t, k)| - 1].at) < Duration(t)
      ensures r == Answer(t, k, now) && (r.Some? ==> r == Get(t, k))
    {
      assert Matches(Get(t, k), History(t, k), uniqueMessagesToKeep);
      if t !in errorsByType || k !in errorsByType[t].stateByKey {
        return None;
      }
      var state := errorsByType[t].stateByKey[k];
      r := if ShouldSkip(state, Threshold(t), Duration(t), now) then Some(state) else None;
    }

    /** Appends to the history of the type and key. */
    method Record(t: ErrorType, k: Key, message: Message, now: nat)
      requires Valid()
      modifies this
      ensures Valid()
      ensures histories == old(histories)[(t, k) := old(History(t, k)) + [Entry(message, now)]]
      ensures forall u :: Threshold(u) == old(Threshold(u)) && Duration(u) == old(Duration(u))
    {
      ghost var state, history := Get(t, k), History(t, k);
      RecordMatches(state, history, message, now, uniqueMessagesToKeep);
      var ts := if t in errorsByType then errorsByType[t] else TypeState(map[], None, None);
      var next := Recorded(if k in ts.stateByKey then Some(ts.stateByKey[k]) else None, message, now, uniqueMessagesToKeep);
      errorsByType := errorsByType[t := ts.(stateByKey := ts.stateByKey[k := next])];
      histories := histories[(t, k) := history + [Entry(message, now)]];
      forall u, l ensures Matches(Get(u, l), History(u, l), uniqueMessagesToKeep) {
        assert old(Matches(Get(u, l), History(u, l), uniqueMessagesToKeep));
        assert Get(u, l) == if (u, l) == (t, k) then Some(next) else old(Get(u, l));
        assert History(u, l) == if (u, l) == (t, k) then history + [Entry(message, now)] else old(History(u, l));
      }
    }

    /** Forgets the history of the type and key. */
    method Clear(t: ErrorType, k: Key)
      requires Valid()
      modifies this
      ensures Valid()
      ensures histories == old(histories) - {(t, k)}
      ensures forall u :: Threshold(u) == old(Threshold(u)) && Duration(u) == old(Duration(u))
    {
      if t in errorsByType {
        errorsByType := errorsByType[t := errorsByType[t].(stateByKey := errorsByType[t].stateByKey - {k})];
      }
      histories := histories - {(t, k)};
      forall u, l ensures Matches(Get(u, l), History(u, l), uniqueMessagesToKeep) {
        assert old(Matches(Get(u, l), History(u, l), uniqueMessagesToKeep));
      }
    }

    /** Forgets every history whose last record is older than the keep duration. No later answer
        changes by that, for types that are skipped no longer than that. */
    method WipeOld(now: nat)
      requires Valid()
      modifies this
      ensures Valid()
      ensures forall t, k :: History(t, k) == if old(Get(t, k)).Some? && !Retained(old(Get(t, k)).value, keepDuration, now)
                                              then [] else old(History(t, k))
      ensures forall u :: Threshold(u) == old(Threshold(u)) && Duration(u) == old(Duration(u))
      ensures forall t, k, at :: now <= at && Duration(t) <= keepDuration ==> Answer(t, k, at) == old(Answer(t, k, at))
    {
      errorsByType := map t | t in errorsByType ::
        errorsByType[t].(stateByKey := map k | k in errorsByType[t].stateByKey
                                              && Retained(errorsByType[t].stateByKey[k], keepDuration, now) ::
                                         errorsByType[t].stateByKey[k]);
      histories := map h | h in histories && Get(h.0, h.1).Some? :: histories[h];
      forall u, l ensures Matches(Get(u, l), History(u, l), uniqueMessagesToKeep) {
        assert old(Matches(Get(u, l), History(u, l), uniqueMessagesToKeep));
      }
      forall t, k
        ensures History(t, k) == if old(Get(t, k)).Some? && !Retained(old(Get(t, k)).value, keepDuration, now)
                                 then [] else old(History(t, k))
      {
        assert old(Matches(Get(t, k), History(t, k), uniqueMessagesToKeep));
      }
    }
  }
}
