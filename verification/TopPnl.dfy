/** `fetch_top`: the accounts with the largest settleable pnl of a perp market. Negative pnl is
    limited by an expensive per-account health computation, which stops early. */
module TopPnl {
  import opened Options

  type Key = nat

  datatype Direction = MaxPositive | MaxNegative

  /** An account and its pnl. */
  datatype Entry = Entry(key: Key, pnl: int)

  // ---- Stable sorting ----

  /** The sort key: ascending pnl for the negative direction, descending for the positive. */
  function Rank(dir: Direction, e: Entry): int {
    if dir == MaxNegative then e.pnl else -e.pnl
  }

  ghost predicate Sorted(dir: Direction, s: seq<Entry>) {
    forall i, j :: 0 <= i < j < |s| ==> Rank(dir, s[i]) <= Rank(dir, s[j])
  }

  function Insert(dir: Direction, s: seq<Entry>, x: Entry): seq<Entry> {
    if s == [] || Rank(dir, s[|s| - 1]) <= Rank(dir, x) then s + [x]
    else Insert(dir, s[..|s| - 1], x) + [s[|s| - 1]]
  }

  function StableSort(dir: Direction, s: seq<Entry>): seq<Entry> {
    if s == [] then [] else Insert(dir, StableSort(dir, s[..|s| - 1]), s[|s| - 1])
  }

  /** The entries of rank `v`, in order. */
  function OfRank(dir: Direction, s: seq<Entry>, v: int): seq<Entry> {
    if s == [] then []
    else OfRank(dir, s[..|s| - 1], v) + if Rank(dir, s[|s| - 1]) == v then [s[|s| - 1]] else []
  }

  lemma {:induction false} InsertSorted(dir: Direction, s: seq<Entry>, x: Entry)
    requires Sorted(dir, s)
    ensures Sorted(dir, Insert(dir, s, x))
    ensures forall e :: e in Insert(dir, s, x) <==> e in s || e == x
    ensures |Insert(dir, s, x)| == |s| + 1
  {
    if s != [] && Rank(dir, s[|s| - 1]) > Rank(dir, x) {
      var rest, last := s[..|s| - 1], s[|s| - 1];
      InsertSorted(dir, rest, x);
      assert s == rest + [last];
      forall i | 0 <= i < |Insert(dir, rest, x)|
        ensures Rank(dir, Insert(dir, rest, x)[i]) <= Rank(dir, last)
      {
        assert Insert(dir, rest, x)[i] in Insert(dir, rest, x);
      }
    }
  }

  lemma {:induction false} OfRankAppend(dir: Direction, s: seq<Entry>, x: Entry, v: int)
    ensures OfRank(dir, s + [x], v) == OfRank(dir, s, v) + if Rank(dir, x) == v then [x] else []
  {
    assert (s + [x])[..|s|] == s;
  }

  lemma {:induction false} InsertKeepsOrder(dir: Direction, s: seq<Entry>, x: Entry, v: int)
    ensures OfRank(dir, Insert(dir, s, x), v) == OfRank(dir, s + [x], v)
  {
    hide OfRank;
    if s != [] && Rank(dir, s[|s| - 1]) > Rank(dir, x) {
      var rest, last := s[..|s| - 1], s[|s| - 1];
      InsertKeepsOrder(dir, rest, x, v);
      assert s == rest + [last];
      OfRankAppend(dir, rest, last, v);
      OfRankAppend(dir, Insert(dir, rest, x), last, v);
      OfRankAppend(dir, rest, x, v);
      OfRankAppend(dir, s, x, v);
    }
  }

  /** The result is sorted, and entries of equal rank keep their order. */
  lemma {:induction false} StableSortCorrect(dir: Direction, s: seq<Entry>)
    ensures Sorted(dir, StableSort(dir, s))
    ensures forall v :: OfRank(dir, StableSort(dir, s), v) == OfRank(dir, s, v)
    ensures |StableSort(dir, s)| == |s|
    ensures forall e :: e in StableSort(dir, s) <==> e in s
  {
    if s != [] {
      var rest, last := s[..|s| - 1], s[|s| - 1];
      StableSortCorrect(dir, rest);
      assert s == rest + [last];
      InsertSorted(dir, StableSort(dir, rest), last);
      forall v ensures OfRank(dir, StableSort(dir, s), v) == OfRank(dir, s, v) {
        InsertKeepsOrder(dir, StableSort(dir, rest), last, v);
        OfRankAppend(dir, StableSort(dir, rest), last, v);
      }
    }
  }

  /** Moves a[n] down into the sorted prefix before it. */
  method InsertInPlace(dir: Direction, a: array<Entry>, n: nat)
    requires n < a.Length
    modifies a
    ensures a[..n + 1] == Insert(dir, old(a[..n]), old(a[n]))
    ensures a[n + 1..] == old(a[n + 1..])
  {
    ghost var done := a[..n];
    var x, i := a[n], n;
    while i > 0 && Rank(dir, a[i - 1]) > Rank(dir, x)
      invariant 0 <= i <= n
      invariant forall k :: 0 <= k < i ==> a[k] == done[k]
      invariant forall k :: i < k <= n ==> a[k] == done[k - 1]
      invariant forall k :: i <= k < n ==> Rank(dir, done[k]) > Rank(dir, x)
      invariant forall k :: n < k < a.Length ==> a[k] == old(a[k])
    {
      a[i] := a[i - 1];
      i := i - 1;
    }
    a[i] := x;
    InsertAt(dir, done, i, x);
    assert a[..n + 1] == done[..i] + [x] + done[i..];
  }

  lemma {:induction false} InsertAt(dir: Direction, s: seq<Entry>, i: nat, x: Entry)
    requires i <= |s|
    requires i > 0 ==> Rank(dir, s[i - 1]) <= Rank(dir, x)
    requires forall k :: i <= k < |s| ==> Rank(dir, s[k]) > Rank(dir, x)
    ensures Insert(dir, s, x) == s[..i] + [x] + s[i..]
  {
    if i < |s| {
      var rest := s[..|s| - 1];
      InsertAt(dir, rest, i, x);
      assert rest[..i] == s[..i] && rest[i..] + [s[|s| - 1]] == s[i..];
    } else {
      assert s[..i] == s && s[i..] == [];
    }
  }

  /** A stable sort of an array in place. */
  method SortInPlace(dir: Direction, a: array<Entry>)
    modifies a
    ensures a[..] == StableSort(dir, old(a[..]))
  {
    ghost var input := a[..];
    for n := 0 to a.Length
      invariant a[..n] == StableSort(dir, input[..n])
      invariant a[n..] == input[n..]
    {
      assert input[..n + 1][..n] == input[..n] && a[n] == input[n];
      assert input[n + 1..] == input[n..][1..] == a[n + 1..];
      InsertInPlace(dir, a, n);
    }
    assert a[..] == a[..a.Length] && input == input[..a.Length];
  }

  // ---- The reference: limit every account, then sort ----

  /** What an account can settle, given its maximum. */
  function Settleable(pnl: int, maxSettle: int): int {
    if maxSettle > 0 then (if pnl < -maxSettle then -maxSettle else pnl) else 0
  }

  /** `s` with its first `n` entries limited. */
  function Limited(s: seq<Entry>, maxSettle: Key -> int, n: nat): (r: seq<Entry>)
    requires n <= |s|
    ensures |r| == |s|
  {
    seq(|s|, i requires 0 <= i < |s| =>
      if i < n then Entry(s[i].key, Settleable(s[i].pnl, maxSettle(s[i].key))) else s[i])
  }

  function Take(s: seq<Entry>, count: nat): seq<Entry> {
    if count <= |s| then s[..count] else s
  }

  /** Accounts with pnl on the wrong side or zero are not candidates. */
  function Candidates(dir: Direction, accounts: seq<Entry>): seq<Entry> {
    if accounts == [] then []
    else
      var last := accounts[|accounts| - 1];
      Candidates(dir, accounts[..|accounts| - 1]) + if Rank(dir, last) < 0 then [last] else []
  }

  lemma {:induction false} CandidatesHaveSign(dir: Direction, accounts: seq<Entry>, e: Entry)
    ensures e in Candidates(dir, accounts) <==> e in accounts && Rank(dir, e) < 0
  {
    if accounts != [] {
      CandidatesHaveSign(dir, accounts[..|accounts| - 1], e);
      assert accounts == accounts[..|accounts| - 1] + [accounts[|accounts| - 1]];
    }
  }

  /** The full computation for the negative direction. */
  function TopNegative(accounts: seq<Entry>, maxSettle: Key -> int, count: nat): seq<Entry> {
    var sorted := StableSort(MaxNegative, Candidates(MaxNegative, accounts));
    Take(StableSort(MaxNegative, Limited(sorted, maxSettle, |sorted|)), count)
  }

  // ---- Entries that come after `count` others never reach the top ----

  /** How many entries of `s` have pnl at most `t`. */
  function CountLe(s: seq<Entry>, t: int): nat {
    if s == [] then 0 else CountLe(s[..|s| - 1], t) + if s[|s| - 1].pnl <= t then 1 else 0
  }

  lemma {:induction false} CountLeAppend(s: seq<Entry>, x: Entry, t: int)
    ensures CountLe(s + [x], t) == CountLe(s, t) + if x.pnl <= t then 1 else 0
  {
    assert (s + [x])[..|s|] == s;
  }

  lemma {:induction false} CountLeInsert(s: seq<Entry>, x: Entry, t: int)
    ensures CountLe(Insert(MaxNegative, s, x), t) == CountLe(s, t) + if x.pnl <= t then 1 else 0
  {
    if s != [] && s[|s| - 1].pnl > x.pnl {
      CountLeInsert(s[..|s| - 1], x, t);
      CountLeAppend(Insert(MaxNegative, s[..|s| - 1], x), s[|s| - 1], t);
    } else {
      CountLeAppend(s, x, t);
    }
  }

  lemma {:induction false} CountLeSort(s: seq<Entry>, t: int)
    ensures CountLe(StableSort(MaxNegative, s), t) == CountLe(s, t)
  {
    if s != [] {
      CountLeSort(s[..|s| - 1], t);
      CountLeInsert(StableSort(MaxNegative, s[..|s| - 1]), s[|s| - 1], t);
    }
  }

  lemma {:induction false} CountLeBound(s: seq<Entry>, t: int)
    ensures CountLe(s, t) <= |s|
  {
    if s != [] { CountLeBound(s[..|s| - 1], t); }
  }

  /** An insertion behind `count` entries leaves the first `count` alone. */
  lemma {:induction false} InsertBehind(s: seq<Entry>, x: Entry, t: int, count: nat)
    requires t <= x.pnl && count <= CountLe(s, t)
    ensures Take(Insert(MaxNegative, s, x), count) == Take(s, count)
  {
    CountLeBound(s, t);
    if s != [] && s[|s| - 1].pnl > x.pnl {
      InsertBehind(s[..|s| - 1], x, t, count);
      CountLeBound(s[..|s| - 1], t);
      CountLeInsert(s[..|s| - 1], x, t);
      CountLeBound(Insert(MaxNegative, s[..|s| - 1], x), t);
      assert s[..|s| - 1][..count] == s[..count];
    }
  }

  lemma {:induction false} SuffixBehind(s: seq<Entry>, suffix: seq<Entry>, t: int, count: nat)
    requires count <= CountLe(s, t)
    requires forall e :: e in suffix ==> t <= e.pnl
    ensures Take(StableSort(MaxNegative, s + suffix), count) == Take(StableSort(MaxNegative, s), count)
    ensures count <= CountLe(s + suffix, t)
  {
    if suffix == [] {
      assert s + suffix == s;
    } else {
      var front, last := suffix[..|suffix| - 1], suffix[|suffix| - 1];
      SuffixBehind(s, front, t, count);
      LastBehind(s + front, last, t, count);
      assert s + suffix == s + front + [last];
    }
  }

  lemma LastBehind(s: seq<Entry>, last: Entry, t: int, count: nat)
    requires count <= CountLe(s, t) && t <= last.pnl
    ensures Take(StableSort(MaxNegative, s + [last]), count) == Take(StableSort(MaxNegative, s), count)
    ensures count <= CountLe(s + [last], t)
  {
    assert (s + [last])[..|s|] == s;
    CountLeSort(s, t);
    InsertBehind(StableSort(MaxNegative, s), last, t, count);
  }

  // ---- The early exit ----

  /** The pnl the loop compares entry `i` with. */
  function NextPnl(s: seq<Entry>, i: nat): int {
    if i + 1 < |s| then s[i + 1].pnl else 0
  }

  /** How many of the first `n` entries stay in place when they are limited. */
  function StableCount(s: seq<Entry>, maxSettle: Key -> int, n: nat): nat
    requires n <= |s|
  {
    if n == 0 then 0
    else StableCount(s, maxSettle, n - 1)
         + if Settleable(s[n - 1].pnl, maxSettle(s[n - 1].key)) <= NextPnl(s, n - 1) then 1 else 0
  }

  lemma {:induction false} StableEntriesUpTo(s: seq<Entry>, maxSettle: Key -> int, n: nat, t: int, k: nat)
    requires Sorted(MaxNegative, s) && k <= n < |s| && t == s[n].pnl
    ensures StableCount(s, maxSettle, k) <= CountLe(Limited(s, maxSettle, n)[..k], t)
  {
    if k > 0 {
      StableEntriesUpTo(s, maxSettle, n, t, k - 1);
      var p := Limited(s, maxSettle, n)[..k];
      assert p[..k - 1] == Limited(s, maxSettle, n)[..k - 1];
      assert NextPnl(s, k - 1) <= t;
    }
  }

  lemma LimitingRaises(s: seq<Entry>, maxSettle: Key -> int, n: nat, k: nat)
    requires Sorted(MaxNegative, s) && n < |s| && k <= |s|
    requires forall i :: 0 <= i < |s| ==> s[i].pnl < 0
    ensures forall e :: e in Limited(s, maxSettle, k)[n..] ==> s[n].pnl <= e.pnl
  {
    var r := Limited(s, maxSettle, k);
    forall e | e in r[n..]
      ensures s[n].pnl <= e.pnl
    {
      var i :| n <= i < |r| && r[i] == e;
      assert r[i] == if i < k then Entry(s[i].key, Settleable(s[i].pnl, maxSettle(s[i].key))) else s[i];
      assert i == n || Rank(MaxNegative, s[n]) <= Rank(MaxNegative, s[i]);
    }
  }

  /** Only the maxima of the examined entries matter. */
  lemma {:induction false} ExaminedDecide(s: seq<Entry>, f: Key -> int, g: Key -> int, n: nat)
    requires n <= |s|
    requires forall i :: 0 <= i < n ==> f(s[i].key) == g(s[i].key)
    ensures Limited(s, f, n) == Limited(s, g, n)
    ensures StableCount(s, f, n) == StableCount(s, g, n)
  {
    if n > 0 {
      ExaminedDecide(s, f, g, n - 1);
    }
  }

  /** Stopping after `n` entries gives the same top as limiting all of them. */
  lemma EarlyExit(s: seq<Entry>, maxSettle: Key -> int, n: nat, count: nat)
    requires Sorted(MaxNegative, s) && n <= |s|
    requires forall i :: 0 <= i < |s| ==> s[i].pnl < 0
    requires n == |s| || count <= StableCount(s, maxSettle, n)
    ensures Take(StableSort(MaxNegative, Limited(s, maxSettle, n)), count)
            == Take(StableSort(MaxNegative, Limited(s, maxSettle, |s|)), count)
  {
    if n < |s| {
      var some, all := Limited(s, maxSettle, n), Limited(s, maxSettle, |s|);
      var t := s[n].pnl;
      StableEntriesUpTo(s, maxSettle, n, t, n);
      assert some[..n] == all[..n];
      assert some == some[..n] + some[n..] && all == all[..n] + all[n..];
      LimitingRaises(s, maxSettle, n, n);
      LimitingRaises(s, maxSettle, n, |s|);
      SuffixBehind(some[..n], some[n..], t, count);
      SuffixBehind(all[..n], all[n..], t, count);
    }
  }

  // ---- The function of the source ----

  ghost predicate Completes(full: Key -> int, maxSettle: Key -> Option<int>) {
    forall k: Key :: maxSettle(k).Some? ==> full(k) == maxSettle(k).value
  }

  function Filled(maxSettle: Key -> Option<int>): Key -> int {
    (k: Key) => if maxSettle(k).Some? then maxSettle(k).value else 0
  }

  ghost predicate Known(s: seq<Entry>, maxSettle: Key -> Option<int>, n: nat)
    requires n <= |s|
  {
    forall i :: 0 <= i < n ==> maxSettle(s[i].key).Some?
  }

  /** The loop examines at least until one entry stays in place, even for a count of 0. */
  function Enough(count: nat): nat {
    if count == 0 then 1 else count
  }

  /** Entry `i` is examined and its health cannot be computed. */
  ghost predicate FailsAt(s: seq<Entry>, maxSettle: Key -> Option<int>, i: nat, count: nat) {
    && i < |s| && maxSettle(s[i].key) == None && Known(s, maxSettle, i)
    && StableCount(s, Filled(maxSettle), i) < Enough(count)
  }

  lemma {:induction false} StableCountGrows(s: seq<Entry>, maxSettle: Key -> int, i: nat, j: nat)
    requires i <= j <= |s|
    ensures StableCount(s, maxSettle, i) <= StableCount(s, maxSettle, j)
  {
    if i < j { StableCountGrows(s, maxSettle, i, j - 1); }
  }

  lemma NothingFails(s: seq<Entry>, maxSettle: Key -> Option<int>, n: nat, count: nat)
    requires n <= |s| && Known(s, maxSettle, n)
    requires n == |s| || Enough(count) <= StableCount(s, Filled(maxSettle), n)
    ensures forall i: nat :: !FailsAt(s, maxSettle, i, count)
  {
    forall i: nat | n <= i < |s| ensures !FailsAt(s, maxSettle, i, count) {
      StableCountGrows(s, Filled(maxSettle), n, i);
    }
  }

  /** The loop of the negative direction over the sorted array. `maxSettle` is None for an account
      whose health cannot be computed, which fails the whole call if the account is examined. */
  method LimitInPlace(a: array<Entry>, maxSettle: Key -> Option<int>, count: nat)
    returns (ok: bool, ghost n: nat)
    modifies a
    ensures n <= a.Length
    ensures !ok <==> exists i: nat :: FailsAt(old(a[..]), maxSettle, i, count)
    ensures ok ==> a[..] == Limited(old(a[..]), Filled(maxSettle), n)
    ensures ok ==> n == a.Length || count <= StableCount(old(a[..]), Filled(maxSettle), n)
    ensures ok ==> Known(old(a[..]), maxSettle, n)
  {
    ghost var s, full := a[..], Filled(maxSettle);
    var stable := 0;
    n := 0;
    assert a[..] == Limited(s, full, 0);
    for i := 0 to a.Length
      invariant n == i
      invariant a[..] == Limited(s, full, i)
      invariant stable == StableCount(s, full, i) < Enough(count)
      invariant Known(s, maxSettle, i)
    {
      assert a[..][i] == s[i];
      var nextPnl := 0;
      if i + 1 < a.Length {
        assert a[..][i + 1] == s[i + 1];
        nextPnl := a[i + 1].pnl;
      }
      var max := maxSettle(a[i].key);
      if max == None {
        assert FailsAt(s, maxSettle, i, count);
        return false, n;
      }
      var settleable := Settleable(a[i].pnl, max.value);
      a[i] := Entry(a[i].key, settleable);
      n := i + 1;
      assert a[..] == Limited(s, full, n);
      if settleable <= nextPnl {
        stable := stable + 1;
        if stable >= count {
          NothingFails(s, maxSettle, n, count);
          return true, n;
        }
      }
    }
    NothingFails(s, maxSettle, n, count);
    ok := true;
  }

  function SortedNegative(accounts: seq<Entry>): seq<Entry> {
    StableSort(MaxNegative, Candidates(MaxNegative, accounts))
  }

  lemma SortedNegativeContains(accounts: seq<Entry>)
    ensures Sorted(MaxNegative, SortedNegative(accounts))
    ensures forall e :: e in SortedNegative(accounts) <==> e in accounts && e.pnl < 0
  {
    StableSortCorrect(MaxNegative, Candidates(MaxNegative, accounts));
    forall e ensures e in SortedNegative(accounts) <==> e in accounts && e.pnl < 0 {
      CandidatesHaveSign(MaxNegative, accounts, e);
    }
  }

  /** The examined prefix decides the result, whatever the maxima of the other accounts. */
  lemma PrefixDecides(accounts: seq<Entry>, f: Key -> int, g: Key -> int, n: nat, count: nat)
    requires n <= |SortedNegative(accounts)|
    requires n == |SortedNegative(accounts)| || count <= StableCount(SortedNegative(accounts), f, n)
    requires forall i :: 0 <= i < n ==> f(SortedNegative(accounts)[i].key) == g(SortedNegative(accounts)[i].key)
    ensures Take(StableSort(MaxNegative, Limited(SortedNegative(accounts), f, n)), count) == TopNegative(accounts, g, count)
  {
    var sorted := SortedNegative(accounts);
    SortedNegativeContains(accounts);
    forall i | 0 <= i < |sorted| ensures sorted[i].pnl < 0 { assert sorted[i] in sorted; }
    ExaminedDecide(sorted, f, g, n);
    EarlyExit(sorted, g, n, count);
  }

  /** `fetch_top`: Err when an account that is examined has no health, else the top `count`. In
      the negative direction the result is that of the full computation, whatever the maxima of
      the accounts that were never examined. */
  method FetchTop(dir: Direction, accounts: seq<Entry>, maxSettle: Key -> Option<int>, count: nat)
    returns (top: Option<seq<Entry>>)
    ensures dir == MaxPositive ==>
              top == Some(Take(StableSort(dir, Candidates(dir, accounts)), count))
    ensures dir == MaxNegative && top.Some? ==>
              forall full: Key -> int :: Completes(full, maxSettle) ==> top.value == TopNegative(accounts, full, count)
    ensures top.None? <==> dir == MaxNegative && exists i: nat :: FailsAt(SortedNegative(accounts), maxSettle, i, count)
  {
    var list := Collect(dir, accounts);
    var a := new Entry[|list|](i requires 0 <= i < |list| => list[i]);
    assert a[..] == list;
    SortInPlace(dir, a);
    if dir == MaxPositive {
      return Some(Take(a[..], count));
    }
    top := LimitAndTake(accounts, a, maxSettle, count);
  }

  /** The rest of the negative direction, from the sorted candidates. */
  method LimitAndTake(ghost accounts: seq<Entry>, a: array<Entry>, maxSettle: Key -> Option<int>, count: nat)
    returns (top: Option<seq<Entry>>)
    requires a[..] == SortedNegative(accounts)
    modifies a
    ensures top.Some? ==>
              forall full: Key -> int :: Completes(full, maxSettle) ==> top.value == TopNegative(accounts, full, count)
    ensures top.None? <==> exists i: nat :: FailsAt(SortedNegative(accounts), maxSettle, i, count)
  {
    var ok, n := LimitInPlace(a, maxSettle, count);
    if !ok {
      return None;
    }
    SortInPlace(MaxNegative, a);
    top := Some(Take(a[..], count));
    forall full: Key -> int | Completes(full, maxSettle)
      ensures top.value == TopNegative(accounts, full, count)
    {
      PrefixDecides(accounts, Filled(maxSettle), full, n, count);
    }
  }

  /** The filtering pass that builds the candidate list. */
  method Collect(dir: Direction, accounts: seq<Entry>) returns (list: seq<Entry>)
    ensures list == Candidates(dir, accounts)
  {
    list := [];
    for i := 0 to |accounts|
      invariant list == Candidates(dir, accounts[..i])
    {
      assert accounts[..i + 1][..i] == accounts[..i];
      if Rank(dir, accounts[i]) < 0 {
        list := list + [accounts[i]];
      }
    }
    assert accounts[..|accounts|] == accounts;
  }
}
