/** `CachedAccountFetcher`: calls that share cached accounts and coalesce into one running fetch
    per key. Calls and fetches interleave at every await; each access to the cache is one critical
    section. */
module AccountCache {
  import opened Options

  type Key = nat
  type Account = nat
  type Program = nat
  type JobId = nat
  type CallId = nat

  /** What is asked of the fetcher. A program stands for a program and a discriminator. */
  datatype Request = One(key: Key) | OfProgram(program: Program) | Multiple(keys: seq<Key>)

  datatype Reply = Error | Panic | Accounts(list: seq<(Key, Account)>)

  // ---- The cache behind the mutex ----

  /** `jobs` merges the three job tables, whose keys are disjoint. The job key of a multiple
      request is the sorted list of missing keys, standing for its hash. */
  datatype Cache = Cache(
    accounts: map<Key, Account>,
    keysFor: map<Program, seq<Key>>,
    jobs: map<Request, JobId>)

  function Insert(accounts: map<Key, Account>, list: seq<(Key, Account)>): map<Key, Account> {
    if list == [] then accounts
    else Insert(accounts, list[..|list| - 1])[list[|list| - 1].0 := list[|list| - 1].1]
  }

  function KeysOf(list: seq<(Key, Account)>): (keys: seq<Key>)
    ensures |keys| == |list|
  {
    seq(|list|, i requires 0 <= i < |list| => list[i].0)
  }

  /** The cached accounts for some keys; looking up a key that is not cached panics. */
  function Lookup(accounts: map<Key, Account>, keys: seq<Key>): Reply {
    if keys == [] then Accounts([])
    else
      var rest := Lookup(accounts, keys[..|keys| - 1]);
      var last := keys[|keys| - 1];
      if rest.Accounts? && last in accounts then Accounts(rest.list + [(last, accounts[last])]) else Panic
  }

  function Missing(accounts: map<Key, Account>, keys: seq<Key>): seq<Key> {
    if keys == [] then []
    else Missing(accounts, keys[..|keys| - 1]) + if keys[|keys| - 1] in accounts then [] else [keys[|keys| - 1]]
  }

  function InsertSorted(keys: seq<Key>, k: Key): seq<Key> {
    if keys == [] || keys[|keys| - 1] <= k then keys + [k] else InsertSorted(keys[..|keys| - 1], k) + [keys[|keys| - 1]]
  }

  function Sort(keys: seq<Key>): seq<Key> {
    if keys == [] then [] else InsertSorted(Sort(keys[..|keys| - 1]), keys[|keys| - 1])
  }

  /** The answer from the cache alone, if there is one. */
  function Hit(c: Cache, r: Request): Option<Reply> {
    match r
    case One(k) => if k in c.accounts then Some(Accounts([(k, c.accounts[k])])) else None
    case OfProgram(p) => if p in c.keysFor then Some(Lookup(c.accounts, c.keysFor[p])) else None
    case Multiple(keys) => if Missing(c.accounts, keys) == [] then Some(Lookup(c.accounts, keys)) else None
  }

  /** The key of the job that fetches what a request misses. */
  function JobKey(c: Cache, r: Request): Request {
    if r.Multiple? then Multiple(Sort(Missing(c.accounts, r.keys))) else r
  }

  /** What is fetched for a request, or would be if it were not answered from the cache. */
  function Wanted(c: Cache, r: Request): Request {
    if Hit(c, r).Some? then r else JobKey(c, r)
  }

  /** The job for `key` is the one that is registered, or else `newId`. */
  function Coalesce(c: Cache, key: Request, newId: JobId): (r: Cache)
    ensures key in r.jobs
  {
    if key in c.jobs then c else c.(jobs := c.jobs[key := newId])
  }

  /** Running jobs stay registered. */
  function Cleared(c: Cache): Cache {
    Cache(map[], map[], c.jobs)
  }

  /** Completion of a job: it leaves the table, and a successful reply is stored. */
  function Complete(c: Cache, key: Request, reply: Reply): Cache {
    var removed := c.(jobs := c.jobs - {key});
    if !reply.Accounts? then removed
    else
      var stored := removed.(accounts := Insert(c.accounts, reply.list));
      if key.OfProgram? then stored.(keysFor := c.keysFor[key.program := KeysOf(reply.list)]) else stored
  }

  /** The object the mutex protects. */
  class AccountCache {
    var accounts: map<Key, Account>
    var keysFor: map<Program, seq<Key>>
    var jobs: map<Request, JobId>

    ghost function Value(): Cache
      reads this
    {
      Cache(accounts, keysFor, jobs)
    }

    constructor ()
      ensures Value() == Cache(map[], map[], map[])
    {
      accounts, keysFor, jobs := map[], map[], map[];
    }

    /** Either returns the job for `key` or registers `newId` for it. */
    method RunCoalesced(key: Request, newId: JobId) returns (id: JobId)
      modifies this`jobs
      ensures Value() == Coalesce(old(Value()), key, newId) && id == Value().jobs[key]
      ensures id == if key in old(jobs) then old(jobs)[key] else newId
    {
      if key !in jobs {
        jobs := jobs[key := newId];
      }
      id := jobs[key];
    }

    /** The critical section at the end of a job. */
    method CompleteJob(key: Request, reply: Reply)
      modifies this
      ensures Value() == Complete(old(Value()), key, reply)
    {
      jobs := jobs - {key};
      if reply.Accounts? {
        if key.OfProgram? {
          keysFor := keysFor[key.program := KeysOf(reply.list)];
        }
        ghost var before := accounts;
        for i := 0 to |reply.list|
          invariant accounts == Insert(before, reply.list[..i])
          invariant keysFor == Complete(old(Value()), key, reply).keysFor && jobs == old(jobs) - {key}
        {
          assert reply.list[..i + 1][..i] == reply.list[..i];
          accounts := accounts[reply.list[i].0 := reply.list[i].1];
        }
        assert reply.list[..|reply.list|] == reply.list;
      }
    }

    method Clear()
      modifies this`accounts, this`keysFor
      ensures Value() == Cleared(old(Value())) && jobs == old(jobs)
    {
      accounts, keysFor := map[], map[];
    }
  }

  // ---- The protocol ----

  /** A job was created for `key`; its reply is None while it runs. */
  datatype Job = Job(key: Request, reply: Option<Reply>)

  /** A call remembers the cache as it was when it asked. */
  datatype Call = Waiting(request: Request, asked: Cache, job: JobId) | Returned(request: Request, asked: Cache, reply: Reply)

  datatype State = State(cache: Cache, jobs: map<JobId, Job>, calls: map<CallId, Call>)

  datatype Step =
    | Ask(call: CallId, request: Request, newId: JobId)
    | Finish(job: JobId, ok: bool)
    | Deliver(call: CallId)
    | ClearCache

  /** The chain, which does not change: its accounts, and the accounts of each program. */
  datatype Chain = Chain(accounts: map<Key, Account>, programs: map<Program, seq<Key>>) {
    ghost predicate Valid() {
      forall p, i :: p in programs && 0 <= i < |programs[p]| ==> programs[p][i] in accounts
    }
  }

  /** The accounts among `keys` that exist, in order. */
  function Existing(chain: Chain, keys: seq<Key>): seq<(Key, Account)> {
    if keys == [] then []
    else
      var last := keys[|keys| - 1];
      Existing(chain, keys[..|keys| - 1]) + if last in chain.accounts then [(last, chain.accounts[last])] else []
  }

  /** The reply of the underlying fetcher when it does not fail. */
  function Fetch(chain: Chain, r: Request): Reply {
    match r
    case One(k) => if k in chain.accounts then Accounts([(k, chain.accounts[k])]) else Error
    case OfProgram(p) => Accounts(if p in chain.programs then Existing(chain, chain.programs[p]) else [])
    case Multiple(keys) => Accounts(Existing(chain, keys))
  }

  predicate Enabled(s: State, step: Step) {
    match step
    case Ask(call, _, newId) => call !in s.calls && newId !in s.jobs
    case Finish(job, _) => job in s.jobs && s.jobs[job].reply.None?
    case Deliver(call) =>
      && call in s.calls && s.calls[call].Waiting?
      && s.calls[call].job in s.jobs && s.jobs[s.calls[call].job].reply.Some?
    case ClearCache => true
  }

  function Next(chain: Chain, s: State, step: Step): State
    requires Enabled(s, step)
  {
    match step
    case Ask(call, request, newId) =>
      var hit := Hit(s.cache, request);
      if hit.Some? then s.(calls := s.calls[call := Returned(request, s.cache, hit.value)])
      else
        var key := JobKey(s.cache, request);
        var cache := Coalesce(s.cache, key, newId);
        State(cache,
              if key in s.cache.jobs then s.jobs else s.jobs[newId := Job(key, None)],
              s.calls[call := Waiting(request, s.cache, cache.jobs[key])])
    case Finish(job, ok) =>
      var key := s.jobs[job].key;
      var reply := if ok then Fetch(chain, key) else Error;
      s.(cache := Complete(s.cache, key, reply), jobs := s.jobs[job := Job(key, Some(reply))])
    case Deliver(call) =>
      var c := s.calls[call];
      s.(calls := s.calls[call := Returned(c.request, c.asked, s.jobs[c.job].reply.value)])
    case ClearCache => s.(cache := Cleared(s.cache))
  }

  const Initial: State := State(Cache(map[], map[], map[]), map[], map[])

  // ---- The invariant ----

  /** Everything cached is what the chain holds, and every listed key is cached. */
  ghost predicate CacheAgrees(chain: Chain, c: Cache) {
    && (forall k :: k in c.accounts ==> k in chain.accounts && c.accounts[k] == chain.accounts[k])
    && (forall p :: p in c.keysFor ==>
          && c.keysFor[p] == (if p in chain.programs then chain.programs[p] else [])
          && forall i :: 0 <= i < |c.keysFor[p]| ==> c.keysFor[p][i] in c.accounts)
  }

  /** Registered jobs are exactly the running ones, so that there is at most one for each key. */
  ghost predicate SingleFlight(s: State) {
    && (forall key :: key in s.cache.jobs ==>
          && s.cache.jobs[key] in s.jobs
          && s.jobs[s.cache.jobs[key]] == Job(key, None))
    && (forall id :: id in s.jobs && s.jobs[id].reply.None? ==>
          s.jobs[id].key in s.cache.jobs && s.cache.jobs[s.jobs[id].key] == id)
  }

  ghost predicate JobsAgree(chain: Chain, s: State) {
    forall id :: id in s.jobs && s.jobs[id].reply.Some? ==>
      s.jobs[id].reply.value == Error || s.jobs[id].reply.value == Fetch(chain, s.jobs[id].key)
  }

  /** An answered call got an error, or what the fetcher replies to what it wanted when it asked: the
      request itself, or the missing part of a multiple request. */
  ghost predicate CallAgrees(chain: Chain, s: State, c: Call) {
    match c
    case Waiting(r, asked, job) => job in s.jobs && s.jobs[job].key == Wanted(asked, r)
    case Returned(r, asked, reply) => reply == Error || reply == Fetch(chain, Wanted(asked, r))
  }

  ghost predicate Inv(chain: Chain, s: State) {
    && CacheAgrees(chain, s.cache)
    && SingleFlight(s)
    && JobsAgree(chain, s)
    && forall call :: call in s.calls ==> CallAgrees(chain, s, s.calls[call])
  }

  ghost predicate AccountsAgree(chain: Chain, accounts: map<Key, Account>) {
    forall k :: k in accounts ==> k in chain.accounts && accounts[k] == chain.accounts[k]
  }

  ghost predicate FromChain(chain: Chain, list: seq<(Key, Account)>) {
    forall i :: 0 <= i < |list| ==> list[i].0 in chain.accounts && list[i].1 == chain.accounts[list[i].0]
  }

  lemma {:induction false} LookupAgrees(chain: Chain, accounts: map<Key, Account>, keys: seq<Key>)
    requires AccountsAgree(chain, accounts)
    requires forall i :: 0 <= i < |keys| ==> keys[i] in accounts
    ensures Lookup(accounts, keys) == Accounts(Existing(chain, keys))
  {
    if keys != [] { LookupAgrees(chain, accounts, keys[..|keys| - 1]); }
  }

  lemma {:induction false} ExistingKeys(chain: Chain, keys: seq<Key>)
    requires forall i :: 0 <= i < |keys| ==> keys[i] in chain.accounts
    ensures KeysOf(Existing(chain, keys)) == keys
  {
    if keys != [] {
      var n := |keys| - 1;
      ExistingKeys(chain, keys[..n]);
      assert keys == keys[..n] + [keys[n]];
    }
  }

  lemma {:induction false} InsertAgrees(chain: Chain, accounts: map<Key, Account>, list: seq<(Key, Account)>)
    requires AccountsAgree(chain, accounts)
    requires FromChain(chain, list)
    ensures AccountsAgree(chain, Insert(accounts, list))
    ensures forall k :: k in accounts ==> k in Insert(accounts, list)
    ensures forall i :: 0 <= i < |list| ==> list[i].0 in Insert(accounts, list)
  {
    if list != [] { InsertAgrees(chain, accounts, list[..|list| - 1]); }
  }

  lemma {:induction false} ExistingAgrees(chain: Chain, keys: seq<Key>)
    ensures FromChain(chain, Existing(chain, keys))
  {
    if keys != [] { ExistingAgrees(chain, keys[..|keys| - 1]); }
  }

  lemma {:induction false} MissingKeys(accounts: map<Key, Account>, keys: seq<Key>, k: Key)
    ensures k in Missing(accounts, keys) <==> k in keys && k !in accounts
  {
    if keys != [] {
      MissingKeys(accounts, keys[..|keys| - 1], k);
      assert keys == keys[..|keys| - 1] + [keys[|keys| - 1]];
    }
  }

  lemma {:induction false} InsertSortedKeys(keys: seq<Key>, x: Key, k: Key)
    ensures k in InsertSorted(keys, x) <==> k in keys || k == x
  {
    if keys != [] && keys[|keys| - 1] > x {
      InsertSortedKeys(keys[..|keys| - 1], x, k);
      assert keys == keys[..|keys| - 1] + [keys[|keys| - 1]];
    }
  }

  lemma {:induction false} SortKeys(keys: seq<Key>, k: Key)
    ensures k in Sort(keys) <==> k in keys
  {
    if keys != [] {
      SortKeys(keys[..|keys| - 1], k);
      InsertSortedKeys(Sort(keys[..|keys| - 1]), keys[|keys| - 1], k);
      assert keys == keys[..|keys| - 1] + [keys[|keys| - 1]];
    }
  }

  /** A hit is what the fetcher would reply; in particular no lookup panics. */
  lemma HitAgrees(chain: Chain, c: Cache, r: Request)
    requires chain.Valid() && CacheAgrees(chain, c) && Hit(c, r).Some?
    ensures Hit(c, r).value == Fetch(chain, r)
  {
    match r
    case One(k) =>
    case OfProgram(p) => LookupAgrees(chain, c.accounts, c.keysFor[p]);
    case Multiple(keys) =>
      forall i | 0 <= i < |keys| ensures keys[i] in c.accounts {
        MissingKeys(c.accounts, keys, keys[i]);
      }
      LookupAgrees(chain, c.accounts, keys);
  }

  lemma CompleteAgrees(chain: Chain, c: Cache, key: Request, ok: bool)
    requires chain.Valid() && CacheAgrees(chain, c)
    ensures CacheAgrees(chain, Complete(c, key, if ok then Fetch(chain, key) else Error))
  {
    hide Existing, Insert;
    var reply := if ok then Fetch(chain, key) else Error;
    if reply.Accounts? {
      match key {
        case One(k) =>
        case OfProgram(p) =>
          var keys := if p in chain.programs then chain.programs[p] else [];
          ExistingAgrees(chain, keys);
          ExistingKeys(chain, keys);
          assert forall i :: 0 <= i < |keys| ==> reply.list[i].0 == KeysOf(reply.list)[i] == keys[i];
        case Multiple(keys) => ExistingAgrees(chain, keys);
      }
      InsertAgrees(chain, c.accounts, reply.list);
    }
  }

  // ---- Every step keeps the invariant ----

  lemma AskKeepsJobs(chain: Chain, s: State, call: CallId, request: Request, newId: JobId)
    requires Inv(chain, s) && Enabled(s, Ask(call, request, newId))
    ensures var t := Next(chain, s, Ask(call, request, newId)); SingleFlight(t) && JobsAgree(chain, t) && CacheAgrees(chain, t.cache)
  {
    hide Hit, JobKey, Fetch, CallAgrees;
  }

  lemma AskKeepsInv(chain: Chain, s: State, call: CallId, request: Request, newId: JobId)
    requires chain.Valid() && Inv(chain, s) && Enabled(s, Ask(call, request, newId))
    ensures Inv(chain, Next(chain, s, Ask(call, request, newId)))
  {
    hide Hit, JobKey, Fetch, CacheAgrees, JobsAgree;
    var t := Next(chain, s, Ask(call, request, newId));
    AskKeepsJobs(chain, s, call, request, newId);
    if Hit(s.cache, request).Some? {
      HitAgrees(chain, s.cache, request);
    }
    forall c | c in t.calls ensures CallAgrees(chain, t, t.calls[c]) {
      if c != call { assert CallAgrees(chain, s, s.calls[c]); }
    }
  }

  lemma CompletedJobs(c: Cache, key: Request, reply: Reply)
    ensures Complete(c, key, reply).jobs == c.jobs - {key}
  {}

  lemma FinishKeepsInv(chain: Chain, s: State, job: JobId, ok: bool)
    requires chain.Valid() && Inv(chain, s) && Enabled(s, Finish(job, ok))
    ensures Inv(chain, Next(chain, s, Finish(job, ok)))
  {
    hide Complete, Fetch, CacheAgrees;
    var t := Next(chain, s, Finish(job, ok));
    CompletedJobs(s.cache, s.jobs[job].key, if ok then Fetch(chain, s.jobs[job].key) else Error);
    CompleteAgrees(chain, s.cache, s.jobs[job].key, ok);
    forall c | c in t.calls ensures CallAgrees(chain, t, t.calls[c]) {
      assert CallAgrees(chain, s, s.calls[c]);
    }
  }

  lemma DeliverKeepsInv(chain: Chain, s: State, call: CallId)
    requires Inv(chain, s) && Enabled(s, Deliver(call))
    ensures Inv(chain, Next(chain, s, Deliver(call)))
  {
    var t := Next(chain, s, Deliver(call));
    forall c | c in t.calls ensures CallAgrees(chain, t, t.calls[c]) {
      assert CallAgrees(chain, s, s.calls[c]);
    }
  }

  lemma StepKeepsInv(chain: Chain, s: State, step: Step)
    requires chain.Valid() && Inv(chain, s) && Enabled(s, step)
    ensures Inv(chain, Next(chain, s, step))
  {
    match step
    case Ask(call, request, newId) => AskKeepsInv(chain, s, call, request, newId);
    case Finish(job, ok) => FinishKeepsInv(chain, s, job, ok);
    case Deliver(call) => DeliverKeepsInv(chain, s, call);
    case ClearCache =>
      forall c | c in s.calls ensures CallAgrees(chain, Next(chain, s, step), s.calls[c]) {
        assert CallAgrees(chain, s, s.calls[c]);
      }
  }

  // ---- Runs ----

  function After(chain: Chain, steps: seq<Step>): Option<State> {
    if steps == [] then Some(Initial)
    else
      var before := After(chain, steps[..|steps| - 1]);
      if before.Some? && Enabled(before.value, steps[|steps| - 1])
      then Some(Next(chain, before.value, steps[|steps| - 1]))
      else None
  }

  /** In every interleaving, with failures and cache clears, each read that does not fail agrees with
      the chain on what was missing when it asked, which for account and program reads is the whole
      request; no cache lookup panics, and no two jobs for the same key run at once. */
  lemma {:induction false} InterleavingsAreSafe(chain: Chain, steps: seq<Step>)
    requires chain.Valid() && After(chain, steps).Some?
    ensures Inv(chain, After(chain, steps).value)
    ensures var s := After(chain, steps).value;
            && (forall i, j :: i in s.jobs && j in s.jobs && i != j && s.jobs[i].key == s.jobs[j].key ==>
                  s.jobs[i].reply.Some? || s.jobs[j].reply.Some?)
            && (forall c :: c in s.calls && s.calls[c].Returned? ==>
                  && s.calls[c].reply != Panic
                  && (s.calls[c].reply == Error || s.calls[c].reply == Fetch(chain, Wanted(s.calls[c].asked, s.calls[c].request)))
                  && (!s.calls[c].request.Multiple? ==>
                        s.calls[c].reply == Error || s.calls[c].reply == Fetch(chain, s.calls[c].request)))
  {
    if steps != [] {
      InterleavingsAreSafe(chain, steps[..|steps| - 1]);
      StepKeepsInv(chain, After(chain, steps[..|steps| - 1]).value, steps[|steps| - 1]);
    }
    var s := After(chain, steps).value;
    forall c | c in s.calls && s.calls[c].Returned?
      ensures s.calls[c].reply != Panic
      ensures !s.calls[c].request.Multiple? ==>
                s.calls[c].reply == Error || s.calls[c].reply == Fetch(chain, s.calls[c].request)
    {
      assert CallAgrees(chain, s, s.calls[c]);
    }
  }

  // ---- Multiple accounts ----

  lemma {:induction false} ExistingContains(chain: Chain, keys: seq<Key>, k: Key)
    ensures k in KeysOf(Existing(chain, keys)) <==> k in keys && k in chain.accounts
  {
    if keys != [] {
      var n := |keys| - 1;
      ExistingContains(chain, keys[..n], k);
      assert keys == keys[..n] + [keys[n]];
      var before := Existing(chain, keys[..n]);
      assert KeysOf(Existing(chain, keys))
             == KeysOf(before) + if keys[n] in chain.accounts then [keys[n]] else [];
    }
  }

  /** A multiple request that is not answered from the cache alone is answered by a job for the
      missing keys. That covers what was asked for if and only if none of the keys was cached. */
  lemma PartialHitLosesCachedKeys(chain: Chain, c: Cache, keys: seq<Key>)
    requires CacheAgrees(chain, c) && Hit(c, Multiple(keys)).None?
    ensures var got, want := Fetch(chain, JobKey(c, Multiple(keys))), Fetch(chain, Multiple(keys));
            (forall k :: k in KeysOf(got.list) <==> k in KeysOf(want.list))
            <==> forall k :: k in keys ==> k !in c.accounts
  {
    var missing := Missing(c.accounts, keys);
    forall k
      ensures k in KeysOf(Existing(chain, Sort(missing))) <==> k in keys && k !in c.accounts && k in chain.accounts
      ensures k in KeysOf(Existing(chain, keys)) <==> k in keys && k in chain.accounts
    {
      ExistingContains(chain, Sort(missing), k);
      ExistingContains(chain, keys, k);
      SortKeys(missing, k);
      MissingKeys(c.accounts, keys, k);
    }
  }
}
