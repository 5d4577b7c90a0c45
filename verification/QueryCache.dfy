/** faim_native/orchestration/query_flow.py: recall through the version-keyed cache of
    faim_native/cache/query_cache.py, for any number of interleaved queries. A query reads the
    graph version, looks in the cache, and on a miss recalls and stores; Redis may lose
    entries or be unreachable, and graphs may change, between any two of these steps. */
module QueryCache {
  import opened Options
  import opened CacheKey

  type Client = int

  type Results = seq<(string, real)>

  datatype Query = Query(tenant: string, graph: string, vector: int, profile: string)

  const RECALL_K := 200

  /** The vector hash, and recall as a function of the query and the graph version. */
  datatype Env = Env(hash: int -> string, recall: (Query, nat) -> Results) {
    function Key(q: Query, version: nat): string {
      MakeCacheKey(Fields(q.tenant, q.graph, version, hash(q.vector), q.profile, RECALL_K))
    }

    ghost predicate GoodHash() {
      && (forall v :: ColonFree(hash(v)))
      && forall v, w :: hash(v) == hash(w) ==> v == w
    }
  }

  predicate CleanQuery(q: Query) {
    ColonFree(q.tenant) && ColonFree(q.graph) && ColonFree(q.profile)
  }

  datatype Phase =
    | Looking(query: Query, version: nat)                     // the version has been read
    | Missed(query: Query, version: nat)                      // the cache had nothing
    | Recalled(query: Query, version: nat, results: Results)  // to be stored under that version
    | Answered(query: Query, version: nat, results: Results)

  type Redis = map<string, Results>

  datatype State = State(versions: map<(string, string), nat>, redis: Redis, clients: map<Client, Phase>) {
    function Version(q: Query): nat {
      if (q.tenant, q.graph) in versions then versions[(q.tenant, q.graph)] else 0
    }
  }

  datatype Event =
    | Ask(client: Client, query: Query)
    | Get(client: Client, reachable: bool)
    | Recall(client: Client)
    | Set(client: Client, reachable: bool)
    | Expire(keys: set<string>)
    | Bump(tenant: string, graph: string)

  predicate Enabled(s: State, e: Event) {
    match e
    case Ask(c, q) => c !in s.clients && CleanQuery(q)
    case Get(c, _) => c in s.clients && s.clients[c].Looking?
    case Recall(c) => c in s.clients && s.clients[c].Missed?
    case Set(c, _) => c in s.clients && s.clients[c].Recalled?
    case Expire(_) => true
    case Bump(_, _) => true
  }

  function Apply(env: Env, s: State, e: Event): State
    requires Enabled(s, e)
  {
    match e
    case Ask(c, q) => s.(clients := s.clients[c := Looking(q, s.Version(q))])
    case Get(c, reachable) =>
      var p := s.clients[c];
      var key := env.Key(p.query, p.version);
      if reachable && key in s.redis && s.redis[key] != [] then
        s.(clients := s.clients[c := Answered(p.query, p.version, s.redis[key])])
      else s.(clients := s.clients[c := Missed(p.query, p.version)])
    case Recall(c) =>
      var p := s.clients[c];
      s.(clients := s.clients[c := Recalled(p.query, p.version, env.recall(p.query, s.Version(p.query)))])
    case Set(c, reachable) =>
      var p := s.clients[c];
      s.(clients := s.clients[c := Answered(p.query, p.version, p.results)],
         redis := if reachable && p.results != [] then s.redis[env.Key(p.query, p.version) := p.results] else s.redis)
    case Expire(keys) => s.(redis := s.redis - keys)
    case Bump(t, g) =>
      s.(versions := s.versions[(t, g) := (if (t, g) in s.versions then s.versions[(t, g)] else 0) + 1])
  }

  predicate Possible(env: Env, s: State, run: seq<Event>)
    decreases |run|
  {
    run == [] || (Enabled(s, run[0]) && Possible(env, Apply(env, s, run[0]), run[1..]))
  }

  function After(env: Env, s: State, run: seq<Event>): State
    requires Possible(env, s, run)
    decreases |run|
  {
    if run == [] then s else After(env, Apply(env, s, run[0]), run[1..])
  }

  const START := State(map[], map[], map[])

  // ---- nothing older than the version read is ever returned

  /** The results are a recall at some version from `since` to the present one. */
  ghost predicate Current(env: Env, s: State, q: Query, since: nat, results: Results) {
    exists w :: since <= w <= s.Version(q) && results == env.recall(q, w)
  }

  /** The entry belongs to one clean query and version, and is no older than it. */
  ghost predicate GoodEntry(env: Env, s: State, key: string) {
    key in s.redis && exists q, v :: CleanQuery(q) && key == env.Key(q, v) && Current(env, s, q, v, s.redis[key])
  }

  ghost predicate GoodPhase(env: Env, s: State, p: Phase) {
    && CleanQuery(p.query) && p.version <= s.Version(p.query)
    && (p.Recalled? || p.Answered? ==> Current(env, s, p.query, p.version, p.results))
  }

  ghost predicate GoodClient(env: Env, s: State, c: Client) {
    c in s.clients && GoodPhase(env, s, s.clients[c])
  }

  ghost predicate Inv(env: Env, s: State) {
    && (forall key {:trigger GoodEntry(env, s, key)} :: key in s.redis ==> GoodEntry(env, s, key))
    && (forall c {:trigger GoodClient(env, s, c)} :: c in s.clients ==> GoodClient(env, s, c))
  }

  lemma SameKeySameQuery(env: Env, q: Query, v: nat, r: Query, w: nat)
    requires env.GoodHash() && CleanQuery(q) && env.Key(q, v) == env.Key(r, w)
    ensures q == r && v == w
  {
    KeyInjective(Fields(q.tenant, q.graph, v, env.hash(q.vector), q.profile, RECALL_K),
                 Fields(r.tenant, r.graph, w, env.hash(r.vector), r.profile, RECALL_K));
  }

  /** Later states only move versions up. */
  ghost predicate Newer(s: State, t: State) {
    forall q: Query :: s.Version(q) <= t.Version(q)
  }

  lemma CurrentPersists(env: Env, s: State, t: State, q: Query, since: nat, results: Results)
    requires Current(env, s, q, since, results) && Newer(s, t)
    ensures Current(env, t, q, since, results)
  {
    var w :| since <= w <= s.Version(q) && results == env.recall(q, w);
    assert since <= w <= t.Version(q);
  }

  lemma EntryPersists(env: Env, s: State, t: State, key: string)
    requires GoodEntry(env, s, key) && Newer(s, t) && key in t.redis && t.redis[key] == s.redis[key]
    ensures GoodEntry(env, t, key)
  {
    var q, v :| CleanQuery(q) && key == env.Key(q, v) && Current(env, s, q, v, s.redis[key]);
    CurrentPersists(env, s, t, q, v, s.redis[key]);
  }

  lemma PhasePersists(env: Env, s: State, t: State, p: Phase)
    requires GoodPhase(env, s, p) && Newer(s, t)
    ensures GoodPhase(env, t, p)
  {
    if p.Recalled? || p.Answered? { CurrentPersists(env, s, t, p.query, p.version, p.results); }
  }

  /** What the acting client becomes is good again. */
  lemma ActorStaysGood(env: Env, s: State, e: Event)
    requires Inv(env, s) && env.GoodHash() && Enabled(s, e) && !e.Expire? && !e.Bump?
    ensures var t := Apply(env, s, e); e.client in t.clients && GoodPhase(env, t, t.clients[e.client])
  {
    var t := Apply(env, s, e);
    if e.Ask? { return; }
    assert GoodClient(env, s, e.client);
    var p := s.clients[e.client];
    if e.Get? && t.clients[e.client].Answered? {
      var key := env.Key(p.query, p.version);
      assert GoodEntry(env, s, key);
      var q, v :| CleanQuery(q) && key == env.Key(q, v) && Current(env, s, q, v, s.redis[key]);
      SameKeySameQuery(env, p.query, p.version, q, v);
      CurrentPersists(env, s, t, q, v, s.redis[key]);
    }
    if e.Recall? {
      assert p.version <= t.Version(p.query) && t.clients[e.client].results == env.recall(p.query, t.Version(p.query));
    }
    if e.Set? { CurrentPersists(env, s, t, p.query, p.version, p.results); }
  }

  lemma StepKeepsInv(env: Env, s: State, e: Event)
    requires Inv(env, s) && env.GoodHash() && Enabled(s, e)
    ensures Inv(env, Apply(env, s, e))
  {
    var t := Apply(env, s, e);
    assert Newer(s, t);
    if !e.Expire? && !e.Bump? { ActorStaysGood(env, s, e); }
    forall key {:trigger GoodEntry(env, t, key)} | key in t.redis ensures GoodEntry(env, t, key) {
      if key in s.redis && t.redis[key] == s.redis[key] {
        assert GoodEntry(env, s, key);
        EntryPersists(env, s, t, key);
      } else {
        var p := t.clients[e.client];
        assert CleanQuery(p.query) && key == env.Key(p.query, p.version);
      }
    }
    forall c {:trigger GoodClient(env, t, c)} | c in t.clients ensures GoodClient(env, t, c) {
      if e.Expire? || e.Bump? || c != e.client {
        assert GoodClient(env, s, c);
        PhasePersists(env, s, t, s.clients[c]);
      }
    }
  }

  lemma {:induction false} RunKeepsInv(env: Env, s: State, run: seq<Event>)
    requires Inv(env, s) && env.GoodHash() && Possible(env, s, run)
    ensures Inv(env, After(env, s, run))
    decreases |run|
  {
    if run != [] {
      StepKeepsInv(env, s, run[0]);
      RunKeepsInv(env, Apply(env, s, run[0]), run[1..]);
    }
  }

  /** However queries, expiry, outages and version bumps interleave, an answer is a recall at
      a version no older than the one its query read, and no newer than the present. */
  lemma AnswersAreCurrent(env: Env, run: seq<Event>, c: Client)
    requires env.GoodHash() && Possible(env, START, run)
    requires c in After(env, START, run).clients && After(env, START, run).clients[c].Answered?
    ensures var s := After(env, START, run);
            var p := s.clients[c];
            && p.version <= s.Version(p.query)
            && exists w :: p.version <= w <= s.Version(p.query) && p.results == env.recall(p.query, w)
  {
    RunKeepsInv(env, START, run);
    assert GoodClient(env, After(env, START, run), c);
  }

  /** While its graph has not changed since the query began, the answer through the cache is
      exactly what recall computes now. */
  lemma UnchangedGraphAnswersExactly(env: Env, run: seq<Event>, c: Client)
    requires env.GoodHash() && Possible(env, START, run)
    requires c in After(env, START, run).clients && After(env, START, run).clients[c].Answered?
    requires var s := After(env, START, run); s.Version(s.clients[c].query) == s.clients[c].version
    ensures var s := After(env, START, run);
            s.clients[c].results == env.recall(s.clients[c].query, s.Version(s.clients[c].query))
  {
    AnswersAreCurrent(env, run, c);
  }

  // ---- the source's calls take these steps

  function HitEvents(c: Client, reachable: bool): seq<Event> {
    [Get(c, reachable)]
  }

  function MissEvents(c: Client, getReachable: bool, setReachable: bool): seq<Event> {
    [Get(c, getReachable), Recall(c), Set(c, setReachable)]
  }

  class Cache {
    const env: Env
    var redis: Redis

    constructor (env: Env)
      ensures this.env == env && redis == map[]
    {
      this.env := env;
      redis := map[];
    }

    /** `QueryCache.get` */
    method Get(q: Query, version: nat, reachable: bool) returns (r: Option<Results>)
      ensures r == if reachable && env.Key(q, version) in redis then Some(redis[env.Key(q, version)]) else None
    {
      if !reachable { return None; }
      var key := env.Key(q, version);
      if key !in redis { return None; }
      r := Some(redis[key]);
    }

    /** `QueryCache.set` */
    method Set(q: Query, version: nat, results: Results, reachable: bool) returns (stored: bool)
      modifies this
      ensures stored == reachable
      ensures redis == if reachable then old(redis)[env.Key(q, version) := results] else old(redis)
    {
      if !reachable { return false; }
      redis := redis[env.Key(q, version) := results];
      stored := true;
    }

    /** The lookup and fill of `run_query`: a `Get`, and on a miss a `Recall` and a `Set`. */
    method CachedRecall(q: Query, version: nat, getReachable: bool, setReachable: bool, ghost s: State, ghost c: Client)
      returns (candidates: Results, hit: bool)
      requires c in s.clients && s.clients[c] == Looking(q, version) && s.redis == redis
      requires version == s.Version(q)
      modifies this
      ensures var events := if hit then HitEvents(c, getReachable) else MissEvents(c, getReachable, setReachable);
              && Possible(env, s, events)
              && After(env, s, events)
                 == s.(redis := redis, clients := s.clients[c := Answered(q, version, candidates)])
    {
      var cached := Get(q, version, getReachable);
      if cached.Some? && cached.value != [] {
        ghost var t := Apply(env, s, Event.Get(c, getReachable));
        assert After(env, t, []) == t && Possible(env, t, []);
        return cached.value, true;
      }
      candidates := env.recall(q, version);
      if candidates != [] { var _ := Set(q, version, candidates, setReachable); }
      hit := false;
      MissSteps(env, s, c, q, version, getReachable, setReachable);
    }
  }

  lemma MissSteps(env: Env, s: State, c: Client, q: Query, version: nat, getReachable: bool, setReachable: bool)
    requires c in s.clients && s.clients[c] == Looking(q, version) && version == s.Version(q)
    requires var key := env.Key(q, version); !(getReachable && key in s.redis && s.redis[key] != [])
    ensures var events := MissEvents(c, getReachable, setReachable);
            var results := env.recall(q, version);
            && Possible(env, s, events)
            && After(env, s, events)
               == s.(clients := s.clients[c := Answered(q, version, results)],
                     redis := if setReachable && results != [] then s.redis[env.Key(q, version) := results]
                              else s.redis)
  {
    var events := MissEvents(c, getReachable, setReachable);
    var missed := Apply(env, s, events[0]);
    var recalled := Apply(env, missed, events[1]);
    var answered := Apply(env, recalled, events[2]);
    assert events[1..] == [events[1], events[2]] && events[1..][1..] == [events[2]] && events[1..][1..][1..] == [];
    assert Possible(env, answered, []) && After(env, answered, []) == answered;
    assert Possible(env, recalled, [events[2]]) && After(env, recalled, [events[2]]) == answered;
    assert Possible(env, missed, events[1..]) && After(env, missed, events[1..]) == answered;
    assert answered.clients == s.clients[c := Answered(q, version, env.recall(q, version))];
  }

  // ---- entries are used

  ghost predicate Stored(s: State, key: string) {
    key in s.redis && s.redis[key] != []
  }

  /** No event of the run takes the entry away. */
  ghost predicate Spares(run: seq<Event>, key: string) {
    forall e :: e in run && e.Expire? ==> key !in e.keys
  }

  lemma {:induction false} EntryStays(env: Env, s: State, run: seq<Event>, key: string)
    requires Stored(s, key) && Possible(env, s, run) && Spares(run, key)
    ensures Stored(After(env, s, run), key)
    decreases |run|
  {
    if run != [] {
      assert run[0] in run && forall e :: e in run[1..] ==> e in run;
      EntryStays(env, Apply(env, s, run[0]), run[1..], key);
    }
  }

  /** What one query stored answers the next of its kind, if it did not expire meanwhile, Redis
      is reachable and that query read the same version: nothing is recalled again. */
  lemma StoredEntryIsHit(env: Env, s: State, d: Client, run: seq<Event>, c: Client)
    requires Enabled(s, Set(d, true)) && s.clients[d].results != []
    requires var key := env.Key(s.clients[d].query, s.clients[d].version);
             Possible(env, Apply(env, s, Set(d, true)), run) && Spares(run, key)
    requires var t := After(env, Apply(env, s, Set(d, true)), run);
             c in t.clients && t.clients[c] == Looking(s.clients[d].query, s.clients[d].version)
    ensures var t := After(env, Apply(env, s, Set(d, true)), run);
            var key := env.Key(s.clients[d].query, s.clients[d].version);
            && Enabled(t, Get(c, true)) && key in t.redis
            && Apply(env, t, Get(c, true)).clients[c]
               == Answered(s.clients[d].query, s.clients[d].version, t.redis[key])
  {
    EntryStays(env, Apply(env, s, Set(d, true)), run, env.Key(s.clients[d].query, s.clients[d].version));
  }

  /** Without an entry, or during an outage, the query misses, and then recalls from the graph
      as it is. */
  lemma MissMeaning(env: Env, s: State, c: Client, reachable: bool)
    requires Enabled(s, Get(c, reachable))
    requires !reachable || !Stored(s, env.Key(s.clients[c].query, s.clients[c].version))
    ensures var q, t := s.clients[c].query, Apply(env, s, Get(c, reachable));
            && Enabled(t, Recall(c))
            && Apply(env, t, Recall(c)).clients[c] == Recalled(q, s.clients[c].version, env.recall(q, s.Version(q)))
  {}

  /** A bump moves one graph on by one. */
  lemma BumpMeaning(env: Env, s: State, tenant: string, graph: string, q: Query)
    ensures Apply(env, s, Bump(tenant, graph)).Version(q)
         == s.Version(q) + if q.tenant == tenant && q.graph == graph then 1 else 0
  {}

  /** A query reads the version of its own graph, and asks under a key for 200 results. */
  lemma AskMeaning(env: Env, s: State, c: Client, q: Query)
    requires Enabled(s, Ask(c, q))
    ensures var t := Apply(env, s, Ask(c, q));
            && t.clients[c]
               == Looking(q, if (q.tenant, q.graph) in s.versions then s.versions[(q.tenant, q.graph)] else 0)
            && t.redis == s.redis && t.versions == s.versions
    ensures forall v: nat ::
              env.Key(q, v) == MakeCacheKey(Fields(q.tenant, q.graph, v, env.hash(q.vector), q.profile, 200))
  {}
}
