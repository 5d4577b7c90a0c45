/** faim_native/cache/locks.py: any number of `LockManager.lock(key)` calls on one key, as
    interleaved steps over one Redis key with a lease and one lock file. */
module Locks {
  import opened Options
  import opened Arrangement

  /** One call, with its own lock value (`uuid4`). */
  type Client = int

  /** The Redis lease in milliseconds and the attempts per backend. */
  datatype Config = Config(timeout: nat, retries: nat)

  datatype Lease = Lease(owner: Client, expires: nat)

  datatype Phase =
    | TryingRedis(left: nat)
    | TryingFile(left: nat)
    | InRedis(leaseEnd: nat)      // inside the body through Redis
    | Releasing(leaseEnd: nat)    // its GET matched; the DELETE is still to come
    | InFile                      // inside the body through the lock file
    | Unlocked                    // the body runs, told that nothing was acquired
    | Done

  datatype State = State(now: nat, key: Option<Lease>, file: Option<Client>, phase: map<Client, Phase>) {
    predicate In(c: Client, p: Phase) {
      c in phase && phase[c] == p
    }

    predicate KeyLive() {
      key.Some? && now < key.value.expires
    }

    predicate ThroughRedis(c: Client) {
      c in phase && (phase[c].InRedis? || phase[c].Releasing?)
    }

    predicate WithinLease(c: Client) {
      ThroughRedis(c) && now < phase[c].leaseEnd
    }

    predicate ThroughFile(c: Client) {
      c in phase && phase[c].InFile?
    }

    /** Inside the body, believing the lock is held. */
    predicate Inside(c: Client) {
      c in phase && (phase[c].InRedis? || phase[c].InFile?)
    }

    ghost function Bodies(): set<Client> {
      set c | c in phase && Inside(c)
    }
  }

  datatype Event =
    | Tick(elapsed: nat)
    | Arrive(client: Client)
    | RedisSet(client: Client)          // SET key value NX PX timeout
    | RedisGivesUp(client: Client)      // attempts used up
    | RedisUnreachable(client: Client)  // no client, or an exception
    | FileTry(client: Client)           // flock, non-blocking
    | FileGivesUp(client: Client)
    | RedisGet(client: Client)          // the ownership check of release
    | RedisDelete(client: Client)       // the deletion of release
    | RedisReleaseFails(client: Client)
    | FileRelease(client: Client)
    | FileReleaseFails(client: Client)  // the descriptor stays open and locked
    | UnlockedEnds(client: Client)

  predicate Enabled(s: State, e: Event) {
    match e
    case Tick(_) => true
    case Arrive(c) => c !in s.phase
    case RedisSet(c) => c in s.phase && s.phase[c].TryingRedis? && s.phase[c].left > 0
    case RedisGivesUp(c) => s.In(c, TryingRedis(0))
    case RedisUnreachable(c) => c in s.phase && s.phase[c].TryingRedis?
    case FileTry(c) => c in s.phase && s.phase[c].TryingFile? && s.phase[c].left > 0
    case FileGivesUp(c) => s.In(c, TryingFile(0))
    case RedisGet(c) => c in s.phase && s.phase[c].InRedis?
    case RedisDelete(c) => c in s.phase && s.phase[c].Releasing?
    case RedisReleaseFails(c) => s.ThroughRedis(c)
    case FileRelease(c) => s.ThroughFile(c)
    case FileReleaseFails(c) => s.ThroughFile(c)
    case UnlockedEnds(c) => s.In(c, Unlocked)
  }

  function Move(s: State, c: Client, p: Phase): State {
    s.(phase := s.phase[c := p])
  }

  function Apply(cfg: Config, s: State, e: Event): State
    requires Enabled(s, e)
  {
    match e
    case Tick(d) => s.(now := s.now + d)
    case Arrive(c) => Move(s, c, TryingRedis(cfg.retries))
    case RedisSet(c) =>
      if s.KeyLive() then Move(s, c, TryingRedis(s.phase[c].left - 1))
      else Move(s.(key := Some(Lease(c, s.now + cfg.timeout))), c, InRedis(s.now + cfg.timeout))
    case RedisGivesUp(c) => Move(s, c, TryingFile(cfg.retries))
    case RedisUnreachable(c) => Move(s, c, TryingFile(cfg.retries))
    case FileTry(c) =>
      if s.file.Some? then Move(s, c, TryingFile(s.phase[c].left - 1))
      else Move(s.(file := Some(c)), c, InFile)
    case FileGivesUp(c) => Move(s, c, Unlocked)
    case RedisGet(c) =>
      if s.KeyLive() && s.key.value.owner == c then Move(s, c, Releasing(s.phase[c].leaseEnd)) else Move(s, c, Done)
    case RedisDelete(c) => Move(s.(key := None), c, Done)
    case RedisReleaseFails(c) => Move(s, c, Done)
    case FileRelease(c) => Move(s.(file := None), c, Done)
    case FileReleaseFails(c) => Move(s, c, Done)
    case UnlockedEnds(c) => Move(s, c, Done)
  }

  const START := State(0, None, None, map[])

  /** The events can be taken one after another from `s`. */
  predicate Possible(cfg: Config, s: State, run: seq<Event>)
    decreases |run|
  {
    run == [] || (Enabled(s, run[0]) && Possible(cfg, Apply(cfg, s, run[0]), run[1..]))
  }

  function After(cfg: Config, s: State, run: seq<Event>): State
    requires Possible(cfg, s, run)
    decreases |run|
  {
    if run == [] then s else After(cfg, Apply(cfg, s, run[0]), run[1..])
  }

  // ---- the file lock is exclusive in every run

  ghost predicate FileOwned(s: State) {
    forall c :: s.ThroughFile(c) ==> s.file == Some(c)
  }

  lemma {:induction false} FileExclusiveFrom(cfg: Config, s: State, run: seq<Event>)
    requires FileOwned(s) && Possible(cfg, s, run)
    ensures FileOwned(After(cfg, s, run))
    decreases |run|
  {
    if run != [] { FileExclusiveFrom(cfg, Apply(cfg, s, run[0]), run[1..]); }
  }

  /** In every run at most one client is inside through the file. */
  lemma FileExclusive(cfg: Config, run: seq<Event>, c: Client, d: Client)
    requires Possible(cfg, START, run)
    requires var s := After(cfg, START, run); s.ThroughFile(c) && s.ThroughFile(d)
    ensures c == d
  {
    FileExclusiveFrom(cfg, START, run);
  }

  // ---- the Redis lock is exclusive while releases beat their leases

  /** No client through Redis has outlived its lease. */
  ghost predicate InTime(s: State) {
    forall c :: s.ThroughRedis(c) ==> s.now < s.phase[c].leaseEnd
  }

  /** Every client finishes its get-then-delete release within its lease. */
  ghost predicate Timely(cfg: Config, s: State, run: seq<Event>)
    requires Possible(cfg, s, run)
    decreases |run|
  {
    InTime(s) && (run == [] || Timely(cfg, Apply(cfg, s, run[0]), run[1..]))
  }

  ghost predicate RedisOwned(s: State) {
    forall c :: s.ThroughRedis(c) ==> s.key == Some(Lease(c, s.phase[c].leaseEnd))
  }

  lemma RedisStep(cfg: Config, s: State, e: Event)
    requires RedisOwned(s) && InTime(s) && Enabled(s, e)
    ensures RedisOwned(Apply(cfg, s, e))
    ensures e.RedisDelete? ==> s.key.Some? && s.key.value.owner == e.client
  {}

  lemma {:induction false} RedisOwnedFrom(cfg: Config, s: State, run: seq<Event>)
    requires RedisOwned(s) && Possible(cfg, s, run) && Timely(cfg, s, run)
    ensures RedisOwned(After(cfg, s, run)) && InTime(After(cfg, s, run))
    decreases |run|
  {
    if run != [] {
      RedisStep(cfg, s, run[0]);
      RedisOwnedFrom(cfg, Apply(cfg, s, run[0]), run[1..]);
    }
  }

  /** In a timely run at most one client is inside through Redis, its key is its own and
      live, and a deletion removes only the deleting client's key. */
  lemma RedisExclusive(cfg: Config, run: seq<Event>, c: Client)
    requires Possible(cfg, START, run) && Timely(cfg, START, run)
    requires After(cfg, START, run).ThroughRedis(c)
    ensures var s := After(cfg, START, run);
            && s.KeyLive() && s.key.value.owner == c
            && forall d :: s.ThroughRedis(d) ==> d == c
  {
    RedisOwnedFrom(cfg, START, run);
  }

  lemma DeletesOnlyOwnKey(cfg: Config, run: seq<Event>, c: Client)
    requires Possible(cfg, START, run) && Timely(cfg, START, run)
    requires Enabled(After(cfg, START, run), RedisDelete(c))
    ensures var s := After(cfg, START, run); s.key.Some? && s.key.value.owner == c
  {
    RedisOwnedFrom(cfg, START, run);
  }

  /** In a timely run at most two bodies run at once, one per backend. */
  lemma AtMostTwoBodies(cfg: Config, run: seq<Event>)
    requires Possible(cfg, START, run) && Timely(cfg, START, run)
    ensures |After(cfg, START, run).Bodies()| <= 2
  {
    var s := After(cfg, START, run);
    RedisOwnedFrom(cfg, START, run);
    FileExclusiveFrom(cfg, START, run);
    var owners := (if s.key.Some? then {s.key.value.owner} else {}) + (if s.file.Some? then {s.file.value} else {});
    forall c | c in s.Bodies() ensures c in owners {
      assert s.ThroughRedis(c) || s.ThroughFile(c);
    }
    SubsetCard(s.Bodies(), owners);
  }

  // ---- an atomic release needs no deadline

  /** Once its GET has matched, a client's DELETE (or its failure) is the very next event. */
  predicate AtomicReleases(cfg: Config, s: State, run: seq<Event>)
    requires Possible(cfg, s, run)
    decreases |run|
  {
    run == []
    || ((forall c | c in s.phase && s.phase[c].Releasing? :: run[0] in {RedisDelete(c), RedisReleaseFails(c)})
        && AtomicReleases(cfg, Apply(cfg, s, run[0]), run[1..]))
  }

  /** A client within its lease owns the key, and a client about to delete owns it too. */
  ghost predicate LiveOwned(s: State) {
    && (forall c :: s.ThroughRedis(c) && s.now < s.phase[c].leaseEnd ==> s.key == Some(Lease(c, s.phase[c].leaseEnd)))
    && (forall c :: c in s.phase && s.phase[c].Releasing? ==> s.key.Some? && s.key.value.owner == c)
  }

  lemma AtomicStep(cfg: Config, s: State, e: Event)
    requires LiveOwned(s) && Enabled(s, e)
    requires forall c | c in s.phase && s.phase[c].Releasing? :: e in {RedisDelete(c), RedisReleaseFails(c)}
    ensures LiveOwned(Apply(cfg, s, e))
  {}

  lemma {:induction false} LiveOwnedFrom(cfg: Config, s: State, run: seq<Event>)
    requires LiveOwned(s) && Possible(cfg, s, run) && AtomicReleases(cfg, s, run)
    ensures LiveOwned(After(cfg, s, run))
    decreases |run|
  {
    if run != [] {
      AtomicStep(cfg, s, run[0]);
      LiveOwnedFrom(cfg, Apply(cfg, s, run[0]), run[1..]);
    }
  }

  /** If every release is atomic, then however late it comes it deletes only its own key, and
      at most one client is ever within its lease. */
  lemma AtomicReleaseIsSafe(cfg: Config, run: seq<Event>, c: Client, d: Client)
    requires Possible(cfg, START, run) && AtomicReleases(cfg, START, run)
    ensures var s := After(cfg, START, run);
            && (Enabled(s, RedisDelete(c)) ==> s.key.Some? && s.key.value.owner == c)
            && (s.WithinLease(c) && s.WithinLease(d) ==> c == d)
  {
    LiveOwnedFrom(cfg, START, run);
  }

  // ---- Redis down throughout

  ghost predicate NeverSets(run: seq<Event>) {
    forall e :: e in run ==> !e.RedisSet?
  }

  lemma {:induction false} NobodyThroughRedis(cfg: Config, s: State, run: seq<Event>)
    requires Possible(cfg, s, run) && NeverSets(run) && forall c :: !s.ThroughRedis(c)
    ensures forall c :: !After(cfg, s, run).ThroughRedis(c)
    decreases |run|
  {
    if run != [] {
      assert run[0] in run && forall e :: e in run[1..] ==> e in run;
      var next := Apply(cfg, s, run[0]);
      forall c ensures !next.ThroughRedis(c) {
        assert !s.ThroughRedis(c);
      }
      NobodyThroughRedis(cfg, next, run[1..]);
    }
  }

  /** If no attempt ever reaches Redis, at most one body runs. */
  lemma AtMostOneBodyWithoutRedis(cfg: Config, run: seq<Event>)
    requires Possible(cfg, START, run) && NeverSets(run)
    ensures |After(cfg, START, run).Bodies()| <= 1
  {
    var s := After(cfg, START, run);
    NobodyThroughRedis(cfg, START, run);
    FileExclusiveFrom(cfg, START, run);
    var owners := if s.file.Some? then {s.file.value} else {};
    forall c | c in s.Bodies() ensures c in owners {
      assert s.ThroughRedis(c) || s.ThroughFile(c);
    }
    SubsetCard(s.Bodies(), owners);
  }

  // ---- what the lock does not guarantee

  /** The client's next step deletes another client's live key. */
  predicate DeletesForeignKey(s: State, c: Client) {
    Enabled(s, RedisDelete(c)) && s.KeyLive() && s.key.value.owner != c
  }

  /** Client 1 reads its key in time; its lease runs out and client 2 acquires. */
  function LateRelease(cfg: Config): seq<Event> {
    [Arrive(1), RedisSet(1), RedisGet(1)] + [Tick(cfg.timeout), Arrive(2), RedisSet(2)]
  }

  function AboutToDelete(cfg: Config): State {
    State(cfg.timeout, Some(Lease(2, 2 * cfg.timeout)), None,
          map[1 := Releasing(cfg.timeout), 2 := InRedis(2 * cfg.timeout)])
  }

  lemma LateReleaseRuns(cfg: Config, rest: seq<Event>)
    requires cfg.retries > 0 && cfg.timeout > 0 && Possible(cfg, AboutToDelete(cfg), rest)
    ensures Possible(cfg, START, LateRelease(cfg) + rest)
    ensures After(cfg, START, LateRelease(cfg) + rest) == After(cfg, AboutToDelete(cfg), rest)
  {
    var run := LateRelease(cfg) + rest;
    var released := State(0, Some(Lease(1, cfg.timeout)), None, map[1 := Releasing(cfg.timeout)]);
    assert run[3..][3..] == rest;
    Three(cfg, START, run, released);
    Three(cfg, released, run[3..], AboutToDelete(cfg));
  }

  /** A release that reads its key in time but deletes it late deletes client 2's live key;
      client 3 then acquires, and two clients are inside, both within their leases. */
  lemma LateReleaseDeletesForeignKey(cfg: Config)
    requires cfg.retries > 0 && cfg.timeout > 0
    ensures Possible(cfg, START, LateRelease(cfg))
    ensures DeletesForeignKey(After(cfg, START, LateRelease(cfg)), 1)
    ensures var late := [RedisDelete(1), Arrive(3), RedisSet(3)];
            && Possible(cfg, START, LateRelease(cfg) + late)
            && var s := After(cfg, START, LateRelease(cfg) + late); s.WithinLease(2) && s.WithinLease(3)
  {
    var late := [RedisDelete(1), Arrive(3), RedisSet(3)];
    assert LateRelease(cfg) + [] == LateRelease(cfg);
    LateReleaseRuns(cfg, []);
    var both := State(cfg.timeout, Some(Lease(3, 2 * cfg.timeout)), None,
                      map[1 := Done, 2 := InRedis(2 * cfg.timeout), 3 := InRedis(2 * cfg.timeout)]);
    assert late[3..] == [];
    Three(cfg, AboutToDelete(cfg), late, both);
    LateReleaseRuns(cfg, late);
  }

  /** A lease of no length is never live. */
  ghost predicate NeverLive(s: State) {
    s.key.Some? ==> s.key.value.expires <= s.now
  }

  lemma {:induction false} NoLeaseNeverLive(cfg: Config, s: State, run: seq<Event>)
    requires cfg.timeout == 0 && NeverLive(s) && Possible(cfg, s, run)
    ensures NeverLive(After(cfg, s, run))
    decreases |run|
  {
    if run != [] { NoLeaseNeverLive(cfg, Apply(cfg, s, run[0]), run[1..]); }
  }

  predicate SparesForeignKeys(cfg: Config, run: seq<Event>, c: Client) {
    Possible(cfg, START, run) ==> !DeletesForeignKey(After(cfg, START, run), c)
  }

  /** In no run does a release delete another client's live key exactly when no attempt is ever
      made or no lease ever lasts. */
  lemma OwnDeletionsIffNoLeases(cfg: Config)
    ensures (forall run, c :: SparesForeignKeys(cfg, run, c)) <==> cfg.retries == 0 || cfg.timeout == 0
  {
    if cfg.retries > 0 && cfg.timeout > 0 {
      LateReleaseDeletesForeignKey(cfg);
      var run, c := LateRelease(cfg), 1;
      assert !SparesForeignKeys(cfg, run, c);
    } else {
      forall run, c ensures SparesForeignKeys(cfg, run, c) {
        if Possible(cfg, START, run) && cfg.timeout == 0 {
          NoLeaseNeverLive(cfg, START, run);
        } else if Possible(cfg, START, run) {
          NoRetriesNobodyInside(cfg, START, run);
        }
      }
    }
  }

  /** Peels three events off a run. */
  lemma Three(cfg: Config, s: State, run: seq<Event>, t: State)
    requires |run| >= 3
    requires Enabled(s, run[0])
    requires Enabled(Apply(cfg, s, run[0]), run[1])
    requires Enabled(Apply(cfg, Apply(cfg, s, run[0]), run[1]), run[2])
    requires Apply(cfg, Apply(cfg, Apply(cfg, s, run[0]), run[1]), run[2]) == t
    ensures Possible(cfg, s, run) <==> Possible(cfg, t, run[3..])
    ensures Possible(cfg, t, run[3..]) ==> After(cfg, s, run) == After(cfg, t, run[3..])
  {
    assert run[1..][1..] == run[2..] && run[2..][1..] == run[3..];
    var a := Apply(cfg, s, run[0]);
    var b := Apply(cfg, a, run[1]);
    assert Possible(cfg, a, run[1..]) <==> Possible(cfg, b, run[2..]);
    if Possible(cfg, t, run[3..]) {
      assert After(cfg, b, run[2..]) == After(cfg, t, run[3..]);
      assert After(cfg, a, run[1..]) == After(cfg, b, run[2..]);
    }
  }

  /** Client 2 uses up its n Redis attempts against client 1's lease, then takes the file. */
  function Contention(n: nat): seq<Event> {
    if n == 0 then [RedisGivesUp(2), FileTry(2)] else [RedisSet(2)] + Contention(n - 1)
  }

  function Contended(cfg: Config, n: nat): State {
    State(0, Some(Lease(1, cfg.timeout)), None, map[1 := InRedis(cfg.timeout), 2 := TryingRedis(n)])
  }

  function BothInside(cfg: Config): State {
    State(0, Some(Lease(1, cfg.timeout)), Some(2), map[1 := InRedis(cfg.timeout), 2 := InFile])
  }

  lemma {:induction false} ContentionRuns(cfg: Config, n: nat)
    requires cfg.retries > 0 && cfg.timeout > 0
    ensures var s := Contended(cfg, n);
            && Possible(cfg, s, Contention(n)) && Timely(cfg, s, Contention(n))
            && After(cfg, s, Contention(n)) == BothInside(cfg)
  {
    var s := Contended(cfg, n);
    if n == 0 {
      var run := Contention(0);
      var a := Apply(cfg, s, run[0]);
      var b := Apply(cfg, a, run[1]);
      assert run[1..] == [FileTry(2)] && run[1..][1..] == [];
      assert b == BothInside(cfg);
      assert Possible(cfg, b, []) && Timely(cfg, b, []);
      assert Possible(cfg, a, run[1..]) && Timely(cfg, a, run[1..]);
    } else {
      ContentionRuns(cfg, n - 1);
      assert Contention(n)[1..] == Contention(n - 1);
      assert Apply(cfg, s, RedisSet(2)) == Contended(cfg, n - 1);
    }
  }

  /** With Redis up and every lease respected, contention alone still lets a second client
      in through the file. */
  lemma ContentionAdmitsTwo(cfg: Config) returns (run: seq<Event>)
    requires cfg.retries > 0 && cfg.timeout > 0
    ensures Possible(cfg, START, run) && Timely(cfg, START, run)
    ensures |After(cfg, START, run).Bodies()| == 2
  {
    var rest := Contention(cfg.retries);
    run := [Arrive(1), RedisSet(1), Arrive(2)] + rest;
    ContentionRuns(cfg, cfg.retries);
    var a := Apply(cfg, START, Arrive(1));
    var b := Apply(cfg, a, RedisSet(1));
    assert Apply(cfg, b, Arrive(2)) == Contended(cfg, cfg.retries);
    assert run[1..] == [RedisSet(1), Arrive(2)] + rest && run[1..][1..] == [Arrive(2)] + rest;
    assert run[1..][1..][1..] == rest;
    assert Possible(cfg, b, [Arrive(2)] + rest) && Timely(cfg, b, [Arrive(2)] + rest);
    assert Possible(cfg, a, run[1..]) && Timely(cfg, a, run[1..]);
    assert After(cfg, b, [Arrive(2)] + rest) == BothInside(cfg);
    assert After(cfg, a, run[1..]) == BothInside(cfg);
    assert BothInside(cfg).Bodies() == {1, 2};
  }

  ghost predicate NobodyInside(s: State) {
    forall c :: c in s.phase ==> s.phase[c] in {TryingRedis(0), TryingFile(0), Unlocked, Done}
  }

  lemma {:induction false} NoRetriesNobodyInside(cfg: Config, s: State, run: seq<Event>)
    requires cfg.retries == 0 && NobodyInside(s) && Possible(cfg, s, run)
    ensures NobodyInside(After(cfg, s, run))
    decreases |run|
  {
    if run != [] { NoRetriesNobodyInside(cfg, Apply(cfg, s, run[0]), run[1..]); }
  }

  /** Even over timely runs, mutual exclusion of bodies holds exactly when no attempt is ever
      made, and then because nobody acquires anything. */
  lemma MutualExclusionIffNoAttempts(cfg: Config)
    requires cfg.timeout > 0
    ensures (forall run ::
               Possible(cfg, START, run) && Timely(cfg, START, run) ==> |After(cfg, START, run).Bodies()| <= 1)
       <==> cfg.retries == 0
  {
    if cfg.retries > 0 {
      var run := ContentionAdmitsTwo(cfg);
      assert Possible(cfg, START, run) && Timely(cfg, START, run);
    } else {
      forall run | Possible(cfg, START, run) ensures |After(cfg, START, run).Bodies()| <= 1 {
        NoRetriesNobodyInside(cfg, START, run);
        var s := After(cfg, START, run);
        assert s.Bodies() == {};
      }
    }
  }

  // ---- what an attempt, a release and a failure do

  /** SET NX takes a key that is absent or expired, for one lease from now; otherwise it costs
      an attempt. */
  lemma RedisSetMeaning(cfg: Config, s: State, c: Client)
    requires Enabled(s, RedisSet(c))
    ensures var t := Apply(cfg, s, RedisSet(c));
            if s.key.None? || s.key.value.expires <= s.now then
              && t.In(c, InRedis(s.now + cfg.timeout)) && t.key == Some(Lease(c, s.now + cfg.timeout))
            else t.In(c, TryingRedis(s.phase[c].left - 1)) && t.key == s.key
    ensures Apply(cfg, s, RedisSet(c)).file == s.file
  {}

  /** A free file is taken at the first attempt; a taken one costs an attempt. */
  lemma FileTryMeaning(cfg: Config, s: State, c: Client)
    requires Enabled(s, FileTry(c))
    ensures var t := Apply(cfg, s, FileTry(c));
            if s.file.None? then t.In(c, InFile) && t.file == Some(c)
            else t.In(c, TryingFile(s.phase[c].left - 1)) && t.file == s.file
    ensures Apply(cfg, s, FileTry(c)).key == s.key
  {}

  /** Redis comes first, with all attempts; then the file, with all attempts; then the body
      runs unlocked. */
  lemma FallbackMeaning(cfg: Config, s: State, c: Client)
    ensures Enabled(s, Arrive(c)) ==> Apply(cfg, s, Arrive(c)).In(c, TryingRedis(cfg.retries))
    ensures Enabled(s, RedisGivesUp(c)) ==> Apply(cfg, s, RedisGivesUp(c)).In(c, TryingFile(cfg.retries))
    ensures Enabled(s, RedisUnreachable(c)) ==> Apply(cfg, s, RedisUnreachable(c)).In(c, TryingFile(cfg.retries))
    ensures Enabled(s, FileGivesUp(c)) ==> Apply(cfg, s, FileGivesUp(c)).In(c, Unlocked)
  {}

  /** After a release of the file, whoever tries it next is inside. */
  lemma FileReleaseFrees(cfg: Config, s: State, c: Client, d: Client)
    requires Enabled(s, FileRelease(c))
    ensures var t := Apply(cfg, s, FileRelease(c));
            t.In(c, Done) && (Enabled(t, FileTry(d)) ==> Apply(cfg, t, FileTry(d)).In(d, InFile))
  {}

  /** After a release that deletes the key, whoever tries Redis next is inside. */
  lemma RedisReleaseFrees(cfg: Config, s: State, c: Client, d: Client, leaseEnd: nat)
    requires s.In(c, InRedis(leaseEnd)) && s.key == Some(Lease(c, leaseEnd)) && s.now < leaseEnd
    ensures var t := Apply(cfg, s, RedisGet(c));
            && Enabled(t, RedisDelete(c))
            && var u := Apply(cfg, t, RedisDelete(c));
               u.In(c, Done) && (Enabled(u, RedisSet(d)) ==> Apply(cfg, u, RedisSet(d)).ThroughRedis(d))
  {}

  /** A release that finds its key expired or taken by another deletes nothing. */
  lemma RedisGetMeaning(cfg: Config, s: State, c: Client)
    requires Enabled(s, RedisGet(c))
    ensures var t := Apply(cfg, s, RedisGet(c));
            && t.key == s.key
            && (Enabled(t, RedisDelete(c)) <==>
                s.key.Some? && s.now < s.key.value.expires && s.key.value.owner == c)
            && (!Enabled(t, RedisDelete(c)) ==> t.In(c, Done))
  {}

  /** The file belongs to a client that has left. */
  ghost predicate Abandoned(s: State, c: Client) {
    s.file == Some(c) && forall d :: !s.ThroughFile(d)
  }

  /** A file release that fails locks the file for good: nobody is inside through it again. */
  lemma {:induction false} FailedFileReleaseLocksForGood(cfg: Config, s: State, c: Client, run: seq<Event>)
    requires Abandoned(s, c) && Possible(cfg, s, run)
    ensures Abandoned(After(cfg, s, run), c)
    decreases |run|
  {
    if run != [] {
      var next := Apply(cfg, s, run[0]);
      forall d ensures !next.ThroughFile(d) {
        assert !s.ThroughFile(d);
      }
      FailedFileReleaseLocksForGood(cfg, next, c, run[1..]);
    }
  }

  lemma FailedFileReleaseAbandons(cfg: Config, s: State, c: Client)
    requires FileOwned(s) && Enabled(s, FileReleaseFails(c))
    ensures Abandoned(Apply(cfg, s, FileReleaseFails(c)), c)
  {
    forall d ensures !Apply(cfg, s, FileReleaseFails(c)).ThroughFile(d) {
      assert s.ThroughFile(c) && (s.ThroughFile(d) ==> s.file == Some(d));
    }
  }
}
