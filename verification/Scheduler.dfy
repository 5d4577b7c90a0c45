/** faim_native/orchestration/self_evolve_scheduler.py: when an evolve job is enqueued. One
    tenant's tables are maps; each call is one atomic step. Seconds are real. */
module Scheduler {
  import opened Options
  import opened Ordering

  type Graph = int

  type JobId = int

  datatype Status = Pending | Running | Finished

  datatype Job = Job(id: JobId, graph: Graph, isEvolve: bool, status: Status) {
    predicate ActiveFor(g: Graph) {
      graph == g && isEvolve && (status.Pending? || status.Running?)
    }
  }

  datatype EvolveState = EvolveState(lastSeen: nat, lastEvolved: nat, evolvedAt: Option<real>, lastJob: Option<JobId>)

  /** Jobs are listed oldest first. */
  datatype Store = Store(versions: map<Graph, int>, states: map<Graph, EvolveState>, jobs: seq<Job>) {
    function Version(g: Graph): int {
      if g in versions then versions[g] else 0
    }

    function State(g: Graph): EvolveState {
      if g in states then states[g] else EvolveState(0, 0, None, None)
    }

    /** `mark_seen_version`, which creates the row when it is missing. */
    function MarkSeen(g: Graph, version: int): Store {
      var s := State(g);
      this.(states := states[g := s.(lastSeen := if version > s.lastSeen then version else s.lastSeen)])
    }

    /** `mark_enqueued` */
    function MarkEnqueued(g: Graph, version: int, job: JobId): Store {
      var seen := MarkSeen(g, version);
      seen.(states := seen.states[g := seen.State(g).(lastJob := Some(job))])
    }
  }

  datatype Control = Control(enabled: bool, mode: string, invent: bool, inventAfterUpload: bool)

  datatype Settings = Settings(control: Control, jobsEnabled: bool, minDelta: int, minInterval: int, maxActions: int)

  datatype Reason =
    | SelfEvolveDisabled | NotWriteTriggered | NotPeriodic | UnsupportedSource | JobsDisabled
    | VersionDeltaTooSmall | IntervalTooShort | ActiveEvolveJobExists | DueEnqueued

  datatype Evaluation = Evaluation(reason: Reason, version: int, delta: int, active: Option<JobId>) {
    predicate IsDue() { reason.DueEnqueued? }
  }

  predicate IsWriteSource(source: string) {
    source in ["storage_upload", "ingest_json", "ingest_upload", "memory_write"]
  }

  predicate IsPeriodicSource(source: string) {
    source in ["periodic_worker", "worker_periodic"]
  }

  /** `int(x)`: truncation toward zero. */
  function Truncate(x: real): int {
    if x >= 0.0 then x.Floor else -((-x).Floor)
  }

  /** `_active_evolve_job`: the oldest pending or running evolve job. */
  function ActiveJob(jobs: seq<Job>, g: Graph): Option<JobId> {
    if jobs == [] then None
    else if jobs[0].ActiveFor(g) then Some(jobs[0].id)
    else ActiveJob(jobs[1..], g)
  }

  /** The gates that come before any table is read; `None` when all are passed. */
  function Gate(cfg: Settings, source: string): Option<Reason> {
    var c := cfg.control;
    var legacy := source == "storage_upload" && !c.enabled && c.invent && c.inventAfterUpload;
    if !c.enabled && !legacy then Some(SelfEvolveDisabled)
    else if c.enabled && IsWriteSource(source) && c.mode !in ["post_upload", "hybrid"] then Some(NotWriteTriggered)
    else if c.enabled && IsPeriodicSource(source) && c.mode !in ["periodic", "hybrid"] then Some(NotPeriodic)
    else if c.enabled && !IsWriteSource(source) && !IsPeriodicSource(source) then Some(UnsupportedSource)
    else if !cfg.jobsEnabled then Some(JobsDisabled)
    else None
  }

  /** `evaluate_self_evolve_due` without effects. */
  function Evaluate(st: Store, cfg: Settings, g: Graph, source: string, now: real): Evaluation {
    var gate := Gate(cfg, source);
    if gate.Some? then Evaluation(gate.value, 0, 0, None)
    else
      var version, s := st.Version(g), st.State(g);
      var delta := version - s.lastEvolved;
      if delta < cfg.minDelta then Evaluation(VersionDeltaTooSmall, version, delta, None)
      else if s.evolvedAt.Some? && Truncate(now - s.evolvedAt.value) < cfg.minInterval then
        Evaluation(IntervalTooShort, version, delta, None)
      else
        var active := ActiveJob(st.jobs, g);
        if active.Some? then Evaluation(ActiveEvolveJobExists, version, delta, active)
        else Evaluation(DueEnqueued, version, delta, None)
  }

  /** The same decision with `update_seen_version=True`: the seen version is stored on the way. */
  function EvaluateAndMark(st: Store, cfg: Settings, g: Graph, source: string, now: real): (Store, Evaluation) {
    if Gate(cfg, source).Some? then (st, Evaluate(st, cfg, g, source, now))
    else
      var marked := st.MarkSeen(g, st.Version(g));
      (marked, Evaluate(marked, cfg, g, source, now))
  }

  datatype EnqueueStatus = Enqueued | Existing | Skipped

  datatype EnqueueResult = EnqueueResult(
    status: EnqueueStatus, reason: Reason, job: Option<JobId>, version: int, delta: int)

  /** `enqueue_self_evolve_if_due`; the new job would be called `newId`. */
  function EnqueueIfDue(st: Store, cfg: Settings, g: Graph, source: string, now: real, newId: JobId)
    : (Store, EnqueueResult)
  {
    var (marked, e) := EvaluateAndMark(st, cfg, g, source, now);
    if e.IsDue() then
      var added := marked.(jobs := marked.jobs + [Job(newId, g, true, Pending)]);
      (added.MarkEnqueued(g, e.version, newId), EnqueueResult(Enqueued, e.reason, Some(newId), e.version, e.delta))
    else if e.reason.ActiveEvolveJobExists? && e.active.Some? then
      (marked.MarkEnqueued(g, e.version, e.active.value),
       EnqueueResult(Existing, e.reason, e.active, e.version, e.delta))
    else (marked, EnqueueResult(Skipped, e.reason, None, e.version, e.delta))
  }

  // ---- what a decision means

  lemma {:induction false} ActiveJobFinds(jobs: seq<Job>, g: Graph)
    ensures ActiveJob(jobs, g).None? <==> forall j :: j in jobs ==> !j.ActiveFor(g)
    ensures ActiveJob(jobs, g).Some? ==> exists j :: j in jobs && j.ActiveFor(g) && j.id == ActiveJob(jobs, g).value
    ensures forall i | 0 <= i < |jobs| :: jobs[i].ActiveFor(g) && (forall k | 0 <= k < i :: !jobs[k].ActiveFor(g)) ==>
              ActiveJob(jobs, g) == Some(jobs[i].id)
  {
    if jobs != [] {
      assert forall i | 1 <= i < |jobs| :: jobs[1..][i - 1] == jobs[i];
      ActiveJobFinds(jobs[1..], g);
      assert forall j :: j in jobs <==> j == jobs[0] || j in jobs[1..];
    }
  }

  /** A read-only evaluation predicts what an enqueue call will decide, and only an enqueue
      that was due adds a job. */
  lemma EvaluationPredicts(st: Store, cfg: Settings, g: Graph, source: string, now: real, newId: JobId)
    ensures var e := Evaluate(st, cfg, g, source, now);
            var (next, r) := EnqueueIfDue(st, cfg, g, source, now, newId);
            && (r.status.Enqueued? <==> e.IsDue())
            && (r.status.Existing? <==> e.reason.ActiveEvolveJobExists?)
            && r.reason == e.reason && r.version == e.version && r.delta == e.delta
            && next.jobs == (if e.IsDue() then st.jobs + [Job(newId, g, true, Pending)] else st.jobs)
            && next.versions == st.versions
            && (forall h :: h != g ==> next.State(h) == st.State(h))
            && next.State(g).lastEvolved == st.State(g).lastEvolved && next.State(g).evolvedAt == st.State(g).evolvedAt
  {}

  const WRITE_SOURCES := {"storage_upload", "ingest_json", "ingest_upload", "memory_write"}

  const PERIODIC_SOURCES := {"periodic_worker", "worker_periodic"}

  /** The mode covers the source: uploads and writes in post_upload, workers in periodic, both
      in hybrid. */
  ghost predicate Covers(mode: string, source: string) {
    || (source in WRITE_SOURCES && (mode == "post_upload" || mode == "hybrid"))
    || (source in PERIODIC_SOURCES && (mode == "periodic" || mode == "hybrid"))
  }

  /** A storage upload with evolution off but invention after uploads on. */
  ghost predicate LegacyUpload(c: Control, source: string) {
    !c.enabled && source == "storage_upload" && c.invent && c.inventAfterUpload
  }

  /** When the gates are open, and which one refuses otherwise. */
  lemma GateMeaning(cfg: Settings, source: string)
    ensures var c, gate := cfg.control, Gate(cfg, source);
            && (gate.None? <==>
                cfg.jobsEnabled && (LegacyUpload(c, source) || (c.enabled && Covers(c.mode, source))))
            && (gate == Some(SelfEvolveDisabled) <==> !c.enabled && !LegacyUpload(c, source))
            && (gate == Some(NotWriteTriggered) <==>
                c.enabled && source in WRITE_SOURCES && c.mode != "post_upload" && c.mode != "hybrid")
            && (gate == Some(NotPeriodic) <==>
                c.enabled && source in PERIODIC_SOURCES && c.mode != "periodic" && c.mode != "hybrid")
            && (gate == Some(UnsupportedSource) <==>
                c.enabled && source !in WRITE_SOURCES && source !in PERIODIC_SOURCES)
            && (gate == Some(JobsDisabled) <==>
                !cfg.jobsEnabled && (LegacyUpload(c, source) || (c.enabled && Covers(c.mode, source))))
  {
    SourceMeaning(source);
  }

  lemma SourceMeaning(source: string)
    ensures IsWriteSource(source) <==> source in WRITE_SOURCES
    ensures IsPeriodicSource(source) <==> source in PERIODIC_SOURCES
    ensures !(source in WRITE_SOURCES && source in PERIODIC_SOURCES)
  {
    if source in WRITE_SOURCES {
      assert source[0] == 's' || source[0] == 'i' || source[0] == 'm';
    }
  }

  /** `int()` drops the fraction, on both sides of zero. */
  lemma TruncateMeaning(x: real)
    ensures x >= 0.0 ==> Truncate(x) as real <= x < Truncate(x) as real + 1.0
    ensures x < 0.0 ==> Truncate(x) as real - 1.0 < x <= Truncate(x) as real
  {}

  /** A graph without rows is at version 0 and was never seen, evolved or enqueued. */
  lemma MissingRowsMeanNever(st: Store, g: Graph)
    ensures g !in st.versions ==> st.Version(g) == 0
    ensures g in st.versions ==> st.Version(g) == st.versions[g]
    ensures g !in st.states ==> st.State(g) == EvolveState(0, 0, None, None)
    ensures g in st.states ==> st.State(g) == st.states[g]
  {}

  /** The evolve interval is over. */
  ghost predicate LongEnough(s: EvolveState, now: real, minInterval: int) {
    s.evolvedAt.Some? ==> Truncate(now - s.evolvedAt.value) >= minInterval
  }

  /** A job is enqueued exactly when evolution and jobs are on and the mode covers the source,
      the version has moved far enough, long enough ago, and the graph has no evolve job
      pending or running. */
  lemma EnqueuedIffDue(st: Store, cfg: Settings, g: Graph, source: string, now: real, newId: JobId)
    ensures var (next, r) := EnqueueIfDue(st, cfg, g, source, now, newId);
            r.status.Enqueued? <==>
              && cfg.jobsEnabled
              && (LegacyUpload(cfg.control, source) || (cfg.control.enabled && Covers(cfg.control.mode, source)))
              && st.Version(g) - st.State(g).lastEvolved >= cfg.minDelta
              && LongEnough(st.State(g), now, cfg.minInterval)
              && forall j :: j in st.jobs ==>
                   !(j.graph == g && j.isEvolve && (j.status == Pending || j.status == Running))
  {
    ActiveJobFinds(st.jobs, g);
    GateMeaning(cfg, source);
    assert forall j: Job ::
             j.ActiveFor(g) <==> j.graph == g && j.isEvolve && (j.status == Pending || j.status == Running);
  }

  /** Behind open gates, the first condition that fails gives the reason. */
  lemma ReasonMeaning(st: Store, cfg: Settings, g: Graph, source: string, now: real)
    requires Gate(cfg, source).None?
    ensures var e := Evaluate(st, cfg, g, source, now);
            var far := st.Version(g) - st.State(g).lastEvolved >= cfg.minDelta;
            var long := LongEnough(st.State(g), now, cfg.minInterval);
            && e.version == st.Version(g) && e.delta == st.Version(g) - st.State(g).lastEvolved
            && (e.reason == VersionDeltaTooSmall <==> !far)
            && (e.reason == IntervalTooShort <==> far && !long)
            && (e.reason == ActiveEvolveJobExists <==> far && long && exists j :: j in st.jobs && j.ActiveFor(g))
            && (e.reason == DueEnqueued <==> far && long && forall j :: j in st.jobs ==> !j.ActiveFor(g))
  {
    ActiveJobFinds(st.jobs, g);
  }

  /** A call that passes the gates records the version it saw, and one that does not writes
      nothing. */
  lemma EnqueueMarksSeen(st: Store, cfg: Settings, g: Graph, source: string, now: real, newId: JobId)
    ensures var (next, r) := EnqueueIfDue(st, cfg, g, source, now, newId);
            && (Gate(cfg, source).Some? ==> next == st)
            && (Gate(cfg, source).None? ==>
                next.State(g).lastSeen
                == if st.Version(g) > st.State(g).lastSeen then st.Version(g) else st.State(g).lastSeen)
  {}

  /** Whenever a call names a job, that job is now the graph's active evolve job and is what
      the scheduler state remembers as last enqueued. */
  lemma NamedJobIsActive(st: Store, cfg: Settings, g: Graph, source: string, now: real, newId: JobId)
    ensures var (next, r) := EnqueueIfDue(st, cfg, g, source, now, newId);
            && (r.job.Some? <==> !r.status.Skipped?)
            && (r.job.Some? ==>
                && next.State(g).lastJob == r.job
                && exists j :: j in next.jobs && j.ActiveFor(g) && j.id == r.job.value)
  {
    var (next, r) := EnqueueIfDue(st, cfg, g, source, now, newId);
    ActiveJobFinds(st.jobs, g);
    if r.status.Enqueued? { assert next.jobs[|st.jobs|] == Job(newId, g, true, Pending); }
  }

  // ---- at most one active evolve job per graph, in every run

  ghost predicate AtMostOneActive(jobs: seq<Job>) {
    forall i, j, g | 0 <= i < j < |jobs| :: !(jobs[i].ActiveFor(g) && jobs[j].ActiveFor(g))
  }

  datatype Fault = NoFault | BeforeEnqueue | AfterEnqueue

  datatype Event =
    | Enqueue(cfg: Settings, graph: Graph, source: string, now: real, newId: JobId)
      // raises after the job row was committed
    | EnqueueRaises(cfg: Settings, graph: Graph, source: string, now: real, newId: JobId)
    | EnqueueOther(graph: Graph, id: JobId)              // a job of another kind
    | Claim(index: nat)                                  // a worker starts a pending or stale running job
    | Finish(index: nat)                                 // done, failed or cancelled
    | Bump(graph: Graph, version: int)
    | MarkEvolved(graph: Graph, version: int, at: real)

  function WithStatus(jobs: seq<Job>, i: nat, s: Status): seq<Job>
    requires i < |jobs|
  {
    jobs[i := jobs[i].(status := s)]
  }

  function Step(st: Store, e: Event): Store {
    match e
    case Enqueue(cfg, g, source, now, newId) => EnqueueIfDue(st, cfg, g, source, now, newId).0
    case EnqueueRaises(cfg, g, source, now, newId) =>
      var (marked, ev) := EvaluateAndMark(st, cfg, g, source, now);
      if ev.IsDue() then marked.(jobs := marked.jobs + [Job(newId, g, true, Pending)]) else marked
    case EnqueueOther(g, id) => st.(jobs := st.jobs + [Job(id, g, false, Pending)])
    case Claim(i) =>
      if i < |st.jobs| && !st.jobs[i].status.Finished? then st.(jobs := WithStatus(st.jobs, i, Running)) else st
    case Finish(i) => if i < |st.jobs| then st.(jobs := WithStatus(st.jobs, i, Finished)) else st
    case Bump(g, v) => st.(versions := st.versions[g := v])
    case MarkEvolved(g, v, at) =>
      var s := st.State(g);
      st.(states := st.states[g := s.(lastEvolved := if v > s.lastEvolved then v else s.lastEvolved,
                                      lastSeen := if v > s.lastSeen then v else s.lastSeen,
                                      evolvedAt := Some(at))])
  }

  function Run(st: Store, events: seq<Event>): Store
    decreases |events|
  {
    if events == [] then st else Run(Step(st, events[0]), events[1..])
  }

  /** What workers, writes and other jobs do to the tables. */
  lemma WorkerMeaning(st: Store, i: nat, g: Graph, id: JobId)
    requires i < |st.jobs|
    ensures Step(st, Finish(i))
         == st.(jobs := st.jobs[i := Job(st.jobs[i].id, st.jobs[i].graph, st.jobs[i].isEvolve, Finished)])
    ensures st.jobs[i].status != Finished ==>
              Step(st, Claim(i))
              == st.(jobs := st.jobs[i := Job(st.jobs[i].id, st.jobs[i].graph, st.jobs[i].isEvolve, Running)])
    ensures st.jobs[i].status == Finished ==> Step(st, Claim(i)) == st
    ensures Step(st, EnqueueOther(g, id)) == st.(jobs := st.jobs + [Job(id, g, false, Pending)])
  {}

  /** An evolution moves the evolved and seen versions up to its own and dates the graph. */
  lemma EvolvedMeaning(st: Store, g: Graph, version: nat, at: real)
    ensures var s, t := st.State(g), Step(st, MarkEvolved(g, version, at)).State(g);
            && t.evolvedAt == Some(at) && t.lastJob == s.lastJob
            && t.lastEvolved == (if s.lastEvolved > version then s.lastEvolved else version)
            && t.lastSeen == (if s.lastSeen > version then s.lastSeen else version)
    ensures Step(st, Bump(g, version)).Version(g) == version
  {}

  lemma AppendKeepsOneActive(jobs: seq<Job>, job: Job)
    requires AtMostOneActive(jobs) && (job.ActiveFor(job.graph) ==> forall j :: j in jobs ==> !j.ActiveFor(job.graph))
    ensures AtMostOneActive(jobs + [job])
  {
    assert forall i | 0 <= i < |jobs| :: jobs[i] in jobs;
  }

  lemma StatusKeepsOneActive(jobs: seq<Job>, i: nat, s: Status)
    requires AtMostOneActive(jobs) && i < |jobs| && (s.Finished? || !jobs[i].status.Finished?)
    ensures AtMostOneActive(WithStatus(jobs, i, s))
  {
    var after := WithStatus(jobs, i, s);
    assert forall k, g | 0 <= k < |jobs| :: after[k].ActiveFor(g) ==> jobs[k].ActiveFor(g);
  }

  lemma StepKeepsOneActive(st: Store, e: Event)
    requires AtMostOneActive(st.jobs)
    ensures AtMostOneActive(Step(st, e).jobs)
  {
    match e
    case Enqueue(cfg, g, source, now, newId) => EnqueueKeepsOneActive(st, cfg, g, source, now, newId);
    case EnqueueRaises(cfg, g, source, now, newId) => EnqueueKeepsOneActive(st, cfg, g, source, now, newId);
    case EnqueueOther(g, id) => AppendKeepsOneActive(st.jobs, Job(id, g, false, Pending));
    case Claim(i) => if i < |st.jobs| && !st.jobs[i].status.Finished? { StatusKeepsOneActive(st.jobs, i, Running); }
    case Finish(i) => if i < |st.jobs| { StatusKeepsOneActive(st.jobs, i, Finished); }
    case Bump(_, _) =>
    case MarkEvolved(_, _, _) =>
  }

  lemma EnqueueKeepsOneActive(st: Store, cfg: Settings, g: Graph, source: string, now: real, newId: JobId)
    requires AtMostOneActive(st.jobs)
    ensures AtMostOneActive(Step(st, Enqueue(cfg, g, source, now, newId)).jobs)
    ensures AtMostOneActive(Step(st, EnqueueRaises(cfg, g, source, now, newId)).jobs)
    ensures Step(st, EnqueueRaises(cfg, g, source, now, newId)).jobs
         == Step(st, Enqueue(cfg, g, source, now, newId)).jobs
  {
    EvaluationPredicts(st, cfg, g, source, now, newId);
    ActiveJobFinds(st.jobs, g);
    if Evaluate(st, cfg, g, source, now).IsDue() { AppendKeepsOneActive(st.jobs, Job(newId, g, true, Pending)); }
  }

  /** No run of enqueues, scans' enqueues, failures, worker transitions and writes ever has
      two pending or running evolve jobs for one graph. */
  lemma {:induction false} RunKeepsOneActive(st: Store, events: seq<Event>)
    requires AtMostOneActive(st.jobs)
    ensures AtMostOneActive(Run(st, events).jobs)
    decreases |events|
  {
    if events != [] {
      StepKeepsOneActive(st, events[0]);
      RunKeepsOneActive(Step(st, events[0]), events[1..]);
    }
  }

  lemma StepMovesForward(st: Store, e: Event, g: Graph)
    ensures Step(st, e).State(g).lastSeen >= st.State(g).lastSeen
    ensures Step(st, e).State(g).lastEvolved >= st.State(g).lastEvolved
  {
    if e.Enqueue? { EvaluationPredicts(st, e.cfg, e.graph, e.source, e.now, e.newId); }
  }

  /** The seen and evolved versions never go back. */
  lemma {:induction false} RunMovesForward(st: Store, events: seq<Event>, g: Graph)
    ensures Run(st, events).State(g).lastSeen >= st.State(g).lastSeen
    ensures Run(st, events).State(g).lastEvolved >= st.State(g).lastEvolved
    decreases |events|
  {
    if events != [] {
      StepMovesForward(st, events[0], g);
      RunMovesForward(Step(st, events[0]), events[1..], g);
    }
  }

  // ---- selecting due graphs

  /** A due graph under its sort key; one that never evolved sorts at -1. */
  datatype DueGraph = DueGraph(evolvedAt: real, graph: Graph)

  predicate DueLe(a: DueGraph, b: DueGraph) {
    a.evolvedAt < b.evolvedAt || (a.evolvedAt == b.evolvedAt && a.graph <= b.graph)
  }

  function DueKey(st: Store, g: Graph): DueGraph {
    DueGraph(if st.State(g).evolvedAt.Some? then st.State(g).evolvedAt.value else -1.0, g)
  }

  function AtLeast(low: int, x: int): int { if x > low then x else low }

  /** What `select_due_graphs` asks of one row of the version table. */
  predicate Selects(st: Store, cfg: Settings, now: real, g: Graph) {
    && g in st.versions
    && (forall j | j in st.jobs :: !j.ActiveFor(g))
    && st.Version(g) - st.State(g).lastEvolved >= AtLeast(1, cfg.minDelta)
    && (st.State(g).evolvedAt.Some? ==> now - st.State(g).evolvedAt.value >= AtLeast(0, cfg.minInterval) as real)
  }

  lemma TruncatedInterval(x: real, n: int)
    requires x >= 0.0
    ensures Truncate(x) >= n <==> x >= n as real
  {}

  /** Selection and decision agree: behind open gates a graph is selected exactly when it is
      due, its version is known and really moved, and its clock is not ahead of now. */
  lemma SelectedIffDue(st: Store, cfg: Settings, g: Graph, source: string, now: real)
    requires Gate(cfg, source).None?
    ensures Selects(st, cfg, now, g) <==>
              && Evaluate(st, cfg, g, source, now).IsDue()
              && g in st.versions && st.Version(g) > st.State(g).lastEvolved
              && (st.State(g).evolvedAt.Some? ==> st.State(g).evolvedAt.value <= now)
  {
    ActiveJobFinds(st.jobs, g);
    if st.State(g).evolvedAt.Some? && st.State(g).evolvedAt.value <= now {
      TruncatedInterval(now - st.State(g).evolvedAt.value, cfg.minInterval);
    }
  }

  /** The due graphs among the rows, once each. */
  ghost predicate DueList(st: Store, cfg: Settings, now: real, rows: seq<Graph>, all: seq<DueGraph>) {
    && Distinct(all)
    && forall d :: d in all <==> d.graph in rows && Selects(st, cfg, now, d.graph) && d == DueKey(st, d.graph)
  }

  /** All due graphs in order, cut to the longest waiting. */
  ghost predicate Selection(st: Store, cfg: Settings, now: real, rows: seq<Graph>, due: seq<DueGraph>) {
    exists all ::
      && DueList(st, cfg, now, rows, all) && Sorted(DueLe, all)
      && due == Prefix(all, AtLeast(1, cfg.maxActions))
  }

  /** `select_due_graphs` over the version table's rows. */
  method SelectDueGraphs(st: Store, cfg: Settings, now: real, rows: seq<Graph>)
    returns (due: seq<DueGraph>)
    requires Distinct(rows)
    ensures Selection(st, cfg, now, rows, due)
  {
    var found: seq<DueGraph> := [];
    for i := 0 to |rows|
      invariant DueList(st, cfg, now, rows[..i], found)
    {
      TakeMore(rows, i);
      assert rows[i] !in rows[..i];
      if Selects(st, cfg, now, rows[i]) { found := found + [DueKey(st, rows[i])]; }
    }
    assert rows[..|rows|] == rows;
    SortDistinct(DueLe, found);
    assert DueList(st, cfg, now, rows, Sort(DueLe, found));
    due := Prefix(Sort(DueLe, found), AtLeast(1, cfg.maxActions));
  }

  /** The time a graph evolved last, or -1, then the graph decides the order. */
  ghost predicate WaitsLonger(st: Store, g: Graph, h: Graph) {
    var t := if st.State(g).evolvedAt.Some? then st.State(g).evolvedAt.value else -1.0;
    var u := if st.State(h).evolvedAt.Some? then st.State(h).evolvedAt.value else -1.0;
    t < u || (t == u && g < h)
  }

  /** The rows that qualify, longest waiting first, none left out that waits longer than one
      selected, and as many as the limit allows. */
  lemma SelectionMeaning(st: Store, cfg: Settings, now: real, rows: seq<Graph>, due: seq<DueGraph>)
    requires Selection(st, cfg, now, rows, due)
    ensures forall d :: d in due ==> d.graph in rows && Selects(st, cfg, now, d.graph)
    ensures forall i, j | 0 <= i < j < |due| :: WaitsLonger(st, due[i].graph, due[j].graph)
    ensures |due| <= if cfg.maxActions > 1 then cfg.maxActions else 1
    ensures forall g :: g in rows && Selects(st, cfg, now, g) && (forall d :: d in due ==> d.graph != g) ==>
              && |due| == (if cfg.maxActions > 1 then cfg.maxActions else 1)
              && forall d :: d in due ==> WaitsLonger(st, d.graph, g)
  {
    var all: seq<DueGraph> :|
      DueList(st, cfg, now, rows, all) && Sorted(DueLe, all) && due == Prefix(all, AtLeast(1, cfg.maxActions));
    forall i, j | 0 <= i < j < |all| ensures WaitsLonger(st, all[i].graph, all[j].graph) {
      assert all[i] in all && all[j] in all && DueLe(all[i], all[j]) && all[i] != all[j];
    }
    assert forall i | 0 <= i < |due| :: due[i] == all[i] && all[i] in all;
    forall g | g in rows && Selects(st, cfg, now, g) && (forall d :: d in due ==> d.graph != g)
      ensures |due| == (if cfg.maxActions > 1 then cfg.maxActions else 1)
      ensures forall d :: d in due ==> WaitsLonger(st, d.graph, g)
    {
      assert DueKey(st, g) in all;
      var i :| 0 <= i < |all| && all[i] == DueKey(st, g);
    }
  }

  /** What qualifies a row. */
  lemma SelectsMeaning(st: Store, cfg: Settings, now: real, g: Graph)
    ensures Selects(st, cfg, now, g) <==>
              && g in st.versions
              && (forall j :: j in st.jobs ==>
                    !(j.graph == g && j.isEvolve && (j.status == Pending || j.status == Running)))
              && st.versions[g] - st.State(g).lastEvolved >= 1
              && st.versions[g] - st.State(g).lastEvolved >= cfg.minDelta
              && (st.State(g).evolvedAt.Some? ==>
                  var elapsed := now - st.State(g).evolvedAt.value;
                  elapsed >= 0.0 && elapsed >= cfg.minInterval as real)
  {}

  /** There is only one such list, so the selection does not depend on the order of the rows. */
  lemma DueListUnique(st: Store, cfg: Settings, now: real, rows: seq<Graph>, more: seq<Graph>,
                      a: seq<DueGraph>, b: seq<DueGraph>)
    requires multiset(rows) == multiset(more)
    requires DueList(st, cfg, now, rows, a) && Sorted(DueLe, a)
    requires DueList(st, cfg, now, more, b) && Sorted(DueLe, b)
    ensures a == b
  {
    SameMembers(rows, more);
    DistinctMembers(a, b);
    SortedUnique(DueLe, a, b);
  }

  // ---- the periodic scan

  /** One due candidate, its control state, the id a new job would get, and where its
      enqueue call fails. */
  datatype Candidate = Candidate(graph: Graph, control: Control, newId: JobId, fault: Fault)

  datatype Verdict = Decided(status: EnqueueStatus) | Raised

  function Visit(st: Store, cfg: Settings, source: string, now: real, c: Candidate): (Store, Verdict) {
    var settings := cfg.(control := c.control);
    match c.fault
    case NoFault =>
      var (next, r) := EnqueueIfDue(st, settings, c.graph, source, now, c.newId);
      (next, Decided(r.status))
    case BeforeEnqueue => (st, Raised)
    case AfterEnqueue => (Step(st, EnqueueRaises(settings, c.graph, source, now, c.newId)), Raised)
  }

  function Visits(st: Store, cfg: Settings, source: string, now: real, cs: seq<Candidate>): (r: (Store, seq<Verdict>))
    ensures |r.1| == |cs|
  {
    if cs == [] then (st, [])
    else
      var (before, verdicts) := Visits(st, cfg, source, now, cs[..|cs| - 1]);
      var (after, verdict) := Visit(before, cfg, source, now, cs[|cs| - 1]);
      (after, verdicts + [verdict])
  }

  function CountOf(verdicts: seq<Verdict>, v: Verdict): nat {
    if verdicts == [] then 0
    else CountOf(verdicts[..|verdicts| - 1], v) + (if verdicts[|verdicts| - 1] == v then 1 else 0)
  }

  datatype Summary = Summary(scanned: nat, enqueued: nat, existing: nat, skipped: nat, errors: nat)

  function Tally(verdicts: seq<Verdict>): Summary {
    Summary(|verdicts|, CountOf(verdicts, Decided(Enqueued)), CountOf(verdicts, Decided(Existing)),
            CountOf(verdicts, Decided(Skipped)), CountOf(verdicts, Raised))
  }

  predicate Scans(cfg: Settings, mode: string, source: string) {
    cfg.jobsEnabled && !(IsPeriodicSource(source) && mode !in ["periodic", "hybrid"])
  }

  /** The counters partition the candidates. */
  lemma {:induction false} TallyPartitions(verdicts: seq<Verdict>)
    ensures var t := Tally(verdicts); t.enqueued + t.existing + t.skipped + t.errors == t.scanned
    decreases |verdicts|
  {
    if verdicts != [] {
      TallyPartitions(verdicts[..|verdicts| - 1]);
      var v := verdicts[|verdicts| - 1];
      assert v.Raised? || v.status.Enqueued? || v.status.Existing? || v.status.Skipped?;
    }
  }

  /** One visit touches only its own graph, and adds at most its one job. */
  lemma VisitIsLocal(st: Store, cfg: Settings, source: string, now: real, c: Candidate)
    ensures var (next, v) := Visit(st, cfg, source, now, c);
            && next.versions == st.versions
            && (forall h :: h != c.graph ==> next.State(h) == st.State(h))
            && (next.jobs == st.jobs
                || (next.jobs == st.jobs + [Job(c.newId, c.graph, true, Pending)] && v in {Decided(Enqueued), Raised}))
            && (v == Decided(Enqueued) ==> next.jobs != st.jobs)
            && (AtMostOneActive(st.jobs) ==> AtMostOneActive(next.jobs))
  {
    var settings := cfg.(control := c.control);
    EvaluationPredicts(st, settings, c.graph, source, now, c.newId);
    if AtMostOneActive(st.jobs) { EnqueueKeepsOneActive(st, settings, c.graph, source, now, c.newId); }
  }

  /** A scan adds a job for every candidate it counts as enqueued, and at most one for each
      error, and never leaves a graph with two active ones. */
  lemma {:induction false} VisitsAddJobs(st: Store, cfg: Settings, source: string, now: real, cs: seq<Candidate>)
    requires AtMostOneActive(st.jobs)
    ensures var (next, verdicts) := Visits(st, cfg, source, now, cs);
            && AtMostOneActive(next.jobs) && st.jobs <= next.jobs
            && Tally(verdicts).enqueued <= |next.jobs| - |st.jobs| <= Tally(verdicts).enqueued + Tally(verdicts).errors
    decreases |cs|
  {
    if cs != [] {
      VisitsAddJobs(st, cfg, source, now, cs[..|cs| - 1]);
      VisitIsLocal(Visits(st, cfg, source, now, cs[..|cs| - 1]).0, cfg, source, now, cs[|cs| - 1]);
    }
  }

  ghost predicate DistinctGraphs(cs: seq<Candidate>) {
    forall i, j | 0 <= i < j < |cs| :: cs[i].graph != cs[j].graph
  }

  /** A graph stays selected while only other graphs are visited. */
  lemma {:induction false} StaysSelected(st: Store, cfg: Settings, source: string, now: real,
                                         cs: seq<Candidate>, g: Graph)
    requires Selects(st, cfg, now, g) && forall c :: c in cs ==> c.graph != g
    ensures Selects(Visits(st, cfg, source, now, cs).0, cfg, now, g)
    decreases |cs|
  {
    if cs != [] {
      var front, last := cs[..|cs| - 1], cs[|cs| - 1];
      assert last in cs && forall c :: c in front ==> c in cs;
      StaysSelected(st, cfg, source, now, front, g);
      VisitIsLocal(Visits(st, cfg, source, now, front).0, cfg, source, now, last);
    }
  }

  /** What a scan makes of a selected candidate. */
  function Expected(cfg: Settings, source: string, c: Candidate): Verdict {
    if !c.fault.NoFault? then Raised
    else if Gate(cfg.(control := c.control), source).None? then Decided(Enqueued)
    else Decided(Skipped)
  }

  lemma SelectedVisit(st: Store, cfg: Settings, source: string, now: real, c: Candidate)
    requires Selects(st, cfg, now, c.graph)
    ensures Visit(st, cfg, source, now, c).1 == Expected(cfg, source, c)
  {
    var settings := cfg.(control := c.control);
    EvaluationPredicts(st, settings, c.graph, source, now, c.newId);
    if Gate(settings, source).None? {
      assert Selects(st, settings, now, c.graph);
      SelectedIffDue(st, settings, c.graph, source, now);
    }
  }

  /** A scan of selected graphs never meets an existing job: it enqueues every candidate whose
      gates are open and skips the others, whatever faults the earlier ones met. */
  lemma {:induction false} SelectedAreEnqueued(st: Store, cfg: Settings, source: string, now: real, cs: seq<Candidate>)
    requires DistinctGraphs(cs) && forall c :: c in cs ==> Selects(st, cfg, now, c.graph)
    ensures var verdicts := Visits(st, cfg, source, now, cs).1;
            forall i | 0 <= i < |cs| :: verdicts[i] == Expected(cfg, source, cs[i])
    decreases |cs|
  {
    if cs != [] {
      var front, last := cs[..|cs| - 1], cs[|cs| - 1];
      assert last in cs && forall c :: c in front ==> c in cs;
      SelectedAreEnqueued(st, cfg, source, now, front);
      StaysSelected(st, cfg, source, now, front, last.graph);
      SelectedVisit(Visits(st, cfg, source, now, front).0, cfg, source, now, last);
    }
  }

  /** A visit that is not stopped by a gate or an early failure leaves an active job. */
  predicate Adds(cfg: Settings, source: string, c: Candidate) {
    !c.fault.BeforeEnqueue? && Gate(cfg.(control := c.control), source).None?
  }

  lemma VisitSettles(st: Store, cfg: Settings, source: string, now: real, c: Candidate, g: Graph)
    requires Selects(st, cfg, now, c.graph)
    ensures Selects(Visit(st, cfg, source, now, c).0, cfg, now, g) <==>
              Selects(st, cfg, now, g) && !(c.graph == g && Adds(cfg, source, c))
  {
    var settings := cfg.(control := c.control);
    EvaluationPredicts(st, settings, c.graph, source, now, c.newId);
    if Gate(settings, source).None? {
      assert Selects(st, settings, now, c.graph);
      SelectedIffDue(st, settings, c.graph, source, now);
      if Adds(cfg, source, c) {
        var after := Visit(st, cfg, source, now, c).0;
        assert after.jobs == st.jobs + [Job(c.newId, c.graph, true, Pending)];
        assert after.jobs[|st.jobs|] in after.jobs;
        assert forall j :: j in after.jobs <==> j in st.jobs || j == Job(c.newId, c.graph, true, Pending);
      }
    }
  }

  /** After a scan of selected graphs, whatever faults it met, those still selected are exactly
      the ones it did not give a job. */
  lemma {:induction false} ScanSettles(st: Store, cfg: Settings, source: string, now: real,
                                       cs: seq<Candidate>, g: Graph)
    requires DistinctGraphs(cs) && forall c :: c in cs ==> Selects(st, cfg, now, c.graph)
    ensures Selects(Visits(st, cfg, source, now, cs).0, cfg, now, g) <==>
              Selects(st, cfg, now, g) && forall c :: c in cs && c.graph == g ==> !Adds(cfg, source, c)
    decreases |cs|
  {
    if cs != [] {
      var front, last := cs[..|cs| - 1], cs[|cs| - 1];
      assert last in cs && forall c :: c in cs <==> c in front || c == last;
      ScanSettles(st, cfg, source, now, front, g);
      StaysSelected(st, cfg, source, now, front, last.graph);
      VisitSettles(Visits(st, cfg, source, now, front).0, cfg, source, now, last, g);
    }
  }

  /** What the rest of the system supplies for each graph a scan reaches. */
  datatype Surroundings = Surroundings(control: Graph -> Control, newId: Graph -> JobId, fault: Graph -> Fault) {
    function Candidates(due: seq<DueGraph>): (cs: seq<Candidate>)
      ensures |cs| == |due|
      ensures forall i | 0 <= i < |due| ::
                cs[i] == Candidate(due[i].graph, control(due[i].graph), newId(due[i].graph), fault(due[i].graph))
    {
      Map((d: DueGraph) => Candidate(d.graph, control(d.graph), newId(d.graph), fault(d.graph)), due)
    }
  }

  lemma SelectionIsDistinct(st: Store, cfg: Settings, now: real, rows: seq<Graph>, due: seq<DueGraph>,
                            around: Surroundings)
    requires Selection(st, cfg, now, rows, due)
    ensures DistinctGraphs(around.Candidates(due))
    ensures forall c :: c in around.Candidates(due) ==> Selects(st, cfg, now, c.graph)
  {
    var all: seq<DueGraph> :|
      DueList(st, cfg, now, rows, all) && Sorted(DueLe, all) && due == Prefix(all, AtLeast(1, cfg.maxActions));
    assert forall i | 0 <= i < |due| :: due[i] == all[i] && all[i] in all;
  }

  /** One whole scan: with `due` the graphs selected from the tables before, it enqueues every
      one whose gates are open and meets no fault, never an existing job, and what remains
      selected afterwards is what it gave no job. */
  ghost predicate WholeScan(before: Store, after: Store, cfg: Settings, source: string, now: real, rows: seq<Graph>,
                            around: Surroundings, due: seq<DueGraph>, summary: Summary) {
    var cs := around.Candidates(due);
    && Selection(before, cfg, now, rows, due)
    && after == Visits(before, cfg, source, now, cs).0
    && summary == Tally(Map(c => Expected(cfg, source, c), cs))
    && summary.existing == 0 && summary.scanned == |due|
    && summary.enqueued + summary.skipped + summary.errors == summary.scanned
    && forall g :: Selects(after, cfg, now, g) <==>
                     Selects(before, cfg, now, g) && forall c :: c in cs && c.graph == g ==> !Adds(cfg, source, c)
  }

  lemma {:induction false} NeverExisting(verdicts: seq<Verdict>)
    requires forall v :: v in verdicts ==> v != Decided(Existing)
    ensures CountOf(verdicts, Decided(Existing)) == 0
    decreases |verdicts|
  {
    if verdicts != [] {
      var front, last := verdicts[..|verdicts| - 1], verdicts[|verdicts| - 1];
      assert last in verdicts && forall v :: v in front ==> v in verdicts;
      NeverExisting(front);
    }
  }

  lemma ScanIsWhole(before: Store, cfg: Settings, source: string, now: real, rows: seq<Graph>,
                    around: Surroundings, due: seq<DueGraph>)
    requires Selection(before, cfg, now, rows, due)
    ensures var (after, verdicts) := Visits(before, cfg, source, now, around.Candidates(due));
            WholeScan(before, after, cfg, source, now, rows, around, due, Tally(verdicts))
  {
    var cs := around.Candidates(due);
    var (after, verdicts) := Visits(before, cfg, source, now, cs);
    SelectionIsDistinct(before, cfg, now, rows, due, around);
    SelectedAreEnqueued(before, cfg, source, now, cs);
    assert verdicts == Map(c => Expected(cfg, source, c), cs);
    NeverExisting(verdicts);
    TallyPartitions(verdicts);
    forall g ensures Selects(after, cfg, now, g) <==>
        Selects(before, cfg, now, g) && forall c :: c in cs && c.graph == g ==> !Adds(cfg, source, c) {
      ScanSettles(before, cfg, source, now, cs, g);
    }
  }

  // ---- the source's calls on the database

  class Database {
    var store: Store

    constructor (store: Store)
      ensures this.store == store
    {
      this.store := store;
    }

    /** `evaluate_self_evolve_due` */
    method EvaluateSelfEvolveDue(cfg: Settings, g: Graph, source: string, now: real, updateSeen: bool)
      returns (e: Evaluation)
      modifies this
      ensures e == Evaluate(old(store), cfg, g, source, now)
      ensures store == if updateSeen then EvaluateAndMark(old(store), cfg, g, source, now).0 else old(store)
    {
      var gate := Gate(cfg, source);
      if gate.Some? { return Evaluation(gate.value, 0, 0, None); }
      var version := store.Version(g);
      if updateSeen { store := store.MarkSeen(g, version); }
      var state := store.State(g);
      var delta := version - state.lastEvolved;
      if delta < cfg.minDelta { return Evaluation(VersionDeltaTooSmall, version, delta, None); }
      if state.evolvedAt.Some? {
        var elapsed := Truncate(now - state.evolvedAt.value);
        if elapsed < cfg.minInterval { return Evaluation(IntervalTooShort, version, delta, None); }
      }
      var active := ActiveJob(store.jobs, g);
      if active.Some? { return Evaluation(ActiveEvolveJobExists, version, delta, active); }
      e := Evaluation(DueEnqueued, version, delta, None);
    }

    /** `enqueue_self_evolve_if_due`, or None when it raises. */
    method EnqueueSelfEvolveIfDue(cfg: Settings, g: Graph, source: string, now: real, newId: JobId, fault: Fault)
      returns (r: Option<EnqueueResult>)
      modifies this
      ensures fault.NoFault? ==> r.Some? && (store, r.value) == EnqueueIfDue(old(store), cfg, g, source, now, newId)
      ensures fault.BeforeEnqueue? ==> r.None? && store == old(store)
      ensures fault.AfterEnqueue? ==> r.None? && store == Step(old(store), EnqueueRaises(cfg, g, source, now, newId))
    {
      if fault.BeforeEnqueue? { return None; }
      var e := EvaluateSelfEvolveDue(cfg, g, source, now, true);
      if !e.IsDue() {
        if fault.AfterEnqueue? { return None; }
        if e.reason.ActiveEvolveJobExists? && e.active.Some? {
          store := store.MarkEnqueued(g, e.version, e.active.value);
          return Some(EnqueueResult(Existing, e.reason, e.active, e.version, e.delta));
        }
        return Some(EnqueueResult(Skipped, e.reason, None, e.version, e.delta));
      }
      store := store.(jobs := store.jobs + [Job(newId, g, true, Pending)]);
      if fault.AfterEnqueue? { return None; }
      store := store.MarkEnqueued(g, e.version, newId);
      r := Some(EnqueueResult(Enqueued, e.reason, Some(newId), e.version, e.delta));
    }

    /** The scan's loop over the candidates selected as due. */
    method EnqueueAll(cfg: Settings, source: string, now: real, candidates: seq<Candidate>) returns (summary: Summary)
      modifies this
      ensures var (next, verdicts) := Visits(old(store), cfg, source, now, candidates);
              store == next && summary == Tally(verdicts)
    {
      var enqueued, existing, skipped, errors := 0, 0, 0, 0;
      ghost var verdicts: seq<Verdict> := [];
      for i := 0 to |candidates|
        invariant enqueued >= 0 && existing >= 0 && skipped >= 0 && errors >= 0
        invariant (store, verdicts) == Visits(old(store), cfg, source, now, candidates[..i])
        invariant Summary(i, enqueued, existing, skipped, errors) == Tally(verdicts)
      {
        var c := candidates[i];
        VisitsStep(old(store), cfg, source, now, candidates, i);
        ghost var verdict := Visit(store, cfg, source, now, c).1;
        TallyStep(verdicts, verdict);
        verdicts := verdicts + [verdict];
        var decision := EnqueueSelfEvolveIfDue(cfg.(control := c.control), c.graph, source, now, c.newId, c.fault);
        if decision.None? {
          errors := errors + 1;
        } else {
          match decision.value.status {
            case Enqueued => enqueued := enqueued + 1;
            case Existing => existing := existing + 1;
            case Skipped => skipped := skipped + 1;
          }
        }
      }
      assert candidates[..|candidates|] == candidates;
      summary := Summary(|candidates|, enqueued, existing, skipped, errors);
    }

    /** `scan_and_enqueue_due_self_evolve_jobs`, from the version table's rows. */
    method ScanAndEnqueue(mode: string, cfg: Settings, source: string, now: real, rows: seq<Graph>,
                          around: Surroundings)
      returns (summary: Summary)
      requires Distinct(rows)
      modifies this
      ensures Scans(cfg, mode, source) ==>
                exists due :: WholeScan(old(store), store, cfg, source, now, rows, around, due, summary)
      ensures !Scans(cfg, mode, source) ==> store == old(store) && summary == Summary(0, 0, 0, 0, 0)
    {
      if !cfg.jobsEnabled { return Summary(0, 0, 0, 0, 0); }
      if IsPeriodicSource(source) && mode !in ["periodic", "hybrid"] { return Summary(0, 0, 0, 0, 0); }
      var due := SelectDueGraphs(store, cfg, now, rows);
      ScanIsWhole(store, cfg, source, now, rows, around, due);
      summary := EnqueueAll(cfg, source, now, around.Candidates(due));
      assert WholeScan(old(store), store, cfg, source, now, rows, around, due, summary);
    }
  }

  lemma VisitsStep(st: Store, cfg: Settings, source: string, now: real, cs: seq<Candidate>, i: nat)
    requires i < |cs|
    ensures var (before, verdicts) := Visits(st, cfg, source, now, cs[..i]);
            var (after, verdict) := Visit(before, cfg, source, now, cs[i]);
            Visits(st, cfg, source, now, cs[..i + 1]) == (after, verdicts + [verdict])
  {
    assert cs[..i + 1][..i] == cs[..i];
  }

  lemma TallyStep(verdicts: seq<Verdict>, v: Verdict)
    ensures var t := Tally(verdicts);
            Tally(verdicts + [v]) == Summary(t.scanned + 1,
                                             t.enqueued + (if v == Decided(Enqueued) then 1 else 0),
                                             t.existing + (if v == Decided(Existing) then 1 else 0),
                                             t.skipped + (if v == Decided(Skipped) then 1 else 0),
                                             t.errors + (if v == Raised then 1 else 0))
  {
    assert (verdicts + [v])[..|verdicts|] == verdicts;
  }
}
