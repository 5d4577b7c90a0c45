/** faim_native/orchestration/ingest_flow.py: the dedup check, write, record and rollback
    skeleton of `run_ingest` on one transactional session. */
module Ingest {

  type PacketHash = int

  /** The packets whose atoms are in the graph, those recorded in the dedup table, and those
      with a queued index job. */
  datatype Tables = Tables(atoms: set<PacketHash>, records: set<PacketHash>, jobs: set<PacketHash>) {
    /** A packet is recorded exactly when its atoms are in the graph. */
    ghost predicate Consistent() {
      atoms == records
    }

    function Write(h: PacketHash): Tables {
      this.(atoms := atoms + {h})
    }

    function Queue(h: PacketHash): Tables {
      this.(jobs := jobs + {h})
    }

    function Record(h: PacketHash): Tables {
      this.(records := records + {h})
    }
  }

  /** What is committed, and what the session sees: the same until something is pending. */
  datatype Db = Db(committed: Tables, current: Tables) {
    predicate Settled() {
      committed == current
    }
  }

  datatype Extraction = Blocks | NoBlocks | ExtractRaises

  /** What the index path after the write does. Queueing adds a job and flushes it. */
  datatype IndexPath = IndexLeavesSession | IndexQueued | IndexRaises

  /** `record_ingest`: it commits, or raises before it touches the session, or its commit
      fails and rolls the transaction back. The last two are swallowed. */
  datatype RecordStep = RecordCommits | RecordRaisesEarly | RecordCommitFails

  /** Which steps of one call fail. A failed event emission is swallowed, after rolling the
      session back. */
  datatype Faults = Faults(
    startEvent: bool,
    extract: Extraction,
    packetEvent: bool,
    check: bool,         // the dedup lookup
    hitEvent: bool,      // an emission of the dedup-hit branch
    prepare: bool,       // validation or encoding
    encodedEvent: bool,
    write: bool,         // write_atoms, part of the way through
    writtenEvent: bool,  // an emission between the write and the index path
    index: IndexPath,
    indexedEvent: bool,  // the emission that ends the index path
    record: RecordStep,
    lastEvent: bool)

  datatype Status = DedupHit | Completed | Error

  class Session {
    var db: Db

    constructor ()
      ensures db == Db(Tables({}, {}, {}), Tables({}, {}, {}))
    {
      db := Db(Tables({}, {}, {}), Tables({}, {}, {}));
    }

    method Rollback()
      modifies this
      ensures db == Db(old(db).committed, old(db).committed)
    {
      db := db.(current := db.committed);
    }

    method Commit()
      modifies this
      ensures db == Db(old(db).current, old(db).current)
    {
      db := db.(committed := db.current);
    }

    method Emit(fails: bool)
      modifies this
      ensures db == if fails then Db(old(db).committed, old(db).committed) else old(db)
    {
      if fails { Rollback(); }
    }

    /** `record_ingest`. The dedup table's primary key rejects a packet that is there. */
    method RecordIngest(h: PacketHash, step: RecordStep)
      modifies this
      ensures db == if step.RecordRaisesEarly? then old(db)
                    else if step.RecordCommits? && h !in old(db).current.records then
                      Db(old(db).current.Record(h), old(db).current.Record(h))
                    else Db(old(db).committed, old(db).committed)
    {
      if step.RecordRaisesEarly? { return; }
      if step.RecordCommitFails? || h in db.current.records {
        Rollback();
        return;
      }
      db := db.(current := db.current.Record(h));
      Commit();
    }
  }

  // ---- one call, by what is left standing

  /** What the dedup check sees. */
  function Seen(db: Db, f: Faults): Tables {
    if f.startEvent || f.packetEvent then db.committed else db.current
  }

  function Outcome(db: Db, h: PacketHash, f: Faults): Status {
    if !f.extract.Blocks? then Error
    else if !f.check && h in Seen(db, f).records then DedupHit
    else if f.prepare || f.write || f.index.IndexRaises? then Error
    else Completed
  }

  /** What a call that reaches the record has pending there, having seen `db` at the dedup
      check: each failed emission threw away everything before it. */
  function BeforeRecord(db: Db, h: PacketHash, f: Faults): Tables {
    var written :=
      if f.writtenEvent then db.committed
      else if f.encodedEvent then db.committed.Write(h)
      else db.current.Write(h);
    if f.indexedEvent then db.committed
    else if f.index.IndexQueued? then written.Queue(h)
    else written
  }

  /** What a completing call leaves. */
  function Recorded(db: Db, h: PacketHash, f: Faults): Db {
    var t := BeforeRecord(db, h, f);
    if f.record.RecordCommits? && h !in t.records then Db(t.Record(h), t.Record(h))
    else if f.record.RecordRaisesEarly? && !f.lastEvent then db.(current := t)
    else db.(current := db.committed)
  }

  function Ingested(db: Db, h: PacketHash, f: Faults): Db {
    var undone := db.(current := db.committed);
    match Outcome(db, h, f)
    case DedupHit => if f.hitEvent then undone else db.(current := Seen(db, f))
    case Error => if f.extract.NoBlocks? && !f.startEvent then db else undone
    case Completed => Recorded(db.(current := Seen(db, f)), h, f)
  }

  /** `run_ingest`, from any session, with any combination of failing steps. */
  method RunIngest(session: Session, h: PacketHash, f: Faults) returns (status: Status)
    modifies session
    ensures status == Outcome(old(session.db), h, f)
    ensures session.db == Ingested(old(session.db), h, f)
  {
    session.Emit(f.startEvent);
    if f.extract.NoBlocks? { return Error; }
    if f.extract.ExtractRaises? {
      session.Rollback();
      return Error;
    }
    session.Emit(f.packetEvent);
    if !f.check {
      if h in session.db.current.records {
        session.Emit(f.hitEvent);
        return DedupHit;
      }
    }
    if f.prepare {
      session.Rollback();
      return Error;
    }
    status := WriteAndRecord(session, h, f);
  }

  /** The second half of `run_ingest`. */
  method WriteAndRecord(session: Session, h: PacketHash, f: Faults) returns (status: Status)
    modifies session
    ensures status == if f.write || f.index.IndexRaises? then Error else Completed
    ensures session.db == if status.Completed? then Recorded(old(session.db), h, f)
                          else Db(old(session.db).committed, old(session.db).committed)
  {
    session.Emit(f.encodedEvent);
    session.db := session.db.(current := session.db.current.Write(h));
    if f.write {
      session.Rollback();
      return Error;
    }
    session.Emit(f.writtenEvent);
    match f.index {
      case IndexRaises =>
        session.Rollback();
        return Error;
      case IndexLeavesSession =>
      case IndexQueued =>
        session.db := session.db.(current := session.db.current.Queue(h));
    }
    session.Emit(f.indexedEvent);
    session.RecordIngest(h, f.record);
    session.Emit(f.lastEvent);
    status := Completed;
  }

  // ---- records and atoms stay together

  /** The emissions after the write leave the atoms standing. */
  predicate AtomsKept(f: Faults) {
    !f.writtenEvent && !f.indexedEvent
  }

  /** The call completes a packet that is not recorded yet. */
  predicate CompletesNew(db: Db, h: PacketHash, f: Faults) {
    Outcome(db, h, f).Completed? && h !in db.current.records
  }

  /** One call breaks the committed tables exactly when it completes and records a new packet
      whose atoms an emission rolled back, and breaks what the session sees then, or when the
      record raises early on atoms that nothing rolled back. */
  lemma ConsistencyIff(db: Db, h: PacketHash, f: Faults)
    requires db.Settled() && db.committed.Consistent()
    ensures Ingested(db, h, f).committed.Consistent() <==>
              !(CompletesNew(db, h, f) && f.record.RecordCommits? && !AtomsKept(f))
    ensures Ingested(db, h, f).current.Consistent() <==>
              !(CompletesNew(db, h, f)
                && ((f.record.RecordCommits? && !AtomsKept(f))
                    || (f.record.RecordRaisesEarly? && AtomsKept(f) && !f.lastEvent)))
  {}

  /** An index job is left for atoms that are not there exactly when an emission rolled the
      atoms back before the job was queued, none did afterwards, and the job was kept. */
  lemma OrphanJobIff(db: Db, h: PacketHash, f: Faults)
    requires db.Settled() && db.committed.Consistent() && db.committed.jobs <= db.committed.atoms
    ensures !(Ingested(db, h, f).current.jobs <= Ingested(db, h, f).current.atoms) <==>
              && CompletesNew(db, h, f) && f.index.IndexQueued? && f.writtenEvent && !f.indexedEvent
              && (f.record.RecordCommits? || (f.record.RecordRaisesEarly? && !f.lastEvent))
  {}

  // ---- runs

  /** One session's history: calls, and whatever its owner commits or rolls back between. */
  datatype Action = Call(packet: PacketHash, faults: Faults) | OwnerCommits | OwnerRollsBack

  function Step(db: Db, a: Action): Db {
    match a
    case Call(h, f) => Ingested(db, h, f)
    case OwnerCommits => Db(db.current, db.current)
    case OwnerRollsBack => Db(db.committed, db.committed)
  }

  function After(db: Db, actions: seq<Action>): Db
    decreases |actions|
  {
    if actions == [] then db else After(Step(db, actions[0]), actions[1..])
  }

  /** Dedup access and event emission succeed; extracting, preparing, writing and indexing
      may fail. */
  predicate Healthy(a: Action) {
    a.Call? ==>
      var f := a.faults;
      && !f.startEvent && !f.packetEvent && !f.check && !f.hitEvent && !f.encodedEvent
      && !f.writtenEvent && !f.indexedEvent && f.record.RecordCommits? && !f.lastEvent
  }

  predicate Completes(db: Db, a: Action) {
    a.Call? && Outcome(db, a.packet, a.faults).Completed?
  }

  /** The packets whose calls complete, in order. */
  function Completions(db: Db, actions: seq<Action>): seq<PacketHash>
    decreases |actions|
  {
    if actions == [] then []
    else
      (if Completes(db, actions[0]) then [actions[0].packet] else [])
      + Completions(Step(db, actions[0]), actions[1..])
  }

  lemma HealthyStep(db: Db, a: Action)
    requires db.Settled() && db.committed.Consistent() && Healthy(a)
    ensures var next := Step(db, a);
            && next.Settled() && next.committed.Consistent()
            && (Completes(db, a) ==> a.packet !in db.committed.records)
            && next.committed.records == db.committed.records + (if Completes(db, a) then {a.packet} else {})
  {}

  /** At every boundary of every healthy run nothing is pending, records and atoms agree, what
      was added is what completed, and no packet completes twice. */
  lemma {:induction false} HealthyRunsStayConsistent(db: Db, actions: seq<Action>)
    requires db.Settled() && db.committed.Consistent() && forall a :: a in actions ==> Healthy(a)
    ensures After(db, actions).Settled() && After(db, actions).committed.Consistent()
    ensures forall h :: h in After(db, actions).committed.records <==>
                          h in db.committed.records || h in Completions(db, actions)
    ensures forall h :: h in Completions(db, actions) ==> h !in db.committed.records
    ensures forall i, j | 0 <= i < j < |Completions(db, actions)| ::
              Completions(db, actions)[i] != Completions(db, actions)[j]
    decreases |actions|
  {
    if actions != [] {
      assert actions[0] in actions && forall a :: a in actions[1..] ==> a in actions;
      HealthyStep(db, actions[0]);
      HealthyRunsStayConsistent(Step(db, actions[0]), actions[1..]);
    }
  }

  /** In a healthy run a packet already ingested is a dedup hit that changes nothing, once its
      blocks are extracted. */
  lemma RepeatIsHit(db: Db, actions: seq<Action>, again: Action)
    requires db.Settled() && db.committed.Consistent() && forall a :: a in actions ==> Healthy(a)
    requires again.Call? && Healthy(again) && again.faults.extract.Blocks?
    requires again.packet in After(db, actions).committed.atoms
    ensures Outcome(After(db, actions), again.packet, again.faults).DedupHit?
    ensures Step(After(db, actions), again) == After(db, actions)
  {
    HealthyRunsStayConsistent(db, actions);
  }

  // ---- atoms lost between the write and the record

  /** The packet is recorded without its atoms, for good and in the session's eyes. */
  predicate Lost(db: Db, h: PacketHash) {
    && h in db.committed.records && h !in db.committed.atoms
    && h in db.current.records && h !in db.current.atoms
  }

  /** A call loses a new packet exactly when it completes and records it after an emission, on
      any index path, has rolled the atoms back. */
  lemma LostIff(db: Db, h: PacketHash, f: Faults)
    requires db.Settled() && h !in db.committed.records && h !in db.committed.atoms
    ensures Lost(Ingested(db, h, f), h) <==>
              Outcome(db, h, f).Completed? && f.record.RecordCommits? && !AtomsKept(f)
  {}

  /** Either the dedup check works, or the record at least reaches the session. */
  predicate Ordinary(a: Action) {
    a.Call? ==> !a.faults.check || !a.faults.record.RecordRaisesEarly?
  }

  /** No later ordinary call, of this packet or another, brings lost atoms back: the lookup
      answers that the packet is there, and the primary key undoes a write without it. */
  lemma {:induction false} LostAtomsStayLost(db: Db, h: PacketHash, actions: seq<Action>)
    requires Lost(db, h) && forall a :: a in actions ==> Ordinary(a)
    ensures Lost(After(db, actions), h)
    decreases |actions|
  {
    if actions != [] {
      assert actions[0] in actions && forall a :: a in actions[1..] ==> a in actions;
      LostAtomsStayLost(Step(db, actions[0]), h, actions[1..]);
    }
  }

  /** The queued path is no exception: its emission may fail, and the packet is lost. */
  lemma QueuedEmissionLosesAtoms(h: PacketHash)
    ensures var f := Faults(false, Blocks, false, false, false, false, false, false, false, IndexQueued, true,
                            RecordCommits, false);
            Lost(Ingested(Db(Tables({}, {}, {}), Tables({}, {}, {})), h, f), h)
  {}

  // ---- which calls complete

  /** A packet whose blocks are extracted is a dedup hit when the lookup works and finds it, and
      otherwise completes unless preparing, writing or indexing fails. */
  lemma OutcomeMeaning(db: Db, h: PacketHash, f: Faults)
    requires db.Settled()
    ensures Outcome(db, h, f) == DedupHit <==> f.extract == Blocks && !f.check && h in db.committed.records
    ensures Outcome(db, h, f) == Completed <==>
              && f.extract == Blocks && (f.check || h !in db.committed.records)
              && !f.prepare && !f.write && f.index != IndexRaises
  {}

  /** A fault-free call on a new packet completes and commits its atoms and its record, and on
      the queued index path its job; every other packet is left alone. */
  lemma NewPacketIsIngested(db: Db, h: PacketHash, index: IndexPath)
    requires db.Settled() && h !in db.committed.records && index != IndexRaises
    ensures var f := Faults(false, Blocks, false, false, false, false, false, false, false, index, false,
                            RecordCommits, false);
            && Outcome(db, h, f) == Completed
            && Ingested(db, h, f).Settled()
            && Ingested(db, h, f).committed
               == Tables(db.committed.atoms + {h}, db.committed.records + {h},
                         if index == IndexQueued then db.committed.jobs + {h} else db.committed.jobs)
  {}
}
