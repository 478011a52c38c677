/**
 The lock file: who a record names and whether that process is gone, and the protocol
 of taking, stealing, releasing and handing over the file, as steps many processes
 interleave while others crash and their pids are given out again.
 */
module Lock {
  import opened Wrappers

  type Pid = nat
  type Time = int

  /** The lock's content: its holder, and when that process started. */
  datatype Owner = Owner(pid: Pid, startedAt: Time)

  datatype Liveness = Alive | Dead | Unknown

  /** What the host's process table says of each pid. */
  datatype Probe = Probe(running: set<Pid>, unsure: set<Pid>, starts: map<Pid, Time>) {

    function Liveness(pid: Pid): Liveness {
      if pid in unsure then Unknown else if pid in running then Alive else Dead
    }

    function Started(pid: Pid): Option<Time> {
      if pid in starts then Some(starts[pid]) else None
    }
  }

  /** When a process started as a record has to state it: the table's answer, the clock's only where it has none. */
  function TakenAt(pid: Pid, probe: Probe, now: Time): Time {
    if probe.Started(pid).Some? then probe.Started(pid).value else now
  }

  /** Whether the very process of a record runs: one that has its pid but a later start is another. */
  function HolderState(owner: Owner, probe: Probe): Liveness {
    match probe.Liveness(owner.pid)
    case Alive =>
      if probe.Started(owner.pid).Some? && probe.Started(owner.pid).value > owner.startedAt then Dead else Alive
    case other => other
  }

  /**
   A holder is dead exactly where the table is sure of its pid and either nothing runs
   under it or what runs is known to have started later; and not known exactly where the
   table is unsure. A record is stamped by the table, and by the clock where it is silent.
   */
  lemma {:induction false} HolderIsDeadExactly(owner: Owner, probe: Probe, now: Time)
    ensures HolderState(owner, probe) == Dead <==>
            owner.pid !in probe.unsure &&
              (owner.pid in probe.running ==> owner.pid in probe.starts && probe.starts[owner.pid] > owner.startedAt)
    ensures HolderState(owner, probe) == Unknown <==> owner.pid in probe.unsure
    ensures owner.pid in probe.starts ==> TakenAt(owner.pid, probe, now) == probe.starts[owner.pid]
    ensures owner.pid !in probe.starts ==> TakenAt(owner.pid, probe, now) == now
  {
  }

  // ---------------------------------------------------------------- pid reuse

  /** One process: a number no other process of the host's history has, and when it started. */
  datatype Process = Process(serial: nat, started: Time)

  /** The processes running under each pid, the latest start each pid ever had, and the next serial. */
  datatype Table = Table(running: map<Pid, Process>, latest: map<Pid, Time>, next: nat)

  /** A pid is given out again only to a process that starts strictly later. */
  ghost predicate TableStep(a: Table, b: Table) {
    || (exists pid: Pid, t: Time ::
          && pid !in a.running && (pid in a.latest ==> a.latest[pid] < t)
          && b == Table(a.running[pid := Process(a.next, t)], a.latest[pid := t], a.next + 1))
    || (exists pid: Pid :: pid in a.running && b == a.(running := a.running - {pid}))
  }

  ghost predicate TableValid(a: Table) {
    forall pid :: pid in a.running ==>
      pid in a.latest && a.running[pid].started == a.latest[pid] && a.running[pid].serial < a.next
  }

  ghost predicate History(tables: seq<Table>) {
    && (forall i :: 0 <= i < |tables| ==> TableValid(tables[i]))
    && (forall i :: 0 < i < |tables| ==> TableStep(tables[i - 1], tables[i]))
  }

  ghost predicate Exact(probe: Probe, table: Table) {
    && probe.unsure == {}
    && probe.running == table.running.Keys
    && probe.starts == (map pid | pid in table.running :: table.running[pid].started)
  }

  /** What stays true of a record since the process it names was seen running. */
  ghost predicate Traced(table: Table, owner: Owner, serial: nat) {
    && serial < table.next
    && owner.pid in table.latest && owner.startedAt <= table.latest[owner.pid]
    && (owner.pid in table.running ==>
          if table.running[owner.pid].serial == serial then table.running[owner.pid].started == owner.startedAt
          else owner.startedAt < table.running[owner.pid].started)
  }

  lemma {:induction false} TracedAlong(tables: seq<Table>, i: nat, j: nat, owner: Owner, serial: nat)
    requires History(tables) && i <= j < |tables| && Traced(tables[i], owner, serial)
    ensures Traced(tables[j], owner, serial)
    decreases j - i
  {
    if i < j {
      assert TableStep(tables[i + 1 - 1], tables[i + 1]);
      TracedAlong(tables, i + 1, j, owner, serial);
    }
  }

  /** A record reads as dead exactly when the very process it was stamped for is gone, however often its pid was reused. */
  lemma {:induction false} DeadIsGone(
    tables: seq<Table>, i: nat, j: nat, pid: Pid, stamping: Probe, reading: Probe, now: Time)
    requires History(tables) && i <= j < |tables|
    requires pid in tables[i].running && Exact(stamping, tables[i]) && Exact(reading, tables[j])
    ensures var owner := Owner(pid, TakenAt(pid, stamping, now));
            var named := tables[i].running[pid];
            && HolderState(owner, reading) != Unknown
            && (HolderState(owner, reading) == Dead <==>
                !(pid in tables[j].running && tables[j].running[pid].serial == named.serial))
  {
    var owner := Owner(pid, TakenAt(pid, stamping, now));
    assert owner.startedAt == tables[i].running[pid].started;
    TracedAlong(tables, i, j, owner, tables[i].running[pid].serial);
  }

  // -------------------------------------------------------------- the protocol

  /** Where one process stands: the states between two steps on the file. */
  datatype Pc =
    | Idle
    /** At the top of the retry loop, about to create the file. */
    | Trying
    /** The file was there: its record is to be read. */
    | Blocked
    /** A record was read: whether its process runs is to be asked. */
    | Seen(record: Owner)
    /** A process with that pid runs: when it started is to be asked. */
    | Questioned(record: Owner)
    /** The process of the record is gone: the file is to be removed. */
    | Stealing(record: Owner)
    | Holding
    /** The file was read to name this process: it is to be removed. */
    | Releasing

  datatype File = Absent | Unreadable | Names(owner: Owner)

  /** The running processes, the latest start of each pid, and the file. */
  datatype World = World(procs: map<Owner, Pc>, latest: map<Pid, Time>, file: File)

  datatype Step =
    | Spawn(who: Owner)
    | Exit(who: Owner)
    | Begin(who: Owner)
    | Create(who: Owner)
    | ReadRecord(who: Owner, waits: bool)
    | AskLiveness(who: Owner, probe: Probe, keep: bool, waits: bool)
    | AskStart(who: Owner, probe: Probe, keep: bool, waits: bool)
    | RemoveStale(who: Owner)
    | GiveUp(who: Owner)
    | CheckOwn(who: Owner)
    | RemoveOwn(who: Owner)
    | HandOver(who: Owner, to: Owner)

  /** The probe is right where it is sure. */
  ghost predicate Sound(probe: Probe, w: World) {
    && (forall o :: o in w.procs ==> o.pid in probe.unsure || o.pid in probe.running)
    && (forall o :: o in w.procs && o.pid in probe.starts ==> probe.starts[o.pid] == o.startedAt)
  }

  ghost predicate Possible(w: World, s: Step) {
    match s
    case Spawn(o) => o.pid !in w.latest || (w.latest[o.pid] < o.startedAt && forall x :: x in w.procs ==> x.pid != o.pid)
    case Exit(o) => o in w.procs
    case Begin(o) => o in w.procs && w.procs[o].Idle?
    case Create(o) => o in w.procs && w.procs[o].Trying?
    case ReadRecord(o, _) => o in w.procs && w.procs[o].Blocked?
    case AskLiveness(o, probe, _, _) => o in w.procs && w.procs[o].Seen? && Sound(probe, w)
    case AskStart(o, probe, _, _) => o in w.procs && w.procs[o].Questioned? && Sound(probe, w)
    case RemoveStale(o) => o in w.procs && w.procs[o].Stealing?
    case GiveUp(o) => o in w.procs && (w.procs[o].Trying? || w.procs[o].Blocked? || Between(w.procs[o]))
    case CheckOwn(o) => o in w.procs && w.procs[o].Holding?
    case RemoveOwn(o) => o in w.procs && w.procs[o].Releasing?
    case HandOver(o, q) => o in w.procs && w.procs[o].Holding? && q in w.procs && w.procs[q].Idle? && q != o
  }

  /** A present holder is waited for, or refuses. */
  function Present(waits: bool): Pc {
    if waits then Trying else Idle
  }

  function Gone(record: Owner, keep: bool): Pc {
    if keep then Idle else Stealing(record)
  }

  function AfterLiveness(record: Owner, probe: Probe, keep: bool, waits: bool): Pc {
    match probe.Liveness(record.pid)
    case Dead => Gone(record, keep)
    case Alive => Questioned(record)
    case Unknown => Present(waits)
  }

  function AfterStart(record: Owner, probe: Probe, keep: bool, waits: bool): Pc {
    if probe.Started(record.pid).Some? && probe.Started(record.pid).value > record.startedAt then Gone(record, keep)
    else Present(waits)
  }

  /** The two questions, asked at one moment, are the reading of the holder's state. */
  lemma {:induction false} TwoQuestionsReadTheHolder(record: Owner, probe: Probe, waits: bool)
    ensures HolderState(record, probe) == Dead <==>
            || AfterLiveness(record, probe, false, waits) == Stealing(record)
            || (AfterLiveness(record, probe, false, waits) == Questioned(record) && AfterStart(record, probe, false, waits) == Stealing(record))
  {
  }

  function Moved(w: World, o: Owner, pc: Pc): World {
    w.(procs := w.procs[o := pc])
  }

  function After(w: World, s: Step): World {
    match s
    case Spawn(o) => World(w.procs[o := Idle], w.latest[o.pid := o.startedAt], w.file)
    case Exit(o) => w.(procs := w.procs - {o})
    case Begin(o) => Moved(w, o, Trying)
    case Create(o) =>
      if w.file.Absent? then Moved(w, o, Holding).(file := Names(o)) else Moved(w, o, Blocked)
    case ReadRecord(o, waits) =>
      Moved(w, o, if w.file.Names? then Seen(w.file.owner) else Present(waits))
    case AskLiveness(o, probe, keep, waits) =>
      if o !in w.procs || !w.procs[o].Seen? then w else Moved(w, o, AfterLiveness(w.procs[o].record, probe, keep, waits))
    case AskStart(o, probe, keep, waits) =>
      if o !in w.procs || !w.procs[o].Questioned? then w else Moved(w, o, AfterStart(w.procs[o].record, probe, keep, waits))
    case RemoveStale(o) => Moved(w, o, Trying).(file := Absent)
    case GiveUp(o) => Moved(w, o, Idle)
    case CheckOwn(o) => Moved(w, o, if w.file == Names(o) then Releasing else Idle)
    case RemoveOwn(o) => Moved(w, o, Idle).(file := Absent)
    case HandOver(o, q) => Moved(Moved(w, o, Idle), q, Holding).(file := Names(q))
  }

  /** Between reading a record and removing its file. */
  predicate Between(pc: Pc) {
    pc.Seen? || pc.Questioned? || pc.Stealing?
  }

  predicate Believes(pc: Pc) {
    pc.Holding? || pc.Releasing?
  }

  /** Whoever believes it holds the lock is named by the file: so at most one running process does. */
  ghost predicate Exclusive(w: World) {
    forall o :: o in w.procs && Believes(w.procs[o]) ==> w.file == Names(o)
  }

  ghost predicate WellFormed(w: World) {
    forall o :: o in w.procs ==> o.pid in w.latest && w.latest[o.pid] == o.startedAt
  }

  ghost predicate Born(w: World, o: Owner) {
    o.pid in w.latest && o.startedAt <= w.latest[o.pid]
  }

  /** What every step keeps while each stale removal finds no running holder. */
  ghost predicate Inv(w: World) {
    && WellFormed(w)
    && Exclusive(w)
    && (w.file.Names? ==> Born(w, w.file.owner))
    && (w.file.Names? && w.file.owner in w.procs ==> Believes(w.procs[w.file.owner]))
  }

  /** The one harmful step: removing as stale a file that names a running process. */
  ghost predicate Clean(w: World, s: Step) {
    s.RemoveStale? ==> !(w.file.Names? && w.file.owner in w.procs)
  }

  predicate WritesFile(s: Step) {
    s.Create? || s.RemoveStale? || s.RemoveOwn? || s.HandOver?
  }

  lemma {:induction false} LocalStepKeepsInv(w: World, s: Step)
    requires Inv(w) && Possible(w, s) && !WritesFile(s)
    ensures Inv(After(w, s))
  {
  }

  lemma {:induction false} FileStepKeepsInv(w: World, s: Step)
    requires Inv(w) && Possible(w, s) && Clean(w, s) && WritesFile(s)
    ensures Inv(After(w, s))
  {
  }

  lemma {:induction false} CleanStepKeepsInv(w: World, s: Step)
    requires Inv(w) && Possible(w, s) && Clean(w, s)
    ensures Inv(After(w, s))
  {
    if WritesFile(s) {
      FileStepKeepsInv(w, s);
    } else {
      LocalStepKeepsInv(w, s);
    }
  }

  lemma {:induction false} UncleanStepBreaksExclusion(w: World, s: Step)
    requires Inv(w) && Possible(w, s) && !Clean(w, s)
    ensures !Exclusive(After(w, s))
  {
    var x := w.file.owner;
    assert x in After(w, s).procs && x != s.who;
  }

  // --------------------------------------------------- one turn of taking the lock

  /** What the loop does with a record it read, nobody else moving. */
  function Judged(w: World, o: Owner, probe: Probe, keep: bool, waits: bool): World
    requires o in w.procs && w.procs[o].Seen?
  {
    var asked := After(w, AskLiveness(o, probe, keep, waits));
    var judged := if asked.procs[o].Questioned? then After(asked, AskStart(o, probe, keep, waits)) else asked;
    if judged.procs[o].Stealing? then After(judged, RemoveStale(o)) else judged
  }

  /** One turn of the loop that takes the lock, nobody else moving: the file is created, or its holder read and asked after. */
  function Turn(w: World, o: Owner, probe: Probe, keep: bool, waits: bool): World
    requires o in w.procs && w.procs[o].Trying?
  {
    var created := After(w, Create(o));
    var read := if created.procs[o].Blocked? then After(created, ReadRecord(o, waits)) else created;
    if read.procs[o].Seen? then Judged(read, o, probe, keep, waits) else read
  }

  lemma {:induction false} MovedTwice(w: World, o: Owner, p: Pc, q: Pc)
    ensures Moved(Moved(w, o, p), o, q) == Moved(w, o, q)
  {
    assert w.procs[o := p][o := q] == w.procs[o := q];
  }

  lemma {:induction false} RecordIsJudged(w: World, o: Owner, record: Owner, probe: Probe, keep: bool, waits: bool)
    requires o in w.procs
    ensures Judged(Moved(w, o, Seen(record)), o, probe, keep, waits) ==
              if HolderState(record, probe) == Dead then
                if keep then Moved(w, o, Idle) else Moved(w, o, Trying).(file := Absent)
              else Moved(w, o, if waits then Trying else Idle)
  {
    var next := AfterLiveness(record, probe, keep, waits);
    var last := if next.Questioned? then AfterStart(record, probe, keep, waits) else next;
    MovedTwice(w, o, Seen(record), next);
    MovedTwice(w, o, next, last);
    MovedTwice(w, o, last, Trying);
  }

  /**
   What one turn does. A free lock is taken. A gone holder's file is removed and the turn
   starts again, or it is kept, file and all, and the caller turned away. A holder that
   runs, or of whom that is not known, and a file that names nobody, stay: a caller that
   waits tries again, any other is refused. Nobody else's place changes.
   */
  lemma {:induction false} TurnIsDecided(w: World, o: Owner, probe: Probe, keep: bool, waits: bool)
    requires o in w.procs && w.procs[o].Trying?
    ensures Turn(w, o, probe, keep, waits) ==
              match w.file
              case Absent => Moved(w, o, Holding).(file := Names(o))
              case Unreadable => Moved(w, o, if waits then Trying else Idle)
              case Names(holder) =>
                if HolderState(holder, probe) == Dead then
                  if keep then Moved(w, o, Idle) else Moved(w, o, Trying).(file := Absent)
                else Moved(w, o, if waits then Trying else Idle)
  {
    if w.file.Names? {
      MovedTwice(w, o, Blocked, Seen(w.file.owner));
      RecordIsJudged(w, o, w.file.owner, probe, keep, waits);
    } else if w.file.Unreadable? {
      MovedTwice(w, o, Blocked, if waits then Trying else Idle);
    }
  }

  /** Letting go removes the file where it names the holder that lets go, and leaves it alone where it has moved on. */
  lemma {:induction false} ReleaseIsExact(w: World, o: Owner)
    requires o in w.procs && w.procs[o].Holding?
    ensures var checked := After(w, CheckOwn(o));
            var released := if checked.procs[o].Releasing? then After(checked, RemoveOwn(o)) else checked;
            released == Moved(w, o, Idle).(file := if w.file == Names(o) then Absent else w.file)
  {
    assert w.procs[o := Releasing][o := Idle] == w.procs[o := Idle];
  }

  /** A process that ends, or stops waiting, leaves the file as it is. */
  lemma {:induction false} CrashLeavesFile(w: World, s: Step)
    requires Possible(w, s) && (s.Exit? || s.GiveUp? || s.Spawn? || s.Begin?)
    ensures After(w, s).file == w.file
    ensures s.GiveUp? ==> After(w, s) == Moved(w, s.who, Idle)
    ensures s.Exit? ==> s.who !in After(w, s).procs && forall o :: o in w.procs && o != s.who ==> o in After(w, s).procs
  {
  }

  // ------------------------------------------------------------------ whole runs

  ghost predicate IsRun(w: World, steps: seq<Step>)
    decreases |steps|
  {
    steps != [] ==> Possible(w, steps[0]) && IsRun(After(w, steps[0]), steps[1..])
  }

  ghost predicate ExclusiveThroughout(w: World, steps: seq<Step>)
    decreases |steps|
  {
    Exclusive(w) && (steps != [] ==> ExclusiveThroughout(After(w, steps[0]), steps[1..]))
  }

  ghost predicate CleanThroughout(w: World, steps: seq<Step>)
    decreases |steps|
  {
    steps != [] ==> Clean(w, steps[0]) && CleanThroughout(After(w, steps[0]), steps[1..])
  }

  /** Over every run, the lock is exclusive throughout exactly when no stale removal met a running process's file. */
  lemma {:induction false} ExclusionExactly(w: World, steps: seq<Step>)
    requires Inv(w) && IsRun(w, steps)
    ensures ExclusiveThroughout(w, steps) <==> CleanThroughout(w, steps)
    decreases |steps|
  {
    if steps != [] {
      if Clean(w, steps[0]) {
        CleanStepKeepsInv(w, steps[0]);
        ExclusionExactly(After(w, steps[0]), steps[1..]);
      } else {
        UncleanStepBreaksExclusion(w, steps[0]);
      }
    }
  }

  /** No two processes at once between reading a record and removing its file. */
  ghost predicate OneReader(w: World) {
    forall o, x :: o in w.procs && x in w.procs && Between(w.procs[o]) && Between(w.procs[x]) ==> o == x
  }

  ghost predicate OneReaderThroughout(w: World, steps: seq<Step>)
    decreases |steps|
  {
    OneReader(w) && (steps != [] ==> OneReaderThroughout(After(w, steps[0]), steps[1..]))
  }

  /** Nobody removes the file or hands it over while another process stands between its read and its removal. */
  ghost predicate Undisturbed(w: World, s: Step) {
    s.RemoveStale? || s.RemoveOwn? || s.HandOver? ==>
      forall o :: o in w.procs && Between(w.procs[o]) ==> o == s.who
  }

  ghost predicate UndisturbedThroughout(w: World, steps: seq<Step>)
    decreases |steps|
  {
    steps != [] ==> Undisturbed(w, steps[0]) && UndisturbedThroughout(After(w, steps[0]), steps[1..])
  }

  /** Whoever read a record still has before it the file that names it; and a stealer's is of a process that never runs again. */
  ghost predicate ReadersCurrent(w: World) {
    forall o :: o in w.procs && Between(w.procs[o]) ==>
      w.file == Names(w.procs[o].record) && (w.procs[o].Stealing? ==> w.procs[o].record !in w.procs)
  }

  lemma {:induction false} GoneIsNotRunning(w: World, record: Owner, probe: Probe, waits: bool)
    requires WellFormed(w) && Sound(probe, w)
    ensures AfterLiveness(record, probe, false, waits).Stealing? ==> record !in w.procs
    ensures AfterStart(record, probe, false, waits).Stealing? ==> record !in w.procs
  {
  }

  lemma {:induction false} QuestionKeepsReadersCurrent(w: World, s: Step)
    requires Inv(w) && ReadersCurrent(w) && Possible(w, s) && (s.AskLiveness? || s.AskStart?)
    ensures ReadersCurrent(After(w, s))
  {
    GoneIsNotRunning(w, w.procs[s.who].record, s.probe, s.waits);
  }

  lemma {:induction false} StepKeepsReadersCurrent(w: World, s: Step)
    requires Inv(w) && ReadersCurrent(w) && Possible(w, s) && Undisturbed(w, s)
    ensures Clean(w, s) && ReadersCurrent(After(w, s))
  {
    if s.AskLiveness? || s.AskStart? {
      QuestionKeepsReadersCurrent(w, s);
    }
  }

  /** With nobody touching the file under a reader, every run is exclusive throughout. */
  lemma {:induction false} UndisturbedExcludes(w: World, steps: seq<Step>)
    requires Inv(w) && ReadersCurrent(w) && IsRun(w, steps) && UndisturbedThroughout(w, steps)
    ensures CleanThroughout(w, steps) && ExclusiveThroughout(w, steps)
    decreases |steps|
  {
    if steps != [] {
      StepKeepsReadersCurrent(w, steps[0]);
      CleanStepKeepsInv(w, steps[0]);
      UndisturbedExcludes(After(w, steps[0]), steps[1..]);
    }
  }

  /** A host that starts with no process and any file left behind by processes it knew. */
  ghost predicate Initial(w: World) {
    w.procs == map[] && (w.file.Names? ==> Born(w, w.file.owner))
  }

  lemma {:induction false} InitialIsInv(w: World)
    requires Initial(w)
    ensures Inv(w) && ReadersCurrent(w)
  {
  }

  // ------------------------------------------------- two stealers, both holders

  /** A run from `w` that ends up with the lock not exclusive. */
  ghost predicate GoesWrong(w: World, steps: seq<Step>) {
    IsRun(w, steps) && !ExclusiveThroughout(w, steps)
  }

  lemma {:induction false} Prepended(w: World, s: Step, next: World, rest: seq<Step>) returns (steps: seq<Step>)
    requires Possible(w, s) && After(w, s) == next && GoesWrong(next, rest)
    ensures GoesWrong(w, steps)
  {
    steps := [s] + rest;
    assert steps[1..] == rest;
  }

  function Both(dead: Owner, a: Owner, pa: Pc, b: Owner, pb: Pc, file: File): World {
    World(map[a := pa, b := pb], map[dead.pid := dead.startedAt, a.pid := a.startedAt, b.pid := b.startedAt], file)
  }

  /** Both at the removal: the first takes the lock, the second removes its file. */
  lemma {:induction false} SecondStealerRemovesFirst(dead: Owner, a: Owner, b: Owner) returns (steps: seq<Step>)
    requires a.pid != b.pid && a.pid != dead.pid && b.pid != dead.pid
    ensures GoesWrong(Both(dead, a, Stealing(dead), b, Stealing(dead), Names(dead)), steps)
  {
    var w0 := Both(dead, a, Stealing(dead), b, Stealing(dead), Names(dead));
    var w1 := Both(dead, a, Trying, b, Stealing(dead), Absent);
    var w2 := Both(dead, a, Holding, b, Stealing(dead), Names(a));
    assert After(w0, RemoveStale(a)) == w1;
    assert After(w1, Create(a)) == w2;
    steps := HeldFileIsRemoved(dead, a, b);
    steps := Prepended(w1, Create(a), w2, steps);
    steps := Prepended(w0, RemoveStale(a), w1, steps);
  }

  lemma {:induction false} HeldFileIsRemoved(dead: Owner, a: Owner, b: Owner) returns (steps: seq<Step>)
    requires a.pid != b.pid
    ensures GoesWrong(Both(dead, a, Holding, b, Stealing(dead), Names(a)), steps)
  {
    var w0 := Both(dead, a, Holding, b, Stealing(dead), Names(a));
    var w1 := Both(dead, a, Holding, b, Trying, Absent);
    assert After(w0, RemoveStale(b)) == w1;
    assert a in w1.procs && !Exclusive(w1);
    steps := Prepended(w0, RemoveStale(b), w1, []);
  }

  /** Both read the gone holder before either removes its file. */
  lemma {:induction false} BothReadTheGoneHolder(dead: Owner, a: Owner, b: Owner, tail: seq<Step>) returns (steps: seq<Step>)
    requires a.pid != b.pid && a.pid != dead.pid && b.pid != dead.pid
    requires GoesWrong(Both(dead, a, Stealing(dead), b, Stealing(dead), Names(dead)), tail)
    ensures GoesWrong(Both(dead, a, Blocked, b, Blocked, Names(dead)), steps)
  {
    var w0 := Both(dead, a, Blocked, b, Blocked, Names(dead));
    var w1 := Both(dead, a, Seen(dead), b, Blocked, Names(dead));
    var w2 := Both(dead, a, Seen(dead), b, Seen(dead), Names(dead));
    assert After(w0, ReadRecord(a, false)) == w1;
    assert After(w1, ReadRecord(b, false)) == w2;
    steps := BothAskAfterIt(dead, a, b, tail);
    steps := Prepended(w1, ReadRecord(b, false), w2, steps);
    steps := Prepended(w0, ReadRecord(a, false), w1, steps);
  }

  lemma {:induction false} BothAskAfterIt(dead: Owner, a: Owner, b: Owner, tail: seq<Step>) returns (steps: seq<Step>)
    requires a.pid != b.pid && a.pid != dead.pid && b.pid != dead.pid
    requires GoesWrong(Both(dead, a, Stealing(dead), b, Stealing(dead), Names(dead)), tail)
    ensures GoesWrong(Both(dead, a, Seen(dead), b, Seen(dead), Names(dead)), steps)
  {
    var probe := Probe({a.pid, b.pid}, {}, map[a.pid := a.startedAt, b.pid := b.startedAt]);
    var w0 := Both(dead, a, Seen(dead), b, Seen(dead), Names(dead));
    var w1 := Both(dead, a, Stealing(dead), b, Seen(dead), Names(dead));
    var w2 := Both(dead, a, Stealing(dead), b, Stealing(dead), Names(dead));
    assert AfterLiveness(dead, probe, false, false) == Stealing(dead);
    assert w0.procs[a := Stealing(dead)] == w1.procs && w1.procs[b := Stealing(dead)] == w2.procs;
    steps := Prepended(w1, AskLiveness(b, probe, false, false), w2, tail);
    steps := Prepended(w0, AskLiveness(a, probe, false, false), w1, steps);
  }

  /** Both find a file they cannot create. */
  lemma {:induction false} BothAreBlocked(dead: Owner, a: Owner, b: Owner, tail: seq<Step>) returns (steps: seq<Step>)
    requires a.pid != b.pid && a.pid != dead.pid && b.pid != dead.pid
    requires GoesWrong(Both(dead, a, Blocked, b, Blocked, Names(dead)), tail)
    ensures GoesWrong(Both(dead, a, Trying, b, Trying, Names(dead)), steps)
  {
    var w0 := Both(dead, a, Trying, b, Trying, Names(dead));
    var w1 := Both(dead, a, Blocked, b, Trying, Names(dead));
    var w2 := Both(dead, a, Blocked, b, Blocked, Names(dead));
    assert After(w0, Create(a)) == w1;
    assert After(w1, Create(b)) == w2;
    steps := Prepended(w1, Create(b), w2, tail);
    steps := Prepended(w0, Create(a), w1, steps);
  }

  lemma {:induction false} BothBegin(dead: Owner, a: Owner, b: Owner, tail: seq<Step>) returns (steps: seq<Step>)
    requires a.pid != b.pid
    requires GoesWrong(Both(dead, a, Trying, b, Trying, Names(dead)), tail)
    ensures GoesWrong(Both(dead, a, Idle, b, Idle, Names(dead)), steps)
  {
    var w0 := Both(dead, a, Idle, b, Idle, Names(dead));
    var w1 := Both(dead, a, Trying, b, Idle, Names(dead));
    var w2 := Both(dead, a, Trying, b, Trying, Names(dead));
    assert After(w0, Begin(a)) == w1;
    assert After(w1, Begin(b)) == w2;
    steps := Prepended(w1, Begin(b), w2, tail);
    steps := Prepended(w0, Begin(a), w1, steps);
  }

  /** Two stealers at once do break exclusion, from an initial world: the condition above is needed. */
  lemma {:induction false} TwoStealersBothHold(dead: Owner, a: Owner, b: Owner) returns (steps: seq<Step>)
    requires a.pid != b.pid && a.pid != dead.pid && b.pid != dead.pid
    ensures var w := World(map[], map[dead.pid := dead.startedAt], Names(dead));
            Initial(w) && GoesWrong(w, steps)
  {
    var tail := SecondStealerRemovesFirst(dead, a, b);
    tail := BothReadTheGoneHolder(dead, a, b, tail);
    tail := BothAreBlocked(dead, a, b, tail);
    tail := BothBegin(dead, a, b, tail);
    var w0 := World(map[], map[dead.pid := dead.startedAt], Names(dead));
    var w1 := World(map[a := Idle], map[dead.pid := dead.startedAt, a.pid := a.startedAt], Names(dead));
    var w2 := Both(dead, a, Idle, b, Idle, Names(dead));
    assert After(w0, Spawn(a)) == w1;
    assert After(w1, Spawn(b)) == w2;
    steps := Prepended(w1, Spawn(b), w2, tail);
    steps := Prepended(w0, Spawn(a), w1, steps);
  }

  // ------------------------------------------------------ one reader alone is enough to break it

  /** A run from `w` with never more than one reader that ends up with the lock not exclusive. */
  ghost predicate GoesWrongAlone(w: World, steps: seq<Step>) {
    IsRun(w, steps) && OneReaderThroughout(w, steps) && !ExclusiveThroughout(w, steps)
  }

  lemma {:induction false} PrependedAlone(w: World, s: Step, next: World, rest: seq<Step>) returns (steps: seq<Step>)
    requires Possible(w, s) && After(w, s) == next && OneReader(w) && GoesWrongAlone(next, rest)
    ensures GoesWrongAlone(w, steps)
  {
    steps := [s] + rest;
    assert steps[1..] == rest;
  }

  /** The reader `r`, the holder-to-be `y`, and `x` while it still runs. */
  function Trio(x: Owner, px: Pc, r: Owner, pr: Pc, y: Owner, py: Pc, file: File): World {
    World(map[x := px, r := pr, y := py], map[x.pid := x.startedAt, r.pid := r.startedAt, y.pid := y.startedAt], file)
  }

  function Pair(x: Owner, r: Owner, pr: Pc, y: Owner, py: Pc, file: File): World {
    World(map[r := pr, y := py], map[x.pid := x.startedAt, r.pid := r.startedAt, y.pid := y.startedAt], file)
  }

  predicate Apart(x: Owner, r: Owner, y: Owner) {
    x.pid != r.pid && x.pid != y.pid && r.pid != y.pid
  }

  lemma {:induction false} FirstMoves(x: Owner, px: Pc, r: Owner, pr: Pc, y: Owner, py: Pc, file: File, q: Pc)
    requires Apart(x, r, y) && !Between(px) && !Between(py)
    ensures Moved(Trio(x, px, r, pr, y, py, file), x, q) == Trio(x, q, r, pr, y, py, file)
    ensures Trio(x, px, r, pr, y, py, file).procs[x] == px && OneReader(Trio(x, px, r, pr, y, py, file))
  {
    UpdatedFirst(x, px, r, pr, y, py, q);
    TrioHasOneReader(x, px, r, pr, y, py, file);
  }

  lemma {:induction false} SecondMoves(x: Owner, px: Pc, r: Owner, pr: Pc, y: Owner, py: Pc, file: File, q: Pc)
    requires Apart(x, r, y) && !Between(px) && !Between(py)
    ensures Moved(Trio(x, px, r, pr, y, py, file), r, q) == Trio(x, px, r, q, y, py, file)
    ensures Trio(x, px, r, pr, y, py, file).procs[r] == pr && OneReader(Trio(x, px, r, pr, y, py, file))
  {
    UpdatedSecond(x, px, r, pr, y, py, q);
    TrioHasOneReader(x, px, r, pr, y, py, file);
  }

  lemma {:induction false} UpdatedFirst(x: Owner, px: Pc, r: Owner, pr: Pc, y: Owner, py: Pc, q: Pc)
    requires Apart(x, r, y)
    ensures map[x := px, r := pr, y := py][x := q] == map[x := q, r := pr, y := py]
  {
  }

  lemma {:induction false} UpdatedSecond(x: Owner, px: Pc, r: Owner, pr: Pc, y: Owner, py: Pc, q: Pc)
    requires Apart(x, r, y)
    ensures map[x := px, r := pr, y := py][r := q] == map[x := px, r := q, y := py]
  {
  }

  lemma {:induction false} TrioHasOneReader(x: Owner, px: Pc, r: Owner, pr: Pc, y: Owner, py: Pc, file: File)
    requires Apart(x, r, y) && !Between(px) && !Between(py)
    ensures OneReader(Trio(x, px, r, pr, y, py, file))
  {
    var w := Trio(x, px, r, pr, y, py, file);
    forall o | o in w.procs && Between(w.procs[o]) ensures o == r {
    }
    OnlyReaderIsOne(w, r);
  }

  lemma {:induction false} OnlyReaderIsOne(w: World, r: Owner)
    requires forall o :: o in w.procs && Between(w.procs[o]) ==> o == r
    ensures OneReader(w)
  {
  }

  lemma {:induction false} PairMoves(x: Owner, r: Owner, pr: Pc, y: Owner, py: Pc, file: File, q: Pc)
    requires Apart(x, r, y)
    ensures Moved(Pair(x, r, pr, y, py, file), r, q) == Pair(x, r, q, y, py, file)
    ensures Moved(Pair(x, r, pr, y, py, file), y, q) == Pair(x, r, pr, y, q, file)
    ensures Pair(x, r, pr, y, py, file).procs[r] == pr && Pair(x, r, pr, y, py, file).procs[y] == py
    ensures !Between(py) ==> OneReader(Pair(x, r, pr, y, py, file))
  {
    UpdatedOfTwo(r, pr, y, py, q);
    if !Between(py) {
      PairHasOneReader(x, r, pr, y, py, file);
    }
  }

  lemma {:induction false} UpdatedOfTwo(r: Owner, pr: Pc, y: Owner, py: Pc, q: Pc)
    requires r != y
    ensures map[r := pr, y := py][r := q] == map[r := q, y := py] && map[r := pr, y := py][y := q] == map[r := pr, y := q]
  {
  }

  lemma {:induction false} PairHasOneReader(x: Owner, r: Owner, pr: Pc, y: Owner, py: Pc, file: File)
    requires Apart(x, r, y) && !Between(py)
    ensures OneReader(Pair(x, r, pr, y, py, file))
  {
    var w := Pair(x, r, pr, y, py, file);
    forall o | o in w.procs && Between(w.procs[o]) ensures o == r {
    }
    OnlyReaderIsOne(w, r);
  }

  /** The file is removed for a record that is no longer in it. */
  lemma {:induction false} ReaderRemovesIt(x: Owner, r: Owner, y: Owner) returns (steps: seq<Step>)
    requires Apart(x, r, y)
    ensures GoesWrongAlone(Pair(x, r, Stealing(x), y, Holding, Names(y)), steps)
  {
    var w0 := Pair(x, r, Stealing(x), y, Holding, Names(y));
    var w1 := Pair(x, r, Trying, y, Holding, Absent);
    PairMoves(x, r, Stealing(x), y, Holding, Names(y), Trying);
    PairMoves(x, r, Trying, y, Holding, Absent, Trying);
    assert !Exclusive(w1) by {
      assert y in w1.procs && w1.procs[y] == Holding;
    }
    steps := PrependedAlone(w0, RemoveStale(r), w1, []);
  }

  lemma {:induction false} ReaderAsksTooLate(x: Owner, r: Owner, y: Owner, tail: seq<Step>) returns (steps: seq<Step>)
    requires Apart(x, r, y) && GoesWrongAlone(Pair(x, r, Stealing(x), y, Holding, Names(y)), tail)
    ensures GoesWrongAlone(Pair(x, r, Seen(x), y, Holding, Names(y)), steps)
  {
    var probe := Probe({r.pid, y.pid}, {}, map[r.pid := r.startedAt, y.pid := y.startedAt]);
    var w0 := Pair(x, r, Seen(x), y, Holding, Names(y));
    PairMoves(x, r, Seen(x), y, Holding, Names(y), Stealing(x));
    assert Sound(probe, w0) by {
      assert forall o :: o in w0.procs ==> o == r || o == y;
    }
    assert AfterLiveness(x, probe, false, false) == Stealing(x);
    steps := PrependedAlone(w0, AskLiveness(r, probe, false, false), Pair(x, r, Stealing(x), y, Holding, Names(y)), tail);
  }

  /** Another process takes the lock that was let go. */
  lemma {:induction false} AnotherTakesIt(x: Owner, r: Owner, y: Owner, tail: seq<Step>) returns (steps: seq<Step>)
    requires Apart(x, r, y) && GoesWrongAlone(Pair(x, r, Seen(x), y, Holding, Names(y)), tail)
    ensures GoesWrongAlone(Pair(x, r, Seen(x), y, Idle, Absent), steps)
  {
    var w0 := Pair(x, r, Seen(x), y, Idle, Absent);
    var w1 := Pair(x, r, Seen(x), y, Trying, Absent);
    PairMoves(x, r, Seen(x), y, Idle, Absent, Trying);
    PairMoves(x, r, Seen(x), y, Trying, Absent, Holding);
    steps := PrependedAlone(w1, Create(y), Pair(x, r, Seen(x), y, Holding, Names(y)), tail);
    steps := PrependedAlone(w0, Begin(y), w1, steps);
  }

  lemma {:induction false} FirstLeft(x: Owner, px: Pc, r: Owner, pr: Pc, y: Owner, py: Pc)
    requires Apart(x, r, y)
    ensures var procs := map[x := px, r := pr, y := py]; x in procs && procs - {x} == map[r := pr, y := py]
  {
  }

  lemma {:induction false} HolderLeaves(x: Owner, r: Owner, y: Owner, tail: seq<Step>) returns (steps: seq<Step>)
    requires Apart(x, r, y) && GoesWrongAlone(Pair(x, r, Seen(x), y, Idle, Absent), tail)
    ensures GoesWrongAlone(Trio(x, Idle, r, Seen(x), y, Idle, Absent), steps)
  {
    var w0 := Trio(x, Idle, r, Seen(x), y, Idle, Absent);
    TrioHasOneReader(x, Idle, r, Seen(x), y, Idle, Absent);
    FirstLeft(x, Idle, r, Seen(x), y, Idle);
    steps := PrependedAlone(w0, Exit(x), Pair(x, r, Seen(x), y, Idle, Absent), tail);
  }

  lemma {:induction false} HolderLetsGo(x: Owner, r: Owner, y: Owner, tail: seq<Step>) returns (steps: seq<Step>)
    requires Apart(x, r, y) && GoesWrongAlone(Trio(x, Idle, r, Seen(x), y, Idle, Absent), tail)
    ensures GoesWrongAlone(Trio(x, Holding, r, Seen(x), y, Idle, Names(x)), steps)
  {
    var w0 := Trio(x, Holding, r, Seen(x), y, Idle, Names(x));
    var w1 := Trio(x, Releasing, r, Seen(x), y, Idle, Names(x));
    FirstMoves(x, Holding, r, Seen(x), y, Idle, Names(x), Releasing);
    FirstMoves(x, Releasing, r, Seen(x), y, Idle, Names(x), Idle);
    steps := PrependedAlone(w1, RemoveOwn(x), Trio(x, Idle, r, Seen(x), y, Idle, Absent), tail);
    steps := PrependedAlone(w0, CheckOwn(x), w1, steps);
  }

  /** The reader finds the file taken, and reads whom it names. */
  lemma {:induction false} ReaderReads(x: Owner, r: Owner, y: Owner, tail: seq<Step>) returns (steps: seq<Step>)
    requires Apart(x, r, y) && GoesWrongAlone(Trio(x, Holding, r, Seen(x), y, Idle, Names(x)), tail)
    ensures GoesWrongAlone(Trio(x, Holding, r, Trying, y, Idle, Names(x)), steps)
  {
    var w0 := Trio(x, Holding, r, Trying, y, Idle, Names(x));
    var w1 := Trio(x, Holding, r, Blocked, y, Idle, Names(x));
    SecondMoves(x, Holding, r, Trying, y, Idle, Names(x), Blocked);
    SecondMoves(x, Holding, r, Blocked, y, Idle, Names(x), Seen(x));
    steps := PrependedAlone(w1, ReadRecord(r, false), Trio(x, Holding, r, Seen(x), y, Idle, Names(x)), tail);
    steps := PrependedAlone(w0, Create(r), w1, steps);
  }

  lemma {:induction false} HolderTakesIt(x: Owner, r: Owner, y: Owner, tail: seq<Step>) returns (steps: seq<Step>)
    requires Apart(x, r, y) && GoesWrongAlone(Trio(x, Holding, r, Trying, y, Idle, Names(x)), tail)
    ensures GoesWrongAlone(Trio(x, Idle, r, Idle, y, Idle, Absent), steps)
  {
    var w0 := Trio(x, Idle, r, Idle, y, Idle, Absent);
    var w1 := Trio(x, Trying, r, Idle, y, Idle, Absent);
    var w2 := Trio(x, Holding, r, Idle, y, Idle, Names(x));
    FirstMoves(x, Idle, r, Idle, y, Idle, Absent, Trying);
    FirstMoves(x, Trying, r, Idle, y, Idle, Absent, Holding);
    SecondMoves(x, Holding, r, Idle, y, Idle, Names(x), Trying);
    steps := PrependedAlone(w2, Begin(r), Trio(x, Holding, r, Trying, y, Idle, Names(x)), tail);
    steps := PrependedAlone(w1, Create(x), w2, steps);
    steps := PrependedAlone(w0, Begin(x), w1, steps);
  }

  /** One reader at a time is not enough: from an empty host and no file, a lone reader removes a running holder's file. */
  lemma {:induction false} LoneReaderRemovesAnothers(x: Owner, r: Owner, y: Owner) returns (steps: seq<Step>)
    requires Apart(x, r, y)
    ensures var w := World(map[], map[], Absent);
            Initial(w) && GoesWrongAlone(w, steps)
  {
    var tail := ReaderRemovesIt(x, r, y);
    tail := ReaderAsksTooLate(x, r, y, tail);
    tail := AnotherTakesIt(x, r, y, tail);
    tail := HolderLeaves(x, r, y, tail);
    tail := HolderLetsGo(x, r, y, tail);
    tail := ReaderReads(x, r, y, tail);
    tail := HolderTakesIt(x, r, y, tail);
    steps := AllArrive(x, r, y, tail);
  }

  lemma {:induction false} AllArrive(x: Owner, r: Owner, y: Owner, tail: seq<Step>) returns (steps: seq<Step>)
    requires Apart(x, r, y) && GoesWrongAlone(Trio(x, Idle, r, Idle, y, Idle, Absent), tail)
    ensures GoesWrongAlone(World(map[], map[], Absent), steps)
  {
    var w0 := World(map[], map[], Absent);
    var w1 := World(map[x := Idle], map[x.pid := x.startedAt], Absent);
    var w2 := World(map[x := Idle, r := Idle], map[x.pid := x.startedAt, r.pid := r.startedAt], Absent);
    var w3 := Trio(x, Idle, r, Idle, y, Idle, Absent);
    assert After(w0, Spawn(x)) == w1;
    assert After(w1, Spawn(r)) == w2;
    assert After(w2, Spawn(y)) == w3;
    steps := PrependedAlone(w2, Spawn(y), w3, tail);
    steps := PrependedAlone(w1, Spawn(r), w2, steps);
    steps := PrependedAlone(w0, Spawn(x), w1, steps);
  }
}
