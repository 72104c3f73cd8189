/**
 Several compiler processes on one cache: the index protocol together with what the processes
 build, and when the published roots of a page survive it.
 */
module SharedCache {
  import opened ShardIndex
  import opened ShardRuns
  import opened ShardHistory
  import opened IndexProtocol

  /** The index and its processes, the library files, and the keys being compiled. */
  datatype World = World(index: State, libraries: set<string>, work: map<nat, WorkKey>)

  /** `Begin` is the skip test passed by one process, `Finish` the end of that compilation. */
  datatype Move =
    | Protocol(p: nat, a: Action)
    | Begin(p: nat, key: WorkKey)
    | Finish(p: nat, build: Build)
    | Lose(lost: set<string>)

  predicate IsReady(s: State, p: nat) { p in s.procs && s.procs[p].Ready? }

  /** What `compile_page` records. */
  function RecordOf(key: WorkKey, build: Build): Record {
    match build
    case Built(dll) => Published(key.generation, key.roots, dll)
    case Refused(unsupported) => Rejected(key.generation, unsupported)
    case Broken => Rejected(key.generation, false)
  }

  function After(w: World, m: Move): World {
    match m
    case Protocol(p, a) => if a.LockForRecord? then w else w.(index := Next(w.index, p, a))
    case Begin(p, key) =>
      if IsReady(w.index, p) && p !in w.work && !Satisfied(Cache(w.index.procs[p].local, w.libraries), key)
      then w.(work := w.work[p := key]) else w
    case Finish(p, build) =>
      if !IsReady(w.index, p) || p !in w.work then w
      else if build.Broken? then w.(work := w.work - {p})
      else
        // The library is in place before the lock is asked for; a timeout is a broken build.
        World(Next(w.index, p, LockForRecord(w.work[p], RecordOf(w.work[p], build))),
              w.libraries + (if build.Built? then {build.dll} else {}),
              if w.index.lock.Nobody? then w.work - {p} else w.work)
    case Lose(lost) => w.(libraries := w.libraries - lost)
  }

  function AfterAll(w: World, moves: seq<Move>): World
    decreases |moves|
  {
    if moves == [] then w else AfterAll(After(w, moves[0]), moves[1..])
  }

  function OnDisk(w: World): Captures { w.index.disk.Captures() }

  // ---- What every move keeps ---------------------------------------------------------------

  predicate InFlight(proc: Process) { proc.Locked? || proc.Merging? || proc.Writing? || proc.Written? }

  /** A record about to be written is one a compilation of its key can leave. */
  predicate Fits(proc: Process) {
    InFlight(proc) ==>
      proc.record.generation == proc.key.generation && (proc.record.Published? ==> proc.record.roots == proc.key.roots)
  }

  ghost predicate WorldInv(w: World, rom: string, start: Captures) {
    && Inv(w.index, rom, start)
    && Described(OnDisk(w))
    && forall p :: p in w.index.procs ==> Fits(w.index.procs[p])
  }

  /** Where there is no index, only processes of `rom` are started. */
  predicate Admits(w: World, m: Move, rom: string) {
    m.Protocol? && m.a.Launch? ==> w.index.disk.Stored? || m.a.rom == rom
  }

  /** A process's next record is what it just recorded. */
  lemma FitsStep(s: State, p: nat, a: Action, q: nat)
    requires q in s.procs ==> Fits(s.procs[q])
    requires q == p && a.LockForRecord? ==>
      a.record.generation == a.key.generation && (a.record.Published? ==> a.record.roots == a.key.roots)
    ensures q in Next(s, p, a).procs ==> Fits(Next(s, p, a).procs[q])
  {
    hide Merged, Loaded;
    LoadedIsIdle(s.disk);
  }

  lemma LoadedIsIdle(disk: File)
    ensures forall rom :: Loaded(disk, rom).Ready? || Loaded(disk, rom).Gone?
  {
  }

  /** The index changes in one way only: a record is laid over what was there. */
  lemma DiskStep(s: State, rom: string, start: Captures, p: nat, a: Action)
    requires Inv(s, rom, start)
    ensures var t := Next(s, p, a);
      if a.Replace? && p in s.procs && s.procs[p].Written?
      then t.disk.Captures() == s.disk.Captures()[s.procs[p].key := s.procs[p].record] else t.disk == s.disk
  {
    if p in s.procs {
      assert ProcessInv(s, rom, p);
    }
    hide Merged, Loaded, Replay;
  }

  lemma MoveKeepsInv(w: World, m: Move, rom: string, start: Captures)
    requires WorldInv(w, rom, start) && Admits(w, m, rom)
    ensures WorldInv(After(w, m), rom, start)
    ensures w.index.disk.Stored? ==> After(w, m).index.disk.Stored?
  {
    hide Next, Inv, Satisfied, Described, Fits;
    match m
    case Protocol(p, a) =>
      if !a.LockForRecord? {
        StepKeepsWorld(w, p, a, rom, start);
      }
    case Finish(p, build) =>
      if IsReady(w.index, p) && p in w.work && !build.Broken? {
        StepKeepsWorld(w, p, LockForRecord(w.work[p], RecordOf(w.work[p], build)), rom, start);
      }
    case Begin(_, _) =>
    case Lose(_) =>
  }

  lemma StepKeepsWorld(w: World, p: nat, a: Action, rom: string, start: Captures)
    requires WorldInv(w, rom, start) && (a.Launch? ==> w.index.disk.Stored? || a.rom == rom)
    requires a.LockForRecord? ==>
      a.record.generation == a.key.generation && (a.record.Published? ==> a.record.roots == a.key.roots)
    ensures Inv(Next(w.index, p, a), rom, start) && Described(Next(w.index, p, a).disk.Captures())
    ensures forall q :: q in Next(w.index, p, a).procs ==> Fits(Next(w.index, p, a).procs[q])
    ensures w.index.disk.Stored? ==> Next(w.index, p, a).disk.Stored?
  {
    hide Next, Inv;
    StepKeepsInv(w.index, rom, start, p, a);
    DiskStep(w.index, rom, start, p, a);
    forall q | q in Next(w.index, p, a).procs
      ensures Fits(Next(w.index, p, a).procs[q])
    {
      FitsStep(w.index, p, a, q);
    }
  }

  // ---- One move ------------------------------------------------------------------------------

  /** A refusal reaches the index and overwrites the only record that knew some root of the page. */
  ghost predicate ForgetsBy(w: World, m: Move, g: Generation) {
    && m.Protocol? && m.a.Replace? && m.p in w.index.procs
    && var proc := w.index.procs[m.p];
      proc.Written? && proc.record.Rejected? && proc.key.generation == g && AloneKnows(OnDisk(w), proc.key)
  }

  /** Every move of every process keeps a page's published roots, with that one exception. */
  lemma MoveKeepsRootsExactly(w: World, m: Move, rom: string, start: Captures, g: Generation)
    requires WorldInv(w, rom, start)
    ensures PublishedRoots(OnDisk(w), g) <= PublishedRoots(OnDisk(After(w, m)), g) <==> !ForgetsBy(w, m, g)
  {
    hide PublishedRoots, AloneKnows, Next, Inv, Described, Satisfied;
    match m
    case Protocol(p, a) =>
      DiskStep(w.index, rom, start, p, a);
      if a.Replace? && p in w.index.procs && w.index.procs[p].Written? {
        var proc := w.index.procs[p];
        var build := if proc.record.Published? then Built(proc.record.dll) else Refused(proc.record.unsupported);
        assert Fits(proc);
        BuildKeepsRootsExactly(Cache(OnDisk(w), w.libraries), proc.key, build, g);
      }
    case Finish(p, build) =>
      if IsReady(w.index, p) && p in w.work && !build.Broken? {
        DiskStep(w.index, rom, start, p, LockForRecord(w.work[p], RecordOf(w.work[p], build)));
      }
    case Begin(_, _) =>
    case Lose(_) =>
  }

  // ---- Whole runs ----------------------------------------------------------------------------

  predicate AllAdmitted(w: World, moves: seq<Move>, rom: string)
    decreases |moves|
  {
    moves == [] || (Admits(w, moves[0], rom) && AllAdmitted(After(w, moves[0]), moves[1..], rom))
  }

  /** At no move does the page lose a published root. */
  ghost predicate AlwaysGrows(w: World, moves: seq<Move>, g: Generation)
    decreases |moves|
  {
    moves == [] ||
    (PublishedRoots(OnDisk(w), g) <= PublishedRoots(OnDisk(After(w, moves[0])), g) &&
     AlwaysGrows(After(w, moves[0]), moves[1..], g))
  }

  ghost predicate NobodyForgets(w: World, moves: seq<Move>, g: Generation)
    decreases |moves|
  {
    moves == [] || (!ForgetsBy(w, moves[0], g) && NobodyForgets(After(w, moves[0]), moves[1..], g))
  }

  lemma {:induction false} AllKeepInv(w: World, moves: seq<Move>, rom: string, start: Captures)
    requires WorldInv(w, rom, start) && AllAdmitted(w, moves, rom)
    ensures WorldInv(AfterAll(w, moves), rom, start)
    decreases |moves|
  {
    hide WorldInv, After, Admits;
    if moves != [] {
      MoveKeepsInv(w, moves[0], rom, start);
      AllKeepInv(After(w, moves[0]), moves[1..], rom, start);
    }
  }

  /**
   Over every interleaving of every number of processes, with crashes and vanishing libraries: a
   page's published roots never shrink exactly when no refusal overwrites the only record that
   knew some of them.
   */
  lemma {:induction false} SharedGrowthExactly(w: World, moves: seq<Move>, rom: string, start: Captures, g: Generation)
    requires WorldInv(w, rom, start) && AllAdmitted(w, moves, rom)
    ensures AlwaysGrows(w, moves, g) <==> NobodyForgets(w, moves, g)
    ensures NobodyForgets(w, moves, g) ==> PublishedRoots(OnDisk(w), g) <= PublishedRoots(OnDisk(AfterAll(w, moves)), g)
    decreases |moves|
  {
    hide WorldInv, After, Admits, PublishedRoots, ForgetsBy;
    if moves != [] {
      MoveKeepsInv(w, moves[0], rom, start);
      MoveKeepsRootsExactly(w, moves[0], rom, start, g);
      SharedGrowthExactly(After(w, moves[0]), moves[1..], rom, start, g);
    }
  }

  /**
   Main result for a shared cache. If nobody forgets the page, a process that reads the index
   afterwards compiles it from at least every root ever published for it, whoever published it.
   */
  lemma SharedCoverageOnlyGrows(
    w: World, moves: seq<Move>, rom: string, start: Captures, g: Generation, p: nat, observed: set<Root>)
    requires WorldInv(w, rom, start) && AllAdmitted(w, moves, rom) && NobodyForgets(w, moves, g)
    ensures var now := AfterAll(w, moves);
      var loaded := After(now, Protocol(p, Load));
      p in now.index.procs && now.index.procs[p].Loading? && IsReady(loaded.index, p) ==>
        var c := CandidateOf(g, observed, loaded.index.procs[p].local);
        PublishedRoots(OnDisk(w), g) <= Members(c.roots) && observed <= Members(c.roots)
  {
    hide PublishedRoots, NobodyForgets;
    SharedGrowthExactly(w, moves, rom, start, g);
  }

  // ---- What can be checked beforehand ----------------------------------------------------------

  /** Which process may compile which key. */
  type Assignment = (nat, WorkKey) -> bool

  predicate Permitted(moves: seq<Move>, may: Assignment) {
    forall i :: 0 <= i < |moves| && moves[i].Begin? ==> may(moves[i].p, moves[i].key)
  }

  predicate NothingLost(moves: seq<Move>) {
    forall i :: 0 <= i < |moves| ==> !moves[i].Lose?
  }

  /** No key that has roots is compiled by two processes. */
  ghost predicate Disjoint(may: Assignment) {
    forall p, q, k :: may(p, k) && may(q, k) && k.roots != [] ==> p == q
  }

  ghost predicate Complete(captures: Captures, libraries: set<string>) {
    forall k :: k in captures && captures[k].Published? ==> captures[k].dll in libraries
  }

  /** What one process knows and does, when nobody else touches its keys. */
  ghost predicate OwnKeys(w: World, p: nat, may: Assignment)
    requires p in w.index.procs
  {
    var proc, disk := w.index.procs[p], OnDisk(w);
    && (proc.Ready? || proc.Locked? ==>
          forall k :: may(p, k) && k.roots != [] && k in disk ==> k in proc.local && proc.local[k] == disk[k])
    && (proc.Ready? && p in w.work ==> may(p, w.work[p]) && (w.work[p].roots != [] ==> w.work[p] !in disk))
    && (InFlight(proc) ==> may(p, proc.key) && (proc.key.roots != [] ==> proc.key !in disk))
    && (InFlight(proc) && proc.record.Published? ==> proc.record.dll in w.libraries)
  }

  ghost predicate DividedInv(w: World, may: Assignment) {
    && Complete(OnDisk(w), w.libraries)
    && (forall p :: p in w.work ==> p in w.index.procs && (w.index.procs[p].Ready? || w.index.procs[p].Gone?))
    && forall p :: p in w.index.procs ==> OwnKeys(w, p, may)
  }

  /** With divided keys nothing is ever overwritten that anybody could miss. */
  lemma DividedForgetsNothing(w: World, m: Move, rom: string, start: Captures, may: Assignment, g: Generation)
    requires WorldInv(w, rom, start) && DividedInv(w, may)
    ensures !ForgetsBy(w, m, g)
  {
    hide Inv;
    if m.Protocol? && m.p in w.index.procs {
      OnlyKnownRoots(OnDisk(w), w.index.procs[m.p]);
    }
  }

  lemma OnlyKnownRoots(captures: Captures, proc: Process)
    requires Described(captures)
    ensures proc.Written? && AloneKnows(captures, proc.key) ==> proc.key in captures && proc.key.roots != []
  {
  }

  /** A step of the protocol, seen from the process that makes it. */
  lemma OwnKeysOwnStep(w: World, p: nat, a: Action, rom: string, start: Captures, may: Assignment)
    requires WorldInv(w, rom, start) && p in w.index.procs && OwnKeys(w, p, may) && !a.LockForRecord?
    requires p in w.work ==> w.index.procs[p].Ready? || w.index.procs[p].Gone?
    ensures var t := w.(index := Next(w.index, p, a));
      p in t.index.procs && OwnKeys(t, p, may) && (p in w.work ==> t.index.procs[p].Ready? || t.index.procs[p].Gone?)
  {
    assert ProcessInv(w.index, rom, p);
    DiskStep(w.index, rom, start, p, a);
    hide Merged, Replay, Inv, Described;
  }

  /** A step of the protocol, seen from another process. */
  lemma OwnKeysOtherStep(w: World, p: nat, a: Action, q: nat, rom: string, start: Captures, may: Assignment)
    requires WorldInv(w, rom, start) && p in w.index.procs && q in w.index.procs && p != q
    requires OwnKeys(w, p, may) && OwnKeys(w, q, may) && Disjoint(may)
    ensures var t := w.(index := Next(w.index, p, a));
      q in t.index.procs && t.index.procs[q] == w.index.procs[q] && OwnKeys(t, q, may)
  {
    DiskStep(w.index, rom, start, p, a);
    OthersStay(w.index, p, a, q);
    hide Next, Inv, Described;
  }

  lemma OthersStay(s: State, p: nat, a: Action, q: nat)
    requires q in s.procs && p != q
    ensures q in Next(s, p, a).procs && Next(s, p, a).procs[q] == s.procs[q]
  {
    hide Merged, Loaded;
  }

  lemma ProtocolKeepsDivided(w: World, p: nat, a: Action, rom: string, start: Captures, may: Assignment)
    requires WorldInv(w, rom, start) && DividedInv(w, may) && Disjoint(may) && !a.LockForRecord?
    ensures DividedInv(w.(index := Next(w.index, p, a)), may)
  {
    var t := w.(index := Next(w.index, p, a));
    DiskStep(w.index, rom, start, p, a);
    if p in w.index.procs {
      OwnKeysOwnStep(w, p, a, rom, start, may);
      hide Next, Inv, Described, OwnKeys, WorldInv;
      StepProcs(w.index, p, a);
      forall q | q in t.index.procs && q != p
        ensures t.index.procs[q] == w.index.procs[q] && OwnKeys(t, q, may)
      {
        OwnKeysOtherStep(w, p, a, q, rom, start, may);
      }
      CompleteStep(w, p, a, rom, start, may);
    } else {
      forall q | q in t.index.procs
        ensures OwnKeys(t, q, may)
      {
        assert q != p ==> OwnKeys(w, q, may);
      }
    }
  }

  lemma StepProcs(s: State, p: nat, a: Action)
    requires p in s.procs
    ensures Next(s, p, a).procs.Keys == s.procs.Keys
  {
    hide Merged, Loaded;
  }

  lemma CompleteStep(w: World, p: nat, a: Action, rom: string, start: Captures, may: Assignment)
    requires Inv(w.index, rom, start) && p in w.index.procs && OwnKeys(w, p, may) && Complete(OnDisk(w), w.libraries)
    ensures Complete(OnDisk(w.(index := Next(w.index, p, a))), w.libraries)
  {
    DiskStep(w.index, rom, start, p, a);
    hide Next, Inv;
  }

  /** A compilation ends: the process goes from its key to its record. */
  lemma FinishOwnKeys(w: World, p: nat, build: Build, may: Assignment)
    requires IsReady(w.index, p) && p in w.work && !build.Broken? && OwnKeys(w, p, may)
    ensures var t := After(w, Finish(p, build));
      && p in t.index.procs && OwnKeys(t, p, may) && OnDisk(t) == OnDisk(w)
      && (p in t.work ==> t.index.procs[p].Ready?)
  {
  }

  lemma FinishOtherKeys(w: World, p: nat, build: Build, q: nat, may: Assignment)
    requires IsReady(w.index, p) && p in w.work && !build.Broken?
    requires p != q && q in w.index.procs && OwnKeys(w, q, may) && OnDisk(After(w, Finish(p, build))) == OnDisk(w)
    ensures var t := After(w, Finish(p, build));
      q in t.index.procs && t.index.procs[q] == w.index.procs[q] && OwnKeys(t, q, may)
  {
    OthersStay(w.index, p, LockForRecord(w.work[p], RecordOf(w.work[p], build)), q);
    hide Next;
  }

  lemma FinishKeepsDivided(w: World, p: nat, build: Build, may: Assignment)
    requires DividedInv(w, may) && IsReady(w.index, p) && p in w.work && !build.Broken?
    ensures DividedInv(After(w, Finish(p, build)), may)
  {
    hide OwnKeys, Next, RecordOf;
    var t := After(w, Finish(p, build));
    FinishOwnKeys(w, p, build, may);
    StepProcs(w.index, p, LockForRecord(w.work[p], RecordOf(w.work[p], build)));
    forall q | q in t.index.procs && q != p
      ensures t.index.procs[q] == w.index.procs[q] && OwnKeys(t, q, may)
    {
      FinishOtherKeys(w, p, build, q, may);
    }
  }

  lemma MoveKeepsDivided(w: World, m: Move, rom: string, start: Captures, may: Assignment)
    requires WorldInv(w, rom, start) && DividedInv(w, may) && Disjoint(may)
    requires !m.Lose? && (m.Begin? ==> may(m.p, m.key))
    ensures DividedInv(After(w, m), may)
  {
    match m
    case Protocol(p, a) =>
      if !a.LockForRecord? {
        ProtocolKeepsDivided(w, p, a, rom, start, may);
      }
    case Begin(p, key) => BeginKeepsDivided(w, p, key, may);
    case Finish(p, build) =>
      if IsReady(w.index, p) && p in w.work {
        if build.Broken? {
          BrokenKeepsDivided(w, p, may);
        } else {
          FinishKeepsDivided(w, p, build, may);
        }
      }
  }

  lemma BrokenKeepsDivided(w: World, p: nat, may: Assignment)
    requires DividedInv(w, may)
    ensures DividedInv(w.(work := w.work - {p}), may)
  {
    var t := w.(work := w.work - {p});
    forall q | q in t.index.procs
      ensures OwnKeys(t, q, may)
    {
      assert OwnKeys(w, q, may);
    }
  }

  /** The skip test on the process's own view is as good as one on the index. */
  lemma BeginKeepsDivided(w: World, p: nat, key: WorkKey, may: Assignment)
    requires DividedInv(w, may) && may(p, key)
    ensures DividedInv(After(w, Begin(p, key)), may)
  {
    var t := After(w, Begin(p, key));
    forall q | q in t.index.procs
      ensures OwnKeys(t, q, may)
    {
      assert OwnKeys(w, q, may);
    }
  }

  lemma {:induction false} DividedNeverForgets(
    w: World, moves: seq<Move>, rom: string, start: Captures, may: Assignment, g: Generation)
    requires WorldInv(w, rom, start) && AllAdmitted(w, moves, rom) && DividedInv(w, may) && Disjoint(may)
    requires Permitted(moves, may) && NothingLost(moves)
    ensures NobodyForgets(w, moves, g)
    decreases |moves|
  {
    hide WorldInv, After, Admits, DividedInv, ForgetsBy, Disjoint;
    if moves != [] {
      DividedForgetsNothing(w, moves[0], rom, start, may, g);
      MoveKeepsInv(w, moves[0], rom, start);
      MoveKeepsDivided(w, moves[0], rom, start, may);
      DividedNeverForgets(After(w, moves[0]), moves[1..], rom, start, may, g);
    }
  }

  // ---- The other way a page is forgotten -------------------------------------------------------

  function Start(disk: File, tmp: Temporary, libraries: set<string>): World {
    World(Idle(disk, tmp), libraries, map[])
  }

  function Lift(steps: seq<(nat, Action)>): seq<Move> {
    if steps == [] then [] else [Protocol(steps[0].0, steps[0].1)] + Lift(steps[1..])
  }

  /** Neither new work nor lost libraries. */
  predicate Quiet(moves: seq<Move>) {
    forall i :: 0 <= i < |moves| ==> !moves[i].Begin? && !moves[i].Lose?
  }

  predicate NoRecording(steps: seq<(nat, Action)>) {
    forall i :: 0 <= i < |steps| ==> !steps[i].1.LockForRecord?
  }

  lemma {:induction false} AfterLift(w: World, steps: seq<(nat, Action)>)
    requires NoRecording(steps)
    ensures AfterAll(w, Lift(steps)) == w.(index := Run(w.index, steps))
    ensures Quiet(Lift(steps))
    decreases |steps|
  {
    hide Next;
    if steps != [] {
      AfterLift(After(w, Protocol(steps[0].0, steps[0].1)), steps[1..]);
      assert Lift(steps)[1..] == Lift(steps[1..]);
      assert forall i :: 1 <= i < |Lift(steps)| ==> Lift(steps)[i] == Lift(steps[1..])[i - 1];
    }
  }

  lemma {:induction false} AfterConcat(w: World, a: seq<Move>, b: seq<Move>)
    ensures AfterAll(w, a + b) == AfterAll(AfterAll(w, a), b)
    decreases |a|
  {
    hide After;
    if a == [] {
      assert a + b == b;
    } else {
      assert (a + b)[1..] == a[1..] + b;
      AfterConcat(After(w, a[0]), a[1..], b);
    }
  }

  /** One process compiles and records a key, with nobody else in the way. */
  function BuildMoves(p: nat, key: WorkKey, build: Build): seq<Move> {
    [Finish(p, build)] + Lift(RecordSteps(p, key, RecordOf(key, build))[1..])
  }

  lemma BuiltWorld(w: World, p: nat, key: WorkKey, build: Build)
    requires IsReady(w.index, p) && p in w.work && w.work[p] == key && w.index.lock.Nobody? && !build.Broken?
    ensures AfterAll(w, BuildMoves(p, key, build)) ==
      World(Run(w.index, RecordSteps(p, key, RecordOf(key, build))),
            w.libraries + (if build.Built? then {build.dll} else {}), w.work - {p})
    ensures Quiet(BuildMoves(p, key, build))
  {
    hide Next;
    var steps := RecordSteps(p, key, RecordOf(key, build));
    AfterLift(After(w, Finish(p, build)), steps[1..]);
    assert BuildMoves(p, key, build)[1..] == Lift(steps[1..]);
    assert Run(w.index, steps) == Run(Next(w.index, p, steps[0].1), steps[1..]);
  }

  /** Both processes start, and both find the key neither on disk nor in their view. */
  function Together(p: nat, q: nat, key: WorkKey): seq<Move> {
    Lift(StartSteps(p, "") + StartSteps(q, "")) + [Begin(p, key), Begin(q, key)]
  }

  lemma TogetherWorld(p: nat, q: nat, key: WorkKey)
    requires p != q
    ensures AfterAll(Start(Missing, Absent, {}), Together(p, q, key)) ==
      World(State(Missing, Absent, Nobody, map[p := Ready("", map[]), q := Ready("", map[])], []), {},
            map[p := key, q := key])
  {
    hide Next;
    var w, steps := Start(Missing, Absent, {}), StartSteps(p, "") + StartSteps(q, "");
    AfterLift(w, steps);
    AfterConcat(w, Lift(steps), [Begin(p, key), Begin(q, key)]);
    IndexProtocol.RunConcat(w.index, StartSteps(p, ""), StartSteps(q, ""));
    StartedState(w.index, p, "");
    StartedState(Run(w.index, StartSteps(p, "")), q, "");
    var procs := map[p := Ready("", map[]), q := Ready("", map[])];
    var ready := World(State(Missing, Absent, Nobody, procs, []), {}, map[]);
    assert AfterAll(w, Lift(steps)).index.procs == ready.index.procs;
    assert AfterAll(w, Lift(steps)) == ready;
    var both := [Begin(p, key), Begin(q, key)];
    assert both[1..] == [both[1]] && both[1..][1..] == [];
    assert After(ready, both[0]) == ready.(work := map[p := key]);
    assert After(After(ready, both[0]), both[1]) == ready.(work := map[p := key, q := key]);
    assert AfterAll(ready, both) == AfterAll(After(ready, both[0]), both[1..]);
  }

  /**
   With no library ever missing: two processes compile one key, the first publishes it, the second
   fails and, not having read the index again, overwrites the record. The library is still there.
   */
  lemma StaleRefusalLosesRoots(p: nat, q: nat, key: WorkKey, dll: string, r: Root)
    requires p != q && r in key.roots
    ensures var w := AfterAll(Start(Missing, Absent, {}), Together(p, q, key));
      var first := AfterAll(w, BuildMoves(p, key, Built(dll)));
      var second := AfterAll(first, BuildMoves(q, key, Refused(false)));
      && r in PublishedRoots(OnDisk(first), key.generation) && r !in PublishedRoots(OnDisk(second), key.generation)
      && dll in second.libraries
  {
    hide Next, Run, Together, BuildMoves, AfterAll;
    TogetherWorld(p, q, key);
    var w := AfterAll(Start(Missing, Absent, {}), Together(p, q, key));
    BuiltWorld(w, p, key, Built(dll));
    RecordedState(w.index, p, key, RecordOf(key, Built(dll)));
    var first := AfterAll(w, BuildMoves(p, key, Built(dll)));
    assert Publishes(OnDisk(first), key, key.generation, r);
    BuiltWorld(first, q, key, Refused(false));
    RecordedState(first.index, q, key, RecordOf(key, Refused(false)));
    var second := AfterAll(first, BuildMoves(q, key, Refused(false)));
    assert OnDisk(second) == map[key := Rejected(key.generation, false)];
  }

  /** A run whose growth can be judged from its two ends. */
  lemma {:induction false} GrowthReachesTheEnd(w: World, moves: seq<Move>, g: Generation)
    requires AlwaysGrows(w, moves, g)
    ensures PublishedRoots(OnDisk(w), g) <= PublishedRoots(OnDisk(AfterAll(w, moves)), g)
    decreases |moves|
  {
    hide After, PublishedRoots;
    if moves != [] {
      GrowthReachesTheEnd(After(w, moves[0]), moves[1..], g);
    }
  }

  lemma {:induction false} GrowthOfParts(w: World, a: seq<Move>, b: seq<Move>, g: Generation)
    requires AlwaysGrows(w, a + b, g)
    ensures AlwaysGrows(AfterAll(w, a), b, g)
    decreases |a|
  {
    hide After, PublishedRoots;
    if a == [] {
      assert a + b == b;
    } else {
      assert (a + b)[1..] == a[1..] + b;
      GrowthOfParts(After(w, a[0]), a[1..], b, g);
    }
  }

  /** From any index that names present libraries only, no permitted run without losses ever forgets. */
  ghost predicate SafeAssignment(may: Assignment) {
    forall disk, tmp, libraries, rom, moves, g |
      StartsWell(disk, libraries, rom) && AllAdmitted(Start(disk, tmp, libraries), moves, rom) &&
      Permitted(moves, may) && NothingLost(moves)
      :: AlwaysGrows(Start(disk, tmp, libraries), moves, g)
  }

  ghost predicate StartsWell(disk: File, libraries: set<string>, rom: string) {
    && (disk.Stored? ==> disk.index.rom == rom)
    && Described(disk.Captures()) && Complete(disk.Captures(), libraries)
  }

  lemma StartInv(disk: File, tmp: Temporary, libraries: set<string>, rom: string, may: Assignment)
    requires StartsWell(disk, libraries, rom)
    ensures WorldInv(Start(disk, tmp, libraries), rom, disk.Captures()) && DividedInv(Start(disk, tmp, libraries), may)
  {
    IdleIsInv(disk, tmp, rom);
  }

  /**
   What can be arranged beforehand. While no library is lost, pages never lose published roots,
   whatever the compilers do and however the processes interleave, exactly when no two processes
   may compile the same key (one that has roots).
   */
  lemma SafeAssignmentExactly(may: Assignment)
    ensures SafeAssignment(may) <==> Disjoint(may)
  {
    if Disjoint(may) {
      forall disk, tmp, libraries, rom, moves, g |
        StartsWell(disk, libraries, rom) && AllAdmitted(Start(disk, tmp, libraries), moves, rom) &&
        Permitted(moves, may) && NothingLost(moves)
        ensures AlwaysGrows(Start(disk, tmp, libraries), moves, g)
      {
        DisjointIsSafe(disk, tmp, libraries, rom, moves, may, g);
      }
    } else {
      var p, q, k :| may(p, k) && may(q, k) && k.roots != [] && p != q;
      SharedKeyIsUnsafe(p, q, k, may);
    }
  }

  lemma DisjointIsSafe(
    disk: File, tmp: Temporary, libraries: set<string>, rom: string, moves: seq<Move>, may: Assignment, g: Generation)
    requires StartsWell(disk, libraries, rom) && Disjoint(may)
    requires AllAdmitted(Start(disk, tmp, libraries), moves, rom) && Permitted(moves, may) && NothingLost(moves)
    ensures AlwaysGrows(Start(disk, tmp, libraries), moves, g)
  {
    hide WorldInv, DividedInv;
    StartInv(disk, tmp, libraries, rom, may);
    DividedNeverForgets(Start(disk, tmp, libraries), moves, rom, disk.Captures(), may, g);
    SharedGrowthExactly(Start(disk, tmp, libraries), moves, rom, disk.Captures(), g);
  }

  lemma {:induction false} OneRomIsAdmitted(w: World, moves: seq<Move>, rom: string)
    requires forall i :: 0 <= i < |moves| && moves[i].Protocol? && moves[i].a.Launch? ==> moves[i].a.rom == rom
    ensures AllAdmitted(w, moves, rom)
    decreases |moves|
  {
    hide After;
    if moves != [] {
      OneRomIsAdmitted(After(w, moves[0]), moves[1..], rom);
    }
  }

  lemma SharedKeyIsUnsafe(p: nat, q: nat, key: WorkKey, may: Assignment)
    requires p != q && may(p, key) && may(q, key) && key.roots != []
    ensures !SafeAssignment(may)
  {
    hide Next, Run, AfterAll, AlwaysGrows, PublishedRoots, AllAdmitted;
    var w0 := Start(Missing, Absent, {});
    var one, two, three := Together(p, q, key), BuildMoves(p, key, Built("")), BuildMoves(q, key, Refused(false));
    var moves := one + two + three;
    LosingMoves(p, q, key, may);
    StaleRefusalLosesRoots(p, q, key, "", key.roots[0]);
    if AlwaysGrows(w0, moves, key.generation) {
      GrowthOfParts(w0, one + two, three, key.generation);
      AfterConcat(w0, one, two);
      GrowthReachesTheEnd(AfterAll(w0, one + two), three, key.generation);
      assert false;
    }
    assert StartsWell(Missing, {}, "");
  }

  /** What the losing run does: it loses no library, compiles one key and starts one ROM. */
  predicate Plain(m: Move, p: nat, q: nat, key: WorkKey) {
    && !m.Lose? && (m.Begin? ==> (m.p == p || m.p == q) && m.key == key)
    && (m.Protocol? && m.a.Launch? ==> m.a.rom == "")
  }

  lemma {:induction false} LiftIs(steps: seq<(nat, Action)>)
    ensures |Lift(steps)| == |steps|
    ensures forall i :: 0 <= i < |steps| ==> Lift(steps)[i] == Protocol(steps[i].0, steps[i].1)
  {
    if steps != [] {
      LiftIs(steps[1..]);
    }
  }

  lemma PlainParts(p: nat, q: nat, key: WorkKey, r: nat, build: Build)
    ensures forall m :: m in Together(p, q, key) || m in BuildMoves(r, key, build) ==> Plain(m, p, q, key)
  {
    LiftIs(StartSteps(p, "") + StartSteps(q, ""));
    LiftIs(RecordSteps(r, key, RecordOf(key, build))[1..]);
  }

  lemma LosingMoves(p: nat, q: nat, key: WorkKey, may: Assignment)
    requires p != q && may(p, key) && may(q, key)
    ensures var moves := Together(p, q, key) + BuildMoves(p, key, Built("")) + BuildMoves(q, key, Refused(false));
      AllAdmitted(Start(Missing, Absent, {}), moves, "") && Permitted(moves, may) && NothingLost(moves)
  {
    hide Together, BuildMoves, AllAdmitted;
    PlainParts(p, q, key, p, Built(""));
    PlainParts(p, q, key, q, Refused(false));
    var moves := Together(p, q, key) + BuildMoves(p, key, Built("")) + BuildMoves(q, key, Refused(false));
    assert forall i :: 0 <= i < |moves| ==> moves[i] in moves && Plain(moves[i], p, q, key);
    OneRomIsAdmitted(Start(Missing, Absent, {}), moves, "");
  }
}
