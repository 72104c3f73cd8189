/**
 Several compiler processes share one index file through a kernel lock, a temporary file
 and an atomic replace. Any interleaving, and a crash between any two steps, is a run.
 */
module IndexProtocol {
  import opened ShardIndex

  /** Where one process stands. A process in any phase but `Fresh`, `Ready` or `Gone` holds the lock. */
  datatype Process =
    | Fresh(rom: string)
    | Loading(rom: string)
    | Ready(rom: string, local: Captures)
    | Locked(rom: string, local: Captures, key: WorkKey, record: Record)
    | Merging(rom: string, key: WorkKey, record: Record, current: Index)
    | Writing(rom: string, key: WorkKey, record: Record, current: Index)
    | Written(rom: string, key: WorkKey, record: Record, current: Index)
    | Replaced(rom: string, current: Index)
    | Gone
  {
    predicate HoldsLock() { Loading? || Locked? || Merging? || Writing? || Written? || Replaced? }
  }

  /** `live-index.json.tmp`: a crash can leave half of it behind. */
  datatype Temporary = Absent | Torn | Whole(index: Index)

  datatype Holder = Nobody | Process(pid: nat)

  /** `log` lists the captures that have reached the index file, oldest first. */
  datatype State = State(
    disk: File, tmp: Temporary, lock: Holder, procs: map<nat, Process>, log: seq<(WorkKey, Record)>)

  datatype Action =
    | Launch(rom: string)
    | LockForLoad
    | Load
    | LockForRecord(key: WorkKey, record: Record)
    | ReadAndMerge
    | OpenTemporary
    | FinishTemporary
    | Replace
    | Release
    | Crash

  /** The index `main` starts from; it refuses a file of another ROM or schema and exits. */
  function Loaded(disk: File, rom: string): Process {
    match disk
    case Missing => Ready(rom, map[])
    case Stored(index) => if Usable(index, rom) then Ready(rom, index.captures) else Gone
  }

  /** One step of process `p`; a step that is not enabled changes nothing, as a lock timeout does. */
  function Next(s: State, p: nat, a: Action): State {
    if p !in s.procs then
      if a.Launch? then s.(procs := s.procs[p := Fresh(a.rom)]) else s
    else
      match (a, s.procs[p])
      case (LockForLoad, Fresh(rom)) =>
        if s.lock.Nobody? then s.(lock := Process(p), procs := s.procs[p := Loading(rom)]) else s
      case (Load, Loading(rom)) =>
        s.(lock := Nobody, procs := s.procs[p := Loaded(s.disk, rom)])
      case (LockForRecord(key, record), Ready(rom, local)) =>
        if s.lock.Nobody? then s.(lock := Process(p), procs := s.procs[p := Locked(rom, local, key, record)]) else s
      case (ReadAndMerge, Locked(rom, local, key, record)) =>
        s.(procs := s.procs[p := Merging(rom, key, record, Merged(s.disk, local, rom, key, record))])
      case (OpenTemporary, Merging(rom, key, record, current)) =>
        s.(tmp := Torn, procs := s.procs[p := Writing(rom, key, record, current)])
      case (FinishTemporary, Writing(rom, key, record, current)) =>
        s.(tmp := Whole(current), procs := s.procs[p := Written(rom, key, record, current)])
      case (Replace, Written(rom, key, record, current)) =>
        // os.replace moves whatever the temporary file holds.
        if s.tmp.Whole? then
          s.(disk := Stored(s.tmp.index), tmp := Absent, log := s.log + [(key, record)],
             procs := s.procs[p := Replaced(rom, current)])
        else s
      case (Release, Replaced(rom, current)) =>
        s.(lock := Nobody, procs := s.procs[p := Ready(rom, current.captures)])
      case (Crash, proc) =>
        // The kernel drops the lock of a dead process; its files stay as they are.
        s.(lock := if proc.HoldsLock() then Nobody else s.lock, procs := s.procs[p := Gone])
      case _ => s
  }

  function Run(s: State, steps: seq<(nat, Action)>): State
    decreases |steps|
  {
    if steps == [] then s else Run(Next(s, steps[0].0, steps[0].1), steps[1..])
  }

  /** The captures a log leaves behind: for each key the last record made for it. */
  function Replay(start: Captures, log: seq<(WorkKey, Record)>): Captures {
    if log == [] then start
    else Replay(start, log[..|log| - 1])[log[|log| - 1].0 := log[|log| - 1].1]
  }

  /** Past the start-up check a process belongs to `rom`, the ROM of any index there is. */
  ghost predicate ProcessInv(s: State, rom: string, p: nat)
    requires p in s.procs
  {
    var proc := s.procs[p];
    && (proc.Gone? || (s.disk.Stored? && (proc.Fresh? || proc.Loading?)) || proc.rom == rom)
    && (!proc.Gone? && !proc.Fresh? && !proc.Loading? && s.disk.Stored? ==> Usable(s.disk.index, rom))
    && (proc.HoldsLock() <==> s.lock == Process(p))
    && (proc.Ready? || proc.Locked? ==> proc.local.Keys <= s.disk.Captures().Keys)
    && (proc.Merging? || proc.Writing? || proc.Written? ==>
          proc.current == Index(2, rom, s.disk.Captures()[proc.key := proc.record]))
    && (proc.Written? ==> s.tmp == Whole(proc.current))
    && (proc.Replaced? ==> s.disk == Stored(proc.current))
  }

  /** What every step keeps, when processes of other ROMs come only where an index turns them away. */
  ghost predicate Inv(s: State, rom: string, start: Captures) {
    && (s.disk.Stored? ==> s.disk.index.rom == rom)
    && s.disk.Captures() == Replay(start, s.log)
    && (s.lock.Process? ==> s.lock.pid in s.procs)
    && (forall p :: p in s.procs ==> ProcessInv(s, rom, p))
  }

  lemma ReplaySnoc(start: Captures, log: seq<(WorkKey, Record)>, key: WorkKey, record: Record)
    ensures Replay(start, log + [(key, record)]) == Replay(start, log)[key := record]
  {
    assert (log + [(key, record)])[..|log|] == log;
  }

  /** What a step does to the other processes' part of the invariant. */
  lemma OthersStep(s: State, rom: string, p: nat, a: Action, q: nat)
    requires p in s.procs && q in s.procs && p != q && ProcessInv(s, rom, p) && ProcessInv(s, rom, q)
    ensures q in Next(s, p, a).procs && ProcessInv(Next(s, p, a), rom, q)
  {
    hide Merged, Loaded;
  }

  /** What a step does to the process that makes it. */
  lemma OwnStep(s: State, rom: string, p: nat, a: Action)
    requires p in s.procs && ProcessInv(s, rom, p) && (s.disk.Stored? ==> s.disk.index.rom == rom)
    ensures p in Next(s, p, a).procs && ProcessInv(Next(s, p, a), rom, p)
  {
    if a.ReadAndMerge? && s.procs[p].Locked? {
      var proc := s.procs[p];
      assert proc.local + s.disk.Captures() == s.disk.Captures();
    }
  }

  /** What a step does to the files, the lock and the log. */
  lemma SharedStep(s: State, rom: string, start: Captures, p: nat, a: Action)
    requires p in s.procs && ProcessInv(s, rom, p) && (s.disk.Stored? ==> s.disk.index.rom == rom)
    requires s.disk.Captures() == Replay(start, s.log) && (s.lock.Process? ==> s.lock.pid in s.procs)
    ensures var t := Next(s, p, a);
      && (t.disk.Stored? ==> t.disk.index.rom == rom)
      && t.disk.Captures() == Replay(start, t.log)
      && (t.lock.Process? ==> t.lock.pid in t.procs)
      && s.disk.Captures().Keys <= t.disk.Captures().Keys
      && t.procs.Keys == s.procs.Keys
      && (s.disk.Stored? ==> t.disk.Stored?)
  {
    hide Merged, Loaded, Replay;
    if a.Replace? && s.procs[p].Written? {
      ReplaySnoc(start, s.log, s.procs[p].key, s.procs[p].record);
    }
  }

  lemma LaunchKeepsInv(s: State, rom: string, start: Captures, p: nat, other: string)
    requires Inv(s, rom, start) && p !in s.procs && (s.disk.Stored? || other == rom)
    ensures Inv(s.(procs := s.procs[p := Fresh(other)]), rom, start)
  {
    hide Replay, Usable;
    var t := s.(procs := s.procs[p := Fresh(other)]);
    forall q | q in t.procs
      ensures ProcessInv(t, rom, q)
    {
      assert q != p ==> ProcessInv(s, rom, q);
    }
  }

  lemma StepKeepsInv(s: State, rom: string, start: Captures, p: nat, a: Action)
    requires Inv(s, rom, start) && (a.Launch? ==> s.disk.Stored? || a.rom == rom)
    ensures Inv(Next(s, p, a), rom, start)
    ensures s.disk.Captures().Keys <= Next(s, p, a).disk.Captures().Keys
    ensures s.disk.Stored? ==> Next(s, p, a).disk.Stored?
  {
    if p in s.procs {
      hide Next, ProcessInv, Replay;
      SharedStep(s, rom, start, p, a);
      OwnStep(s, rom, p, a);
      forall q | q in s.procs && q != p
        ensures ProcessInv(Next(s, p, a), rom, q)
      {
        OthersStep(s, rom, p, a, q);
      }
    } else if a.Launch? {
      LaunchKeepsInv(s, rom, start, p, a.rom);
    }
  }

  /** All processes are started for ROMs of this set. */
  predicate LaunchedIn(steps: seq<(nat, Action)>, roms: set<string>) {
    forall i :: 0 <= i < |steps| && steps[i].1.Launch? ==> steps[i].1.rom in roms
  }

  /**
   Over any interleaving and any crashes: the invariant holds throughout, and no key that was
   ever on disk is missing later.
   */
  lemma {:induction false} RunKeepsInv(s: State, rom: string, start: Captures, steps: seq<(nat, Action)>)
    requires Inv(s, rom, start) && (s.disk.Stored? || LaunchedIn(steps, {rom}))
    ensures Inv(Run(s, steps), rom, start)
    ensures s.disk.Captures().Keys <= Run(s, steps).disk.Captures().Keys
    ensures s.disk.Stored? ==> Run(s, steps).disk.Stored?
    decreases |steps|
  {
    hide Inv, Next;
    if steps != [] {
      StepKeepsInv(s, rom, start, steps[0].0, steps[0].1);
      RunKeepsInv(Next(s, steps[0].0, steps[0].1), rom, start, steps[1..]);
    }
  }

  /** The replayed value of a key is the record at its last position in the log. */
  lemma {:induction false} ReplayIsLastRecord(start: Captures, log: seq<(WorkKey, Record)>, i: nat)
    requires i < |log| && forall j :: i < j < |log| ==> log[j].0 != log[i].0
    ensures log[i].0 in Replay(start, log) && Replay(start, log)[log[i].0] == log[i].1
    decreases |log|
  {
    if i < |log| - 1 {
      ReplayIsLastRecord(start, log[..|log| - 1], i);
    }
  }

  lemma {:induction false} RunExtendsLog(s: State, steps: seq<(nat, Action)>)
    ensures s.log <= Run(s, steps).log
    decreases |steps|
  {
    if steps != [] {
      RunExtendsLog(Next(s, steps[0].0, steps[0].1), steps[1..]);
    }
  }

  /** Before any process: whatever index, or none, and whatever temporary file a crash left. */
  function Idle(disk: File, tmp: Temporary): State { State(disk, tmp, Nobody, map[], []) }

  lemma IdleIsInv(disk: File, tmp: Temporary, rom: string)
    requires disk.Stored? ==> disk.index.rom == rom
    ensures Inv(Idle(disk, tmp), rom, disk.Captures())
  {
  }

  /**
   Main result. Start from any index, or from none if all processes are of one ROM, and from any
   temporary file; run any number of processes of any ROMs through any interleaving, stop anywhere.
   Every capture that ever reached the index is still a key of it, the entry for a key is the last
   one recorded, keys nobody recorded keep their first entry, every process's own view names only
   keys the index has, and whoever got past the start-up check is of the index's ROM.
   */
  lemma IndexNeverLosesCaptures(
    disk: File, tmp: Temporary, rom: string, steps: seq<(nat, Action)>, more: seq<(nat, Action)>)
    requires if disk.Stored? then disk.index.rom == rom else LaunchedIn(steps, {rom}) && LaunchedIn(more, {rom})
    ensures var then_, now := Run(Idle(disk, tmp), steps), Run(Run(Idle(disk, tmp), steps), more);
      var captures := now.disk.Captures();
      && then_.disk.Captures().Keys <= captures.Keys
      && then_.log <= now.log
      && captures == Replay(disk.Captures(), now.log)
      && (forall i :: 0 <= i < |now.log| && (forall j :: i < j < |now.log| ==> now.log[j].0 != now.log[i].0) ==>
            now.log[i].0 in captures && captures[now.log[i].0] == now.log[i].1)
      && (forall p :: p in now.procs && now.procs[p].Ready? ==>
            now.procs[p].rom == rom && now.procs[p].local.Keys <= captures.Keys)
  {
    hide Inv, ProcessInv, Run;
    var s, start := Idle(disk, tmp), disk.Captures();
    IdleIsInv(disk, tmp, rom);
    RunKeepsInv(s, rom, start, steps);
    RunKeepsInv(Run(s, steps), rom, start, more);
    RunExtendsLog(Run(s, steps), more);
    var now := Run(Run(s, steps), more);
    InvSays(now, rom, start);
    forall i | 0 <= i < |now.log| && (forall j :: i < j < |now.log| ==> now.log[j].0 != now.log[i].0)
      ensures now.log[i].0 in now.disk.Captures() && now.disk.Captures()[now.log[i].0] == now.log[i].1
    {
      ReplayIsLastRecord(start, now.log, i);
    }
  }

  lemma InvSays(s: State, rom: string, start: Captures)
    requires Inv(s, rom, start)
    ensures s.disk.Captures() == Replay(start, s.log)
    ensures forall p :: p in s.procs && s.procs[p].Ready? ==>
      s.procs[p].rom == rom && s.procs[p].local.Keys <= s.disk.Captures().Keys
  {
    forall p | p in s.procs && s.procs[p].Ready?
      ensures s.procs[p].rom == rom && s.procs[p].local.Keys <= s.disk.Captures().Keys
    {
      assert ProcessInv(s, rom, p);
    }
  }

  // ---- Several ROMs on one cache -------------------------------------------------------

  /** Start-up of one process with nobody else in the way. */
  function StartSteps(p: nat, rom: string): seq<(nat, Action)> {
    [(p, Launch(rom)), (p, LockForLoad), (p, Load)]
  }

  /** `record_capture` with nobody else in the way. */
  function RecordSteps(p: nat, key: WorkKey, record: Record): seq<(nat, Action)> {
    [(p, LockForRecord(key, record)), (p, ReadAndMerge), (p, OpenTemporary), (p, FinishTemporary), (p, Replace),
     (p, Release)]
  }

  /** A run from step `i` on. */
  lemma RunFrom(s: State, steps: seq<(nat, Action)>, i: nat)
    requires i <= |steps|
    ensures Run(s, steps[i..]) == if i == |steps| then s else Run(Next(s, steps[i].0, steps[i].1), steps[i + 1..])
  {
    if i < |steps| {
      assert steps[i..][1..] == steps[i + 1..];
    }
  }

  lemma {:induction false} RunConcat(s: State, a: seq<(nat, Action)>, b: seq<(nat, Action)>)
    ensures Run(s, a + b) == Run(Run(s, a), b)
    decreases |a|
  {
    if a == [] {
      assert a + b == b;
    } else {
      assert (a + b)[1..] == a[1..] + b;
      RunConcat(Next(s, a[0].0, a[0].1), a[1..], b);
    }
  }

  lemma RecordedState(s: State, p: nat, key: WorkKey, record: Record)
    requires p in s.procs && s.procs[p].Ready? && s.lock.Nobody?
    ensures var index := Merged(s.disk, s.procs[p].local, s.procs[p].rom, key, record);
      Run(s, RecordSteps(p, key, record)) ==
      State(Stored(index), Absent, Nobody, s.procs[p := Ready(s.procs[p].rom, index.captures)], s.log + [(key, record)])
  {
    hide Merged;
    var proc := s.procs[p];
    var index := Merged(s.disk, proc.local, proc.rom, key, record);
    var s1 := s.(lock := Process(p), procs := s.procs[p := Locked(proc.rom, proc.local, key, record)]);
    assert Next(s, p, LockForRecord(key, record)) == s1;
    var s2 := s1.(procs := s.procs[p := Merging(proc.rom, key, record, index)]);
    assert s1.procs[p := Merging(proc.rom, key, record, index)] == s2.procs;
    assert Next(s1, p, ReadAndMerge) == s2;
    FinishedState(s2, s, p);
    RunSix(s, p, key, record, s2);
  }

  lemma RunSix(s: State, p: nat, key: WorkKey, record: Record, s2: State)
    requires Next(Next(s, p, LockForRecord(key, record)), p, ReadAndMerge) == s2
    ensures Run(s, RecordSteps(p, key, record)) ==
      Next(Next(Next(Next(s2, p, OpenTemporary), p, FinishTemporary), p, Replace), p, Release)
  {
    hide Next;
    var all := RecordSteps(p, key, record);
    var s3 := Next(s2, p, OpenTemporary);
    var s4 := Next(s3, p, FinishTemporary);
    var s5 := Next(s4, p, Replace);
    assert all[0..] == all;
    RunFrom(s, all, 0);
    RunFrom(Next(s, p, LockForRecord(key, record)), all, 1);
    RunFrom(s2, all, 2);
    RunFrom(s3, all, 3);
    RunFrom(s4, all, 4);
    RunFrom(s5, all, 5);
    RunFrom(Next(s5, p, Release), all, 6);
  }

  /** From the merged view to the end of the record. */
  lemma FinishedState(s2: State, s: State, p: nat)
    requires p in s2.procs && s2.procs[p].Merging? && s2 == s.(lock := Process(p), procs := s.procs[p := s2.procs[p]])
    ensures var proc := s2.procs[p];
      Next(Next(Next(Next(s2, p, OpenTemporary), p, FinishTemporary), p, Replace), p, Release) ==
      State(Stored(proc.current), Absent, Nobody, s.procs[p := Ready(proc.rom, proc.current.captures)],
            s.log + [(proc.key, proc.record)])
  {
    var proc := s2.procs[p];
    var s4 := Next(Next(s2, p, OpenTemporary), p, FinishTemporary);
    assert s4.procs == s.procs[p := Written(proc.rom, proc.key, proc.record, proc.current)];
    var s6 := Next(Next(s4, p, Replace), p, Release);
    assert s6.procs == s.procs[p := Ready(proc.rom, proc.current.captures)];
  }

  lemma StartedState(s: State, p: nat, rom: string)
    requires p !in s.procs && s.lock.Nobody? && s.disk.Missing?
    ensures Run(s, StartSteps(p, rom)) == s.(procs := s.procs[p := Ready(rom, map[])])
  {
    var all := StartSteps(p, rom);
    var s1 := Next(s, p, Launch(rom));
    var s2 := Next(s1, p, LockForLoad);
    assert all[0..] == all;
    RunFrom(s, all, 0);
    RunFrom(s1, all, 1);
    RunFrom(s2, all, 2);
    RunFrom(Next(s2, p, Load), all, 3);
    assert s2.procs == s.procs[p := Loading(rom)];
    assert s2.procs[p := Ready(rom, map[])] == s.procs[p := Ready(rom, map[])];
  }

  /**
   Without an index two ROMs are enough: two processes that both start on an empty cache each pass
   the start-up check, and the second one's record erases the first one's.
   */
  lemma MixedRomsLoseCaptures(
    tmp: Temporary, a: string, b: string, k1: WorkKey, r1: Record, k2: WorkKey, r2: Record)
    requires a != b && k1 != k2
    ensures var first := Run(Idle(Missing, tmp), StartSteps(1, a) + StartSteps(2, b) + RecordSteps(1, k1, r1));
      k1 in first.disk.Captures() && k1 !in Run(first, RecordSteps(2, k2, r2)).disk.Captures()
  {
    hide Next, StartSteps, RecordSteps;
    var s := Idle(Missing, tmp);
    RunConcat(s, StartSteps(1, a) + StartSteps(2, b), RecordSteps(1, k1, r1));
    RunConcat(s, StartSteps(1, a), StartSteps(2, b));
    StartedState(s, 1, a);
    StartedState(Run(s, StartSteps(1, a)), 2, b);
    var ready := Run(Run(s, StartSteps(1, a)), StartSteps(2, b));
    RecordedState(ready, 1, k1, r1);
    RecordedState(Run(ready, RecordSteps(1, k1, r1)), 2, k2, r2);
  }

  /** Whatever processes of these ROMs do, no key that ever reached the index is missing later. */
  ghost predicate NeverLoses(disk: File, tmp: Temporary, roms: set<string>) {
    forall steps, more | LaunchedIn(steps, roms) && LaunchedIn(more, roms) ::
      Run(Idle(disk, tmp), steps).disk.Captures().Keys <= Run(Run(Idle(disk, tmp), steps), more).disk.Captures().Keys
  }

  /**
   Exactly when a cache is safe: there is an index already, of whatever ROM and schema, which turns
   away every process that could harm it; or all processes are of one ROM.
   */
  lemma NeverLosesExactly(disk: File, tmp: Temporary, roms: set<string>)
    ensures NeverLoses(disk, tmp, roms) <==> disk.Stored? || forall a, b :: a in roms && b in roms ==> a == b
  {
    if disk.Stored? || forall a, b :: a in roms && b in roms ==> a == b {
      forall steps, more | LaunchedIn(steps, roms) && LaunchedIn(more, roms)
        ensures Run(Idle(disk, tmp), steps).disk.Captures().Keys <=
          Run(Run(Idle(disk, tmp), steps), more).disk.Captures().Keys
      {
        var rom := if disk.Stored? then disk.index.rom else OneOf(roms);
        IndexNeverLosesCaptures(disk, tmp, rom, steps, more);
      }
    } else {
      var a, b :| a in roms && b in roms && a != b;
      LosingRun(tmp, a, b, roms);
    }
  }

  ghost function OneOf(roms: set<string>): string {
    if roms == {} then "" else var a :| a in roms; a
  }

  lemma LosingRun(tmp: Temporary, a: string, b: string, roms: set<string>)
    requires a in roms && b in roms && a != b
    ensures !NeverLoses(Missing, tmp, roms)
  {
    hide Run, Next;
    var g := Generation(0, 0, "");
    var k1, k2 := WorkKey("1", g, []), WorkKey("2", g, []);
    var r := Rejected(g, true);
    var steps, more := StartSteps(1, a) + StartSteps(2, b) + RecordSteps(1, k1, r), RecordSteps(2, k2, r);
    MixedRomsLoseCaptures(tmp, a, b, k1, r, k2, r);
    assert LaunchedIn(steps, roms) && LaunchedIn(more, roms);
  }
}
