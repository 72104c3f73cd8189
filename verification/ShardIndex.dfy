/** The live-shard index of `tools/compile_live_shards.py`: what one capture record says. */
module ShardIndex {

  datatype Mode = Arm | Thumb

  /** An entry point of a compiled page. */
  datatype Root = Root(addr: nat, mode: Mode)

  /** A page generation: the same address with other bytes is another generation. */
  datatype Generation = Generation(cpu: nat, addr: nat, sha1: string)

  /** What `work_identity` hashes; the hash itself is taken to be collision free. */
  datatype WorkKey = WorkKey(provider: string, generation: Generation, roots: seq<Root>)

  datatype Record =
    | Published(generation: Generation, roots: seq<Root>, dll: string)
    | Rejected(generation: Generation, unsupported: bool)

  type Captures = map<WorkKey, Record>

  datatype Index = Index(schema: int, rom: string, captures: Captures)

  function EmptyIndex(rom: string): Index { Index(2, rom, map[]) }

  /** The test `record_capture` applies before it trusts the file on disk. */
  predicate Usable(index: Index, rom: string) {
    index.rom == rom && (index.schema == 1 || index.schema == 2)
  }

  datatype File = Missing | Stored(index: Index) {
    function Captures(): Captures {
      if Missing? then map[] else index.captures
    }
  }

  /** The index `record_capture` writes: disk entries win over local ones, the new entry over both. */
  function Merged(disk: File, local: Captures, rom: string, key: WorkKey, record: Record): Index {
    var current := if disk.Stored? && Usable(disk.index, rom) then disk.index else EmptyIndex(rom);
    Index(2, rom, (local + current.captures)[key := record])
  }

  /** The read-modify-write inside the lock, as the loop over `setdefault` performs it. */
  method Merge(disk: File, local: Captures, rom: string, key: WorkKey, record: Record) returns (current: Index)
    ensures current == Merged(disk, local, rom, key, record)
  {
    current := EmptyIndex(rom);
    if disk.Stored? && Usable(disk.index, rom) {
      current := disk.index;
    }
    ghost var onDisk := current.captures;
    var captures, todo := current.captures, local.Keys;
    while todo != {}
      invariant todo <= local.Keys
      invariant captures == (map k | k in local && k !in todo :: local[k]) + onDisk
      decreases todo
    {
      var other :| other in todo;
      if other !in captures {
        captures := captures[other := local[other]];
      }
      todo := todo - {other};
    }
    assert (map k | k in local && k !in todo :: local[k]) == local;
    current := Index(2, rom, captures[key := record]);
  }

  /**
   Recording keeps every key on disk exactly when the file passes the usability test, or
   nothing would be lost by starting over.
   */
  lemma RecordKeepsKeysExactly(disk: File, local: Captures, rom: string, key: WorkKey, record: Record)
    ensures disk.Captures().Keys <= Merged(disk, local, rom, key, record).captures.Keys
       <==> (disk.Stored? ==> Usable(disk.index, rom)) || disk.Captures().Keys <= local.Keys + {key}
  {
  }
}
