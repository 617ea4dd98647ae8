/** Where a Zeebe broker keeps a partition under its data directory: the
    partition's log directory, and its runtime state inside it. */
module ZeebePaths {

  import opened Wrappers
  import opened Paths

  const RAFT_PARTITION: string := "raft-partition"
  const PARTITIONS: string := "partitions"
  const RUNTIME: string := "runtime"

  /** The fixed directory names are plain names. */
  lemma FixedNamesPlain()
    ensures PlainName(RAFT_PARTITION) && PlainName(PARTITIONS) && PlainName(RUNTIME)
  {
  }

  /** `getLogPath(dataPath, partition)`: data/raft-partition/partitions/<partition>. */
  function LogPath(dataPath: Path, partition: string): (r: Path)
    ensures PlainName(partition) ==> FileName(r) == Some(partition)
  {
    Resolve(PartitionsDir(dataPath), partition)
  }

  /** `getRuntimePath(dataPath, partition)`: the runtime directory of the
      partition. */
  function RuntimePath(dataPath: Path, partition: string): (r: Path)
  {
    Resolve(Resolve(PartitionsDir(dataPath), partition), RUNTIME)
  }

  /** The directory holding the partitions. */
  function PartitionsDir(dataPath: Path): Path {
    Resolve(Resolve(dataPath, RAFT_PARTITION), PARTITIONS)
  }

  /** The two fixed names are plain names, each appended as it is. */
  lemma PartitionsDirNames(dataPath: Path)
    ensures PartitionsDir(dataPath) == Path(dataPath.absolute, dataPath.names + [RAFT_PARTITION, PARTITIONS])
  {
    FixedNamesPlain();
    AppendPlain(dataPath, RAFT_PARTITION);
    var a := Path(dataPath.absolute, dataPath.names + [RAFT_PARTITION]);
    AppendPlain(a, PARTITIONS);
    assert a.names + [PARTITIONS] == dataPath.names + [RAFT_PARTITION, PARTITIONS];
  }

  /** Resolving a plain name appends it. */
  lemma AppendPlain(p: Path, name: string)
    requires PlainName(name)
    ensures Resolve(p, name) == Path(p.absolute, p.names + [name])
  {
  }

  /** A partition given as a plain name is one more name after the data
      directory and the two fixed names, and the runtime path is the log
      path and one more name, "runtime". */
  lemma PartitionPaths(dataPath: Path, partition: string)
    requires PlainName(partition)
    ensures LogPath(dataPath, partition)
            == Path(dataPath.absolute, dataPath.names + [RAFT_PARTITION, PARTITIONS, partition])
    ensures RuntimePath(dataPath, partition)
            == Path(dataPath.absolute, dataPath.names + [RAFT_PARTITION, PARTITIONS, partition, RUNTIME])
    ensures FileName(LogPath(dataPath, partition)) == Some(partition)
  {
    PartitionsDirNames(dataPath);
    FixedNamesPlain();
    var b := PartitionsDir(dataPath);
    AppendPlain(b, partition);
    var c := Path(dataPath.absolute, b.names + [partition]);
    AppendPlain(c, RUNTIME);
    assert b.names + [partition] == dataPath.names + [RAFT_PARTITION, PARTITIONS, partition];
    assert c.names + [RUNTIME] == dataPath.names + [RAFT_PARTITION, PARTITIONS, partition, RUNTIME];
  }

  /** The runtime path is the log path resolved against "runtime". */
  lemma RuntimeInsideLog(dataPath: Path, partition: string)
    ensures RuntimePath(dataPath, partition) == Resolve(LogPath(dataPath, partition), RUNTIME)
    ensures RuntimePath(dataPath, partition)
            == Path(LogPath(dataPath, partition).absolute, LogPath(dataPath, partition).names + [RUNTIME])
  {
    FixedNamesPlain();
    AppendPlain(LogPath(dataPath, partition), RUNTIME);
  }
}
