/** `LogFactory`: the reader of a partition's log is built on the log
    directory, with the journal name derived from the directory's own name,
    which must be the partition id. */
module LogFactory {

  import opened Wrappers
  import opened Bytes
  import opened Text
  import opened Paths

  const PARTITION_NAME_PREFIX: string := "raft-partition-partition-"

  /** 128 MiB. */
  const MAX_SEGMENT_SIZE: int := 128 * 1024 * 1024

  /** The message of the exception for a directory that is not named by an
      integer. */
  function NotAPartitionMessage(logPath: Path): string {
    "Expected to extract partition as integer from path, but path was '" + ToText(logPath) + "'."
  }

  /** `extractPartitionNameFromPath(logPath)`: the integer the directory's
      name parses as, rendered after the partition name prefix. A path
      without a name has no file name to parse. */
  function ExtractPartitionNameFromPath(logPath: Path): (r: Result<string>)
    ensures FileName(logPath).None? ==> r.Throws? && r.error.NullPointer?
    ensures FileName(logPath).Some? && ParseInt(FileName(logPath).value).None? ==>
              r == Throws(IllegalArgument(NotAPartitionMessage(logPath)))
    ensures r.Ok? ==> exists id :: IsInt(id) && r.value == PARTITION_NAME_PREFIX + IntToString(id)
                        && ParseInt(FileName(logPath).value) == Some(id)
  {
    match FileName(logPath)
    case None => Throws(NullPointer("fileName"))
    case Some(name) =>
      match ParseInt(name)
      case None => Throws(IllegalArgument(NotAPartitionMessage(logPath)))
      case Some(id) => Ok(PARTITION_NAME_PREFIX + IntToString(id))
  }

  /** A directory named by the decimal rendering of an integer gives back
      that integer in the partition name. */
  lemma PartitionNameOfId(dir: Path, id: int)
    requires IsInt(id)
    ensures ExtractPartitionNameFromPath(Resolve(dir, IntToString(id))) == Ok(PARTITION_NAME_PREFIX + IntToString(id))
  {
    var name := IntToString(id);
    IntToStringChars(id, '/');
    ParseIntOfIntToString(id);
  }

  /** Leading zeros are accepted and dropped: a directory named by a
      non-negative id after a zero gives the same name as the id alone. */
  lemma PartitionNameDropsLeadingZero(dir: Path, id: int)
    requires IsInt(id) && id >= 0
    ensures ExtractPartitionNameFromPath(Resolve(dir, "0" + IntToString(id)))
            == Ok(PARTITION_NAME_PREFIX + IntToString(id))
  {
    var name := "0" + IntToString(id);
    IntToStringChars(id, '/');
    assert '/' !in name;
    assert FileName(Resolve(dir, name)) == Some(name);
    NatToStringValue(id);
    LeadingZeroValue(IntToString(id));
    assert ParseInt(name) == Some(id);
  }

  /** The configuration the journal reader is built with. */
  datatype ReaderConfig = ReaderConfig(directory: Path, name: string, maxSegmentSize: int)

  /** `newReader(logPath)`: the reader configuration for a log directory. */
  function NewReaderConfig(logPath: Path): (r: Result<ReaderConfig>)
    ensures r.Ok? <==> ExtractPartitionNameFromPath(logPath).Ok?
    ensures r.Ok? ==> r.value.directory == logPath
                      && r.value.name == ExtractPartitionNameFromPath(logPath).value
                      && r.value.maxSegmentSize == 134217728
    ensures r.Throws? ==> r.error == ExtractPartitionNameFromPath(logPath).error
  {
    var name :- ExtractPartitionNameFromPath(logPath);
    Ok(ReaderConfig(logPath, name, MAX_SEGMENT_SIZE))
  }
}
