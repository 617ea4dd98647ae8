/** Segment file names of the journal: `<journal name>-<id>.log`. */
module SegmentFile {

  import opened Wrappers
  import opened Bytes
  import opened Text

  const PART_SEPARATOR: char := '-'
  const EXTENSION_SEPARATOR: char := '.'
  const EXTENSION: string := "log"

  /** A directory entry: its last path component and whether it is a
      regular file. */
  datatype File = File(name: string, isFile: bool)

  /** `getSegmentIdFromPath`: the integer between the last '-' and the
      last '.', or -1 when the name is not shaped like a segment file or
      that text is not a 32-bit integer. */
  function SegmentIdFromPath(name: string): (id: int)
    ensures IsInt(id)
    ensures PART_SEPARATOR !in name ==> id == -1
    ensures EXTENSION_SEPARATOR !in name ==> id == -1
    ensures !EndsWith(name, EXTENSION) ==> id == -1
    ensures LastIndexOf(name, EXTENSION_SEPARATOR) < LastIndexOf(name, PART_SEPARATOR) ==> id == -1
  {
    var part := LastIndexOf(name, PART_SEPARATOR);
    var ext := LastIndexOf(name, EXTENSION_SEPARATOR);
    if ext == -1 || part == -1 || ext < part || !EndsWith(name, EXTENSION) then -1
    else ParseInt(name[part + 1..ext]).GetOr(-1)
  }

  /** The text `SegmentIdFromPath` parses, when the name is shaped like a
      segment file name. */
  function IdText(name: string): Option<string> {
    var part := LastIndexOf(name, PART_SEPARATOR);
    var ext := LastIndexOf(name, EXTENSION_SEPARATOR);
    if ext == -1 || part == -1 || ext < part || !EndsWith(name, EXTENSION) then None
    else Some(name[part + 1..ext])
  }

  /** The id is -1 exactly when the name is misshapen or its id text does
      not parse (or parses to -1 itself). */
  lemma SegmentIdCases(name: string)
    ensures SegmentIdFromPath(name) == -1 <==>
      IdText(name).None? || ParseInt(IdText(name).value) in {None, Some(-1)}
  {
  }

  /** `isSegmentFile(journalName, fileName)`: both arguments must be
      non-null; then the file is a segment of the journal iff it has an id
      and starts with the journal name. */
  function IsSegmentFile(journalName: Option<string>, fileName: Option<string>): (r: Result<bool>)
    ensures journalName.None? ==> r == Throws(NullPointer("journalName cannot be null"))
    ensures journalName.Some? && fileName.None? ==> r == Throws(NullPointer("fileName cannot be null"))
    ensures journalName.Some? && fileName.Some? ==>
      r == Ok(SegmentIdFromPath(fileName.value) != -1 && StartsWith(fileName.value, journalName.value))
  {
    if journalName.None? then Throws(NullPointer("journalName cannot be null"))
    else if fileName.None? then Throws(NullPointer("fileName cannot be null"))
    else if SegmentIdFromPath(fileName.value) == -1 then Ok(false)
    else Ok(StartsWith(fileName.value, journalName.value))
  }

  /** `isSegmentFile(name, file)`: the string overload on the file's name. */
  function IsSegmentFileOf(journalName: Option<string>, file: File): (r: Result<bool>)
    ensures r == IsSegmentFile(journalName, Some(file.name))
  {
    IsSegmentFile(journalName, Some(file.name))
  }

  /** The name the journal gives its segment `id`. */
  function SegmentFileName(journalName: string, id: nat): string {
    journalName + [PART_SEPARATOR] + NatToString(id) + [EXTENSION_SEPARATOR] + EXTENSION
  }

  lemma LastIndexOfSplit(s: string, c: char, t: string)
    requires c !in t
    ensures LastIndexOf(s + [c] + t, c) == |s|
  {
    var w := s + [c] + t;
    assert w[|s|] == c;
  }

  /** Parsing the id back out of a segment file name gives the id, for
      every journal name. */
  lemma SegmentIdOfFileName(journalName: string, id: nat)
    requires id <= INT_MAX
    ensures SegmentIdFromPath(SegmentFileName(journalName, id)) == id
    ensures IsSegmentFile(Some(journalName), Some(SegmentFileName(journalName, id))) == Ok(true)
  {
    var name := SegmentFileName(journalName, id);
    IdTextOfFileName(journalName, id);
    ParseIntOfIntToString(id);
    assert SegmentIdFromPath(name) == ParseInt(NatToString(id)).GetOr(-1);
  }

  /** A segment file name is shaped like one: its id text is the id's
      digits, and it starts with the journal name. */
  lemma IdTextOfFileName(journalName: string, id: nat)
    ensures var name := SegmentFileName(journalName, id);
            IdText(name) == Some(NatToString(id)) && StartsWith(name, journalName)
            && EndsWith(name, EXTENSION)
            && LastIndexOf(name, PART_SEPARATOR) == |journalName|
            && LastIndexOf(name, EXTENSION_SEPARATOR) == |journalName| + 1 + |NatToString(id)|
  {
    var digits := NatToString(id);
    var name := SegmentFileName(journalName, id);
    var head := journalName + [PART_SEPARATOR] + digits;
    assert name == head + [EXTENSION_SEPARATOR] + EXTENSION;
    NoSeparatorInDigits(digits);
    var tail := digits + [EXTENSION_SEPARATOR] + EXTENSION;
    assert name == journalName + [PART_SEPARATOR] + tail;
    LastIndexOfSplit(journalName, PART_SEPARATOR, tail);
    LastIndexOfSplit(head, EXTENSION_SEPARATOR, EXTENSION);
    assert EndsWith(name, EXTENSION);
    assert name[|journalName| + 1..|head|] == digits;
    assert journalName <= name;
  }

  lemma NoSeparatorInDigits(digits: string)
    requires AllDigits(digits)
    ensures PART_SEPARATOR !in digits + [EXTENSION_SEPARATOR] + EXTENSION
  {
    var t := digits + [EXTENSION_SEPARATOR] + EXTENSION;
    forall i | 0 <= i < |t|
      ensures t[i] != PART_SEPARATOR
    {
      if i < |digits| {
        assert IsDigit(digits[i]);
      }
    }
  }
}
