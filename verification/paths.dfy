/** File-system paths as `java.nio.file.Path` treats them on a Unix file
    system: absolute or relative, and a run of names. */
module Paths {

  import opened Wrappers
  import opened Text

  datatype Path = Path(absolute: bool, names: seq<string>)

  /** `toString()`: the names joined with '/', after a leading '/' when the
      path is absolute. */
  function ToText(p: Path): (s: string)
    ensures p.absolute ==> StartsWith(s, "/")
  {
    (if p.absolute then "/" else "") + Join(p.names, "/")
  }

  /** `getFileName()`: the last name; a path without names (the root) has
      none. */
  function FileName(p: Path): (r: Option<string>)
    ensures r.None? <==> p.names == []
    ensures r.Some? ==> r.value == p.names[|p.names| - 1]
  {
    if p.names == [] then None else Some(p.names[|p.names| - 1])
  }

  /** The non-empty pieces, in order. */
  function NonEmpty(pieces: seq<string>): (r: seq<string>)
    ensures forall k :: 0 <= k < |r| ==> r[k] != "" && r[k] in pieces
    ensures |r| <= |pieces|
  {
    if |pieces| == 0 then []
    else if pieces[0] == "" then NonEmpty(pieces[1..])
    else [pieces[0]] + NonEmpty(pieces[1..])
  }

  /** The names a path string holds: the pieces between its '/'s, with the
      empty pieces of redundant or trailing '/'s dropped. */
  function Names(s: string): (r: seq<string>)
    ensures forall k :: 0 <= k < |r| ==> r[k] != "" && '/' !in r[k]
  {
    NonEmpty(Split(s, '/'))
  }

  /** A plain name: not empty and without a '/'. */
  predicate PlainName(s: string) {
    s != "" && '/' !in s
  }

  /** `resolve(other)`: the path itself for an empty string; the other path
      when it is absolute; otherwise the path with the other's names
      appended, a plain name being the one name appended. */
  function Resolve(p: Path, other: string): (r: Path)
    ensures other == "" ==> r == p
    ensures other != "" && other[0] != '/' ==> r.absolute == p.absolute && p.names <= r.names
    ensures other != "" && other[0] == '/' ==> r.absolute
    ensures PlainName(other) ==> FileName(r) == Some(other)
  {
    if other == "" then p
    else if PlainName(other) then Path(p.absolute, p.names + [other])
    else if other[0] == '/' then Path(true, Names(other))
    else Path(p.absolute, p.names + Names(other))
  }

  /** A plain name holds exactly one name, so appending it is appending its
      names. */
  lemma NamesOfPlainName(name: string)
    requires PlainName(name)
    ensures Names(name) == [name]
  {
    assert IndexOf(name, '/') == -1;
    assert Split(name, '/') == [name];
    assert NonEmpty([name][1..]) == [];
  }
}
