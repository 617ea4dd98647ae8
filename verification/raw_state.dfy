/** The backend's `RawState`: a consistency check of the message-deadline
    family against the message-key family, and plain exports of both. Each
    walks its family with a visitor that always answers true. How an entry
    renders as text is a parameter. */
module RawState {

  import opened Wrappers
  import opened Text
  import opened Tables

  /** The lines printed before the check looks at any entry. */
  const BANNER: seq<string> := ["-----", "Checking consistency of ZbColumnFamilies.MESSAGE_DEADLINES", "-----"]

  /** The visitor of every walk here: it never stops the walk. */
  function Continue<K, V>(key: K, value: V): bool {
    true
  }

  /** The report line for a deadline entry whose message is gone. */
  function Dangling(show: ((int, int)) -> string, entry: (int, int)): string {
    show(entry) + " references messageKey: " + IntToString(entry.1) + " which no longer exists"
  }

  /** A deadline entry whose message key has no MESSAGE_KEY entry. */
  predicate Gone<M>(messageKeys: Table<int, M>, entry: (int, int)) {
    Lookup(messageKeys, entry.1).None?
  }

  /** The positions, among the first `n` deadline entries, of those whose
      message is gone: ascending, and every such position below `n`. */
  function GoneIndices<M>(deadlines: Table<(int, int), ()>, messageKeys: Table<int, M>, n: nat): (idx: seq<nat>)
    requires n <= |deadlines|
    ensures forall k :: 0 <= k < |idx| ==> idx[k] < n && Gone(messageKeys, deadlines[idx[k]].0)
    ensures forall k, l :: 0 <= k < l < |idx| ==> idx[k] < idx[l]
    ensures forall i :: 0 <= i < n && Gone(messageKeys, deadlines[i].0) ==> i in idx
  {
    if n == 0 then []
    else
      var before := GoneIndices(deadlines, messageKeys, n - 1);
      if Gone(messageKeys, deadlines[n - 1].0) then before + [n - 1] else before
  }

  /** The report lines for the first `n` deadline entries, in walk order:
      one for each entry whose message key has no MESSAGE_KEY entry. */
  function DanglingLines<M>(deadlines: Table<(int, int), ()>, messageKeys: Table<int, M>, show: ((int, int)) -> string, n: nat): (lines: seq<string>)
    requires n <= |deadlines|
    ensures forall line :: line in lines <==>
              exists i :: 0 <= i < n && Gone(messageKeys, deadlines[i].0) && line == Dangling(show, deadlines[i].0)
  {
    if n == 0 then []
    else
      var before := DanglingLines(deadlines, messageKeys, show, n - 1);
      var entry := deadlines[n - 1].0;
      if Gone(messageKeys, entry) then before + [Dangling(show, entry)] else before
  }

  /** The report holds one line per deadline entry whose message is gone,
      in walk order: its k-th line is about the k-th such entry. */
  lemma {:induction false} DanglingLinesInOrder<M>(deadlines: Table<(int, int), ()>, messageKeys: Table<int, M>, show: ((int, int)) -> string, n: nat)
    requires n <= |deadlines|
    ensures AboutEntries(DanglingLines(deadlines, messageKeys, show, n), GoneIndices(deadlines, messageKeys, n), deadlines, show)
  {
    if n > 0 {
      DanglingLinesInOrder(deadlines, messageKeys, show, n - 1);
      var before := DanglingLines(deadlines, messageKeys, show, n - 1);
      var idx := GoneIndices(deadlines, messageKeys, n - 1);
      if Gone(messageKeys, deadlines[n - 1].0) {
        assert GoneIndices(deadlines, messageKeys, n) == idx + [n - 1];
        assert DanglingLines(deadlines, messageKeys, show, n) == before + [Dangling(show, deadlines[n - 1].0)];
        AboutEntriesSnoc(before, idx, deadlines, show, n - 1);
      } else {
        assert GoneIndices(deadlines, messageKeys, n) == idx;
        assert DanglingLines(deadlines, messageKeys, show, n) == before;
      }
    }
  }

  /** Each line is the report line of the entry at the matching position. */
  predicate AboutEntries(lines: seq<string>, idx: seq<nat>, deadlines: Table<(int, int), ()>, show: ((int, int)) -> string) {
    && |lines| == |idx|
    && forall k :: 0 <= k < |idx| ==> idx[k] < |deadlines| && lines[k] == Dangling(show, deadlines[idx[k]].0)
  }

  /** One more line about one more entry. */
  lemma AboutEntriesSnoc(lines: seq<string>, idx: seq<nat>, deadlines: Table<(int, int), ()>, show: ((int, int)) -> string, i: nat)
    requires AboutEntries(lines, idx, deadlines, show) && i < |deadlines|
    ensures AboutEntries(lines + [Dangling(show, deadlines[i].0)], idx + [i], deadlines, show)
  {
    var lines' := lines + [Dangling(show, deadlines[i].0)];
    var idx' := idx + [i];
    forall k | 0 <= k < |idx'| ensures idx'[k] < |deadlines| && lines'[k] == Dangling(show, deadlines[idx'[k]].0) {
      if k < |idx| {
        assert lines'[k] == lines[k] && idx'[k] == idx[k];
      }
    }
  }

  /** `checkConsistencyMessageDeadlineColumnFamily()`: the banner, then one
      line per deadline entry whose message key has no MESSAGE_KEY entry, in
      walk order, every deadline entry being examined. */
  function CheckConsistency<M>(deadlines: Table<(int, int), ()>, messageKeys: Table<int, M>, show: ((int, int)) -> string): (out: seq<string>)
    ensures |out| >= |BANNER| && out[..|BANNER|] == BANNER
    ensures forall line :: line in out[|BANNER|..] <==>
              exists i :: 0 <= i < |deadlines| && Gone(messageKeys, deadlines[i].0) && line == Dangling(show, deadlines[i].0)
    ensures AboutEntries(out[|BANNER|..], GoneIndices(deadlines, messageKeys, |deadlines|), deadlines, show)
  {
    var examined := WhileTrue(deadlines, Continue);
    assert examined == |deadlines|;
    var lines := DanglingLines(deadlines, messageKeys, show, examined);
    DanglingLinesInOrder(deadlines, messageKeys, show, examined);
    assert (BANNER + lines)[|BANNER|..] == lines;
    BANNER + lines
  }

  /** A family printed entry by entry, in walk order. */
  function Printed<K, V>(t: Table<K, V>, show: ((K, V)) -> string, n: nat): (lines: seq<string>)
    requires n <= |t|
    ensures |lines| == n && forall i :: 0 <= i < n ==> lines[i] == show(t[i])
  {
    if n == 0 then []
    else Printed(t, show, n - 1) + [show(t[n - 1])]
  }

  /** `exportMessageKeyColumnFamily()`: one line per MESSAGE_KEY entry,
      each the rendering of the key with its stored message. */
  function ExportMessageKeys<M>(messageKeys: Table<int, M>, show: ((int, M)) -> string): (lines: seq<string>)
    ensures |lines| == |messageKeys| && forall i :: 0 <= i < |messageKeys| ==> lines[i] == show(messageKeys[i])
  {
    Printed(messageKeys, show, WhileTrue(messageKeys, Continue))
  }

  /** `exportMessageDeadlineColumnFamily()`: one line per MESSAGE_DEADLINES
      entry. */
  function ExportMessageDeadlines(deadlines: Table<(int, int), ()>, show: (((int, int), ())) -> string): (lines: seq<string>)
    ensures |lines| == |deadlines| && forall i :: 0 <= i < |deadlines| ==> lines[i] == show(deadlines[i])
  {
    Printed(deadlines, show, WhileTrue(deadlines, Continue))
  }
}
