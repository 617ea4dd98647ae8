/** The JVM string operations the modelled code relies on: character
    search, prefix and suffix tests, decimal rendering of integers
    (`Long.toString`) and `Integer.parseInt`. */
module Text {

  import opened Wrappers
  import opened Bytes

  /** `s.lastIndexOf(c)`: the last position holding `c`, or -1. */
  function LastIndexOf(s: string, c: char): (r: int)
    ensures -1 <= r < |s|
    ensures r == -1 <==> c !in s
    ensures r >= 0 ==> s[r] == c && forall j :: r < j < |s| ==> s[j] != c
  {
    if |s| == 0 then -1
    else if s[|s| - 1] == c then |s| - 1
    else LastIndexOf(s[..|s| - 1], c)
  }

  /** `s.startsWith(p)`. */
  predicate StartsWith(s: string, p: string) {
    p <= s
  }

  /** `s.endsWith(p)`. */
  predicate EndsWith(s: string, p: string) {
    |p| <= |s| && s[|s| - |p|..] == p
  }

  /** Text added after a string keeps what the string starts with. */
  lemma StartsWithConcat(a: string, b: string, p: string)
    requires StartsWith(a, p)
    ensures StartsWith(a + b, p)
  {
    assert (a + b)[..|p|] == a[..|p|];
  }

  /** Text added before a string keeps what the string ends with. */
  lemma EndsWithConcat(a: string, b: string, t: string)
    requires EndsWith(b, t)
    ensures EndsWith(a + b, t)
  {
    assert (a + b)[|a + b| - |t|..] == b[|b| - |t|..];
  }

  /** `s.contains(part)`: the part occurs somewhere in the string. */
  predicate Contains(s: string, part: string) {
    exists i :: 0 <= i <= |s| && OccursAt(s, part, i)
  }

  /** The part occurs in the string starting at position `i`. */
  predicate OccursAt(s: string, part: string, i: nat) {
    i + |part| <= |s| && s[i..i + |part|] == part
  }

  predicate IsDigit(c: char) {
    '0' <= c <= '9'
  }

  function DigitChar(d: int): (c: char)
    requires 0 <= d < 10
    ensures IsDigit(c)
  {
    ('0' as int + d) as char
  }

  predicate AllDigits(s: string) {
    forall i :: 0 <= i < |s| ==> IsDigit(s[i])
  }

  /** The value of a run of decimal digits, most significant first. */
  function DigitsValue(s: string): (r: nat)
    requires AllDigits(s)
  {
    if |s| == 0 then 0
    else DigitsValue(s[..|s| - 1]) * 10 + (s[|s| - 1] as int - '0' as int)
  }

  /** The shortest decimal rendering of a natural number. */
  function NatToString(n: nat): (s: string)
    ensures |s| > 0 && AllDigits(s)
    ensures s[0] == '0' ==> n == 0
  {
    if n < 10 then [DigitChar(n)] else NatToString(n / 10) + [DigitChar(n % 10)]
  }

  /** `Long.toString(v)`: a minus sign for negative values. */
  function IntToString(v: int): (s: string)
    ensures |s| > 0
    ensures v < 0 <==> s[0] == '-'
  {
    if v < 0 then "-" + NatToString(-v) else NatToString(v)
  }

  lemma {:induction false} NatToStringValue(n: nat)
    ensures DigitsValue(NatToString(n)) == n
  {
    if n >= 10 {
      NatToStringValue(n / 10);
      var s := NatToString(n);
      assert s[..|s| - 1] == NatToString(n / 10);
    }
  }

  /** `Integer.parseInt(s)` restricted to ASCII digits: an optional sign,
      at least one digit '0' to '9', and a value that fits in 32 bits;
      anything else is a NumberFormatException, modelled as `None`. The
      Java method also accepts the other Unicode decimal digits, which this
      function rejects. */
  function ParseInt(s: string): (r: Option<int>)
    ensures r.Some? ==> IsInt(r.value)
  {
    if |s| == 0 then None
    else
      var negative := s[0] == '-';
      var digits := if s[0] == '-' || s[0] == '+' then s[1..] else s;
      if |digits| == 0 || !AllDigits(digits) then None
      else
        var magnitude := DigitsValue(digits);
        var v: int := if negative then -(magnitude as int) else magnitude;
        if IsInt(v) then Some(v) else None
  }

  /** A leading zero does not change the value of a run of digits. */
  lemma {:induction false} LeadingZeroValue(s: string)
    requires AllDigits(s)
    ensures AllDigits("0" + s) && DigitsValue("0" + s) == DigitsValue(s)
    decreases |s|
  {
    var t := "0" + s;
    assert AllDigits(t);
    if |s| > 0 {
      assert t[..|t| - 1] == "0" + s[..|s| - 1];
      LeadingZeroValue(s[..|s| - 1]);
    } else {
      assert t[..0] == "";
    }
  }

  lemma ParseIntOfIntToString(v: int)
    requires IsInt(v)
    ensures ParseInt(IntToString(v)) == Some(v)
  {
    if v < 0 {
      ParseSignedDigits(-v);
    } else {
      ParsePlainDigits(v);
    }
  }

  /** The digits of `n` parse back to `n` when it fits in 32 bits. */
  lemma ParsePlainDigits(n: nat)
    requires IsInt(n)
    ensures ParseInt(NatToString(n)) == Some(n)
  {
    NatToStringValue(n);
    assert IsDigit(NatToString(n)[0]);
  }

  /** A minus sign before the digits of `n` parses back to `-n` when that
      fits in 32 bits. */
  lemma ParseSignedDigits(n: nat)
    requires n > 0 && IsInt(-(n as int))
    ensures ParseInt("-" + NatToString(n)) == Some(-(n as int))
  {
    NatToStringValue(n);
    var s := "-" + NatToString(n);
    assert s[1..] == NatToString(n);
  }

  /** Strings joined with a separator (`joinToString(sep)`). */
  function Join(parts: seq<string>, sep: string): (r: string)
    ensures |parts| == 0 ==> r == ""
    ensures |parts| == 1 ==> r == parts[0]
  {
    if |parts| == 0 then ""
    else if |parts| == 1 then parts[0]
    else parts[0] + sep + Join(parts[1..], sep)
  }

  /** Concatenation of all parts in order. */
  function Concat(parts: seq<string>): (r: string)
    ensures |parts| == 0 ==> r == ""
  {
    if |parts| == 0 then "" else parts[0] + Concat(parts[1..])
  }

  lemma {:induction false} ConcatAppend(parts: seq<string>, last: string)
    ensures Concat(parts + [last]) == Concat(parts) + last
  {
    if |parts| > 0 {
      ConcatAppend(parts[1..], last);
      assert (parts + [last])[1..] == parts[1..] + [last];
    }
  }

  /** `System.lineSeparator()` on the platforms the tool runs on. */
  const NEWLINE: string := "\n"

  /** `s.indexOf(c)`: the first position holding `c`, or -1. */
  function IndexOf(s: string, c: char): (r: int)
    ensures -1 <= r < |s|
    ensures r == -1 <==> c !in s
    ensures r >= 0 ==> s[r] == c && forall j :: 0 <= j < r ==> s[j] != c
  {
    IndexFrom(s, c, 0)
  }

  /** The first position from `i` on holding `c`, or -1. */
  function IndexFrom(s: string, c: char, i: nat): (r: int)
    requires i <= |s|
    ensures r == -1 || i <= r < |s|
    ensures r == -1 <==> forall j :: i <= j < |s| ==> s[j] != c
    ensures r >= 0 ==> s[r] == c && forall j :: i <= j < r ==> s[j] != c
    decreases |s| - i
  {
    if i == |s| then -1
    else if s[i] == c then i
    else IndexFrom(s, c, i + 1)
  }

  /** The pieces of `s` between the occurrences of `c`, empty pieces kept. */
  function Split(s: string, c: char): (r: seq<string>)
    ensures |r| > 0
    ensures forall k :: 0 <= k < |r| ==> c !in r[k]
    decreases |s|
  {
    var i := IndexOf(s, c);
    if i < 0 then [s]
    else
      var head := s[..i];
      assert c !in head by {
        forall j | 0 <= j < |head| ensures head[j] != c {
          assert head[j] == s[j];
        }
      }
      [head] + Split(s[i + 1..], c)
  }

  /** Joining pieces free of the separator and splitting again gives the
      pieces back. */
  lemma {:induction false} SplitJoin(parts: seq<string>, c: char)
    requires |parts| > 0
    requires forall k :: 0 <= k < |parts| ==> c !in parts[k]
    ensures Split(Join(parts, [c]), c) == parts
  {
    if |parts| > 1 {
      var s := Join(parts, [c]);
      var rest := Join(parts[1..], [c]);
      assert s == parts[0] + [c] + rest;
      assert IndexOf(s, c) == |parts[0]| by {
        assert s[|parts[0]|] == c;
        forall j | 0 <= j < |parts[0]| ensures s[j] != c {
          assert s[j] == parts[0][j];
        }
      }
      assert s[..|parts[0]|] == parts[0];
      assert s[|parts[0]| + 1..] == rest;
      SplitJoin(parts[1..], c);
    }
  }

  /** The decimal rendering of a number holds digits and a sign only. */
  lemma IntToStringChars(v: int, c: char)
    requires c != '-' && !IsDigit(c)
    ensures c !in IntToString(v)
  {
    var s := IntToString(v);
    if v < 0 {
      assert AllDigits(s[1..]);
      assert forall j :: 1 <= j < |s| ==> s[j] == s[1..][j - 1];
    }
  }

  /** Joining one more part adds the separator and the part at the end. */
  lemma {:induction false} JoinAppend(parts: seq<string>, last: string, sep: string)
    requires |parts| > 0
    ensures Join(parts + [last], sep) == Join(parts, sep) + sep + last
  {
    if |parts| > 1 {
      JoinAppend(parts[1..], last, sep);
      assert (parts + [last])[1..] == parts[1..] + [last];
    } else {
      assert parts + [last] == [parts[0], last];
      assert [parts[0], last][1..] == [last];
    }
  }

  /** Two parts in front of a join are joined to it by separators. */
  lemma JoinTwoMore(a: string, b: string, rest: seq<string>, sep: string)
    requires |rest| > 0
    ensures Join([a, b] + rest, sep) == a + sep + b + sep + Join(rest, sep)
  {
    assert ([a, b] + rest)[1..] == [b] + rest;
    assert ([b] + rest)[1..] == rest;
    var j := Join(rest, sep);
    assert a + sep + (b + sep + j) == a + sep + b + sep + j;
  }

  /** A join of two or more parts ends with the separator and the last
      part. */
  lemma JoinEndsWithLast(parts: seq<string>, sep: string)
    requires |parts| >= 2
    ensures EndsWith(Join(parts, sep), sep + parts[|parts| - 1])
  {
    var n := |parts| - 1;
    assert parts[..n] + [parts[n]] == parts;
    JoinAppend(parts[..n], parts[n], sep);
    var x := Join(parts[..n], sep);
    assert (x + sep + parts[n])[|x|..] == sep + parts[n];
  }

  /** Every part followed by the terminator, as a `StringBuilder` that
      appends a line end after each line builds it. */
  function Terminated(parts: seq<string>, term: string): (r: string)
    ensures |parts| == 0 ==> r == ""
  {
    if |parts| == 0 then "" else parts[0] + term + Terminated(parts[1..], term)
  }

  /** Terminating every part is joining the parts and one empty part. */
  lemma {:induction false} TerminatedIsJoin(parts: seq<string>, term: string)
    ensures Terminated(parts, term) == Join(parts + [""], term)
  {
    if |parts| > 0 {
      TerminatedIsJoin(parts[1..], term);
      assert (parts + [""])[1..] == parts[1..] + [""];
      if |parts| == 1 {
        assert Terminated(parts[1..], term) == "";
        assert Join([""], term) == "";
      }
    }
  }

  /** Parts and separator free of a character join to a text free of it. */
  lemma {:induction false} JoinFree(parts: seq<string>, sep: string, c: char)
    requires c !in sep && forall k :: 0 <= k < |parts| ==> c !in parts[k]
    ensures c !in Join(parts, sep)
  {
    if |parts| > 1 {
      JoinFree(parts[1..], sep, c);
    }
  }

  /** Lines free of the line end split back into the lines and the empty
      text after the last line end. */
  lemma SplitTerminated(parts: seq<string>, c: char)
    requires forall k :: 0 <= k < |parts| ==> c !in parts[k]
    ensures Split(Terminated(parts, [c]), c) == parts + [""]
  {
    TerminatedIsJoin(parts, [c]);
    var all := parts + [""];
    forall k | 0 <= k < |all| ensures c !in all[k] {
      if k < |parts| { assert all[k] == parts[k]; }
    }
    SplitJoin(all, c);
  }
}
