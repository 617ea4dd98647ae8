/** The CLI's `JsonPrinter`: wraps the elements a command prints into one
    JSON object `{"data":[...]}`, separating them with commas. The printer
    is a value here: whether an element has been printed yet, and the text
    printed so far. */
module JsonPrinter {

  import opened Text

  const HEADING: string := "{\"data\":["
  const SEPARATOR: string := ","
  const END: string := "]}"

  datatype Printer = Printer(moreThanOneElement: bool, out: string)

  /** A new printer: nothing printed, no element seen. */
  const FRESH: Printer := Printer(false, "")

  /** `printElement(element)`: a separator before every element but the
      first the printer has seen, then the element. */
  function PrintElement(p: Printer, element: string): (q: Printer)
    ensures q.moreThanOneElement
    ensures q.out == p.out + (if p.moreThanOneElement then SEPARATOR else "") + element
  {
    Printer(true, p.out + (if p.moreThanOneElement then SEPARATOR else "") + element)
  }

  /** The consumer handing over its elements in order: the elements joined
      by separators, after one more separator when the printer had already
      seen an element. */
  function PrintAll(p: Printer, elements: seq<string>): (q: Printer)
    ensures q.moreThanOneElement == (p.moreThanOneElement || elements != [])
    ensures q.out == p.out + (if p.moreThanOneElement && elements != [] then SEPARATOR else "") + Join(elements, SEPARATOR)
    decreases |elements|
  {
    if |elements| == 0 then p
    else
      var rest := elements[1..];
      assert |elements| > 1 ==> Join(elements, SEPARATOR) == elements[0] + SEPARATOR + Join(rest, SEPARATOR);
      PrintAll(PrintElement(p, elements[0]), rest)
  }

  /** `surround(consumer)`: the heading, the elements, the end. */
  function Surround(p: Printer, elements: seq<string>): (q: Printer)
    ensures q.out == p.out + HEADING + (if p.moreThanOneElement && elements != [] then SEPARATOR else "") + Join(elements, SEPARATOR) + END
    ensures q.moreThanOneElement == (p.moreThanOneElement || elements != [])
  {
    var q := PrintAll(Printer(p.moreThanOneElement, p.out + HEADING), elements);
    Printer(q.moreThanOneElement, q.out + END)
  }

  /** `reset()`: forget that an element was printed. */
  function Reset(p: Printer): (q: Printer)
    ensures !q.moreThanOneElement && q.out == p.out
  {
    Printer(false, p.out)
  }

  /** A new printer surrounds the elements as one well-formed data array. */
  lemma SurroundFresh(elements: seq<string>)
    ensures Surround(FRESH, elements).out == HEADING + Join(elements, SEPARATOR) + END
  {
    assert FRESH.out + HEADING == HEADING;
  }

  /** No elements, one element and three elements. */
  lemma SurroundExamples(e: string)
    ensures Surround(FRESH, []).out == "{\"data\":[]}"
    ensures Surround(FRESH, [e]).out == "{\"data\":[" + e + "]}"
    ensures Surround(FRESH, [e, e, e]).out == "{\"data\":[" + e + "," + e + "," + e + "]}"
  {
    SurroundFresh([]);
    SurroundFresh([e]);
    SurroundFresh([e, e, e]);
    assert [e, e, e][1..] == [e, e];
    assert [e, e][1..] == [e];
  }

  /** `surround` leaves the flag set: a second `surround` with elements on
      the same printer starts its array with a separator, unless the
      printer is reset in between. */
  lemma Reuse(first: seq<string>, second: seq<string>)
    requires first != [] && second != []
    ensures var p := Surround(FRESH, first);
            && Surround(p, second).out == p.out + HEADING + SEPARATOR + Join(second, SEPARATOR) + END
            && Surround(Reset(p), second).out == p.out + Surround(FRESH, second).out
  {
    SurroundFresh(second);
  }
}
