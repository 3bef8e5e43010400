/** Outcomes shared by the three parsers.

    The parsers in Classes/ are Python generators: they yield records one at a
    time and may raise an exception part-way through.  A `Parsed` value is the
    whole of what a consumer observes: the records yielded, in order, and the
    exception (if any) that ended the stream.
 */
module Results {

  /** The Python exceptions the core can raise on malformed input. */
  datatype Error =
    | IndexError         // a list or string index past its end
    | ValueError         // a tuple unpacking of the wrong size, or a bad int()
    | ZeroDivisionError  // the GC ratio of an empty sequence
    | UnboundLocalError  // a GTF attribute loop reading `x, y` before any assignment

  datatype Option<+T> = None | Some(value: T)

  datatype Result<+T> = Success(value: T) | Failure(error: Error)

  /** What a consumer of a record generator sees. */
  datatype Parsed<T> = Parsed(records: seq<T>, failure: Option<Error>)

  /** A stream that yields `x` and then continues as `p`. */
  function Prepend<T>(x: T, p: Parsed<T>): Parsed<T>
  {
    Parsed([x] + p.records, p.failure)
  }

  /** A stream that yields `acc` and then continues as `p`. */
  function AppendTo<T>(acc: seq<T>, p: Parsed<T>): Parsed<T>
  {
    Parsed(acc + p.records, p.failure)
  }

  /** The stream made of a single construction: one record, or the error it raised. */
  function Finish<T>(r: Result<T>): Parsed<T>
  {
    match r
    case Success(x) => Parsed([x], None)
    case Failure(e) => Parsed([], Some(e))
  }

  lemma AppendToPrepend<T>(acc: seq<T>, x: T, p: Parsed<T>)
    ensures AppendTo(acc, Prepend(x, p)) == AppendTo(acc + [x], p)
  {
    assert acc + ([x] + p.records) == (acc + [x]) + p.records;
  }
}
