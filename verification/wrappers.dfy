/** Failure-carrying datatypes shared by every module of the model. */
module Wrappers {

  /** A value that may be absent; stands for a Go pointer or interface that may be nil. */
  datatype Option<+T> = None | Some(value: T)

  /** A Go `(value, error)` pair in which exactly one side is meaningful. */
  datatype Result<+T> = Ok(value: T) | Err(error: Error)

  /** A non-nil Go `error`. Only its identity matters, so it is a tagged string. */
  datatype Error = Error(text: string)

  /** The zero- or one-element sequence holding the content of `o`. */
  function OptionToSeq<T>(o: Option<T>): (r: seq<T>)
    ensures |r| <= 1
    ensures o.None? <==> r == []
    ensures o.Some? ==> r == [o.value]
  {
    match o
    case None => []
    case Some(v) => [v]
  }
}
