/**
 * The master's result codes (master/src/pmlin-master.h): hard errors
 * 0..7 and the two auto-configuration warnings 128 and 129.
 */
module Codes {
  import opened Protocol
  import opened Wrappers

  datatype Status =
    | Ok
    | CrcError
    | TimeoutError
    | NoAckError
    | NoRespError
    | NoFreeIdError
    | TypeConflictError
    | NotInitializedError
    | TypeConflictWarning
    | IdRenumWarning
  {
    predicate IsWarning() {
      this == TypeConflictWarning || this == IdRenumWarning
    }

    /** The `PMLIN_error_t` value of this result. */
    function Code(): (c: byte)
      ensures IsWarning() <==> c >= 128
      ensures !IsWarning() ==> c < 8
      ensures c == 0 <==> this == Ok
    {
      match this
      case Ok => 0
      case CrcError => 1
      case TimeoutError => 2
      case NoAckError => 3
      case NoRespError => 4
      case NoFreeIdError => 5
      case TypeConflictError => 6
      case NotInitializedError => 7
      case TypeConflictWarning => 128
      case IdRenumWarning => 129
    }
  }

  /** Reads a `PMLIN_error_t` back; `None` for values no result uses. */
  function FromCode(c: byte): (r: Option<Status>)
    ensures r.Some? ==> r.value.Code() == c
    ensures r.None? <==> (8 <= c < 128 || c > 129)
  {
    if c == 0 then Some(Ok)
    else if c == 1 then Some(CrcError)
    else if c == 2 then Some(TimeoutError)
    else if c == 3 then Some(NoAckError)
    else if c == 4 then Some(NoRespError)
    else if c == 5 then Some(NoFreeIdError)
    else if c == 6 then Some(TypeConflictError)
    else if c == 7 then Some(NotInitializedError)
    else if c == 128 then Some(TypeConflictWarning)
    else if c == 129 then Some(IdRenumWarning)
    else None
  }

  /** Every result survives encoding and decoding. */
  lemma CodeRoundTrip(s: Status)
    ensures FromCode(s.Code()) == Some(s)
  {
  }

  /** Distinct results have distinct codes. */
  lemma CodesDistinct(a: Status, b: Status)
    ensures a.Code() == b.Code() ==> a == b
  {
    CodeRoundTrip(a);
    CodeRoundTrip(b);
  }

  /** Results the auto-configuration treats as fatal when they come out of a renumbering. */
  predicate IsFatal(s: Status) {
    s != Ok && !s.IsWarning()
  }
}
