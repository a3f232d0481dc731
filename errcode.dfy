/**
 * The typed error record of common/errCode.go and its table of codes.
 */
module ErrCode {

  datatype Option<T> = None | Some(value: T)

  /** An error raised outside this package (by the coordination-service client), known by its text. */
  datatype Cause = Cause(text: string)

  /** `Err`: a numeric code, a message and the wrapped cause (nil when `TrueErr` is `None`). */
  datatype Err = Err(Code: int, Msg: string, TrueErr: Option<Cause>)

  function NewErr(code: int, msg: string): (e: Err)
    ensures e.Code == code && e.Msg == msg && e.TrueErr.None?
  {
    Err(code, msg, None)
  }

  /** The package-level error values. */
  const OpErr: Err := NewErr(10000, "OpErr")
  const ConnErr: Err := NewErr(10001, "ConnErr")
  const StartConnErr: Err := NewErr(10002, "StartConnErr")
  const ServersErr: Err := NewErr(10003, "ServersErr")
  const InvalidPathErr: Err := NewErr(10003, "InvalidPathErr")
  const NodeNameErr: Err := NewErr(10004, "NodeNameErr")
  const PathLengthErr: Err := NewErr(10005, "PathLengthErr")

  function Table(): seq<Err> {
    [OpErr, ConnErr, StartConnErr, ServersErr, InvalidPathErr, NodeNameErr, PathLengthErr]
  }

  /** Every entry of the table starts without a cause, and its message is its own name. */
  lemma TableEntries()
    ensures forall i :: 0 <= i < |Table()| ==> Table()[i].TrueErr.None?
    ensures OpErr.Code == 10000 && ConnErr.Code == 10001 && StartConnErr.Code == 10002
    ensures NodeNameErr.Code == 10004 && PathLengthErr.Code == 10005
    ensures ConnErr.Msg == "ConnErr" && StartConnErr.Msg == "StartConnErr" && OpErr.Msg == "OpErr"
  {
  }

  /** The codes do not identify the errors: two different entries share 10003, and no other pair does. */
  lemma CodesNotUnique()
    ensures ServersErr != InvalidPathErr && ServersErr.Code == InvalidPathErr.Code == 10003
    ensures forall i, j :: 0 <= i < j < |Table()| && Table()[i].Code == Table()[j].Code ==> i == 3 && j == 4
  {
  }

  /**
   * A package-level `Err` variable. `WithTrueErr` has a pointer receiver, so
   * calling it on one of the package variables changes that variable for every
   * later reader, and the error it returns is the variable itself.
   */
  class ErrVar {
    var value: Err

    constructor(init: Err)
      ensures value == init
    {
      value := init;
    }

    method WithTrueErr(cause: Option<Cause>) returns (r: ErrVar)
      modifies this
      ensures r == this
      ensures value == old(value).(TrueErr := cause)
      ensures value.Code == old(value).Code && value.Msg == old(value).Msg && value.TrueErr == cause
    {
      value := value.(TrueErr := cause);
      r := this;
    }
  }
}
