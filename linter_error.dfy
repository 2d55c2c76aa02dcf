/** The linter's aggregate error: a value wrapping the errors found in one
    record, whose message lists theirs. */
module Linter {
  import opened Strings

  /** The wrapped errors, each represented by its message. */
  datatype LinterError = LinterError(errs: seq<string>)

  /** Error: collect the messages of the wrapped errors in order, then join
      them with newlines. No errors give the empty message, one error gives
      its own message, and n errors give n - 1 separators. */
  method Error(e: LinterError) returns (msg: string)
    ensures msg == Join(e.errs, "\n")
    ensures |e.errs| == 0 ==> msg == ""
    ensures |e.errs| == 1 ==> msg == e.errs[0]
    ensures |msg| == TotalLength(e.errs) + (if |e.errs| == 0 then 0 else |e.errs| - 1)
  {
    var s: seq<string> := [];
    var i := 0;
    while i < |e.errs|
      invariant 0 <= i <= |e.errs|
      invariant s == e.errs[..i]
    {
      s := s + [e.errs[i]];
      i := i + 1;
    }
    assert s == e.errs;
    JoinLength(s, "\n");
    msg := Join(s, "\n");
  }
}
