/** The runtime's error value (`Error` in gen_routine/error.go): a code, an
    optional text, an optional recovered panic value and an optional cause.
    Its rendering walks the cause chain, oldest cause first. */
module Errors {
  import opened Base

  // The thirteen error codes, 0 down to -12.
  const CodeOk: int := 0
  const CodeNotFind: int := -1
  const CodeCtxDone: int := -2
  const CodeCrash: int := -3
  const CodeNormalStop: int := -4
  const CodeTimeout: int := -5
  const CodeClosed: int := -6
  const CodeAlreadyHad: int := -7
  const CodeGateOffline: int := -8
  const CodeReflectParamsLen: int := -9
  const CodeRoutineInitFail: int := -10
  const CodePbUnmarshal: int := -11
  const CodeRpc: int := -12

  /** Every code, in declaration order. */
  const AllCodes: seq<int> := [CodeOk, CodeNotFind, CodeCtxDone, CodeCrash, CodeNormalStop,
                               CodeTimeout, CodeClosed, CodeAlreadyHad, CodeGateOffline,
                               CodeReflectParamsLen, CodeRoutineInitFail, CodePbUnmarshal, CodeRpc]

  /** `panicValue` holds the `%v` text of a recovered panic value. */
  datatype Error = Error(code: int, param: string, panicValue: Option<string>, last: Option<Error>)

  /** An error that carries only a code. */
  function Plain(code: int): Error {
    Error(code, "", None, None)
  }

  /** The error a recovered panic becomes: code Crash, the stack trace as text. */
  function CrashError(payload: string, stack: string): (e: Error)
    ensures e.code == CodeCrash && e.param == stack && e.panicValue == Some(payload) && e.last.None?
  {
    Error(CodeCrash, stack, Some(payload), None)
  }

  lemma CodesAreDistinct()
    ensures |AllCodes| == 13
    ensures forall i :: 0 <= i < |AllCodes| ==> AllCodes[i] == -i
    ensures forall i, j :: 0 <= i < j < |AllCodes| ==> AllCodes[i] != AllCodes[j]
  {
  }

  // ---------------------------------------------------------------- decimal

  function DigitChar(d: nat): (c: char)
    requires d < 10
    ensures '0' <= c <= '9' && c as int - '0' as int == d
  {
    (d + '0' as int) as char
  }

  predicate IsDigits(s: string) {
    forall i :: 0 <= i < |s| ==> '0' <= s[i] <= '9'
  }

  /** `%d` of a non-negative number. */
  function NatToDec(n: nat): (s: string)
    ensures |s| > 0 && IsDigits(s)
    ensures s[0] == '0' ==> n == 0
  {
    if n < 10 then [DigitChar(n)] else NatToDec(n / 10) + [DigitChar(n % 10)]
  }

  /** `%d` of any integer: a minus sign, then the digits of the magnitude. */
  function IntToDec(i: int): string {
    if i < 0 then "-" + NatToDec(-i) else NatToDec(i)
  }

  /** Reads a digit string back as a number. */
  function DecToNat(s: string): nat
    requires IsDigits(s)
  {
    if s == [] then 0 else DecToNat(s[..|s| - 1]) * 10 + (s[|s| - 1] as int - '0' as int)
  }

  lemma {:induction false} NatToDecRoundTrip(n: nat)
    ensures DecToNat(NatToDec(n)) == n
  {
    if n >= 10 {
      var s := NatToDec(n);
      assert s[..|s| - 1] == NatToDec(n / 10);
      NatToDecRoundTrip(n / 10);
    }
  }

  /** A rendered code reads back as the code it came from. */
  lemma IntToDecRoundTrip(i: int)
    ensures var s := IntToDec(i);
      |s| > 0 &&
      (if i < 0 then s[0] == '-' && IsDigits(s[1..]) && DecToNat(s[1..]) == -i
       else IsDigits(s) && DecToNat(s) == i)
  {
    if i < 0 {
      NatToDecRoundTrip(-i);
      assert IntToDec(i)[1..] == NatToDec(-i);
    } else {
      NatToDecRoundTrip(i);
    }
  }

  // -------------------------------------------------------------- rendering

  /** The part `Code : <code>`. */
  function Head(code: int): string {
    "Code : " + IntToDec(code)
  }

  /** One error's own line: the code, then ` info : <param>` when the text is
      non-empty, then `panic err : <value>` when a panic value is present. */
  function Own(e: Error): (r: string)
    ensures StartsWith(r, Head(e.code))
    ensures e.param == "" && e.panicValue.None? ==> r == Head(e.code)
    ensures e.param != "" && e.panicValue.None? ==> r == Head(e.code) + " info : " + e.param
    ensures e.param != "" ==> |r| >= |Head(e.code)| + 8 + |e.param| &&
                              r[|Head(e.code)|..|Head(e.code)| + 8 + |e.param|] == " info : " + e.param
    ensures e.panicValue.Some? ==> EndsWith(r, "panic err : " + e.panicValue.value)
    ensures |r| == |Head(e.code)| + (if e.param == "" then 0 else 8 + |e.param|)
                    + (if e.panicValue.None? then 0 else 12 + |e.panicValue.value|)
  {
    var info := if e.param != "" then " info : " + e.param else "";
    var pan := if e.panicValue.Some? then "panic err : " + e.panicValue.value else "";
    assert (Head(e.code) + info + pan)[..|Head(e.code)|] == Head(e.code);
    assert (Head(e.code) + info + pan)[|Head(e.code)|..|Head(e.code)| + |info|] == info;
    Head(e.code) + info + pan
  }

  /** `Error.String`: the cause's rendering and a newline come first. */
  function Render(e: Error): (r: string)
    ensures EndsWith(r, Own(e))
  {
    match e.last
    case None => Own(e)
    case Some(cause) => Render(cause) + "\n" + Own(e)
  }

  /** The cause chain, oldest cause first, ending with `e` itself. */
  function Chain(e: Error): (c: seq<Error>)
    ensures |c| > 0 && c[|c| - 1] == e
  {
    match e.last
    case None => [e]
    case Some(cause) => Chain(cause) + [e]
  }

  /** Lines joined with a newline between neighbours. */
  function JoinLines(lines: seq<string>): string {
    if |lines| == 0 then ""
    else if |lines| == 1 then lines[0]
    else JoinLines(lines[..|lines| - 1]) + "\n" + lines[|lines| - 1]
  }

  function OwnAll(c: seq<Error>): (r: seq<string>)
    ensures |r| == |c| && forall i :: 0 <= i < |c| ==> r[i] == Own(c[i])
  {
    seq(|c|, i requires 0 <= i < |c| => Own(c[i]))
  }

  /** The rendering is the chain's own lines joined by newlines. */
  lemma {:induction false} RenderIsJoinedChain(e: Error)
    ensures Render(e) == JoinLines(OwnAll(Chain(e)))
  {
    match e.last
    case None =>
    case Some(cause) =>
      RenderIsJoinedChain(cause);
      assert Chain(e) == Chain(cause) + [e];
      OwnAllSnoc(Chain(cause), e);
      JoinLinesSnoc(OwnAll(Chain(cause)), Own(e));
  }

  /** Adding an error to a chain adds its own line. */
  lemma OwnAllSnoc(c: seq<Error>, e: Error)
    ensures OwnAll(c + [e]) == OwnAll(c) + [Own(e)]
  {
  }

  /** Joining one more line appends a newline and the line. */
  lemma JoinLinesSnoc(lines: seq<string>, x: string)
    requires |lines| >= 1
    ensures JoinLines(lines + [x]) == JoinLines(lines) + "\n" + x
  {
    assert (lines + [x])[..|lines|] == lines;
  }

  /** The rendering starts with the oldest cause's code. */
  lemma {:induction false} RenderStartsWithRootCode(e: Error)
    ensures StartsWith(Render(e), Head(Chain(e)[0].code))
  {
    match e.last
    case None =>
    case Some(cause) =>
      RenderStartsWithRootCode(cause);
      var h := Head(Chain(cause)[0].code);
      assert Chain(e)[0] == Chain(cause)[0];
      assert (Render(cause) + "\n" + Own(e))[..|h|] == Render(cause)[..|h|];
  }
}
