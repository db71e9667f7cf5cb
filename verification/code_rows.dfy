/**
 * `generateCodeRowNumber`: wraps the HTML of a code block and appends one
 * empty row-number marker per line, inside a wrapper hidden from assistive
 * technology.
 */
module CodeRows {
  import opened JsString

  const CodeBlockOpen := "<span class=\"code-block\">"
  const WrapperOpen := "<span rn-wrapper aria-hidden=\"true\">"
  const RowMarker := "<span></span>"
  const SpanClose := "</span>"

  /** `n` copies of `s`, one after another. */
  function Repeat(s: string, n: nat): string
  {
    if n == 0 then "" else Repeat(s, n - 1) + s
  }

  /**
   * An empty code string comes back unchanged; any other string is wrapped
   * and followed by as many markers as it has lines, one more than its
   * line breaks.
   */
  method GenerateCodeRowNumber(code: string) returns (html: string)
    ensures code == "" ==> html == code
    ensures code != "" ==>
      html == CodeBlockOpen + code + SpanClose
            + WrapperOpen + Repeat(RowMarker, Occurrences(code, '\n') + 1) + SpanClose
  {
    if code == "" {
      return code;
    }
    var list := Split(code, "\n");
    var rowNumberList := [WrapperOpen];
    for i := 0 to |list|
      invariant Join(rowNumberList, "") == WrapperOpen + Repeat(RowMarker, i)
    {
      JoinEmptySnoc(rowNumberList, RowMarker);
      rowNumberList := rowNumberList + [RowMarker];
    }
    JoinEmptySnoc(rowNumberList, SpanClose);
    rowNumberList := rowNumberList + [SpanClose];
    SplitCount(code, '\n');
    html := CodeBlockOpen + code + SpanClose + Join(rowNumberList, "");
  }
}
