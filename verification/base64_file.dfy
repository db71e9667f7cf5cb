/**
 * `base642File`: turns a data URI `data:<mime>;base64,<payload>` into a
 * file. The header before the first comma gives the MIME type through the
 * regular expression `/:(.*?);/`; the second comma-separated part is handed
 * to the host's base64 decoder `atob`, and the decoded string is copied
 * into a byte array one character code at a time.
 */
module Base64File {
  import opened Wrappers
  import opened JsString

  newtype byte = x: int | 0 <= x < 256

  /** The host's `File`, reduced to its contents, name and type. */
  datatype File = File(bytes: seq<byte>, name: string, mimeType: string)

  /** What a call ends in: `null`, an exception from the decoder, or a file. */
  datatype Conversion = Null | DecodeError | Converted(file: File)

  const DefaultFileName := "image.png"

  /** Characters the regular-expression `.` does not match. */
  predicate IsLineTerminator(c: char)
  {
    c == '\n' || c == '\r' || c == '\U{2028}' || c == '\U{2029}'
  }

  /**
   * `/:(.*?);/` matches with the colon at `i` and the semicolon at `j`:
   * the lazy `.*?` stops at the nearest `;` and cannot cross a line break.
   */
  predicate Captures(s: string, i: nat, j: nat)
  {
    i < j < |s| && s[i] == ':' && s[j] == ';'
    && forall m :: i < m < j ==> s[m] != ';' && !IsLineTerminator(s[m])
  }

  /** Where the lazy `.*?` started at `from` reaches a `;`, if it does before a line break. */
  function FieldEnd(s: string, from: nat): (r: Option<nat>)
    ensures r.Some? ==> from <= r.value < |s| && s[r.value] == ';'
    ensures r.Some? ==> forall m :: from <= m < r.value ==> s[m] != ';' && !IsLineTerminator(s[m])
    ensures r.None? ==> forall j :: from <= j < |s| && s[j] == ';' ==>
      exists m :: from <= m < j && IsLineTerminator(s[m])
    decreases |s| - from
  {
    if from >= |s| then None
    else if s[from] == ';' then Some(from)
    else if IsLineTerminator(s[from]) then None
    else FieldEnd(s, from + 1)
  }

  /**
   * The regular-expression search from `from` on: the leftmost colon at
   * which `/:(.*?);/` matches, with the semicolon that ends the match.
   */
  function RegexSearch(s: string, from: nat): (r: Option<(nat, nat)>)
    ensures r.Some? ==> from <= r.value.0 && Captures(s, r.value.0, r.value.1)
    ensures r.Some? ==> forall i, j :: from <= i < r.value.0 ==> !Captures(s, i, j)
    ensures r.None? ==> forall i, j :: from <= i ==> !Captures(s, i, j)
    decreases |s| - from
  {
    if from >= |s| then None
    else if s[from] == ':' && FieldEnd(s, from + 1).Some? then Some((from, FieldEnd(s, from + 1).value))
    else RegexSearch(s, from + 1)
  }

  /**
   * `regResult ? regResult[1] : null` for the header `s`: the type is a
   * piece of the header with neither a `;` nor a line break in it.
   */
  function MimeOf(s: string): (r: Option<string>)
    ensures r.Some? ==> |r.value| < |s|
    ensures r.Some? ==> forall m :: 0 <= m < |r.value| ==> r.value[m] != ';' && !IsLineTerminator(r.value[m])
  {
    match RegexSearch(s, 0)
    case None => None
    case Some((i, j)) => Some(s[i + 1..j])
  }

  /** A `;` follows the colon at `i` with no line break in between. */
  predicate ColonThenSemicolon(s: string, i: nat, j: nat)
  {
    i < j < |s| && s[i] == ':' && s[j] == ';'
    && forall m :: i < m < j ==> !IsLineTerminator(s[m])
  }

  lemma NearestSemicolon(s: string, i: nat, j: nat)
    requires ColonThenSemicolon(s, i, j)
    ensures exists j' :: Captures(s, i, j')
    decreases j
  {
    if m :| i < m < j && s[m] == ';' {
      NearestSemicolon(s, i, m);
    } else {
      assert Captures(s, i, j);
    }
  }

  /**
   * The header yields no type exactly when no colon in it is followed by a
   * semicolon without a line break in between; otherwise the type is the
   * text between the first such colon and the nearest semicolon after it.
   */
  lemma MimeOfSpec(s: string)
    ensures MimeOf(s).None? <==> forall i, j :: !ColonThenSemicolon(s, i, j)
    ensures MimeOf(s).Some? ==> exists i: nat, j: nat ::
      && Captures(s, i, j) && MimeOf(s).value == s[i + 1..j]
      && forall i': nat, j': nat :: i' < i ==> !ColonThenSemicolon(s, i', j')
  {
    if MimeOf(s).None? {
      forall i, j | ColonThenSemicolon(s, i, j)
        ensures false
      {
        NearestSemicolon(s, i, j);
      }
    } else {
      var (i, j) := RegexSearch(s, 0).value;
      assert ColonThenSemicolon(s, i, j);
      forall i': nat, j': nat | i' < i && ColonThenSemicolon(s, i', j')
        ensures false
      {
        NearestSemicolon(s, i', j');
      }
    }
  }

  /** The usual header `data:image/png;base64` yields `image/png`. */
  lemma MimeOfExample()
    ensures MimeOf("data:image/png;base64") == Some("image/png")
  {
    var s := "data:image/png;base64";
    assert s[5..14] == "image/png";
    assert Captures(s, 4, 14);
    var r := RegexSearch(s, 0);
    assert r.Some? && r.value.0 == 4;
    assert r.value.1 == 14 by {
      var j := r.value.1;
      assert Captures(s, 4, j);
      if j > 14 {
        assert s[14] == ';';
      }
    }
  }

  /**
   * `u8arr[n] = code` on a `Uint8Array` keeps the code modulo 256, so the
   * codes below 256 that `atob` yields are stored unchanged.
   */
  function ToUint8(c: char): (b: byte)
    ensures (c as int) < 256 ==> b as int == c as int
  {
    ((c as int) % 256) as byte
  }

  /**
   * The `while (n--)` loop: fills a fresh byte array from the last index
   * down to the first, each index once, with the character codes of `bstr`.
   */
  method CopyCharCodes(bstr: string) returns (u8arr: array<byte>, ghost order: seq<nat>)
    ensures u8arr.Length == |bstr|
    ensures forall k :: 0 <= k < |bstr| ==> u8arr[k] == ToUint8(bstr[k])
    ensures |order| == |bstr| && forall t :: 0 <= t < |order| ==> order[t] == |bstr| - 1 - t
  {
    var n := |bstr|;
    u8arr := new byte[n];
    order := [];
    while n != 0
      invariant 0 <= n <= |bstr| == u8arr.Length
      invariant forall k :: n <= k < |bstr| ==> u8arr[k] == ToUint8(bstr[k])
      invariant |order| == |bstr| - n && forall t :: 0 <= t < |order| ==> order[t] == |bstr| - 1 - t
    {
      n := n - 1;
      u8arr[n] := ToUint8(bstr[n]);
      order := order + [n];
    }
  }

  lemma UndefinedKeyFree()
    ensures KeyFree("undefined", ",")
  {
    forall j: nat | j < |"undefined"|
      ensures !MatchAt("undefined", ",", j)
    {
      assert "undefined"[j..j + 1] == ["undefined"[j]];
    }
  }

  /**
   * The string `atob` receives: the second comma-separated part, or
   * `"undefined"` when there is none. It holds no comma; when there is a
   * comma it is the text from the header's comma up to the next comma or
   * the end of the URI.
   */
  function Payload(base64: string): (r: string)
    ensures KeyFree(r, ",")
    ensures var arr := Split(base64, ",");
      |arr| > 1 ==> arr[0] + "," + r == base64 || arr[0] + "," + r + "," <= base64
    ensures |Split(base64, ",")| == 1 ==> r == "undefined"
  {
    var arr := Split(base64, ",");
    SplitPartsKeyFree(base64, ",");
    SplitJoin(base64, ",");
    if |arr| > 1 then
      var tail := arr[1..];
      assert tail[0] == arr[1];
      assert Join(arr, ",") == arr[0] + "," + Join(tail, ",");
      assert |tail| > 1 ==> Join(tail, ",") == arr[1] + "," + Join(tail[1..], ",");
      arr[1]
    else
      UndefinedKeyFree();
      "undefined"
  }

  /**
   * `base642File(base64, fileName)` with the decoder `atob` given as a
   * function that yields `None` where the host throws.
   */
  method Base642File(base64: string, fileName: string, atob: string -> Option<string>) returns (r: Conversion)
    ensures var header := Split(base64, ",")[0];
      && (r.Null? <==> MimeOf(header).None?)
      && (r.DecodeError? <==> MimeOf(header).Some? && atob(Payload(base64)).None?)
      && (r.Converted? ==>
            && r.file.name == fileName
            && r.file.mimeType == MimeOf(header).value
            && var bstr := atob(Payload(base64)).value;
               |r.file.bytes| == |bstr| && forall k :: 0 <= k < |bstr| ==> r.file.bytes[k] == ToUint8(bstr[k]))
  {
    var arr := Split(base64, ",");
    var regResult := MimeOf(arr[0]);
    if regResult.Some? {
      var mime := regResult.value;
      var decoded := atob(if |arr| > 1 then arr[1] else "undefined");
      if decoded.None? {
        return DecodeError;
      }
      var bstr := decoded.value;
      var u8arr, _ := CopyCharCodes(bstr);
      return Converted(File(u8arr[..], fileName, mime));
    }
    return Null;
  }

  /**
   * A one-byte PNG-typed data URI, with a decoder that knows its payload:
   * the file carries the byte, the default name and the header's type.
   */
  method ConvertExample() returns (r: Conversion)
    ensures r == Converted(File([65], DefaultFileName, "image/png"))
  {
    var header := "data:image/png;base64";
    var uri := header + "," + "QQ==";
    forall j: nat | j < |header|
      ensures !MatchAt(uri, ",", j)
    {
      assert uri[j..j + 1] == [uri[j]];
    }
    assert "QQ=="[0..1] == "Q" && "QQ=="[1..2] == "Q" && "QQ=="[2..3] == "=" && "QQ=="[3..4] == "=";
    SplitKeyFree("QQ==", ",");
    SplitAfterLead(header, ",", "QQ==");
    MimeOfExample();
    r := Base642File(uri, DefaultFileName, s => if s == "QQ==" then Some("A") else None);
    assert r.Converted?;
    assert r.file.bytes == [65];
  }
}
