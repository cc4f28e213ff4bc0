/**
 * What the inbound-message handler of src/nntp.ts delivers for one websocket
 * message. The carry-over buffer is always empty when a message arrives
 * (see NNTPClient.OnMessage), so the delivered lines depend on the message
 * alone:
 *   - a message of one CRLF piece, or whose last piece is exactly ".", is
 *     delivered as its CRLF pieces;
 *   - any other message is buffered twice and joined with ",", so what is
 *     split and delivered (minus its last piece) is `data + "," + data`.
 */
module NntpFraming {
  import opened JsString
  import opened JsNumber
  import opened NntpCommand

  const CRLF: string := "\r\n"

  /** The message goes through the carry-over buffer (src/nntp.ts:26-29 with an empty buffer). */
  predicate Buffered(data: string)
  {
    var parts := Split(data, CRLF);
    |parts| > 1 && Last(parts) != "."
  }

  /** The `lines` delivered for the message `data`. */
  function FrameLines(data: string): (lines: seq<string>)
    ensures |lines| >= 1
  {
    var parts := Split(data, CRLF);
    if !Buffered(data) then parts
    else
      var doubled := data + "," + data;
      assert doubled == data + ("," + data);
      SplitSingle(data, CRLF);
      SplitExtend(data, "," + data, CRLF);
      DropLast(Split(doubled, CRLF))
  }

  /** The two paths of the handler, as the lines each one delivers. */
  lemma FrameLinesCases(data: string)
    ensures !Buffered(data) ==> FrameLines(data) == Split(data, CRLF)
    ensures Buffered(data) ==> |Split(data + "," + data, CRLF)| > 0 && FrameLines(data) == DropLast(Split(data + "," + data, CRLF))
  {
  }

  /** `parseInt(lines[0].split(" ")[0])`. */
  function ResponseCode(lines: seq<string>): Number
    requires |lines| > 0
  {
    ParseInt(Split(lines[0], " ")[0])
  }

  /** The response built for the message `data` (src/nntp.ts:44-48). */
  function FrameResponse(data: string): CommandResponse
  {
    var lines := FrameLines(data);
    CommandResponse(ResponseCode(lines), lines)
  }

  /**
   * An unbuffered message is delivered as its CRLF pieces, and joining the
   * delivered lines with CRLF gives the message back unchanged.
   */
  lemma FrameUnbuffered(data: string)
    requires !Buffered(data)
    ensures FrameLines(data) == Split(data, CRLF)
    ensures Join(FrameLines(data), CRLF) == data
  {
    JoinSplit(data, CRLF);
  }

  /** No CRLF starts inside `w + ","` when `w` holds no CRLF, whatever follows. */
  lemma NoCrlfBeforeComma(w: string, x: string)
    requires !Contains(w, CRLF)
    ensures forall j :: 0 <= j < |w + ","| ==> !OccursAt(w + "," + x, CRLF, j)
  {
    var s := w + "," + x;
    forall j | 0 <= j < |w| + 1 ensures !OccursAt(s, CRLF, j) {
      if j + 2 <= |w| {
        OccursInExtension(w, "," + x, CRLF, j);
        assert s == w + ("," + x);
        if OccursAt(s, CRLF, j) {
          IndexOfFirst(w, CRLF, j);
        }
      } else if j + 1 == |w| {
        assert s[j + 1] == ',';
        assert s[j..j + 2][1] == s[j + 1];
      } else if j + 2 <= |s| {
        assert s[j] == ',';
        assert s[j..j + 2][0] == s[j];
      }
    }
  }

  /** The sequence bookkeeping of FrameBuffered, stated over plain values. */
  lemma DoubledPieces(p: seq<string>, q: seq<string>, whole: seq<string>, glued: string)
    requires |p| > 1 && q == [glued] + p[1..] && whole == DropLast(p) + q
    ensures |whole| > 0 && DropLast(whole) == DropLast(p) + [glued] + p[1..|p| - 1]
  {
    assert DropLast(q) == [glued] + p[1..|p| - 1];
    assert DropLast(whole) == DropLast(p) + DropLast(q);
  }

  /** The doubled text splits as the message's complete lines, then its last piece continued by "," and the message. */
  lemma DoubledSplit(data: string)
    ensures var p := Split(data, CRLF);
      Split(data + "," + data, CRLF) == DropLast(p) + Split(Last(p) + "," + data, CRLF)
  {
    var p := Split(data, CRLF);
    var y := "," + data;
    assert data + "," + data == data + y;
    assert Last(p) + "," + data == Last(p) + y;
    SplitAppend(data, y, CRLF);
  }

  /** The last piece of a message, a "," and the message split as that glued line, then the message's pieces after its first. */
  lemma GluedSplit(data: string)
    ensures var p := Split(data, CRLF);
      Split(Last(p) + "," + data, CRLF) == [Last(p) + "," + p[0]] + p[1..]
  {
    var p := Split(data, CRLF);
    SplitPiecesFree(data, CRLF);
    NoCrlfBeforeComma(Last(p), data);
    SplitPrepend(Last(p) + ",", data, CRLF);
  }

  /**
   * A buffered message is delivered twice, glued with ",": its complete lines,
   * then its last piece joined by "," to its first piece, then its lines
   * from the second to the last complete one. So its first piece is the
   * first delivered line, and the piece after the final CRLF is lost.
   */
  lemma FrameBuffered(data: string)
    requires Buffered(data)
    ensures var p := Split(data, CRLF);
      FrameLines(data) == DropLast(p) + [Last(p) + "," + p[0]] + p[1..|p| - 1]
  {
    var p := Split(data, CRLF);
    DoubledSplit(data);
    GluedSplit(data);
    DoubledPieces(p, Split(Last(p) + "," + data, CRLF), Split(data + "," + data, CRLF), Last(p) + "," + p[0]);
  }

  /**
   * A one-line status reply ending in CRLF is buffered: it is delivered as
   * the status line followed by "," and the status line again.
   */
  lemma StatusReplyDoubled(line: string)
    requires !Contains(line, CRLF)
    ensures FrameLines(line + CRLF) == [line, "," + line]
  {
    var data := line + CRLF;
    forall j | 0 <= j < |line|
      ensures !OccursAt(data, CRLF, j)
    {
      NoCrlfBeforeEnd(line, j);
    }
    IndexAfterPrefix(line, CRLF, CRLF);
    assert IndexOf(CRLF, CRLF) == 0;
    assert data[|line| + |CRLF|..] == "";
    SplitStepAt(data, CRLF, |line|, line, "");
    assert Split("", CRLF) == [""];
    FrameTwoPieces(data, line);
  }

  /** No CRLF starts inside a CRLF-free line, even with CRLF appended. */
  lemma NoCrlfBeforeEnd(line: string, j: int)
    requires !Contains(line, CRLF) && 0 <= j < |line|
    ensures !OccursAt(line + CRLF, CRLF, j)
  {
    var data := line + CRLF;
    if j + |CRLF| <= |line| {
      OccursInExtension(line, CRLF, CRLF, j);
      IndexOfFirstIf(line, CRLF, j);
    } else {
      assert data[j..j + |CRLF|][1] == data[j + 1] == CRLF[0];
    }
  }

  /** A message whose CRLF pieces are a line and an empty tail is delivered doubled. */
  lemma FrameTwoPieces(data: string, line: string)
    requires Split(data, CRLF) == [line, ""]
    ensures FrameLines(data) == [line, "," + line]
  {
    var p := Split(data, CRLF);
    assert Buffered(data);
    FrameBuffered(data);
    assert DropLast(p) == [line] && Last(p) + "," + p[0] == "," + line && p[1..|p| - 1] == [];
  }

  /** Whatever the path, the first delivered line is the message's first CRLF piece. */
  lemma FrameStatusLine(data: string)
    ensures FrameLines(data)[0] == Split(data, CRLF)[0]
    ensures FrameResponse(data).responseCode == ParseInt(Split(Split(data, CRLF)[0], " ")[0])
  {
    if Buffered(data) {
      FrameBuffered(data);
    }
  }

  /** No delivered line contains CRLF. */
  lemma FrameLinesClean(data: string)
    ensures forall k :: 0 <= k < |FrameLines(data)| ==> !Contains(FrameLines(data)[k], CRLF)
  {
    var doubled := data + "," + data;
    SplitPiecesFree(data, CRLF);
    SplitPiecesFree(doubled, CRLF);
  }

  /**
   * A status line that starts with the decimal text of `code` followed by a
   * space has that response code; the rest of the line does not matter.
   */
  lemma StatusCode(code: nat, text: string, body: seq<string>)
    ensures ResponseCode([Decimal(code) + " " + text] + body) == Num(code)
  {
    var d := Decimal(code);
    var line := d + " " + text;
    assert ([line] + body)[0] == line;
    assert OccursAt(line, " ", |d|);
    IndexOfFirst(line, " ", |d|);
    CharContained(line, ' ');
    SplitHead(line, " ");
    assert line[..|d|] == d;
    ParseIntDecimal(code, []);
    assert d + [] == d;
  }
}
