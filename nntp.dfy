/**
 * `NNTPClient` of src/nntp.ts: a FIFO of outstanding commands, each with the
 * completer its response is delivered through, and the message handler
 * that frames each incoming websocket message into a response.
 *
 * The websocket is replaced by the `sent` log (every `ws.send` appends its
 * text) and by calls to `OnMessage` (every incoming message). `sendCommand`
 * suspends at its `await`, so it is modelled as two steps: `IssueCommand`
 * (everything before the `await`) and `FinishCommand` (everything after it,
 * once the response has been delivered).
 */
module Nntp {
  import opened Wrappers
  import opened JsString
  import opened JsNumber
  import opened Utils
  import opened NntpCommand
  import opened NntpFraming
  import opened NntpGroupList

  /** The text `ws.send` is given for a request. */
  function WireText(req: CommandRequest): (r: string)
    ensures |req.args| > 0 ==> r == Join([req.command] + req.args, " ") + CRLF
    ensures |req.args| == 0 ==> r == req.command
  {
    if |req.args| > 0 then
      assert [req.command] + req.args == [req.command] + ([req.command] + req.args)[1..];
      JoinCons(req.command, req.args, " ");
      req.command + " " + Join(req.args, " ") + CRLF
    else
      req.command
  }

  /**
   * A request with arguments reads back from the wire: the line before the
   * final CRLF splits on spaces into the command and its arguments, provided
   * none of them contains a space. A request without arguments is sent bare,
   * with no line terminator.
   */
  lemma WireTokens(req: CommandRequest)
    requires |req.args| > 0
    requires ' ' !in req.command && forall k :: 0 <= k < |req.args| ==> ' ' !in req.args[k]
    ensures |WireText(req)| >= 2 && WireText(req)[|WireText(req)| - 2..] == CRLF
    ensures Split(WireText(req)[..|WireText(req)| - 2], " ") == [req.command] + req.args
  {
    var parts := [req.command] + req.args;
    var line := Join(parts, " ");
    assert WireText(req) == line + CRLF;
    assert WireText(req)[..|WireText(req)| - 2] == line;
    assert forall k :: 0 <= k < |req.args| ==> parts[k + 1] == req.args[k];
    SplitJoin(parts, ' ');
  }

  /** `result.lines.shift(); result.lines.pop();` on the lines of a response. */
  function PreparedLines(lines: seq<string>): (r: seq<string>)
    ensures |lines| >= 2 ==> r == lines[1..|lines| - 1]
    ensures |lines| < 2 ==> r == []
  {
    var shifted := if |lines| > 0 then lines[1..] else lines;
    if |shifted| > 0 then DropLast(shifted) else shifted
  }

  /**
   * A reply whose last line is the "." terminator with no CRLF after it is
   * framed as it is: once the status line and the terminator are stripped,
   * exactly the body lines remain.
   */
  lemma UnterminatedReplyLines(data: string)
    requires var p := Split(data, CRLF); |p| >= 2 && Last(p) == "."
    ensures var p := Split(data, CRLF); PreparedLines(FrameLines(data)) == p[1..|p| - 1]
  {
    FrameUnbuffered(data);
  }

  /** The stripped lines of a doubled framing, as a fact about the pieces alone. */
  lemma PreparedDoubled(p: seq<string>)
    requires |p| >= 3 && p[|p| - 2] == "." && Last(p) == ""
    ensures PreparedLines(DropLast(p) + [Last(p) + "," + p[0]] + p[1..|p| - 1]) ==
      p[1..|p| - 2] + [".", "," + p[0]] + p[1..|p| - 2]
  {
    var body := p[1..|p| - 2];
    assert DropLast(p) == [p[0]] + body + ["."];
    assert p[1..|p| - 1] == body + ["."];
    assert Last(p) + "," + p[0] == "," + p[0];
    var lines := [p[0]] + body + ["."] + ["," + p[0]] + body + ["."];
    assert lines[1..|lines| - 1] == body + [".", "," + p[0]] + body;
  }

  /**
   * A reply ending the usual way, in CRLF "." CRLF, is taken for a partial
   * message and framed as two copies of itself joined by ",": once the
   * first and the last line are stripped, the body lines come twice,
   * separated by the terminator and the comma-prefixed status line.
   */
  lemma TerminatedReplyLines(data: string)
    requires var p := Split(data, CRLF); |p| >= 3 && p[|p| - 2] == "." && Last(p) == ""
    ensures var p := Split(data, CRLF);
      PreparedLines(FrameLines(data)) == p[1..|p| - 2] + [".", "," + p[0]] + p[1..|p| - 2]
  {
    FrameBuffered(data);
    PreparedDoubled(Split(data, CRLF));
  }

  /** An ACTIVE line "." names the group ".". */
  lemma DotActiveName()
    ensures ParseActive(".").name == "."
  {
    CharContained(".", ' ');
  }

  /**
   * With such a LIST ACTIVE reply the "." terminator reaches the ACTIVE
   * pass as a group name, so the group list fails with a TypeError unless
   * some NEWSGROUPS line happens to have the key ".".
   */
  lemma TerminatedActiveReplyFails(newsLines: seq<string>, activeReply: string)
    requires var p := Split(activeReply, CRLF); |p| >= 3 && p[|p| - 2] == "." && Last(p) == ""
    requires "." !in NewsgroupKeys(newsLines)
    ensures GroupList(newsLines, PreparedLines(FrameLines(activeReply))).Failure?
  {
    var p := Split(activeReply, CRLF);
    var active := PreparedLines(FrameLines(activeReply));
    TerminatedReplyLines(activeReply);
    assert active[|p| - 3] == ".";
    DotActiveName();
    GroupListFails(newsLines, active);
  }

  class NNTPClient {
    /** The commands sent and not yet answered, oldest first. */
    var commandQueue: seq<NNTPCommand>
    /** The messages held back by the message handler. */
    var tempBuffer: seq<string>
    /** Everything handed to `ws.send`, in order. */
    var sent: seq<string>

    /** The completers of the outstanding commands. */
    ghost function Slots(): set<Completer<CommandResponse>>
      reads this
    {
      set i | 0 <= i < |commandQueue| :: commandQueue[i].response
    }

    /** The completer the next incoming message resolves, if any. */
    ghost function HeadSlot(): set<Completer<CommandResponse>>
      reads this
    {
      if |commandQueue| > 0 then {commandQueue[0].response} else {}
    }

    /**
     * Between messages nothing is buffered (every path of the handler
     * clears the buffer), and every outstanding command has its own
     * completer, still pending.
     */
    ghost predicate Valid()
      reads this, Slots()
    {
      && tempBuffer == []
      && (forall i, j :: 0 <= i < j < |commandQueue| ==> commandQueue[i].response != commandQueue[j].response)
      && (forall i :: 0 <= i < |commandQueue| ==> commandQueue[i].response.resolution == None)
    }

    /** A new client: no outstanding command, nothing buffered, nothing sent. */
    constructor ()
      ensures Valid()
      ensures commandQueue == [] && tempBuffer == [] && sent == []
    {
      commandQueue := [];
      tempBuffer := [];
      sent := [];
    }

    /**
     * The first part of the `onMessage` handler: a message with more than
     * one CRLF piece whose last piece is not "." goes into the buffer, and
     * whenever the buffer is not empty the message is pushed again, the
     * buffer is joined with "," and split, its last piece is dropped and the
     * buffer is cleared.
     */
    method FrameMessage(message: string) returns (responseLines: seq<string>)
      requires tempBuffer == []
      modifies this
      ensures responseLines == FrameLines(message)
      ensures tempBuffer == []
      ensures commandQueue == old(commandQueue) && sent == old(sent)
    {
      var data := message;
      responseLines := Split(data, CRLF);
      if (|responseLines| > 1 || |tempBuffer| != 0) && Last(responseLines) != "." {
        tempBuffer := tempBuffer + [data];
      }
      if |tempBuffer| != 0 {
        tempBuffer := tempBuffer + [data];
        assert tempBuffer == [message, message];
        JoinPair(message, message, ",");
        data := Join(tempBuffer, ",");
        responseLines := Split(data, CRLF);
        responseLines := DropLast(responseLines);
        tempBuffer := [];
      }
      FrameLinesCases(message);
    }

    /**
     * The `onMessage` handler: frames the message into response lines,
     * dequeues the oldest outstanding command and resolves it with the
     * parsed status code and those lines. With no command outstanding the
     * response is dropped. A message starting with "201" is treated like
     * any other (the handler only logs it).
     */
    method OnMessage(message: string)
      requires Valid()
      modifies this, HeadSlot()
      ensures Valid()
      ensures sent == old(sent)
      ensures old(commandQueue) == [] ==> commandQueue == []
      ensures old(commandQueue) != [] ==>
        && commandQueue == old(commandQueue)[1..]
        && old(commandQueue)[0].response.resolution == Some(FrameResponse(message))
    {
      var responseLines := FrameMessage(message);
      var command: Option<NNTPCommand> := None;
      if |commandQueue| > 0 {
        command := Some(commandQueue[0]);
        commandQueue := commandQueue[1..];
        assert forall i :: 0 <= i < |commandQueue| ==>
          commandQueue[i] == old(commandQueue)[i + 1] && commandQueue[i].response != command.value.response;
      }
      var respCode := ParseInt(Split(responseLines[0], " ")[0]);
      if command.Some? {
        command.value.response.Complete(CommandResponse(respCode, responseLines));
      }
    }

    /**
     * The part of `sendCommand` before its `await`: a new command with a
     * pending completer joins the back of the queue and its text is sent.
     */
    method IssueCommand(command: string, args: seq<string>) returns (cmd: NNTPCommand)
      requires Valid()
      modifies this
      ensures Valid()
      ensures fresh(cmd.response) && cmd.response.resolution == None
      ensures cmd.request == CommandRequest(command, args)
      ensures commandQueue == old(commandQueue) + [cmd]
      ensures sent == old(sent) + [WireText(cmd.request)]
    {
      var response := new Completer<CommandResponse>();
      cmd := NNTPCommand(CommandRequest(command, args), response);
      commandQueue := commandQueue + [cmd];
      if |args| > 0 {
        sent := sent + [command + " " + Join(args, " ") + CRLF];
      } else {
        sent := sent + [command];
      }
    }

    /**
     * The part of `sendCommand` after its `await`, once the response is
     * there: with `prepareResponse` the first and the last line (status and
     * terminator) are removed.
     */
    method FinishCommand(cmd: NNTPCommand, prepareResponse: bool) returns (result: CommandResponse)
      requires cmd.response.resolution.Some?
      ensures result.responseCode == cmd.response.resolution.value.responseCode
      ensures !prepareResponse ==> result.lines == cmd.response.resolution.value.lines
      ensures prepareResponse ==> result.lines == PreparedLines(cmd.response.resolution.value.lines)
    {
      result := cmd.response.Promise().value;
      if prepareResponse {
        var lines := result.lines;
        if |lines| > 0 {
          lines := lines[1..];
        }
        if |lines| > 0 {
          lines := DropLast(lines);
        }
        result := result.(lines := lines);
      }
    }

    /**
     * The part of `getNewsGroupList` before its `await`: LIST NEWSGROUPS and
     * then LIST ACTIVE are queued and sent, in that order.
     */
    method RequestNewsGroupList() returns (newsgroups: NNTPCommand, active: NNTPCommand)
      requires Valid()
      modifies this
      ensures Valid()
      ensures fresh(newsgroups.response) && fresh(active.response) && newsgroups.response != active.response
      ensures commandQueue == old(commandQueue) + [newsgroups, active]
      ensures sent == old(sent) + ["LIST NEWSGROUPS\r\n", "LIST ACTIVE\r\n"]
    {
      assert Join(["NEWSGROUPS"], " ") == "NEWSGROUPS" && Join(["ACTIVE"], " ") == "ACTIVE";
      assert "LIST" + " " + "NEWSGROUPS" + CRLF == "LIST NEWSGROUPS\r\n";
      assert "LIST" + " " + "ACTIVE" + CRLF == "LIST ACTIVE\r\n";
      newsgroups := IssueCommand("LIST", ["NEWSGROUPS"]);
      active := IssueCommand("LIST", ["ACTIVE"]);
    }

    /**
     * The part of `getNewsGroupList` after both responses are there: the
     * records built from the status- and terminator-stripped lines, or the
     * TypeError an unknown ACTIVE group raises.
     */
    method FinishNewsGroupList(newsgroups: NNTPCommand, active: NNTPCommand)
      returns (r: Result<map<string, GroupInfo>, ListError>)
      requires newsgroups.response.resolution.Some? && active.response.resolution.Some?
      ensures r == GroupList(
        PreparedLines(newsgroups.response.resolution.value.lines),
        PreparedLines(active.response.resolution.value.lines))
    {
      var newsgroupsResponse := FinishCommand(newsgroups, true);
      var activeResponse := FinishCommand(active, true);
      r := BuildGroupList(newsgroupsResponse.lines, activeResponse.lines);
    }
  }

  /**
   * One message received while `cmd` is the oldest outstanding command:
   * `cmd` is resolved with the framed message and leaves the queue.
   */
  method ReceiveFor(client: NNTPClient, cmd: NNTPCommand, message: string) returns (r: Option<CommandResponse>)
    requires client.Valid() && client.commandQueue != [] && client.commandQueue[0] == cmd
    modifies client, cmd.response
    ensures client.Valid() && client.sent == old(client.sent)
    ensures client.commandQueue == old(client.commandQueue)[1..]
    ensures r == Some(FrameResponse(message)) && cmd.response.resolution == r
  {
    client.OnMessage(message);
    r := cmd.response.Promise();
  }

  /** A new client on which GROUP, LIST ACTIVE and QUIT are issued in that order. */
  method ThreeOutstanding() returns (client: NNTPClient, c1: NNTPCommand, c2: NNTPCommand, c3: NNTPCommand)
    ensures fresh(client) && fresh(c1.response) && fresh(c2.response) && fresh(c3.response)
    ensures client.Valid() && client.commandQueue == [c1, c2, c3]
  {
    client := new NNTPClient();
    c1 := client.IssueCommand("GROUP", ["misc.test"]);
    c2 := client.IssueCommand("LIST", ["ACTIVE"]);
    c3 := client.IssueCommand("QUIT", []);
  }

  /**
   * Three commands issued on a new client and three messages received:
   * responses are matched to commands strictly in order.
   */
  method FifoCorrelation(m1: string, m2: string, m3: string)
    returns (r1: Option<CommandResponse>, r2: Option<CommandResponse>, r3: Option<CommandResponse>)
    ensures r1 == Some(FrameResponse(m1))
    ensures r2 == Some(FrameResponse(m2))
    ensures r3 == Some(FrameResponse(m3))
  {
    var client, c1, c2, c3 := ThreeOutstanding();
    r1 := ReceiveFor(client, c1, m1);
    assert client.commandQueue == [c2, c3];
    r2 := ReceiveFor(client, c2, m2);
    assert client.commandQueue == [c3];
    r3 := ReceiveFor(client, c3, m3);
  }

  /**
   * A message arriving while no command is outstanding resolves nothing,
   * and the next command still receives the next message.
   */
  method UnsolicitedMessageDropped(welcome: string, reply: string) returns (r: Option<CommandResponse>)
    ensures r == Some(FrameResponse(reply))
  {
    var client := new NNTPClient();
    client.OnMessage(welcome);
    var c := client.IssueCommand("LIST", ["NEWSGROUPS"]);
    client.OnMessage(reply);
    r := c.response.Promise();
  }

  /**
   * A whole `getNewsGroupList` exchange on a new client: the two LIST
   * commands go out in order, the first reply answers NEWSGROUPS and the
   * second ACTIVE, and the result is the group list of their framed,
   * stripped lines.
   */
  method NewsGroupListExchange(newsgroupsReply: string, activeReply: string)
    returns (sent: seq<string>, r: Result<map<string, GroupInfo>, ListError>)
    ensures sent == ["LIST NEWSGROUPS\r\n", "LIST ACTIVE\r\n"]
    ensures r == GroupList(PreparedLines(FrameLines(newsgroupsReply)), PreparedLines(FrameLines(activeReply)))
  {
    var client := new NNTPClient();
    var newsgroups, active := client.RequestNewsGroupList();
    assert client.commandQueue == [newsgroups, active];
    var newsgroupsResponse := ReceiveFor(client, newsgroups, newsgroupsReply);
    var activeResponse := ReceiveFor(client, active, activeReply);
    sent := client.sent;
    r := client.FinishNewsGroupList(newsgroups, active);
  }
}
