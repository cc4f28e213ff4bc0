/** The request and response records of src/nntp/nntp_command.ts. */
module NntpCommand {
  import opened JsNumber
  import Utils

  /** A command token and its arguments, in the order they go on the wire. */
  datatype CommandRequest = CommandRequest(command: string, args: seq<string>)

  /**
   * A status code and the response lines. The code comes from `parseInt`,
   * so it may be NaN.
   */
  datatype CommandResponse = CommandResponse(responseCode: Number, lines: seq<string>)

  /** One request paired with the one slot its response is delivered through. */
  datatype NNTPCommand = NNTPCommand(request: CommandRequest, response: Utils.Completer<CommandResponse>)
}
