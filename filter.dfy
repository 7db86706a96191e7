/**
 * The pure part of the HTTP exception filter
 * (src/common/filters/http-exception.filter.ts): how the message is taken
 * from an exception's response, and the error envelope that is sent.
 */
module ExceptionFilter {

  /** The `message` property of an object response: missing or falsy
      (`NoMessage`), a string, or an array of strings. */
  datatype Message = NoMessage | Text(text: string) | Lines(lines: seq<string>)

  /** `exception.getResponse()`: a string, or an object with a `message`. */
  datatype ExceptionResponse = PlainResponse(body: string) | ObjectResponse(message: Message)

  datatype HttpException = HttpException(name: string, status: int, response: ExceptionResponse)

  datatype ErrorResponse = ErrorResponse(
    success: bool,
    error: string,
    message: string,
    timestamp: string,
    path: string,
    statusCode: int)

  const InternalServerError := "Internal server error"
  const Separator := ", "

  /** `Array.prototype.join(sep)` */
  function Join(parts: seq<string>, sep: string): string {
    if |parts| == 0 then ""
    else if |parts| == 1 then parts[0]
    else parts[0] + sep + Join(parts[1..], sep)
  }

  function TotalLength(parts: seq<string>): nat {
    if |parts| == 0 then 0 else |parts[0]| + TotalLength(parts[1..])
  }

  /** The joined text is as long as the parts plus one separator between
      each pair of neighbours. */
  lemma {:induction false} JoinLength(parts: seq<string>, sep: string)
    requires parts != []
    ensures |Join(parts, sep)| == TotalLength(parts) + (|parts| - 1) * |sep|
  {
    if |parts| > 1 {
      JoinLength(parts[1..], sep);
    }
  }

  /** Joining two non-empty arrays one after the other is joining each and
      putting one separator between them: the parts appear in order, with a
      separator exactly between neighbours. */
  lemma {:induction false} JoinConcat(p: seq<string>, q: seq<string>, sep: string)
    requires p != [] && q != []
    ensures Join(p + q, sep) == Join(p, sep) + sep + Join(q, sep)
  {
    if |p| == 1 {
      assert p + q == [p[0]] + q;
    } else {
      assert (p + q)[1..] == p[1..] + q;
      JoinConcat(p[1..], q, sep);
    }
  }

  /** With a non-empty separator the join is empty only for [] and [""]. */
  lemma {:induction false} JoinEmptyIff(parts: seq<string>, sep: string)
    requires sep != ""
    ensures Join(parts, sep) == "" <==> parts == [] || parts == [""]
  {
    if |parts| > 1 {
      assert |Join(parts, sep)| >= |sep|;
    }
  }

  /** JavaScript truthiness of `exceptionResponse.message`: every array is
      truthy, a string only when it is not empty. */
  predicate Truthy(m: Message) {
    m.Lines? || (m.Text? && m.text != "")
  }

  /** `getErrorMessage` */
  function GetErrorMessage(response: ExceptionResponse): (m: string)
    ensures response.PlainResponse? ==> m == response.body
    ensures response.ObjectResponse? && response.message.Lines? ==>
      m == Join(response.message.lines, Separator)
    ensures response.ObjectResponse? && response.message.Text? && Truthy(response.message) ==>
      m == response.message.text
    ensures response.ObjectResponse? && !Truthy(response.message) ==>
      m == InternalServerError
  {
    match response
    case PlainResponse(body) => body
    case ObjectResponse(message) =>
      if Truthy(message) then
        (if message.Lines? then Join(message.lines, Separator) else message.text)
      else
        InternalServerError
  }

  /** The envelope's message is empty only for an empty string response or
      an array response with no text at all. */
  lemma ErrorMessageEmptyIff(response: ExceptionResponse)
    ensures GetErrorMessage(response) == "" <==>
      || response == PlainResponse("")
      || response == ObjectResponse(Lines([]))
      || response == ObjectResponse(Lines([""]))
  {
    if response.ObjectResponse? && response.message.Lines? {
      JoinEmptyIff(response.message.lines, Separator);
    }
  }

  /** The `errorResponse` record built in `catch`; the time and the request
      URL are passed in. */
  function BuildErrorResponse(exception: HttpException, timestamp: string, path: string): (e: ErrorResponse)
    ensures !e.success
    ensures e.statusCode == exception.status
    ensures e.error == exception.name
    ensures e.message == GetErrorMessage(exception.response)
    ensures e.timestamp == timestamp && e.path == path
  {
    ErrorResponse(false, exception.name, GetErrorMessage(exception.response), timestamp, path, exception.status)
  }
}
