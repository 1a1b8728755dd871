/** Requests and the JSON responses the handlers send. */
module Http {
  import opened Wrappers
  import opened Entities

  /** Exceptions that the handlers raise and whose `message` may reach the client. */
  datatype Fault =
    | ValidationFailure   // the schema validator's E_VALIDATION_ERROR
    | NullDereference     // a TypeError from reading a field of null or undefined
    | ConstAssignment     // a TypeError from assigning to a `const` binding
    | OwnerRejected       // the store refuses an article whose user_id is absent or unknown
    | RecordNotFound      // the store refuses to update a row that does not exist

  /** The `message` field: a fixed text, or the `message` of a caught exception. */
  datatype Message = Text(text: string) | Thrown(fault: Fault)

  datatype PageMeta = PageMeta(totalNews: nat, totalPages: nat, currentPage: int, currentLimit: int)

  /** The fields that a response carries besides `success` and `message`. */
  datatype Payload =
    | NoPayload
    | UserData(user: User)
    | ProfileData(profile: PublicUser)
    | Session(user: User, token: string)
    | NewsData(news: Option<Article>)
    | NewsPage(metadata: PageMeta, items: seq<Article>)

  datatype Response = Response(status: nat, success: bool, message: Message, payload: Payload)

  /** What an unguarded handler ends in: a response, or an exception that escapes it. */
  datatype Outcome = Sent(response: Response) | Crashed(fault: Fault)

  /** `req.files`: absent, or the uploads keyed by form field name. */
  type Files = Option<map<string, Upload>>

  /** `!req.files || Object.keys(req.files).length == 0` */
  predicate NoFiles(files: Files) {
    files.None? || |files.value| == 0
  }

  /** The file under `field`, if any: `req.files[field]`. */
  function FileAt(files: Files, field: string): Option<Upload> {
    if files.Some? && field in files.value then Some(files.value[field]) else None
  }

  const SomethingWentWrong: string := "Something went wrong"

  /** A failure response with a fixed message and no payload. */
  function Reject(status: nat, text: string): Response {
    Response(status, false, Text(text), NoPayload)
  }

  /** A 500 response that forwards a caught exception's message. */
  function Fail(fault: Fault): Response {
    Response(500, false, Thrown(fault), NoPayload)
  }

  /**
   * The request object as middleware sees it: the Authorization header, the
   * `req.user` slot, and how many times `next()` has been called for it.
   */
  class Request {
    const authorization: Option<string>
    var user: Option<Claims>
    var nextCalls: nat

    constructor (authorization: Option<string>)
      ensures this.authorization == authorization
      ensures user == None && nextCalls == 0
    {
      this.authorization := authorization;
      user := None;
      nextCalls := 0;
    }
  }
}
