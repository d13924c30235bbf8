/** What the client's operations share: credentials, the errors they return
    and the outcome of opening an AWS session. */
module Client {

  import opened Wrappers

  /** The part of the client's configuration the modelled operations read. */
  datatype Config = Config(accessKey: string, secretKey: string, region: string)

  /** Errors as the client's callers see them: the sentinel `ErrNotFound`
      ("not found"), an AWS service error with its code, and any other error
      with its message (errors created with `errors.New` among them). */
  datatype Error =
    | NotFound
    | Aws(code: string, message: string)
    | Plain(message: string)

  /** What `client.NewSession()` gave: a session, or the error it failed with. */
  datatype SessionOutcome = Established | Failed(err: Error)

  /** Go's `(string, error)` result pair; `err == None` stands for a nil error. */
  datatype Reply = Reply(url: string, err: Option<Error>)
}
