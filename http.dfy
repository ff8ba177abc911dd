/** The JSON answers the server's routes give. */
module Http {
  import opened Quotes

  /** What `jwt.sign` is asked to sign: the payload's role, the key, and the lifetime. */
  datatype TokenClaims = TokenClaims(role: string, secret: string, expiresIn: string)

  datatype Response =
    | Ok                                  // { ok: true }
    | TokenIssued(claims: TokenClaims)    // { token }
    | QuoteList(quotes: seq<Quote>)       // the rows as a JSON array
    | Failure(status: nat, message: string) // res.status(status).json({ message })
    | InternalError                       // the handler threw: Express's default error handler, status 500
}
