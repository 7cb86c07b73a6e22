/**
  The network and the framework responses, as values.  A fetch either throws,
  answers with a status outside 200-299 (`res.ok` false), or answers with a
  body from which the foreign XML/HTML parser has already extracted what the
  caller reads.
 */
module Http {
  import opened Wrappers

  /** One `fetch` as the caller sees it. */
  datatype Fetched<+T> = Threw | NotOk | Ok(body: T)

  /** The answer to a HEAD request: thrown, or a status flag and the `content-length` header. */
  datatype HeadResponse = HeadThrew | HeadReply(ok: bool, contentLength: Option<string>)

  datatype Header = Header(name: string, value: string)

  /** The cache header every successful, cacheable response carries. */
  const CacheControl: Header := Header("Cache-Control", "public, max-age=3600, s-maxage=3600")

  /** `NextResponse.redirect` answers 307 Temporary Redirect unless told otherwise. */
  const RedirectStatus: int := 307
}
