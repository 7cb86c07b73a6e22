/** What the route handlers answer, as values: a JSON body with a status, or a redirect. */
module Responses {
  import opened Http
  import opened Maven

  /** The JSON bodies the handlers produce; zod's `details` of a 400 are not modelled. */
  datatype Body =
    | ErrorBody(error: string)
    | ArtifactBody(artifact: MavenArtifact)
    | ListingBody(total: nat, limit: nat, versions: seq<MavenArtifact>)

  datatype Response =
    | Json(status: int, body: Body, headers: seq<Header>)
    | Redirect(status: int, location: string, headers: seq<Header>)

  /** `NextResponse.json({ error: message }, { status })` */
  function ErrorResponse(status: int, message: string): Response {
    Json(status, ErrorBody(message), [])
  }

  /** `NextResponse.redirect(url, { headers: { "Cache-Control": ... } })` */
  function CachedRedirect(location: string): Response {
    Redirect(RedirectStatus, location, [CacheControl])
  }
}
