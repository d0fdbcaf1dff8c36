/** The outcome of the releases request (`fetchReleases`), mapped onto the
    checker's closed error enum. */
module Fetch {
  import opened Wrappers
  import opened Releases

  /** `UpdateError`. Its localized descriptions are not modelled. */
  datatype UpdateError = InvalidURL | NetworkError | ParseError | RateLimited | NoValidRelease

  /** What `checkForUpdates` stores in `lastError` and rethrows: one of its
      own `UpdateError`s, or the error `URLSession` itself threw, which is
      passed on unchanged rather than mapped. */
  datatype CheckError = Update(kind: UpdateError) | Transport

  /** What the request for the feed produced. `decoded` is the result of
      decoding the body as a JSON array of releases. */
  datatype FeedResponse =
    | TransportFailure
    | NonHttpResponse
    | HttpResponse(statusCode: int, decoded: Option<seq<GitHubRelease>>)

  /** `fetchReleases()`; `urlBuilds` is whether `URL(string:)` accepted the
      fixed feed address. */
  function FetchReleases(urlBuilds: bool, response: FeedResponse): (r: Result<seq<GitHubRelease>, CheckError>)
    ensures r.Success? <==> urlBuilds && response.HttpResponse? && response.statusCode == 200 && response.decoded.Some?
    ensures r.Success? ==> r.value == response.decoded.value
    ensures r == Failure(Update(InvalidURL)) <==> !urlBuilds
    ensures r == Failure(Transport) <==> urlBuilds && response.TransportFailure?
    ensures r == Failure(Update(RateLimited)) <==> urlBuilds && response.HttpResponse? && response.statusCode == 403
    ensures r == Failure(Update(NetworkError)) <==>
      urlBuilds && (response.NonHttpResponse? || (response.HttpResponse? && response.statusCode != 200 && response.statusCode != 403))
    ensures r == Failure(Update(ParseError)) <==>
      urlBuilds && response.HttpResponse? && response.statusCode == 200 && response.decoded.None?
    ensures r != Failure(Update(NoValidRelease))
  {
    if !urlBuilds then Failure(Update(InvalidURL))
    else
      match response
      case TransportFailure => Failure(Transport)
      case NonHttpResponse => Failure(Update(NetworkError))
      case HttpResponse(status, decoded) =>
        if status != 200 then
          if status == 403 then Failure(Update(RateLimited)) else Failure(Update(NetworkError))
        else
          match decoded
          case None => Failure(Update(ParseError))
          case Some(releases) => Success(releases)
  }
}
