/** The router: the only two endpoints are the homepage redirect and the batch endpoint. */
module Router {
  import opened Strings

  /** Where `GET /` redirects. */
  const HOMEPAGE: string := "https://github.com/milkey-mouse/git-lfs-s3-proxy"

  /** Every batch endpoint path ends with this. */
  const BATCH_SUFFIX: string := "/objects/batch"

  /** What the router decides before any configuration or body is looked at. */
  datatype Route =
    | RedirectTo(status: nat, location: string)
    | NotAllowed(allow: string)
    | NoRoute
    | DispatchBatch

  /** The batch endpoint is any path ending in `/objects/batch`. */
  predicate IsBatchPath(pathname: string)
  {
    EndsWith(pathname, BATCH_SUFFIX)
  }

  /** Routes a request by its method and URL path. */
  function RouteRequest(verb: string, pathname: string): (r: Route)
    ensures r.RedirectTo? <==> pathname == "/" && verb == "GET"
    ensures r.RedirectTo? ==> r.status == 302 && r.location == HOMEPAGE
    ensures r.DispatchBatch? <==> IsBatchPath(pathname) && verb == "POST"
    ensures r.NoRoute? <==> pathname != "/" && !IsBatchPath(pathname)
    ensures r.NotAllowed? <==> (pathname == "/" && verb != "GET") || (IsBatchPath(pathname) && verb != "POST")
    ensures r.NotAllowed? ==> r.allow != verb && r.allow == (if pathname == "/" then "GET" else "POST")
  {
    if pathname == "/" then
      if verb == "GET" then RedirectTo(302, HOMEPAGE) else NotAllowed("GET")
    else if !IsBatchPath(pathname) then NoRoute
    else if verb != "POST" then NotAllowed("POST")
    else DispatchBatch
  }

  /** A 405 names the one method the same path would have been served with. */
  lemma AllowNamesServedMethod(verb: string, pathname: string)
    requires RouteRequest(verb, pathname).NotAllowed?
    ensures var allow := RouteRequest(verb, pathname).allow;
      allow != verb && (RouteRequest(allow, pathname).RedirectTo? || RouteRequest(allow, pathname).DispatchBatch?)
  {
  }

  /** A 404 depends only on the path: no method would have been served. */
  lemma NotFoundForEveryMethod(verb: string, other: string, pathname: string)
    requires RouteRequest(verb, pathname).NoRoute?
    ensures RouteRequest(other, pathname).NoRoute?
  {
  }

  /** Any path built as a prefix followed by `/objects/batch` reaches the batch handler on `POST`. */
  lemma PostToBatchPathDispatches(prefix: string)
    ensures RouteRequest("POST", prefix + BATCH_SUFFIX) == DispatchBatch
  {
    EndsWithIff(prefix + BATCH_SUFFIX, BATCH_SUFFIX);
  }
}
