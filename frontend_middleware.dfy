/**
 * The Next.js middleware of Frontend/src/middleware.ts: a request for a
 * protected page without a `token` cookie is redirected to `/login`;
 * everything else goes through. Next.js runs it only for the paths listed
 * in its `matcher`.
 */
module FrontendMiddleware {
  import opened Wrappers

  /** The pages that need a login, matched as path prefixes. */
  const ProtectedPaths: seq<string> := ["/dashboard", "/add", "/upload-csv"]

  /** The paths `config.matcher` lists; without a `:path*` suffix each matches itself only. */
  const Matcher: seq<string> := ["/dashboard", "/add", "/upload-csv"]

  /** JavaScript `s.startsWith(prefix)`. */
  predicate StartsWith(s: string, prefix: string) {
    |prefix| <= |s| && s[..|prefix|] == prefix
  }

  /** `prefixes.some(p => path.startsWith(p))`, scanning from the front. */
  function SomePrefix(path: string, prefixes: seq<string>): (b: bool)
    ensures b <==> exists i :: 0 <= i < |prefixes| && StartsWith(path, prefixes[i])
  {
    if prefixes == [] then false
    else if StartsWith(path, prefixes[0]) then true
    else
      var b := SomePrefix(path, prefixes[1..]);
      assert forall i :: 1 <= i < |prefixes| ==> prefixes[i] == prefixes[1..][i - 1];
      b
  }

  predicate IsProtected(path: string) {
    SomePrefix(path, ProtectedPaths)
  }

  /** What the middleware returns: a redirect, or `NextResponse.next()`. */
  datatype Decision = Redirect(location: string) | PassThrough

  /**
   * The middleware. `token` is what `request.cookies.get('token')` returns:
   * a cookie object whenever the cookie is sent, even with an empty value,
   * so only a missing cookie counts as no token.
   */
  function Middleware(path: string, token: Option<string>): (d: Decision)
    ensures d.Redirect? <==> IsProtected(path) && token.None?
    ensures d.Redirect? ==> d.location == "/login"
  {
    if IsProtected(path) && token.None? then Redirect("/login") else PassThrough
  }

  /** A request as Next.js handles it: the middleware runs only on a matcher path. */
  function Handle(path: string, token: Option<string>): (d: Decision)
    ensures d.Redirect? <==> path in Matcher && token.None?
  {
    if path in Matcher then Middleware(path, token) else PassThrough
  }

  /** The three protected pages, and anything below or beside them, are protected. */
  lemma ProtectedByPrefix(path: string)
    ensures IsProtected(path) <==>
      StartsWith(path, "/dashboard") || StartsWith(path, "/add") || StartsWith(path, "/upload-csv")
  {
    assert ProtectedPaths[0] == "/dashboard" && ProtectedPaths[1] == "/add" && ProtectedPaths[2] == "/upload-csv";
  }

  /** Matching is by prefix, so `/addition` counts as protected and redirects without a token. */
  lemma AdditionProtected()
    ensures IsProtected("/addition")
    ensures Middleware("/addition", None) == Redirect("/login")
  {
    ProtectedByPrefix("/addition");
    assert "/addition"[..4] == "/add";
  }

  /** A page below a protected one is protected, yet Next.js never runs the middleware for it. */
  lemma SubpageUnguarded()
    ensures IsProtected("/dashboard/stats")
    ensures Handle("/dashboard/stats", None) == PassThrough
  {
    ProtectedByPrefix("/dashboard/stats");
    assert "/dashboard/stats"[..10] == "/dashboard";
  }
}
