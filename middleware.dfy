/** The locale middleware: a request path that does not name a supported
    locale is served from the Arabic tree by rewriting its path to `/ar...`. */
module Middleware {
  import opened Js

  /** The supported locales, in the order the middleware tests them. */
  const Locales: seq<string> := ["ar", "en"]

  /** `locales.some(...)` over a list of locales. */
  function AnyLocale(ls: seq<string>, p: string): (b: bool)
    ensures b <==> exists k :: 0 <= k < |ls| && (StartsWith(p, "/" + ls[k] + "/") || p == "/" + ls[k])
  {
    if ls == [] then false
    else
      assert forall k :: 1 <= k < |ls| ==> ls[k] == ls[1..][k - 1];
      StartsWith(p, "/" + ls[0] + "/") || p == "/" + ls[0] || AnyLocale(ls[1..], p)
  }

  /** Whether a path already carries a locale: it is `/ar` or `/en`, or it
      starts with `/ar/` or `/en/`. */
  function HasLocale(p: string): (b: bool)
    ensures b <==> p == "/ar" || p == "/en" || StartsWith(p, "/ar/") || StartsWith(p, "/en/")
  {
    assert Locales[0] == "ar" && Locales[1] == "en";
    assert "/" + Locales[0] + "/" == "/ar/" && "/" + Locales[1] + "/" == "/en/";
    AnyLocale(Locales, p)
  }

  /** The request URL; the middleware assigns its `pathname` in place. */
  class NextUrl {
    var pathname: string

    constructor (p: string)
      ensures pathname == p
    {
      pathname := p;
    }
  }

  /** The path the request is served from once the middleware has run. */
  function Served(p: string): (r: string)
    ensures HasLocale(p) ==> r == p
    ensures !HasLocale(p) ==> r == "/ar" + p
  {
    if HasLocale(p) then p else "/ar" + p
  }

  /** The middleware: a path with a locale passes through (no rewrite);
      any other path is rewritten to `/ar` followed by the path. */
  method Handle(url: NextUrl) returns (rewrite: bool)
    modifies url
    ensures rewrite <==> !HasLocale(old(url.pathname))
    ensures url.pathname == Served(old(url.pathname))
  {
    if HasLocale(url.pathname) {
      return false;
    }
    url.pathname := "/ar" + url.pathname;
    return true;
  }

  // ---------------------------------------------------------------------
  // Properties

  /** A rewritten path (the request path always starts with `/`) carries the
      Arabic locale, so running the middleware again changes nothing. */
  lemma RewriteIdempotent(p: string)
    requires StartsWith(p, "/")
    ensures HasLocale(Served(p))
    ensures Served(Served(p)) == Served(p)
  {
    if !HasLocale(p) {
      var r := "/ar" + p;
      assert r[..4] == "/ar/";
    }
  }

  /** A path is rewritten exactly when it lacks a locale, and a rewritten
      path ends with the original one. */
  lemma ServedKeepsPath(p: string)
    ensures Served(p) != p <==> !HasLocale(p)
    ensures |Served(p)| >= |p| && Served(p)[|Served(p)| - |p|..] == p
  {
    if !HasLocale(p) {
      assert |Served(p)| == |p| + 3;
    }
  }

  /** Paths that merely start with a locale's letters are not locale paths:
      `/english` is served from `/ar/english`, `/arabic` from `/ar/arabic`,
      and the root from `/ar/`. */
  lemma LookalikePathsRewritten()
    ensures !HasLocale("/english") && Served("/english") == "/ar/english"
    ensures !HasLocale("/arabic") && Served("/arabic") == "/ar/arabic"
    ensures !HasLocale("/") && Served("/") == "/ar/"
    ensures HasLocale("/en") && HasLocale("/ar/about")
  {
    assert "/english"[..4][3] == 'g' && "/english"[..4][1] == 'e';
    assert "/arabic"[..4][3] == 'a' && "/arabic"[..4][1] == 'a';
    assert "/ar/about"[..4] == "/ar/";
  }
}
