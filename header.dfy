/** The site header: it reads the locale from the path, builds its
    navigation links under that locale, and toggles between the Arabic and
    English trees. */
module Header {
  import opened Js

  datatype Locale = Ar | En

  /** The English tree is every path starting with the three characters
      `/en` (which includes `/english`); everything else is Arabic. */
  function LocaleOf(pathname: string): (l: Locale)
    ensures l == En <==> StartsWith(pathname, "/en")
  {
    if StartsWith(pathname, "/en") then En else Ar
  }

  /** `pathname.replace(/^\/en/, '') || '/'`: the path without its leading
      `/en`, or `/` when nothing remains. */
  function StripEn(pathname: string): (r: string)
    requires StartsWith(pathname, "/en")
    ensures r != ""
    ensures |pathname| == 3 ==> r == "/"
    ensures |pathname| > 3 ==> pathname == "/en" + r
  {
    var rest := pathname[3..];
    assert pathname == pathname[..3] + rest;
    if rest == "" then "/" else rest
  }

  /** Where the toggle button navigates: from English, the path without
      `/en`; from Arabic, `/en` prefixed to the whole path. */
  function ToggleTarget(pathname: string): (r: string)
    ensures LocaleOf(pathname) == En ==> r == StripEn(pathname)
    ensures LocaleOf(pathname) == Ar ==> r == "/en" + pathname
  {
    if StartsWith(pathname, "/en") then StripEn(pathname) else "/en" + pathname
  }

  /** The prefix of every navigation link. */
  function BasePath(l: Locale): (r: string)
    ensures r == "/en" <==> l == En
    ensures l == Ar ==> r == ""
  {
    if l == En then "/en" else ""
  }

  /** The four navigation links: home, project goals, advisory team, FAQ. */
  function NavLinks(l: Locale): (links: seq<string>)
    ensures |links| == 4
    ensures forall k :: 0 <= k < 4 ==> StartsWith(links[k], BasePath(l))
    ensures links[0] == BasePath(l) + "/"
  {
    var b := BasePath(l);
    var links := [b + "/", b + "/project-goals", b + "/advisory-team", b + "/faq"];
    assert forall k :: 0 <= k < 4 ==> links[k][..|b|] == b;
    links
  }

  /** The toggle button names the other language. */
  function ToggleLabel(l: Locale): (text: string)
    ensures text == "English" <==> l == Ar
  {
    var arabic := "\U{0627}\U{0644}\U{0639}\U{0631}\U{0628}\U{064A}\U{0629}";
    assert arabic[0] != "English"[0];
    match l
    case En => arabic
    case Ar => "English"
  }

  /** The browser location the toggle assigns. */
  class Location {
    var href: string

    constructor (h: string)
      ensures href == h
    {
      href := h;
    }
  }

  /** The header's component state: the locale, Arabic until the effect that
      reads the path has run. */
  class HeaderState {
    var locale: Locale

    constructor ()
      ensures locale == Ar
    {
      locale := Ar;
    }

    /** The effect run whenever the path changes. */
    method SyncLocale(pathname: string)
      modifies this
      ensures locale == LocaleOf(pathname)
    {
      if StartsWith(pathname, "/en") {
        locale := En;
      } else {
        locale := Ar;
      }
    }

    /** The toggle handler; it consults the path, not the locale state. */
    method ToggleLocale(pathname: string, location: Location)
      modifies location
      ensures location.href == ToggleTarget(pathname)
    {
      if StartsWith(pathname, "/en") {
        var rest := pathname[3..];
        location.href := if rest == "" then "/" else rest;
      } else {
        location.href := "/en" + pathname;
      }
    }
  }

  // ---------------------------------------------------------------------
  // Properties

  /** From an Arabic path (it starts with `/` but not `/en`), toggling twice
      returns to it. */
  lemma ToggleTwiceFromArabic(p: string)
    requires StartsWith(p, "/") && !StartsWith(p, "/en")
    ensures LocaleOf(ToggleTarget(p)) == En
    ensures ToggleTarget(ToggleTarget(p)) == p
  {
    var e := "/en" + p;
    assert e[..3] == "/en";
    assert e[3..] == p;
  }

  /** From an English path `/en/...` whose remainder is Arabic, toggling
      twice returns to it. */
  lemma ToggleTwiceFromEnglish(p: string)
    requires StartsWith(p, "/en/") && !StartsWith(p[3..], "/en")
    ensures LocaleOf(ToggleTarget(p)) == Ar
    ensures ToggleTarget(ToggleTarget(p)) == p
  {
    assert p[..3] == "/en";
    var r := p[3..];
    assert r[..1] == p[3..4] == "/";
    assert "/en" + r == p;
  }

  /** The edge cases of the toggle: the root gains a trailing slash, `/en`
      comes back as `/en/`, and `/english` is read as English and toggles to
      `glish`, which has no leading slash. */
  lemma ToggleEdgeCases()
    ensures ToggleTarget("/") == "/en/"
    ensures ToggleTarget(ToggleTarget("/en")) == "/en/"
    ensures LocaleOf("/english") == En && ToggleTarget("/english") == "glish"
  {
    assert !StartsWith("/", "/en");
    assert "/english"[..3] == "/en";
    assert "/english"[3..] == "glish";
  }

  /** Links built under a locale route back to that locale. */
  lemma NavLinksStayInLocale(l: Locale)
    ensures forall k :: 0 <= k < 4 ==> LocaleOf(NavLinks(l)[k]) == l
  {
    var links := NavLinks(l);
    forall k | 0 <= k < 4 ensures LocaleOf(links[k]) == l {
      if l == En {
        assert links[k][..3] == "/en";
      } else {
        assert links == ["/", "/project-goals", "/advisory-team", "/faq"];
        assert |links[k]| < 3 || links[k][1] != 'e';
      }
    }
  }
}
