/** The language switch button: it reads the language from the path and
    pushes the matching path of the other language. */
module LanguageSwitcher {
  import opened Js
  import Header

  /** English is every path starting with `/en`: the language the path is
      read in agrees with the header's locale. */
  predicate IsEnglish(pathname: string): (b: bool)
    ensures b <==> Header.LocaleOf(pathname) == Header.En
  {
    StartsWith(pathname, "/en")
  }

  /** The path pushed by the button: from English, the path without its
      leading `/en` (or `/`); from Arabic, `/en` followed by the path, where
      the root `/` becomes `/en` alone. */
  function SwitchTarget(pathname: string): (r: string)
    ensures IsEnglish(pathname) ==> r == Header.StripEn(pathname)
    ensures !IsEnglish(pathname) && pathname != "/" ==> r == "/en" + pathname
    ensures !IsEnglish(pathname) && pathname == "/" ==> r == "/en"
  {
    if IsEnglish(pathname) then Header.StripEn(pathname)
    else "/en" + (if pathname == "/" then "" else pathname)
  }

  /** The button names the language switched to. */
  function Label(pathname: string): (text: string)
    ensures !IsEnglish(pathname) ==> text == "EN"
    ensures IsEnglish(pathname) ==> text == "\U{0639}\U{0631}\U{0628}\U{064A}"
  {
    var currentLang := if IsEnglish(pathname) then Header.En else Header.Ar;
    if currentLang == Header.Ar then "EN" else "\U{0639}\U{0631}\U{0628}\U{064A}"
  }

  // ---------------------------------------------------------------------
  // Properties

  /** From an Arabic path (it starts with `/` but not `/en`), switching twice
      returns to it; this includes the root. */
  lemma SwitchTwiceFromArabic(p: string)
    requires StartsWith(p, "/") && !StartsWith(p, "/en")
    ensures IsEnglish(SwitchTarget(p))
    ensures SwitchTarget(SwitchTarget(p)) == p
  {
    var e := SwitchTarget(p);
    assert e[..3] == "/en";
    if p != "/" {
      assert e[3..] == p;
    }
  }

  /** The switch and the header toggle agree on every path except the root,
      which the switch sends to `/en` and the header to `/en/`. */
  lemma AgreesWithHeader(p: string)
    ensures p != "/" ==> SwitchTarget(p) == Header.ToggleTarget(p)
    ensures SwitchTarget("/") == "/en" && Header.ToggleTarget("/") == "/en/"
  {
    assert !StartsWith("/", "/en");
  }
}
