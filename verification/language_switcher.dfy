/** The language menu (`src/components/language-switcher.tsx`): choosing a
    locale replaces the first occurrence of `/<current locale>` in the current
    path by `/<chosen locale>` and navigates there. */
module LanguageSwitcher {
  import opened JsString
  import Middleware

  /** `currentPathname.replace(`/${currentLocale}`, `/${newLocale}`)` */
  function NewPath(pathname: string, current: string, next: string): string {
    ReplaceFirst(pathname, "/" + current, "/" + next)
  }

  /** A path that begins with the current locale gets the chosen locale in
      its place, and the rest of the path is kept. */
  lemma SwitchPrefixedPath(current: string, rest: string, next: string)
    ensures NewPath("/" + current + rest, current, next) == "/" + next + rest
  {
    var p := "/" + current + rest;
    var pat := "/" + current;
    assert p[..|pat|] == pat;
    assert FirstMatch(p, pat, 0);
    assert p[|pat|..] == rest;
  }

  /** Choosing the locale already shown leaves the path as it is. */
  lemma SameLocaleKeepsPath(pathname: string, current: string)
    ensures NewPath(pathname, current, current) == pathname
  {
    var pat := "/" + current;
    match IndexOf(pathname, pat)
    case None =>
    case Some(i) =>
      assert pathname[i..i + |pat|] == pat;
      assert pathname == pathname[..i] + pathname[i..i + |pat|] + pathname[i + |pat|..];
  }

  /** A path in which `/<current>` does not occur is left as it is. */
  lemma AbsentLocaleKeepsPath(pathname: string, current: string, next: string)
    requires forall j :: 0 <= j ==> !MatchAt(pathname, "/" + current, j)
    ensures NewPath(pathname, current, next) == pathname
  {
  }

  /** Switching a locale-prefixed path lands on a path the locale routing
      passes through unchanged, prefixed with the chosen locale. */
  lemma SwitchKeepsLocalePrefix(pathname: string, current: string, next: string)
    requires Middleware.PrefixedWith(pathname, current)
    requires Middleware.IsLocale(next)
    ensures Middleware.PrefixedWith(NewPath(pathname, current, next), next)
    ensures Middleware.Route(NewPath(pathname, current, next), None) == None
  {
    Middleware.PrefixedWithDecompose(pathname, current);
    var rest := pathname[|current| + 1..];
    SwitchPrefixedPath(current, rest, next);
    Middleware.PrefixedWithCompose(next, rest);
    var k := if next == "en" then 0 else 1;
    assert Middleware.Locales[k] == next;
  }

  /** Switching there and back returns to the starting path. */
  lemma SwitchRoundTrip(current: string, rest: string, next: string)
    ensures NewPath(NewPath("/" + current + rest, current, next), next, current) == "/" + current + rest
  {
    SwitchPrefixedPath(current, rest, next);
    SwitchPrefixedPath(next, rest, current);
  }

  /** Only the first occurrence is replaced: `/en/en` becomes `/ar/en`. */
  lemma OnlyFirstOccurrence()
    ensures NewPath("/en/en", "en", "ar") == "/ar/en"
  {
    SwitchPrefixedPath("en", "/en", "ar");
    assert "/" + "en" + "/en" == "/en/en";
    assert "/" + "ar" + "/en" == "/ar/en";
  }

  /** Matching is by substring, not by path segment: in `/x/en` the locale
      is found after `/x` and replaced there. */
  lemma MatchesAnywhereInPath()
    ensures NewPath("/x/en", "en", "ar") == "/x/ar"
  {
    var p := "/x/en";
    assert "/" + "en" == "/en";
    assert p[2..5] == "/en";
    assert !MatchAt(p, "/en", 0) by { assert p[1] == 'x'; }
    assert !MatchAt(p, "/en", 1) by { assert p[1] == 'x'; }
    assert FirstMatch(p, "/en", 2);
    assert p[..2] + "/ar" + p[5..] == "/x/ar";
  }
}
