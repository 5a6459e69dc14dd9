/** Locale routing (`src/middleware.ts`): every page path must begin with a
    supported locale; a path that does not is redirected to one that does,
    the locale being guessed from the `Accept-Language` request header.

    The guess is a deliberately simplified reading of the header defined in
    section 12.5.4 of RFC 9110: entries are taken left to right, their
    parameters (`;q=...`) dropped and ignored, the text before the first `-`
    (the primary language subtag of section 2.1 of RFC 5646) compared
    case-sensitively and without trimming spaces. */
module Middleware {
  import opened JsString

  const Locales: seq<string> := ["en", "ar"]
  const DefaultLocale: string := "en"

  /** `locales.includes(s)` */
  predicate IsLocale(s: string) {
    s in Locales
  }

  /** `lang.split('-')[0]` */
  function PrimarySubtag(lang: string): string {
    Split(lang, '-')[0]
  }

  /** `acceptLanguage.split(',').map(lang => lang.split(';')[0])` */
  function Languages(header: string): (langs: seq<string>)
    ensures |langs| == |Split(header, ',')|
    ensures forall k :: 0 <= k < |langs| ==>
      var entry := Split(header, ',')[k];
      && ';' !in langs[k]
      && |langs[k]| <= |entry| && entry[..|langs[k]|] == langs[k]
      && (|langs[k]| < |entry| ==> entry[|langs[k]|] == ';')
  {
    var entries := Split(header, ',');
    forall k | 0 <= k < |entries| {
      SplitFirst(entries[k], ';');
    }
    seq(|entries|, k requires 0 <= k < |entries| => Split(entries[k], ';')[0])
  }

  /** Entry `k` is the first whose primary subtag is a supported locale. */
  predicate IsFirstSupported(langs: seq<string>, k: nat) {
    k < |langs| && IsLocale(PrimarySubtag(langs[k]))
    && forall j :: 0 <= j < k ==> !IsLocale(PrimarySubtag(langs[j]))
  }

  /** The `for` loop of `getLocale`, scanning from entry `from` on. */
  function FirstSupported(langs: seq<string>, from: nat): (r: Option<nat>)
    requires forall j :: 0 <= j < from && j < |langs| ==> !IsLocale(PrimarySubtag(langs[j]))
    ensures r.Some? ==> IsFirstSupported(langs, r.value)
    ensures r.None? ==> forall j :: 0 <= j < |langs| ==> !IsLocale(PrimarySubtag(langs[j]))
    decreases |langs| - from
  {
    if from >= |langs| then None
    else if IsLocale(PrimarySubtag(langs[from])) then Some(from)
    else FirstSupported(langs, from + 1)
  }

  /** `getLocale`: `header` is `request.headers.get('accept-language')`,
      `None` when the header is absent. */
  function GetLocale(header: Option<string>): (r: string)
    ensures IsLocale(r)
    ensures header.None? || header == Some("") ==> r == DefaultLocale
    ensures header.Some? && header.value != "" ==>
      var langs := Languages(header.value);
      && ((forall j :: 0 <= j < |langs| ==> !IsLocale(PrimarySubtag(langs[j]))) ==> r == DefaultLocale)
      && (forall k: nat :: IsFirstSupported(langs, k) ==> r == PrimarySubtag(langs[k]))
  {
    if header.Some? && header.value != "" then
      var langs := Languages(header.value);
      match FirstSupported(langs, 0)
      case None => DefaultLocale
      case Some(k) =>
        assert forall k': nat :: IsFirstSupported(langs, k') ==> k' == k;
        PrimarySubtag(langs[k])
    else DefaultLocale
  }

  /** `pathname.startsWith(`/${locale}/`) || pathname === `/${locale}`` */
  predicate PrefixedWith(pathname: string, locale: string) {
    StartsWith(pathname, "/" + locale + "/") || pathname == "/" + locale
  }

  /** `pathnameHasLocale`: `locales.some(...)`. */
  predicate HasLocalePrefix(pathname: string) {
    exists k :: 0 <= k < |Locales| && PrefixedWith(pathname, Locales[k])
  }

  /** `middleware`: `None` lets the request through, `Some(p)` redirects to `p`. */
  function Route(pathname: string, header: Option<string>): (r: Option<string>)
    ensures r.None? <==> HasLocalePrefix(pathname)
    ensures r.Some? ==> exists k :: 0 <= k < |Locales| && r.value == "/" + Locales[k] + pathname
    ensures r.Some? ==> r.value == "/" + GetLocale(header) + pathname
  {
    if HasLocalePrefix(pathname) then None
    else
      var locale := GetLocale(header);
      assert locale == Locales[0] || locale == Locales[1];
      Some("/" + locale + pathname)
  }

  /** A path is locale-prefixed exactly when it is `/en` or `/ar` or starts
      with `/en/` or `/ar/`. */
  lemma HasLocalePrefixIff(pathname: string)
    ensures HasLocalePrefix(pathname) <==>
      pathname == "/en" || pathname == "/ar"
      || (|pathname| >= 4 && (pathname[..4] == "/en/" || pathname[..4] == "/ar/"))
  {
    assert "/" + Locales[0] + "/" == "/en/";
    assert "/" + Locales[1] + "/" == "/ar/";
    assert "/" + Locales[0] == "/en";
    assert "/" + Locales[1] == "/ar";
  }

  /** `/english` begins with `/en` but is not locale-prefixed. */
  lemma EnglishIsNotPrefixed()
    ensures !HasLocalePrefix("/english")
    ensures Route("/english", None) == Some("/en/english")
  {
    HasLocalePrefixIff("/english");
    assert "/english"[3] == 'g';
    assert "/english"[..4] != "/en/" && "/english"[..4] != "/ar/";
    assert GetLocale(None) == "en";
    assert "/" + "en" + "/english" == "/en/english";
  }

  /** A locale-prefixed path is the locale's root followed by nothing or by
      a path starting with `/`. */
  lemma PrefixedWithDecompose(pathname: string, locale: string)
    requires PrefixedWith(pathname, locale)
    ensures |pathname| >= |locale| + 1 && pathname[..|locale| + 1] == "/" + locale
    ensures var rest := pathname[|locale| + 1..];
      pathname == "/" + locale + rest && (rest == [] || rest[0] == '/')
  {
    if pathname != "/" + locale {
      assert pathname[..|locale| + 2] == "/" + locale + "/";
      assert pathname[..|locale| + 1] == pathname[..|locale| + 2][..|locale| + 1];
      assert pathname[|locale| + 1] == pathname[..|locale| + 2][|locale| + 1];
    }
  }

  /** The converse: the locale's root followed by nothing or by a path
      starting with `/` is prefixed with that locale. */
  lemma PrefixedWithCompose(locale: string, rest: string)
    requires rest == [] || rest[0] == '/'
    ensures PrefixedWith("/" + locale + rest, locale)
  {
    var p := "/" + locale + rest;
    if rest != [] {
      assert p[..|locale| + 2] == "/" + locale + "/";
    }
  }

  /** The redirect target of a path that starts with `/` is locale-prefixed,
      so the redirected request passes through: routing is idempotent. */
  lemma RedirectTargetIsPrefixed(pathname: string, header: Option<string>, header': Option<string>)
    requires pathname == [] || pathname[0] == '/'
    requires Route(pathname, header).Some?
    ensures HasLocalePrefix(Route(pathname, header).value)
    ensures Route(Route(pathname, header).value, header') == None
  {
    var locale := GetLocale(header);
    var k := if locale == "en" then 0 else 1;
    assert Locales[k] == locale;
    PrefixedWithCompose(locale, pathname);
  }

  /** `Languages` of a header of three entries, read off entry by entry. */
  lemma LanguagesOfThree(h: string, e0: string, e1: string, e2: string, l0: string, l1: string, l2: string)
    requires Split(h, ',') == [e0, e1, e2]
    requires Split(e0, ';')[0] == l0 && Split(e1, ';')[0] == l1 && Split(e2, ';')[0] == l2
    ensures Languages(h) == [l0, l1, l2]
  {
  }

  /** `Languages` of a header of two entries, read off entry by entry. */
  lemma LanguagesOfTwo(h: string, e0: string, e1: string, l0: string, l1: string)
    requires Split(h, ',') == [e0, e1]
    requires Split(e0, ';')[0] == l0 && Split(e1, ';')[0] == l1
    ensures Languages(h) == [l0, l1]
  {
  }

  lemma FirstPieceOfTwo(a: string, b: string, sep: char)
    requires sep !in a
    ensures Split(a + [sep] + b, sep)[0] == a
  {
    SplitCons(a, b, sep);
  }

  /** The first entry with a supported primary subtag decides, whatever the
      q-values say: `fr;q=1,ar;q=0.1,en` yields `ar`. */
  lemma QValuesAreIgnored()
    ensures GetLocale(Some("fr;q=1,ar;q=0.1,en")) == "ar"
  {
    QValueHeaderLanguages();
    FirstSupportedOfThree("fr;q=1,ar;q=0.1,en");
  }

  /** An unprefixed path is redirected under the locale the header
      chooses: a header whose entries read `fr`, `ar`, `en` (such as
      `fr;q=1,ar;q=0.1,en`) sends any such path under `/ar`. */
  lemma RedirectFollowsHeader(pathname: string, h: string)
    requires !HasLocalePrefix(pathname)
    requires Languages(h) == ["fr", "ar", "en"]
    ensures Route(pathname, Some(h)) == Some("/ar" + pathname)
  {
    FirstSupportedOfThree(h);
    assert "/" + "ar" + pathname == "/ar" + pathname;
  }

  lemma FirstSupportedOfThree(h: string)
    requires Languages(h) == ["fr", "ar", "en"]
    ensures GetLocale(Some(h)) == "ar"
  {
    var langs := Languages(h);
    SplitNoSeparator("fr", '-');
    SplitNoSeparator("ar", '-');
    assert IsFirstSupported(langs, 1);
  }

  lemma QValueHeaderEntries()
    ensures Split("fr;q=1,ar;q=0.1,en", ',') == ["fr;q=1", "ar;q=0.1", "en"]
  {
    var entries := ["fr;q=1", "ar;q=0.1", "en"];
    assert Join(entries, ',') == "fr;q=1,ar;q=0.1,en";
    SplitJoin(entries, ',');
  }

  lemma QValueHeaderLanguages()
    ensures Languages("fr;q=1,ar;q=0.1,en") == ["fr", "ar", "en"]
  {
    QValueHeaderEntries();
    FrenchEntry();
    ArabicEntry();
    SplitNoSeparator("en", ';');
    LanguagesOfThree("fr;q=1,ar;q=0.1,en", "fr;q=1", "ar;q=0.1", "en", "fr", "ar", "en");
  }

  lemma FrenchEntry()
    ensures Split("fr;q=1", ';')[0] == "fr"
  {
    FirstPieceOfTwo("fr", "q=1", ';');
    assert "fr" + [';'] + "q=1" == "fr;q=1";
  }

  lemma ArabicEntry()
    ensures Split("ar;q=0.1", ';')[0] == "ar"
  {
    FirstPieceOfTwo("ar", "q=0.1", ';');
    assert "ar" + [';'] + "q=0.1" == "ar;q=0.1";
  }

  /** A header of two entries of which neither names a supported locale
      yields the default. */
  lemma DefaultForTwo(h: string, a: string, b: string)
    requires h != "" && Languages(h) == [a, b]
    requires !IsLocale(PrimarySubtag(a)) && !IsLocale(PrimarySubtag(b))
    ensures GetLocale(Some(h)) == DefaultLocale
  {
  }

  /** A subtag without `-` is its own primary subtag. */
  lemma WholeSubtag(lang: string)
    requires '-' !in lang
    ensures PrimarySubtag(lang) == lang
  {
    SplitNoSeparator(lang, '-');
  }

  /** Entries are not trimmed: in `fr, ar` the second entry is ` ar`, which
      is not a supported locale, so the default is used. */
  lemma SpacesAreNotTrimmed()
    ensures GetLocale(Some("fr, ar")) == DefaultLocale
  {
    LanguagesOfPlainPair("fr", " ar");
    assert "fr" + [','] + " ar" == "fr, ar";
    WholeSubtag("fr");
    WholeSubtag(" ar");
    DefaultForTwo("fr, ar", "fr", " ar");
  }

  /** A header of two plain entries, with no `,` or `;` inside them, lists
      the two entries as they are. */
  lemma LanguagesOfPlainPair(a: string, b: string)
    requires ',' !in a && ',' !in b && ';' !in a && ';' !in b
    ensures Languages(a + [','] + b) == [a, b]
  {
    SplitCons(a, b, ',');
    SplitNoSeparator(b, ',');
    SplitNoSeparator(a, ';');
    SplitNoSeparator(b, ';');
    LanguagesOfTwo(a + [','] + b, a, b, a, b);
  }

  /** Subtags are compared case-sensitively: `AR` is not `ar`. */
  lemma SubtagsAreCaseSensitive()
    ensures GetLocale(Some("AR")) == DefaultLocale
  {
    SplitNoSeparator("AR", ',');
    SplitNoSeparator("AR", ';');
    assert Languages("AR") == ["AR"];
    WholeSubtag("AR");
  }

  /** A region subtag is dropped: `ar-EG,en` yields `ar`. */
  lemma RegionSubtagIsDropped()
    ensures GetLocale(Some("ar-EG,en")) == "ar"
  {
    LanguagesOfPlainPair("ar-EG", "en");
    assert "ar-EG" + [','] + "en" == "ar-EG,en";
    RegionSubtag();
    FirstSupportedFirst("ar-EG,en");
  }

  lemma RegionSubtag()
    ensures PrimarySubtag("ar-EG") == "ar"
  {
    FirstPieceOfTwo("ar", "EG", '-');
    assert "ar" + ['-'] + "EG" == "ar-EG";
  }

  /** A first entry with a supported primary subtag decides. */
  lemma FirstSupportedFirst(h: string)
    requires h != "" && |Languages(h)| > 0 && IsLocale(PrimarySubtag(Languages(h)[0]))
    ensures GetLocale(Some(h)) == PrimarySubtag(Languages(h)[0])
  {
    assert IsFirstSupported(Languages(h), 0);
  }
}
