/** The site header (`src/components/header.tsx`): five navigation links, the
    one whose path equals the last segment of the current pathname shown as
    active, a flag set once the page has scrolled past 10 pixels, and the
    open/closed state of the mobile menu. */
module Header {
  import opened JsString
  import Middleware

  /** `pathname.split('/').pop() || ''`: the text after the last `/`. */
  function CurrentPath(pathname: string): string {
    Last(Split(pathname, '/'))
  }

  /** The current path is the longest suffix without a `/`: it holds no `/`,
      ends the pathname, and is either the whole pathname or preceded by `/`. */
  lemma CurrentPathIsLastSegment(pathname: string)
    ensures var t := CurrentPath(pathname);
      && '/' !in t
      && |t| <= |pathname| && pathname[|pathname| - |t|..] == t
      && (|t| < |pathname| ==> pathname[|pathname| - |t| - 1] == '/')
  {
    SplitLast(pathname, '/');
  }

  /** The dictionary's `header` labels. */
  datatype Labels = Labels(home: string, about: string, craft: string, gallery: string, contact: string)

  datatype NavItem = NavItem(href: string, caption: string, path: string)

  /** `navItems` */
  function NavItems(lang: string, labels: Labels): seq<NavItem> {
    [ NavItem("/" + lang, labels.home, ""),
      NavItem("/" + lang + "/about", labels.about, "about"),
      NavItem("/" + lang + "/craft", labels.craft, "craft"),
      NavItem("/" + lang + "/gallery", labels.gallery, "gallery"),
      NavItem("/" + lang + "/contact", labels.contact, "contact") ]
  }

  /** `currentPath === item.path`, the test of both the desktop and the mobile list. */
  predicate Active(item: NavItem, pathname: string) {
    CurrentPath(pathname) == item.path
  }

  /** Five items, in order, each linking into the locale's own section, so
      the locale routing never redirects a header link. */
  lemma NavItemsShape(lang: string, labels: Labels)
    requires Middleware.IsLocale(lang)
    ensures var items := NavItems(lang, labels);
      && |items| == 5
      && items[0].path == "" && items[1].path == "about" && items[2].path == "craft"
      && items[3].path == "gallery" && items[4].path == "contact"
      && forall k :: 0 <= k < 5 ==>
           && items[k].href == "/" + lang + (if k == 0 then "" else "/" + items[k].path)
           && Middleware.HasLocalePrefix(items[k].href)
           && Middleware.Route(items[k].href, None) == None
  {
    var items := NavItems(lang, labels);
    var i := if lang == "en" then 0 else 1;
    assert Middleware.Locales[i] == lang;
    forall k | 0 <= k < 5
      ensures items[k].href == "/" + lang + (if k == 0 then "" else "/" + items[k].path)
      ensures Middleware.HasLocalePrefix(items[k].href)
    {
      var h := items[k].href;
      if k == 0 {
        assert Middleware.PrefixedWith(h, Middleware.Locales[i]);
      } else {
        assert h == "/" + lang + "/" + items[k].path;
        assert h[..|lang| + 2] == "/" + lang + "/";
        assert Middleware.PrefixedWith(h, Middleware.Locales[i]);
      }
    }
  }

  /** The item paths are distinct, so at most one item is active. */
  lemma AtMostOneActive(lang: string, labels: Labels, pathname: string, i: nat, j: nat)
    requires i < 5 && j < 5
    requires Active(NavItems(lang, labels)[i], pathname)
    requires Active(NavItems(lang, labels)[j], pathname)
    ensures i == j
  {
    var items := NavItems(lang, labels);
    assert items[i].path == items[j].path;
    assert items[1].path[0] == 'a' && items[2].path[0] == 'c' && items[4].path[0] == 'c';
    assert items[2].path[1] == 'r' && items[4].path[1] == 'o';
  }

  /** Home is active exactly when the pathname is empty or ends with `/`. */
  lemma HomeActiveIff(lang: string, labels: Labels, pathname: string)
    ensures Active(NavItems(lang, labels)[0], pathname) <==>
      pathname == [] || pathname[|pathname| - 1] == '/'
  {
    var t := CurrentPath(pathname);
    CurrentPathIsLastSegment(pathname);
    if t != [] {
      assert pathname[|pathname| - 1] == t[|t| - 1];
    }
  }

  /** A pathname whose last segment is a locale name highlights no link:
      no item path is a locale name. */
  lemma LocaleSegmentHighlightsNothing(lang: string, labels: Labels, pathname: string)
    requires Middleware.IsLocale(CurrentPath(pathname))
    ensures forall k :: 0 <= k < 5 ==> !Active(NavItems(lang, labels)[k], pathname)
  {
    var items := NavItems(lang, labels);
    assert |CurrentPath(pathname)| == 2;
    forall k | 0 <= k < 5
      ensures |items[k].path| != 2
    {
    }
  }

  /** At `/en` the last segment is `en`, so no link is shown active, not
      even home; at `/en/` home is. */
  lemma LocaleRootHighlightsNothing(labels: Labels)
    ensures forall k :: 0 <= k < 5 ==> !Active(NavItems("en", labels)[k], "/en")
    ensures Active(NavItems("en", labels)[0], "/en/")
  {
    LocaleRootSegment();
    LocaleSegmentHighlightsNothing("en", labels, "/en");
    HomeActiveIff("en", labels, "/en/");
  }

  lemma LocaleRootSegment()
    ensures CurrentPath("/en") == "en"
  {
    SplitCons("", "en", '/');
    assert "" + ['/'] + "en" == "/en";
    SplitNoSeparator("en", '/');
  }

  /** The header's two pieces of client state. */
  class HeaderState {
    var isScrolled: bool
    var mobileMenuOpen: bool

    /** `useState(false)` twice. */
    constructor ()
      ensures !isScrolled && !mobileMenuOpen
    {
      isScrolled := false;
      mobileMenuOpen := false;
    }

    /** `handleScroll`: the flag follows `window.scrollY > 10`. */
    method OnScroll(scrollY: real)
      modifies this
      ensures isScrolled <==> scrollY > 10.0
      ensures mobileMenuOpen == old(mobileMenuOpen)
    {
      isScrolled := scrollY > 10.0;
    }

    /** The menu button flips the menu. */
    method ToggleMenu()
      modifies this
      ensures mobileMenuOpen == !old(mobileMenuOpen)
      ensures isScrolled == old(isScrolled)
    {
      mobileMenuOpen := !mobileMenuOpen;
    }

    /** Following a link of the mobile list closes the menu. */
    method OnMobileLinkClick()
      modifies this
      ensures !mobileMenuOpen
      ensures isScrolled == old(isScrolled)
    {
      mobileMenuOpen := false;
    }
  }

  /** Toggling twice restores the menu, and a link click after opening closes it. */
  method MenuScenario(h: HeaderState) returns (openedOnce: bool, afterTwo: bool, afterLink: bool)
    modifies h
    ensures openedOnce == !old(h.mobileMenuOpen)
    ensures afterTwo == old(h.mobileMenuOpen)
    ensures !afterLink && !h.mobileMenuOpen
  {
    h.ToggleMenu();
    openedOnce := h.mobileMenuOpen;
    h.ToggleMenu();
    afterTwo := h.mobileMenuOpen;
    h.ToggleMenu();
    h.OnMobileLinkClick();
    afterLink := h.mobileMenuOpen;
  }
}
