/**
 * The site's top navigation bar: which links are highlighted for the
 * current path (the same rule for the desktop and the mobile list), and
 * the open/closed state of the mobile menu.
 */
module Navigation {

  datatype NavItem = NavItem(href: string, caption: string)

  /** The links of the bar, in display order. */
  const NavItems: seq<NavItem> := [
    NavItem("/", "Home"),
    NavItem("/about", "About"),
    NavItem("/research", "Research"),
    NavItem("/projects", "Projects"),
    NavItem("/writing", "Writing"),
    NavItem("/blog", "Blog"),
    NavItem("/contact", "Contact")
  ]

  /** `s.startsWith(prefix)` */
  predicate StartsWith(s: string, prefix: string) {
    |prefix| <= |s| && s[..|prefix|] == prefix
  }

  /**
   * The highlight rule of both link lists: an exact match, or, for any link
   * other than `/`, a raw string-prefix match. For a section link the exact
   * match adds nothing: it is active exactly on the paths that begin with it.
   */
  predicate IsActive(pathname: string, href: string)
    ensures href == "/" ==> (IsActive(pathname, href) <==> pathname == "/")
    ensures href != "/" ==> (IsActive(pathname, href) <==> StartsWith(pathname, href))
  {
    pathname == href || (href != "/" && StartsWith(pathname, href))
  }

  /** A link is always highlighted on its own path, whether or not it is `/`. */
  lemma ExactMatchAlwaysActive(pathname: string)
    ensures IsActive(pathname, pathname)
  {
  }

  /**
   * The prefix test does not look for a path separator: any path that merely
   * begins with a section's href, such as `/blogx`, highlights that section.
   */
  lemma SectionActiveOnAnyExtension(href: string, rest: string)
    requires href != "/"
    ensures IsActive(href + rest, href)
  {
    assert (href + rest)[..|href|] == href;
  }

  /** Two paths that both begin with `h1` and `h2` make the shorter a prefix of the longer. */
  lemma PrefixesNest(pathname: string, h1: string, h2: string)
    requires StartsWith(pathname, h1) && StartsWith(pathname, h2) && |h1| <= |h2|
    ensures StartsWith(h2, h1)
  {
    assert h2[..|h1|] == pathname[..|h2|][..|h1|] == pathname[..|h1|];
  }

  /** No href other than `/` begins with another. */
  lemma SectionHrefsPrefixFree()
    ensures forall i, j :: 1 <= i < |NavItems| && 1 <= j < |NavItems| && i != j ==>
      !StartsWith(NavItems[j].href, NavItems[i].href)
  {
    // The section hrefs already differ in their first character after `/`.
    var initials := "arpwbc";
    assert forall i :: 1 <= i < |NavItems| ==> |NavItems[i].href| >= 2 && NavItems[i].href[1] == initials[i - 1];
  }

  /** Whatever the path, at most one link of the bar is highlighted. */
  lemma AtMostOneActive(pathname: string)
    ensures forall i, j :: 0 <= i < j < |NavItems| && IsActive(pathname, NavItems[i].href) ==>
      !IsActive(pathname, NavItems[j].href)
  {
    SectionHrefsPrefixFree();
    forall i, j | 0 <= i < j < |NavItems| && IsActive(pathname, NavItems[i].href)
      ensures !IsActive(pathname, NavItems[j].href)
    {
      var hi, hj := NavItems[i].href, NavItems[j].href;
      if i == 0 {
        assert pathname == "/";
        assert |hj| > 1;
      } else if IsActive(pathname, hj) {
        assert StartsWith(pathname, hi) && StartsWith(pathname, hj);
        if |hi| <= |hj| {
          PrefixesNest(pathname, hi, hj);
        } else {
          PrefixesNest(pathname, hj, hi);
        }
        assert false;
      }
    }
  }

  /** On the page of a link, that link and no other is highlighted. */
  lemma OwnPageHighlightsOnlyItsLink(k: int)
    requires 0 <= k < |NavItems|
    ensures forall i :: 0 <= i < |NavItems| ==> (IsActive(NavItems[k].href, NavItems[i].href) <==> i == k)
  {
    AtMostOneActive(NavItems[k].href);
  }

  /** The bar's only state: whether the mobile menu is open. */
  class NavigationBar {
    var mobileMenuOpen: bool

    constructor ()
      ensures !mobileMenuOpen
    {
      mobileMenuOpen := false;
    }

    /** The menu button flips the menu. */
    method MenuButtonClicked()
      modifies this
      ensures mobileMenuOpen == !old(mobileMenuOpen)
    {
      mobileMenuOpen := !mobileMenuOpen;
    }

    /** Following a link in the mobile list closes the menu. */
    method MobileLinkClicked()
      modifies this
      ensures !mobileMenuOpen
    {
      mobileMenuOpen := false;
    }
  }
}
