/**
 * The highlighted entry of the sidebar, `src/components/layout/SidebarNav.tsx`,
 * over the navigation list of `src/lib/constants.ts`. Icons are not modelled.
 */
module SidebarNav {
  import opened Strings

  datatype NavItem = NavItem(title: string, href: string, labelText: string)

  const NavItems: seq<NavItem> := [
    NavItem("Feed", "/", "Icebreakers"),
    NavItem("Leaderboard", "/leaderboard", "Top Contributors"),
    NavItem("Create", "/create", "New Icebreaker"),
    NavItem("AI Assistant", "/ai-assistant", "Topic Ideas"),
    NavItem("Profile", "/profile", "My Profile")
  ]

  /** `isActive`: the path is the link, or the link is not the root and the path starts with it. */
  predicate IsActive(pathname: string, href: string)
    ensures IsActive(pathname, href) ==> |href| <= |pathname| && pathname[..|href|] == href
    ensures href == "/" ==> (IsActive(pathname, href) <==> pathname == "/")
  {
    pathname == href || (href != "/" && StartsWith(pathname, href))
  }

  /** A link is active on its own path. */
  lemma ActiveOnOwnPath(href: string)
    ensures IsActive(href, href)
  {
  }

  /** The root link is active on the root path only. */
  lemma RootOnlyExact(pathname: string)
    ensures IsActive(pathname, "/") <==> pathname == "/"
  {
  }

  /** Any other link is active on every path that starts with it as plain text, segment boundary or not. */
  lemma NonRootPrefix(pathname: string, href: string)
    requires href != "/"
    ensures IsActive(pathname, href) <==> StartsWith(pathname, href)
  {
  }

  lemma ProfilePrefixOfLongerSegment()
    ensures IsActive("/profileX", "/profile")
  {
    assert "/profileX"[..|"/profile"|] == "/profile";
  }

  /** Inactive when the path neither is nor starts with the link. */
  lemma InactiveOtherwise(pathname: string, href: string)
    requires pathname != href && !StartsWith(pathname, href)
    ensures !IsActive(pathname, href)
  {
  }

  /** The items highlighted for `pathname`, in list order. */
  function ActiveItems(items: seq<NavItem>, pathname: string): (r: seq<NavItem>)
    ensures forall it :: it in r <==> it in items && IsActive(pathname, it.href)
  {
    if items == [] then []
    else (if IsActive(pathname, items[0].href) then [items[0]] else []) + ActiveItems(items[1..], pathname)
  }

  /** A path that starts with a link agrees with it on the link's second character. */
  lemma SecondChar(pathname: string, href: string)
    requires |href| >= 2 && IsActive(pathname, href)
    ensures |pathname| >= 2 && pathname[1] == href[1]
  {
    if pathname != href {
      assert pathname[..|href|][1] == href[1];
    }
  }

  lemma {:induction false} NoneActive(items: seq<NavItem>, pathname: string)
    requires forall j :: 0 <= j < |items| ==> !IsActive(pathname, items[j].href)
    ensures ActiveItems(items, pathname) == []
  {
    if items != [] {
      NoneActive(items[1..], pathname);
    }
  }

  /** When no two items are active together, at most one is highlighted. */
  lemma {:induction false} AtMostOneWhenExclusive(items: seq<NavItem>, pathname: string)
    requires forall i, j :: 0 <= i < j < |items| ==> !(IsActive(pathname, items[i].href) && IsActive(pathname, items[j].href))
    ensures |ActiveItems(items, pathname)| <= 1
  {
    if items != [] {
      var rest := items[1..];
      AtMostOneWhenExclusive(rest, pathname);
      if IsActive(pathname, items[0].href) {
        assert forall j :: 0 <= j < |rest| ==> rest[j] == items[j + 1];
        NoneActive(rest, pathname);
      }
    }
  }

  /** On any path, no two items of the navigation list are active together. */
  lemma NavItemsExclusive(pathname: string)
    ensures forall i, j :: 0 <= i < j < |NavItems| ==>
      !(IsActive(pathname, NavItems[i].href) && IsActive(pathname, NavItems[j].href))
  {
    if IsActive(pathname, "/leaderboard") { SecondChar(pathname, "/leaderboard"); }
    if IsActive(pathname, "/create") { SecondChar(pathname, "/create"); }
    if IsActive(pathname, "/ai-assistant") { SecondChar(pathname, "/ai-assistant"); }
    if IsActive(pathname, "/profile") { SecondChar(pathname, "/profile"); }
  }

  /** At most one item of the navigation list is highlighted on any path. */
  lemma AtMostOneActive(pathname: string)
    ensures |ActiveItems(NavItems, pathname)| <= 1
  {
    NavItemsExclusive(pathname);
    AtMostOneWhenExclusive(NavItems, pathname);
  }
}
