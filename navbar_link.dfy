/** The navigation links (NavbarLink.jsx): the links a user may see, in their fixed order, and
    which one is highlighted for the current location. */
module NavbarLink {
  import opened Base

  /** A link: its title, its path without the leading `/`, and the roles allowed to see it,
      when it is restricted. */
  datatype NavLink = NavLink(title: string, path: string, roles: Option<seq<string>>)

  /** `links`. */
  const Links: seq<NavLink> := [
    NavLink("Home", "home", None),
    NavLink("UserManagement", "usermanagement", Some(["admin"])),
    NavLink("List", "list", None),
    NavLink("Mail Handler", "mailhandler", None)
  ]

  /** The filter's test: a link without `roles` is shown to everyone, a link with `roles` (an
      array, truthy even when empty) only to a user on it. An absent `user` is on no list. */
  predicate Allowed(item: NavLink, user: Option<string>) {
    item.roles.None? || (user.Some? && user.value in item.roles.value)
  }

  /** `filteredLinks`. */
  function FilterLinks(links: seq<NavLink>, user: Option<string>): seq<NavLink>
    decreases |links|
  {
    if links == [] then []
    else
      var rest := FilterLinks(links[..|links| - 1], user);
      var last := links[|links| - 1];
      if Allowed(last, user) then rest + [last] else rest
  }

  /** The shown links keep their order. */
  lemma {:induction false} FilterLinksInOrder(links: seq<NavLink>, user: Option<string>)
    ensures IsSubsequence(FilterLinks(links, user), links)
    decreases |links|
  {
    if links != [] {
      var init, last := links[..|links| - 1], links[|links| - 1];
      FilterLinksInOrder(init, user);
      assert links == init + [last];
      if Allowed(last, user) {
        SubsequenceExtendBoth(FilterLinks(init, user), init, last);
      } else {
        SubsequenceExtendRight(FilterLinks(init, user), init, last);
      }
    }
  }

  /** A link is shown exactly when it is one of the links and the user may see it. */
  lemma {:induction false} FilterLinksMembers(links: seq<NavLink>, user: Option<string>)
    ensures forall l :: l in FilterLinks(links, user) <==> l in links && Allowed(l, user)
    decreases |links|
  {
    if links != [] {
      var init := links[..|links| - 1];
      FilterLinksMembers(init, user);
      assert links == init + [links[|links| - 1]];
    }
  }

  /** Each allowed link is shown as many times as it occurs, and no other link is shown. */
  lemma {:induction false} FilterLinksCounts(links: seq<NavLink>, user: Option<string>)
    ensures forall l ::
      multiset(FilterLinks(links, user))[l] == if Allowed(l, user) then multiset(links)[l] else 0
    decreases |links|
  {
    if links != [] {
      var init, last := links[..|links| - 1], links[|links| - 1];
      FilterLinksCounts(init, user);
      assert links == init + [last];
      assert multiset(links) == multiset(init) + multiset{last};
    }
  }

  /** The administrator sees every link; anyone else sees all of them but "UserManagement". */
  lemma LinksPerUser(user: Option<string>)
    ensures user == Some("admin") ==> FilterLinks(Links, user) == Links
    ensures user != Some("admin") ==> FilterLinks(Links, user) == [Links[0], Links[2], Links[3]]
  {
    var admin := user == Some("admin");
    var l1, l2, l3 := Links[..1], Links[..2], Links[..3];
    assert l1[..0] == [] && l2[..1] == l1 && l3[..2] == l2 && Links[..3] == l3;
    assert FilterLinks(l1, user) == [Links[0]];
    assert FilterLinks(l2, user) == if admin then [Links[0], Links[1]] else [Links[0]];
    assert FilterLinks(l3, user) == if admin then [Links[0], Links[1], Links[2]] else [Links[0], Links[2]];
  }

  /** `to={`/${item.path}`}`. */
  function Href(item: NavLink): string {
    "/" + item.path
  }

  /** `isActive`. */
  predicate IsActive(pathname: string, item: NavLink) {
    pathname == Href(item)
  }

  /** At most one of the links is highlighted at any location. */
  lemma ActiveLink(pathname: string)
    ensures forall j, k :: 0 <= j < k < |Links| && IsActive(pathname, Links[j]) ==> !IsActive(pathname, Links[k])
  {
    forall j, k | 0 <= j < k < |Links| && IsActive(pathname, Links[j])
      ensures !IsActive(pathname, Links[k])
    {
      assert Href(Links[j])[1..] == Links[j].path != Links[k].path == Href(Links[k])[1..];
    }
  }
}
