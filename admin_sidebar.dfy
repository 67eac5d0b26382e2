/**
 * The admin sidebar's navigation: an item is highlighted when the current
 * path is its link, or, except for the dashboard, when the path starts with
 * its link.
 */
module AdminSidebar {

  datatype NavItem = NavItem(name: string, href: string)

  const Dashboard: string := "/admin"

  const Navigation: seq<NavItem> := [
    NavItem("Dashboard", "/admin"),
    NavItem("Events", "/admin/events"),
    NavItem("Subscribers", "/admin/subscribers"),
    NavItem("Messages", "/admin/messages")]

  /** `pathname === href || (href !== '/admin' && pathname.startsWith(href))`. */
  predicate IsActive(pathname: string, href: string): (ok: bool)
    ensures ok ==> href <= pathname
    ensures href == Dashboard ==> (ok <==> pathname == href)
  {
    pathname == href || (href != Dashboard && href <= pathname)
  }

  /** The dashboard is highlighted for exactly "/admin" and no other path. */
  lemma DashboardActiveOnlyOnItself(pathname: string)
    ensures IsActive(pathname, Dashboard) <==> pathname == Dashboard
  {
  }

  /** Every item is highlighted on its own page. */
  lemma ActiveOnOwnPage(i: nat)
    requires i < |Navigation|
    ensures IsActive(Navigation[i].href, Navigation[i].href)
  {
  }

  /**
   * Any path that starts with a section's link highlights that section:
   * there is no segment boundary, so "/admin/eventsX" counts as well as
   * "/admin/events/5/registrations".
   */
  lemma SectionPrefixActive(i: nat, rest: string)
    requires 1 <= i < |Navigation|
    ensures IsActive(Navigation[i].href + rest, Navigation[i].href)
    ensures i == 1 ==> IsActive("/admin/eventsX", Navigation[i].href)
  {
    if i == 1 {
      assert "/admin/eventsX" == Navigation[1].href + "X";
    }
  }

  /** Two links that both start one path agree wherever both have a character. */
  lemma PrefixesAgree(a: string, b: string, p: string, k: nat)
    requires k < |a| && k < |b|
    ensures a <= p && b <= p ==> a[k] == b[k]
  {
    if a <= p && b <= p {
      assert a[k] == p[k];
    }
  }

  /** For every path at most one item is highlighted. */
  lemma AtMostOneActive(pathname: string, i: nat, j: nat)
    requires i < j < |Navigation|
    ensures !(IsActive(pathname, Navigation[i].href) && IsActive(pathname, Navigation[j].href))
  {
    var a := Navigation[i].href;
    var b := Navigation[j].href;
    if i == 0 {
      // the dashboard needs the exact path, which is shorter than every section link
      assert |b| > |Dashboard|;
    } else {
      // the section links agree on "/admin/" and differ at position 7
      assert a[7] != b[7];
      PrefixesAgree(a, b, pathname, 7);
    }
  }
}
