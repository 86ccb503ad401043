/** The site header: a fixed menu whose entry for the current path is
    highlighted, and a single open dropdown driven by hover on the desktop
    bar and by toggle buttons in the mobile menu. */
module Header {
  import opened Common

  datatype Link = Link(name: string, href: string)

  /** A menu entry: an optional link of its own and an optional dropdown. */
  datatype MenuItem = MenuItem(title: string, href: Option<string>, dropdown: Option<seq<Link>>)

  const PublicationLinks: seq<Link> := [
    Link("Web Articles", "/publication/web-articles"),
    Link("Issue Briefs", "/publication/issue-briefs"),
    Link("Research reports", "/publication/research-reports"),
    Link("Newsletters", "/publication/newsletters"),
    Link("WCRT Journal", "/publication/wcrt-journal"),
    Link("Scholar Warrior", "/publication/scholar-warrior"),
    Link("Books", "/publication/books"),
    Link("Essays", "/publication/essays")
  ]

  const ResearchLinks: seq<Link> := [
    Link("Defense & Security", "/research/defense"),
    Link("Politics & Governance", "/research/politics"),
    Link("Economics & Trade", "/research/economics")
  ]

  const MenuItems: seq<MenuItem> := [
    MenuItem("HOME", Some("/"), None),
    MenuItem("ABOUT US", Some("/about"), None),
    MenuItem("PUBLICATION", None, Some(PublicationLinks)),
    MenuItem("RESEARCH AREAS", None, Some(ResearchLinks)),
    MenuItem("WEB ARCHIVE", Some("/archive"), None),
    MenuItem("EVENTS", Some("/events"), Some([
      Link("Seminars", "/events/seminars"),
      Link("Webinars", "/events/webinars")])),
    MenuItem("PROMEX", Some("/promex"), None),
    MenuItem("CAREERS", Some("/careers"), None),
    MenuItem("CONTACT", Some("/contact"), None)
  ]

  /** Some dropdown link of `item` is exactly `pathname`. */
  predicate DropdownMatches(item: MenuItem, pathname: string) {
    item.dropdown.Some? && exists k :: 0 <= k < |item.dropdown.value| && item.dropdown.value[k].href == pathname
  }

  /** `isActivePage`: the root entry only on "/" itself; an entry with a
      non-empty href when the path starts with it (a plain string prefix);
      any other entry when the path is exactly one of its dropdown links. */
  function IsActivePage(item: MenuItem, pathname: string): (active: bool)
    ensures item.href == Some("/") ==> (active <==> pathname == "/")
    ensures Truthy(item.href) && item.href != Some("/") ==> (active <==> item.href.value <= pathname)
    ensures !Truthy(item.href) ==> (active <==> DropdownMatches(item, pathname))
  {
    if item.href == Some("/") then pathname == "/"
    else if Truthy(item.href) then item.href.value != "/" && item.href.value <= pathname
    else DropdownMatches(item, pathname)
  }

  /** Prefix matching is by characters, not by path segments. */
  lemma AboutMatchesLongerWord()
    ensures IsActivePage(MenuItems[1], "/aboutx")
    ensures !IsActivePage(MenuItems[0], "/about")
  {
    assert "/about" <= "/aboutx";
  }

  /** EVENTS has both an href and a dropdown; only the href counts, which
      covers its dropdown pages too. */
  lemma EventsDecidedByHref(pathname: string)
    ensures IsActivePage(MenuItems[5], pathname) <==> "/events" <= pathname
  {
  }

  /** The second and third characters of what each entry matches; "/" is
      the only match of the root entry and has none. */
  const Codes: seq<string> := ["", "ab", "pu", "re", "ar", "ev", "pr", "ca", "co"]

  /** `t` carries `code` as its second and third characters. */
  predicate HasCode(t: string, code: string)
    requires |code| == 2
  {
    |t| >= 3 && t[1] == code[0] && t[2] == code[1]
  }

  /** A prefix fixes the characters it covers. */
  lemma PrefixFixesCode(a: string, p: string, code: string)
    requires |code| == 2 && HasCode(a, code) && a <= p
    ensures HasCode(p, code)
  {
    assert p[..|a|] == a;
    assert p[1] == a[1] && p[2] == a[2];
  }

  /** Every dropdown link of PUBLICATION and RESEARCH AREAS carries the
      entry's code. */
  lemma DropdownCode(i: nat, k: nat)
    requires (i == 2 || i == 3) && k < |MenuItems[i].dropdown.value|
    ensures HasCode(MenuItems[i].dropdown.value[k].href, Codes[i])
  {
    if i == 2 {
      assert MenuItems[i].dropdown.value == PublicationLinks && Codes[i] == "pu";
      assert forall k :: 0 <= k < |PublicationLinks| ==> HasCode(PublicationLinks[k].href, "pu");
    } else {
      assert MenuItems[i].dropdown.value == ResearchLinks && Codes[i] == "re";
      assert forall k :: 0 <= k < |ResearchLinks| ==> HasCode(ResearchLinks[k].href, "re");
    }
  }

  /** What a highlighted entry says about the path. */
  lemma ActiveEntryCode(i: nat, pathname: string)
    requires i < |MenuItems| && IsActivePage(MenuItems[i], pathname)
    ensures i == 0 ==> pathname == "/"
    ensures i > 0 ==> HasCode(pathname, Codes[i])
  {
    var item := MenuItems[i];
    if i == 2 || i == 3 {
      var links := item.dropdown.value;
      var k :| 0 <= k < |links| && links[k].href == pathname;
      DropdownCode(i, k);
    } else if i > 0 {
      assert HasCode(item.href.value, Codes[i]);
      PrefixFixesCode(item.href.value, pathname, Codes[i]);
    }
  }

  /** For every path at most one menu entry is highlighted: the entries'
      hrefs and dropdown links all differ in their first two characters
      after the slash. */
  lemma AtMostOneActive(pathname: string, i: nat, j: nat)
    requires i < j < |MenuItems|
    ensures !(IsActivePage(MenuItems[i], pathname) && IsActivePage(MenuItems[j], pathname))
  {
    if IsActivePage(MenuItems[i], pathname) && IsActivePage(MenuItems[j], pathname) {
      ActiveEntryCode(i, pathname);
      ActiveEntryCode(j, pathname);
      assert false;
    }
  }

  /** Hovering an entry opens it only when it has a dropdown (an empty list
      counts); otherwise the open dropdown stays as it is. */
  function MouseEnter(open: Option<nat>, i: nat): (r: Option<nat>)
    requires i < |MenuItems|
    ensures MenuItems[i].dropdown.Some? ==> r == Some(i)
    ensures MenuItems[i].dropdown.None? ==> r == open
  {
    if MenuItems[i].dropdown.Some? then Some(i) else open
  }

  /** Leaving an entry closes whatever is open. */
  function MouseLeave(open: Option<nat>): (r: Option<nat>)
    ensures r.None?
  {
    None
  }

  datatype Event = Toggle(i: nat) | Enter(i: nat) | Leave

  /** The toggle buttons exist only for entries with a dropdown; hovering is
      possible on every entry. */
  predicate Offered(e: Event) {
    match e
    case Toggle(i) => i < |MenuItems| && MenuItems[i].dropdown.Some?
    case Enter(i) => i < |MenuItems|
    case Leave => true
  }

  function Step(open: Option<nat>, e: Event): Option<nat>
    requires Offered(e)
  {
    match e
    case Toggle(i) => ToggleOpen(open, i)
    case Enter(i) => MouseEnter(open, i)
    case Leave => MouseLeave(open)
  }

  function Run(open: Option<nat>, events: seq<Event>): Option<nat>
    decreases |events|
  {
    if |events| == 0 then open
    else Run(if Offered(events[0]) then Step(open, events[0]) else open, events[1..])
  }

  /** The open dropdown, if any, belongs to an entry that has one. */
  predicate OpenHasDropdown(open: Option<nat>) {
    open.Some? ==> open.value < |MenuItems| && MenuItems[open.value].dropdown.Some?
  }

  /** Starting with nothing open, no sequence of clicks and hovers opens an
      entry without a dropdown. */
  lemma {:induction false} RunKeepsOpenHasDropdown(open: Option<nat>, events: seq<Event>)
    requires OpenHasDropdown(open)
    ensures OpenHasDropdown(Run(open, events))
    decreases |events|
  {
    if |events| > 0 {
      var next := if Offered(events[0]) then Step(open, events[0]) else open;
      assert OpenHasDropdown(next);
      RunKeepsOpenHasDropdown(next, events[1..]);
    }
  }

  /** From nothing open, toggling the same entry twice closes it again. */
  lemma ToggleTwiceCloses(open: Option<nat>, i: nat)
    requires open.None? || open == Some(i)
    ensures ToggleOpen(ToggleOpen(open, i), i) == open
  {
  }
}
