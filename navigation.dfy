/**
 * The navigation bar: the site name from the `siteName` setting, split into
 * its first word and the rest for the logo, and the menu made of the fixed
 * entries followed by the visible custom pages.
 */
module Navigation {
  import opened Wrappers
  import opened Tables
  import opened Schema
  import Storage
  import ServerRoutes

  // === The site name ===

  const DefaultSiteName := "ROYAL APP"

  /** `siteNameSetting?.value || "ROYAL APP"`: the setting, unless it is missing or empty. */
  function SiteName(setting: Option<string>): (r: string)
    ensures setting.Some? && setting.value != "" ==> r == setting.value
    ensures setting.None? || setting.value == "" ==> r == DefaultSiteName
    ensures r != ""
  {
    if setting.Some? && setting.value != "" then setting.value else DefaultSiteName
  }

  /** `parts.join(" ")`: the first piece comes first, followed by a space when there is a second. */
  function Join(parts: seq<string>): (r: string)
    ensures |parts| >= 1 ==> parts[0] <= r
    ensures |parts| >= 2 ==> |r| > |parts[0]| && r[|parts[0]|] == ' '
  {
    if |parts| == 0 then ""
    else if |parts| == 1 then parts[0]
    else parts[0] + " " + Join(parts[1..])
  }

  /**
   * `s.split(" ")`: the pieces between the spaces, empty ones included, and
   * always at least one piece.
   */
  function Split(s: string): (r: seq<string>)
    ensures |r| >= 1
    ensures forall i :: 0 <= i < |r| ==> ' ' !in r[i]
    decreases |s|
  {
    if |s| == 0 then [""]
    else
      var rest := Split(s[1..]);
      if s[0] == ' ' then [""] + rest else [[s[0]] + rest[0]] + rest[1..]
  }

  /** Joining the pieces back with single spaces gives the string that was split. */
  lemma {:induction false} SplitJoin(s: string)
    ensures Join(Split(s)) == s
    decreases |s|
  {
    if |s| > 0 {
      var rest := Split(s[1..]);
      SplitJoin(s[1..]);
      if s[0] == ' ' {
        assert ([""] + rest)[1..] == rest;
      } else {
        var r := [[s[0]] + rest[0]] + rest[1..];
        assert r[1..] == rest[1..];
        if |rest| > 1 {
          assert Join(rest) == rest[0] + " " + Join(rest[1..]);
        }
      }
    }
  }

  /** Splitting a join of space-free pieces gives the pieces back. */
  lemma {:induction false} JoinSplit(parts: seq<string>)
    requires |parts| >= 1
    requires forall i :: 0 <= i < |parts| ==> ' ' !in parts[i]
    ensures Split(Join(parts)) == parts
    decreases |parts|, |parts[0]|
  {
    if |parts[0]| == 0 {
      if |parts| > 1 {
        JoinSplit(parts[1..]);
        var s := Join(parts);
        assert s == " " + Join(parts[1..]);
        assert s[1..] == Join(parts[1..]);
        assert [""] + parts[1..] == parts;
      }
    } else {
      var c := parts[0][0];
      var shorter := [parts[0][1..]] + parts[1..];
      assert ' ' !in shorter[0] by {
        forall j | 0 <= j < |shorter[0]|
          ensures shorter[0][j] != ' '
        {
          assert shorter[0][j] == parts[0][j + 1];
          assert parts[0][j + 1] in parts[0];
        }
      }
      forall i | 0 <= i < |shorter|
        ensures ' ' !in shorter[i]
      {
        if i > 0 {
          assert shorter[i] == parts[i];
        }
      }
      JoinSplit(shorter);
      var s := Join(parts);
      assert s == [c] + Join(shorter) by {
        if |parts| > 1 {
          assert shorter[1..] == parts[1..];
        }
        assert parts[0] == [c] + parts[0][1..];
      }
      assert s[0] == c && s[1..] == Join(shorter);
      assert c != ' ' by {
        assert parts[0][0] in parts[0];
      }
      assert [c] + shorter[0] == parts[0];
      assert shorter[1..] == parts[1..];
      assert [[c] + shorter[0]] + shorter[1..] == [parts[0]] + parts[1..];
      assert [parts[0]] + parts[1..] == parts;
    }
  }

  /** The logo's first word: the text before the first space. */
  function FirstName(siteName: string): string
  {
    Split(siteName)[0]
  }

  /** The logo's remaining words, re-joined with single spaces. */
  function RestName(siteName: string): string
  {
    Join(Split(siteName)[1..])
  }

  /**
   * The two halves of the logo put back together with a space give the site
   * name when it has a space; without one the first word is the whole name
   * and the rest is empty.
   */
  lemma LogoHalves(siteName: string)
    ensures ' ' !in FirstName(siteName)
    ensures ' ' in siteName ==> FirstName(siteName) + " " + RestName(siteName) == siteName
    ensures ' ' !in siteName ==> FirstName(siteName) == siteName && RestName(siteName) == ""
  {
    var parts := Split(siteName);
    SplitJoin(siteName);
    if |parts| == 1 {
      assert Join(parts) == parts[0];
      assert siteName == parts[0];
    } else {
      assert Join(parts) == parts[0] + " " + Join(parts[1..]);
      assert ' ' in siteName by {
        assert siteName[|parts[0]|] == ' ';
      }
    }
  }

  // === The menu ===

  datatype MenuItem = MenuItem(href: string, text: string)

  /** The entries every visitor sees, in order. */
  const FixedItems := [
    MenuItem("/", "Ana Sayfa"),
    MenuItem("/movies", "Filmler"),
    MenuItem("/games", "Oyunlar"),
    MenuItem("/pk-battles", "PK Savaşları"),
    MenuItem("/events", "Etkinlikler")
  ]

  function IsVisible(p: Page): bool { p.isVisible }

  function PageItem(p: Page): MenuItem
  {
    MenuItem("/page/" + p.slug, p.title)
  }

  /** The visible pages of a loaded list, in list order; none while the list is not loaded. */
  function VisiblePages(pages: Option<seq<Page>>): (r: seq<Page>)
    ensures forall i :: 0 <= i < |r| ==> r[i].isVisible
    ensures pages.None? ==> r == []
    ensures pages.Some? ==> forall p :: p in pages.value && p.isVisible ==> p in r
    ensures pages.Some? ==> forall i :: 0 <= i < |r| ==> r[i] in pages.value
  {
    if pages.None? then [] else Filter(pages.value, IsVisible)
  }

  /** One entry per page, in list order. */
  function PageItems(visible: seq<Page>): (r: seq<MenuItem>)
    ensures |r| == |visible|
    ensures forall i :: 0 <= i < |visible| ==> r[i] == PageItem(visible[i])
  {
    if |visible| == 0 then [] else [PageItem(visible[0])] + PageItems(visible[1..])
  }

  /** `menuItems`: the fixed entries, then one entry per visible page. */
  function MenuItems(pages: Option<seq<Page>>): (r: seq<MenuItem>)
    ensures |r| == |FixedItems| + |VisiblePages(pages)|
    ensures r[..|FixedItems|] == FixedItems
    ensures forall i :: 0 <= i < |VisiblePages(pages)| ==> r[|FixedItems| + i] == PageItem(VisiblePages(pages)[i])
  {
    var items := PageItems(VisiblePages(pages));
    assert (FixedItems + items)[..|FixedItems|] == FixedItems;
    FixedItems + items
  }

  /** The entry links to a visible page of the list. */
  predicate LinksVisiblePage(pages: seq<Page>, item: MenuItem)
  {
    exists p :: p in pages && p.isVisible && item == PageItem(p)
  }

  /**
   * Every entry after the fixed ones links to a visible page of the list by
   * its slug, and every visible page has such an entry; a hidden page has
   * none.
   */
  lemma MenuShowsVisiblePages(pages: seq<Page>)
    ensures forall i :: |FixedItems| <= i < |MenuItems(Some(pages))| ==> LinksVisiblePage(pages, MenuItems(Some(pages))[i])
    ensures forall p :: p in pages && p.isVisible ==> PageItem(p) in MenuItems(Some(pages))
  {
    var menu := MenuItems(Some(pages));
    var visible := VisiblePages(Some(pages));
    forall i | |FixedItems| <= i < |menu|
      ensures LinksVisiblePage(pages, menu[i])
    {
      var p := visible[i - |FixedItems|];
      assert p in pages && p.isVisible && menu[i] == PageItem(p);
    }
    forall p | p in pages && p.isVisible
      ensures PageItem(p) in menu
    {
      var j :| 0 <= j < |pages| && pages[j] == p;
      assert IsVisible(pages[j]);
      var k :| 0 <= k < |visible| && visible[k] == p;
      assert menu[|FixedItems| + k] == PageItem(p);
    }
  }

  /** `user?.role === "admin"`: whether the admin panel link is shown. */
  function ShowsAdminPanel(user: Option<User>): bool
  {
    user.Some? && user.value.role == Admin
  }

  /**
   * The admin panel link is shown to nobody when no one is logged in, and to
   * a logged-in user exactly when the server would let that user through
   * every admin-only route.
   */
  lemma AdminPanelMatchesServer(u: User)
    ensures !ShowsAdminPanel(None)
    ensures forall ep :: ServerRoutes.AdminOnly(ep) ==>
      (ShowsAdminPanel(Some(u)) <==> ServerRoutes.Guard(Some(ServerRoutes.Principal(u.id, u.role)), ep) == ServerRoutes.Proceed)
  {
  }

  // === The site name, end to end ===

  /** The setting the header reads. */
  const SiteNameKey := "siteName"

  /** `useSetting`'s query: the value of a successful answer, `""` for any other. */
  function FetchedSetting(resp: ServerRoutes.Response): (r: string)
    ensures resp.Reply? && resp.status == 200 && resp.payload.ValueJson? ==> r == resp.payload.value
    ensures resp.Unhandled? || resp.status != 200 ==> r == ""
  {
    if resp.Reply? && resp.status == 200 && resp.payload.ValueJson? then resp.payload.value else ""
  }

  /**
   * A caller posts a new site name, and the header then reads the setting
   * back: after an admin's post the header shows the new name, or "ROYAL APP"
   * when it is empty; anyone else's post is refused, and the header shows
   * what was stored before, "ROYAL APP" when nothing or "" was.
   */
  method RenameSiteThenShow(db: Storage.DatabaseStorage, who: Option<ServerRoutes.Principal>, name: string)
    returns (shown: string)
    modifies db`settings
    ensures who.Some? && who.value.role == Admin ==>
      db.settings == old(db.settings)[SiteNameKey := name]
      && shown == if name == "" then DefaultSiteName else name
    ensures !(who.Some? && who.value.role == Admin) ==>
      unchanged(db)
      && shown == if SiteNameKey in db.settings && db.settings[SiteNameKey] != "" then db.settings[SiteNameKey] else DefaultSiteName
  {
    var posted := ServerRoutes.HandleSetSetting(db, who, ServerRoutes.Parsed((SiteNameKey, name)));
    var read := ServerRoutes.HandleGetSetting(db, SiteNameKey);
    shown := SiteName(Some(FetchedSetting(read)));
  }
}
