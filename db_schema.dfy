/** The two tables, `menu_items` and `page_contents`, their rows, the
    lookups the handlers run against them, and the invariant they keep:
    primary keys, the unique slug and the foreign key. */
module DbSchema {
  import opened Wrappers

  /** A row of `menu_items`. Timestamps are readings of the store's abstract
      clock; only the nullable columns of `page_contents` are `Option`s. */
  datatype MenuItem = MenuItem(
    id: int,
    name: string,
    slug: string,
    order: int,
    isActive: bool,
    createdAt: nat,
    updatedAt: nat)

  /** A row of `page_contents`; `metaDescription` and `metaKeywords` are the
      only nullable columns. */
  datatype PageContent = PageContent(
    id: int,
    menuItemId: int,
    title: string,
    content: string,
    metaDescription: Option<string>,
    metaKeywords: Option<string>,
    createdAt: nat,
    updatedAt: nat)

  // ----- the lookups behind `select ... where` -----

  /** `select from menu_items where id = id` is non-empty. */
  predicate HasMenuItemId(menus: seq<MenuItem>, id: int) {
    exists m :: m in menus && m.id == id
  }

  /** `select from menu_items where slug = slug` is non-empty. */
  predicate SlugTaken(menus: seq<MenuItem>, slug: string) {
    exists m :: m in menus && m.slug == slug
  }

  /** `select from menu_items where slug = slug and id <> id` is non-empty. */
  predicate SlugHeldByOther(menus: seq<MenuItem>, slug: string, id: int) {
    exists m :: m in menus && m.slug == slug && m.id != id
  }

  /** The position of the first menu item with primary key `id`. */
  function IndexOfMenuItem(menus: seq<MenuItem>, id: int): (r: Option<nat>)
    ensures r.Some? <==> HasMenuItemId(menus, id)
    ensures r.Some? ==> r.value < |menus| && menus[r.value].id == id
    ensures r.Some? ==> forall k :: 0 <= k < r.value ==> menus[k].id != id
  {
    if |menus| == 0 then None
    else if menus[0].id == id then Some(0)
    else
      assert menus == [menus[0]] + menus[1..];
      match IndexOfMenuItem(menus[1..], id)
      case None => None
      case Some(k) => Some(k + 1)
  }

  /** The position of the first page content with primary key `id`. */
  function IndexOfPageContent(pages: seq<PageContent>, id: int): (r: Option<nat>)
    ensures r.Some? <==> exists c :: c in pages && c.id == id
    ensures r.Some? ==> r.value < |pages| && pages[r.value].id == id
    ensures r.Some? ==> forall k :: 0 <= k < r.value ==> pages[k].id != id
  {
    if |pages| == 0 then None
    else if pages[0].id == id then Some(0)
    else
      assert pages == [pages[0]] + pages[1..];
      match IndexOfPageContent(pages[1..], id)
      case None => None
      case Some(k) => Some(k + 1)
  }

  // ----- the table invariant -----

  /** `menu_items.id` is a primary key. */
  ghost predicate UniqueMenuItemIds(menus: seq<MenuItem>) {
    forall i, j :: 0 <= i < |menus| && 0 <= j < |menus| && i != j ==> menus[i].id != menus[j].id
  }

  /** `menu_items.slug` is `unique()`. */
  ghost predicate UniqueSlugs(menus: seq<MenuItem>) {
    forall i, j :: 0 <= i < |menus| && 0 <= j < |menus| && i != j ==> menus[i].slug != menus[j].slug
  }

  /** `page_contents.id` is a primary key. */
  ghost predicate UniquePageContentIds(pages: seq<PageContent>) {
    forall i, j :: 0 <= i < |pages| && 0 <= j < |pages| && i != j ==> pages[i].id != pages[j].id
  }

  /** `page_contents.menu_item_id` references `menu_items.id`. Nothing asks
      it to be unique: several contents may name the same menu item. */
  ghost predicate ReferencesExist(menus: seq<MenuItem>, pages: seq<PageContent>) {
    forall c :: c in pages ==> HasMenuItemId(menus, c.menuItemId)
  }

  /** What the validated inputs guarantee of every stored row: the non-empty
      strings, a non-negative order, and no update stamped before creation. */
  ghost predicate WellFormedMenuItem(m: MenuItem) {
    |m.name| >= 1 && |m.slug| >= 1 && m.order >= 0 && m.createdAt <= m.updatedAt
  }

  ghost predicate WellFormedPageContent(c: PageContent) {
    |c.title| >= 1 && c.createdAt <= c.updatedAt
  }

  /** The invariant of the two tables together. */
  ghost predicate TablesValid(menus: seq<MenuItem>, pages: seq<PageContent>) {
    && UniqueMenuItemIds(menus)
    && UniqueSlugs(menus)
    && UniquePageContentIds(pages)
    && ReferencesExist(menus, pages)
    && (forall m :: m in menus ==> WellFormedMenuItem(m))
    && (forall c :: c in pages ==> WellFormedPageContent(c))
  }

  // ----- what the invariant gives and what keeps it -----

  /** With unique slugs, a menu item's own slug is held by no other item: an
      update that resubmits it never conflicts. */
  lemma OwnSlugNotHeldByOther(menus: seq<MenuItem>, i: nat)
    requires UniqueSlugs(menus) && i < |menus|
    ensures !SlugHeldByOther(menus, menus[i].slug, menus[i].id)
  {
    forall m | m in menus && m.slug == menus[i].slug ensures m.id == menus[i].id {
      var j :| 0 <= j < |menus| && menus[j] == m;
      assert j == i;
    }
  }

  /** Appending a menu item whose slug and id are new keeps the invariant. */
  lemma InsertMenuItemKeepsValid(menus: seq<MenuItem>, pages: seq<PageContent>, item: MenuItem)
    requires TablesValid(menus, pages)
    requires !SlugTaken(menus, item.slug) && !HasMenuItemId(menus, item.id)
    requires WellFormedMenuItem(item)
    ensures TablesValid(menus + [item], pages)
  {
    var menus' := menus + [item];
    forall i, j | 0 <= i < |menus'| && 0 <= j < |menus'| && i != j
      ensures menus'[i].id != menus'[j].id && menus'[i].slug != menus'[j].slug
    {
      if i == |menus| {
        assert menus'[j] in menus;
      } else if j == |menus| {
        assert menus'[i] in menus;
      }
    }
    forall c | c in pages ensures HasMenuItemId(menus', c.menuItemId) {
      var m :| m in menus && m.id == c.menuItemId;
      assert m in menus';
    }
  }

  /** Overwriting a menu item in place with a row that keeps its id and takes
      a slug no other item holds keeps the invariant. */
  lemma ReplaceMenuItemKeepsValid(menus: seq<MenuItem>, pages: seq<PageContent>, i: nat, item: MenuItem)
    requires TablesValid(menus, pages) && i < |menus|
    requires item.id == menus[i].id
    requires !SlugHeldByOther(menus, item.slug, item.id)
    requires WellFormedMenuItem(item)
    ensures TablesValid(menus[i := item], pages)
  {
    var menus' := menus[i := item];
    forall a, b | 0 <= a < |menus'| && 0 <= b < |menus'| && a != b
      ensures menus'[a].slug != menus'[b].slug
    {
      if a == i {
        assert menus[b] in menus && menus[b].id != item.id;
      } else if b == i {
        assert menus[a] in menus && menus[a].id != item.id;
      }
    }
    forall c | c in pages ensures HasMenuItemId(menus', c.menuItemId) {
      var m :| m in menus && m.id == c.menuItemId;
      var k :| 0 <= k < |menus| && menus[k] == m;
      assert menus'[k] in menus' && menus'[k].id == m.id;
    }
  }

  /** Appending a page content whose id is new and whose parent exists keeps
      the invariant, whether or not the parent already has content. */
  lemma InsertPageContentKeepsValid(menus: seq<MenuItem>, pages: seq<PageContent>, c: PageContent)
    requires TablesValid(menus, pages)
    requires HasMenuItemId(menus, c.menuItemId)
    requires forall d :: d in pages ==> d.id != c.id
    requires WellFormedPageContent(c)
    ensures TablesValid(menus, pages + [c])
  {
    var pages' := pages + [c];
    forall i, j | 0 <= i < |pages'| && 0 <= j < |pages'| && i != j
      ensures pages'[i].id != pages'[j].id
    {
      if i == |pages| {
        assert pages'[j] in pages;
      } else if j == |pages| {
        assert pages'[i] in pages;
      }
    }
  }

  /** Overwriting a page content in place with a row that keeps its id and
      its parent keeps the invariant. */
  lemma ReplacePageContentKeepsValid(menus: seq<MenuItem>, pages: seq<PageContent>, i: nat, c: PageContent)
    requires TablesValid(menus, pages) && i < |pages|
    requires c.id == pages[i].id && c.menuItemId == pages[i].menuItemId
    requires WellFormedPageContent(c)
    ensures TablesValid(menus, pages[i := c])
  {
    var pages' := pages[i := c];
    forall d | d in pages' ensures HasMenuItemId(menus, d.menuItemId) && WellFormedPageContent(d) {
      var k :| 0 <= k < |pages'| && pages'[k] == d;
      if k != i {
        assert pages[k] in pages;
      } else {
        assert pages[i] in pages;
      }
    }
  }

  /** The invariant admits two page contents for one menu item. */
  lemma SharedParentAllowed()
    ensures var home := MenuItem(1, "Home", "home", 0, true, 1, 1);
            var first := PageContent(1, 1, "Welcome", "", None, None, 2, 2);
            var second := PageContent(2, 1, "Welcome back", "", None, None, 3, 3);
            TablesValid([home], [first, second])
  {
    var home := MenuItem(1, "Home", "home", 0, true, 1, 1);
    assert [home][0] == home;
    assert HasMenuItemId([home], 1);
  }
}
