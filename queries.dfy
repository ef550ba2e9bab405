/** The three read handlers as queries over the two tables: `getMenuItems`,
    `getPageBySlug` and `getAllPages`. None of them changes a table. */
module Queries {
  import opened Wrappers
  import opened Sequences
  import opened DbSchema
  import opened InputSchema

  /** A row of `menu_items inner join page_contents`. */
  datatype JoinedRow = JoinedRow(menuItem: MenuItem, pageContent: PageContent)

  /** A joined row and a page data entry carry their menu item's order. */
  function MenuItemOrder(m: MenuItem): int { m.order }
  function RowOrder(row: JoinedRow): int { row.menuItem.order }
  function PageDataOrder(d: PageData): int { d.order }

  predicate IsActiveItem(m: MenuItem) { m.isActive }
  predicate IsActiveRow(row: JoinedRow) { row.menuItem.isActive }

  /** The joined rows of menu item `m`: one per page content that references
      it, in table order. */
  function RowsOf(m: MenuItem, pages: seq<PageContent>): (r: seq<JoinedRow>)
    ensures forall row :: row in r <==> row.menuItem == m && row.pageContent in pages && row.pageContent.menuItemId == m.id
  {
    if |pages| == 0 then []
    else
      assert pages == [pages[0]] + pages[1..];
      (if pages[0].menuItemId == m.id then [JoinedRow(m, pages[0])] else []) + RowsOf(m, pages[1..])
  }

  /** A joined row of `m` occurs no more often than its page content. */
  lemma {:induction false} RowsOfCount(m: MenuItem, pages: seq<PageContent>)
    ensures forall row :: multiset(RowsOf(m, pages))[row] <= multiset(pages)[row.pageContent]
  {
    if |pages| > 0 {
      assert pages == [pages[0]] + pages[1..];
      RowsOfCount(m, pages[1..]);
      var head := if pages[0].menuItemId == m.id then [JoinedRow(m, pages[0])] else [];
      assert RowsOf(m, pages) == head + RowsOf(m, pages[1..]);
      assert multiset(RowsOf(m, pages)) == multiset(head) + multiset(RowsOf(m, pages[1..]));
      assert multiset(pages) == multiset([pages[0]]) + multiset(pages[1..]);
    }
  }

  /** `menu_items inner join page_contents on menu_items.id =
      page_contents.menu_item_id`: exactly the matching pairs. */
  function InnerJoin(menus: seq<MenuItem>, pages: seq<PageContent>): (r: seq<JoinedRow>)
    ensures forall row :: row in r <==>
      row.menuItem in menus && row.pageContent in pages && row.pageContent.menuItemId == row.menuItem.id
  {
    if |menus| == 0 then []
    else
      assert menus == [menus[0]] + menus[1..];
      RowsOf(menus[0], pages) + InnerJoin(menus[1..], pages)
  }

  /** The `PageData` an entry of the join flattens to. */
  function ToPageData(row: JoinedRow): PageData {
    var m, c := row.menuItem, row.pageContent;
    PageData(c.id, m.id, m.name, m.slug, c.title, c.content,
             c.metaDescription, c.metaKeywords, m.isActive, m.order)
  }

  /** The `where slug = slug and is_active = true` of `getPageBySlug`. */
  function SlugMatch(slug: string): JoinedRow -> bool {
    (row: JoinedRow) => row.menuItem.slug == slug && row.menuItem.isActive
  }

  /** Menu item `m` and page content `c` form a row of the inner join. */
  ghost predicate Joins(menus: seq<MenuItem>, pages: seq<PageContent>, m: MenuItem, c: PageContent) {
    m in menus && c in pages && c.menuItemId == m.id
  }

  // ----- get_menu_items.ts -----

  /** The active menu items, ascending by `order`: a sorted permutation of the
      active rows of the table. */
  function GetMenuItems(menus: seq<MenuItem>): (r: seq<MenuItem>)
    ensures forall m :: m in r ==> m.isActive
    ensures forall m :: m in r <==> m in menus && m.isActive
    ensures forall m :: multiset(r)[m] == if m.isActive then multiset(menus)[m] else 0
    ensures SortedBy(r, MenuItemOrder)
  {
    var active := Filter(menus, IsActiveItem);
    FilterCount(menus, IsActiveItem);
    var r := SortBy(active, MenuItemOrder);
    assert forall m :: m in r <==> m in multiset(active);
    r
  }

  // ----- get_page_by_slug.ts -----

  /** The first joined row whose menu item has `input.slug` and is active,
      flattened; `None` when there is no such row. */
  function GetPageBySlug(menus: seq<MenuItem>, pages: seq<PageContent>, input: GetPageBySlugInput): (r: Option<PageData>)
    ensures r.None? <==> !(exists m, c :: Joins(menus, pages, m, c) && m.slug == input.slug && m.isActive)
    ensures r.Some? ==> exists m, c :: (Joins(menus, pages, m, c) && m.slug == input.slug && m.isActive
      && r.value == ToPageData(JoinedRow(m, c)))
    ensures r.Some? ==> r.value.slug == input.slug && r.value.isActive
  {
    var rows := SlugRows(menus, pages, input.slug);
    if |rows| == 0 then None else Some(ToPageData(rows[0]))
  }

  /** The rows `getPageBySlug` selects: `where slug = slug and is_active`. */
  function SlugRows(menus: seq<MenuItem>, pages: seq<PageContent>, slug: string): (rows: seq<JoinedRow>)
    ensures forall row :: row in rows <==>
      (Joins(menus, pages, row.menuItem, row.pageContent) && row.menuItem.slug == slug && row.menuItem.isActive)
    ensures forall m, c :: Joins(menus, pages, m, c) && m.slug == slug && m.isActive ==> JoinedRow(m, c) in rows
  {
    var rows := Filter(InnerJoin(menus, pages), SlugMatch(slug));
    assert forall m, c :: Joins(menus, pages, m, c) ==> JoinedRow(m, c) in InnerJoin(menus, pages);
    rows
  }

  // ----- get_all_pages.ts -----

  /** The joined rows of active menu items, ascending by the menu item's
      `order`, each flattened to `PageData`. */
  function GetAllPages(menus: seq<MenuItem>, pages: seq<PageContent>): (r: seq<PageData>)
    ensures forall d :: d in r ==> d.isActive
    ensures forall d :: d in r <==> exists m, c :: (Joins(menus, pages, m, c) && m.isActive
      && d == ToPageData(JoinedRow(m, c)))
    ensures SortedBy(r, PageDataOrder)
  {
    var rows := ActiveRowsByOrder(menus, pages);
    var r := seq(|rows|, i requires 0 <= i < |rows| => ToPageData(rows[i]));
    FlattenedRows(menus, pages, rows, r);
    r
  }

  /** What `results.map` keeps of the selected rows. */
  lemma FlattenedRows(menus: seq<MenuItem>, pages: seq<PageContent>, rows: seq<JoinedRow>, r: seq<PageData>)
    requires forall row :: row in rows <==>
      (Joins(menus, pages, row.menuItem, row.pageContent) && row.menuItem.isActive)
    requires SortedBy(rows, RowOrder)
    requires |r| == |rows| && forall i :: 0 <= i < |rows| ==> r[i] == ToPageData(rows[i])
    ensures forall d :: d in r ==> d.isActive
    ensures forall d :: d in r <==> exists m, c :: (Joins(menus, pages, m, c) && m.isActive
      && d == ToPageData(JoinedRow(m, c)))
    ensures SortedBy(r, PageDataOrder)
  {
    forall d | d in r
      ensures exists m, c :: Joins(menus, pages, m, c) && m.isActive && d == ToPageData(JoinedRow(m, c))
    {
      var i :| 0 <= i < |r| && r[i] == d;
      assert rows[i] in rows;
      var m, c := rows[i].menuItem, rows[i].pageContent;
      assert Joins(menus, pages, m, c) && m.isActive && d == ToPageData(JoinedRow(m, c));
    }
    forall m, c | Joins(menus, pages, m, c) && m.isActive ensures ToPageData(JoinedRow(m, c)) in r {
      assert JoinedRow(m, c) in rows;
      var i :| 0 <= i < |rows| && rows[i] == JoinedRow(m, c);
      assert r[i] == ToPageData(JoinedRow(m, c));
    }
    forall i, j | 0 <= i < j < |r| ensures PageDataOrder(r[i]) <= PageDataOrder(r[j]) {
      assert RowOrder(rows[i]) <= RowOrder(rows[j]);
    }
  }

  /** The rows `getAllPages` selects, in its order: `where is_active order by
      order asc`. */
  function ActiveRowsByOrder(menus: seq<MenuItem>, pages: seq<PageContent>): (rows: seq<JoinedRow>)
    ensures forall row :: row in rows <==>
      (Joins(menus, pages, row.menuItem, row.pageContent) && row.menuItem.isActive)
    ensures forall m, c :: Joins(menus, pages, m, c) && m.isActive ==> JoinedRow(m, c) in rows
    ensures SortedBy(rows, RowOrder)
    ensures forall row :: multiset(rows)[row] <= multiset(InnerJoin(menus, pages))[row]
  {
    var join := InnerJoin(menus, pages);
    var active := Filter(join, IsActiveRow);
    FilterCount(join, IsActiveRow);
    var rows := SortBy(active, RowOrder);
    assert multiset(rows) == multiset(active);
    assert forall row :: multiset(active)[row] <= multiset(join)[row];
    assert forall row :: row in rows <==> row in multiset(active);
    assert forall m, c :: Joins(menus, pages, m, c) ==> JoinedRow(m, c) in join;
    rows
  }

  // ----- properties of the join and the read paths -----

  /** With primary keys on both tables, no pair occurs twice in the join. */
  lemma {:induction false} JoinAtMostOnce(menus: seq<MenuItem>, pages: seq<PageContent>)
    requires UniqueMenuItemIds(menus) && UniquePageContentIds(pages)
    ensures AtMostOnce(InnerJoin(menus, pages))
  {
    if |menus| > 0 {
      var rest := menus[1..];
      assert UniqueMenuItemIds(rest) by {
        forall i, j | 0 <= i < |rest| && 0 <= j < |rest| && i != j ensures rest[i].id != rest[j].id {
          assert rest[i] == menus[i + 1] && rest[j] == menus[j + 1];
        }
      }
      JoinAtMostOnce(rest, pages);
      assert DistinctPositions(pages);
      DistinctAtMostOnce(pages);
      assert menus[0] !in rest by {
        forall k | 0 <= k < |rest| ensures rest[k] != menus[0] {
          assert rest[k] == menus[k + 1];
        }
      }
      var join := InnerJoin(menus, pages);
      RowsOfCount(menus[0], pages);
      assert join == RowsOf(menus[0], pages) + InnerJoin(rest, pages);
      forall row ensures multiset(join)[row] <= 1 {
        assert multiset(join)[row] == multiset(RowsOf(menus[0], pages))[row] + multiset(InnerJoin(rest, pages))[row];
      }
    }
  }

  /** Distinct rows of the join flatten to distinct entries. */
  lemma ToPageDataInjective(menus: seq<MenuItem>, pages: seq<PageContent>, a: JoinedRow, b: JoinedRow)
    requires UniqueMenuItemIds(menus) && UniquePageContentIds(pages)
    requires Joins(menus, pages, a.menuItem, a.pageContent) && Joins(menus, pages, b.menuItem, b.pageContent)
    ensures a != b ==> ToPageData(a) != ToPageData(b)
  {
    var ia :| 0 <= ia < |menus| && menus[ia] == a.menuItem;
    var ib :| 0 <= ib < |menus| && menus[ib] == b.menuItem;
    var ja :| 0 <= ja < |pages| && pages[ja] == a.pageContent;
    var jb :| 0 <= jb < |pages| && pages[jb] == b.pageContent;
  }

  /** `getAllPages` lists each (active menu item, page content) pair once:
      together with its membership contract, its entries correspond one to
      one with the pairs. */
  lemma GetAllPagesNoDuplicates(menus: seq<MenuItem>, pages: seq<PageContent>)
    requires UniqueMenuItemIds(menus) && UniquePageContentIds(pages)
    ensures DistinctPositions(GetAllPages(menus, pages))
  {
    var rows := ActiveRowsByOrder(menus, pages);
    JoinAtMostOnce(menus, pages);
    assert AtMostOnce(rows);
    AtMostOnceDistinct(rows);
    var r := GetAllPages(menus, pages);
    forall i, j | 0 <= i < j < |r| ensures r[i] != r[j] {
      assert rows[i] in rows && rows[j] in rows;
      ToPageDataInjective(menus, pages, rows[i], rows[j]);
    }
  }

  /** Among menu items no two of which share a slug, the rows selected for
      the slug of an active item `m` are exactly `m`'s joined rows. */
  lemma {:induction false} SlugRowsOfItem(ms: seq<MenuItem>, pages: seq<PageContent>, m: MenuItem)
    requires UniqueSlugs(ms) && m in ms && m.isActive
    ensures Filter(InnerJoin(ms, pages), SlugMatch(m.slug)) == RowsOf(m, pages)
  {
    var p := SlugMatch(m.slug);
    var rest := ms[1..];
    var head := RowsOf(ms[0], pages);
    var tailJoin := InnerJoin(rest, pages);
    assert InnerJoin(ms, pages) == head + tailJoin;
    FilterAppend(head, tailJoin, p);
    if ms[0] == m {
      assert forall row :: row in head ==> p(row);
      FilterAllOrNone(head, p);
      RestHasNoSlug(ms, m);
      assert forall row :: row in tailJoin ==> row.menuItem in rest;
      assert forall row :: row in tailJoin ==> !p(row);
      FilterAllOrNone(tailJoin, p);
    } else {
      assert ms[0].slug != m.slug by {
        var k :| 0 <= k < |ms| && ms[k] == m;
        assert k != 0;
      }
      assert forall row :: row in head ==> !p(row);
      FilterAllOrNone(head, p);
      UniqueSlugsTail(ms);
      assert m in rest by {
        var k :| 0 <= k < |ms| && ms[k] == m;
        assert rest[k - 1] == m;
      }
      SlugRowsOfItem(rest, pages, m);
    }
  }

  /** Dropping the first menu item keeps the slugs unique. */
  lemma UniqueSlugsTail(ms: seq<MenuItem>)
    requires UniqueSlugs(ms) && |ms| > 0
    ensures UniqueSlugs(ms[1..])
  {
    var rest := ms[1..];
    forall i, j | 0 <= i < |rest| && 0 <= j < |rest| && i != j ensures rest[i].slug != rest[j].slug {
      assert rest[i] == ms[i + 1] && rest[j] == ms[j + 1];
    }
  }

  /** With unique slugs, no later menu item carries the first one's slug. */
  lemma RestHasNoSlug(ms: seq<MenuItem>, m: MenuItem)
    requires UniqueSlugs(ms) && |ms| > 0 && ms[0] == m
    ensures forall x :: x in ms[1..] ==> x.slug != m.slug
  {
    forall x | x in ms[1..] ensures x.slug != m.slug {
      var k :| 0 <= k < |ms[1..]| && ms[1..][k] == x;
      assert ms[k + 1] == x;
    }
  }

  /** The first joined row of `m` holds the earliest page content that
      references `m`. */
  lemma {:induction false} RowsOfFirst(m: MenuItem, pages: seq<PageContent>) returns (j: nat)
    requires |RowsOf(m, pages)| > 0
    ensures j < |pages| && RowsOf(m, pages)[0] == JoinedRow(m, pages[j])
    ensures forall k :: 0 <= k < j ==> pages[k].menuItemId != m.id
  {
    var tail := pages[1..];
    if pages[0].menuItemId == m.id {
      assert RowsOf(m, pages) == [JoinedRow(m, pages[0])] + RowsOf(m, tail);
      j := 0;
    } else {
      assert RowsOf(m, pages) == [] + RowsOf(m, tail);
      var i := RowsOfFirst(m, tail);
      j := i + 1;
      assert pages[j] == tail[i];
      forall k | 0 <= k < j ensures pages[k].menuItemId != m.id {
        if k > 0 { assert pages[k] == tail[k - 1]; }
      }
    }
  }

  /** Under the table invariant, a found page belongs to the one menu item
      that holds the slug, and is its earliest page content. */
  lemma GetPageBySlugFirstContent(menus: seq<MenuItem>, pages: seq<PageContent>, input: GetPageBySlugInput)
    requires TablesValid(menus, pages)
    ensures var r := GetPageBySlug(menus, pages, input);
      r.Some? ==> ((forall m :: m in menus && m.slug == input.slug ==> r.value.menuItemId == m.id) &&
        exists j :: (0 <= j < |pages| && pages[j].id == r.value.id && pages[j].menuItemId == r.value.menuItemId &&
          forall k :: 0 <= k < j ==> pages[k].menuItemId != r.value.menuItemId))
  {
    var r := GetPageBySlug(menus, pages, input);
    if r.Some? {
      var m, c :| Joins(menus, pages, m, c) && m.slug == input.slug && m.isActive && r.value == ToPageData(JoinedRow(m, c));
      forall m' | m' in menus && m'.slug == input.slug ensures m'.id == m.id {
        var a :| 0 <= a < |menus| && menus[a] == m;
        var b :| 0 <= b < |menus| && menus[b] == m';
        assert a == b;
      }
      SlugRowsOfItem(menus, pages, m);
      var rows := SlugRows(menus, pages, input.slug);
      assert rows == RowsOf(m, pages);
      var j := RowsOfFirst(m, pages);
      assert pages[j].id == r.value.id;
    }
  }

  /** An inactive menu item is hidden from every read path: it is not listed
      by `getMenuItems`, no `getAllPages` entry points to it, and its slug
      finds no page. */
  lemma InactiveItemHidden(menus: seq<MenuItem>, pages: seq<PageContent>, i: nat)
    requires UniqueMenuItemIds(menus) && UniqueSlugs(menus)
    requires i < |menus| && !menus[i].isActive
    ensures forall m :: m in GetMenuItems(menus) ==> m.id != menus[i].id
    ensures forall d :: d in GetAllPages(menus, pages) ==> d.menuItemId != menus[i].id
    ensures GetPageBySlug(menus, pages, GetPageBySlugInput(menus[i].slug)).None?
  {
    forall m | m in menus && m.id == menus[i].id ensures !m.isActive {
      var k :| 0 <= k < |menus| && menus[k] == m;
      assert k == i;
    }
    forall m | m in menus && m.slug == menus[i].slug ensures !m.isActive {
      var k :| 0 <= k < |menus| && menus[k] == m;
      assert k == i;
    }
  }

  /** When the active menu items have pairwise different orders,
      `getMenuItems` lists them in strictly ascending order. */
  lemma GetMenuItemsStrictlyAscending(menus: seq<MenuItem>)
    requires UniqueMenuItemIds(menus)
    requires forall a, b :: a in menus && b in menus && a.isActive && b.isActive && a != b ==> a.order != b.order
    ensures var r := GetMenuItems(menus);
      forall i, j :: 0 <= i < j < |r| ==> r[i].order < r[j].order
  {
    var r := GetMenuItems(menus);
    assert DistinctPositions(menus);
    DistinctAtMostOnce(menus);
    assert AtMostOnce(r);
    AtMostOnceDistinct(r);
    forall i, j | 0 <= i < j < |r| ensures r[i].order < r[j].order {
      assert r[i] in r && r[j] in r;
      assert MenuItemOrder(r[i]) <= MenuItemOrder(r[j]);
    }
  }

  /** With no active menu item (an empty store in particular) both listing
      queries return the empty sequence, never anything else. */
  lemma NothingActiveNothingListed(menus: seq<MenuItem>, pages: seq<PageContent>)
    requires forall m :: m in menus ==> !m.isActive
    ensures GetMenuItems(menus) == []
    ensures GetAllPages(menus, pages) == []
  {
    FilterAllOrNone(menus, IsActiveItem);
    var join := InnerJoin(menus, pages);
    assert forall row :: row in join ==> !IsActiveRow(row);
    FilterAllOrNone(join, IsActiveRow);
    assert ActiveRowsByOrder(menus, pages) == [];
  }

  /** Stored slugs are non-empty, so the empty slug, which the input schema
      rejects, would find no page anyway. */
  lemma EmptySlugFindsNothing(menus: seq<MenuItem>, pages: seq<PageContent>)
    requires TablesValid(menus, pages)
    ensures GetPageBySlug(menus, pages, GetPageBySlugInput("")).None?
  {
  }
}
