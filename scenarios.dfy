/** A client of the store: the home-page walk-through. A menu item "Home" and
    its content are created, the page is read by slug, the item is
    deactivated, and every read path then hides it while its row stays. */
module Scenarios {
  import opened Wrappers
  import opened DbSchema
  import opened InputSchema
  import opened Queries
  import opened ContentStore

  /** One active menu item with one page content: its slug finds the page. */
  lemma OnePageShown(m: MenuItem, c: PageContent)
    requires c.menuItemId == m.id && m.isActive
    ensures GetPageBySlug([m], [c], GetPageBySlugInput(m.slug)) == Some(ToPageData(JoinedRow(m, c)))
  {
    assert Joins([m], [c], m, c);
  }

  /** One inactive menu item with one page content: every read path is empty. */
  lemma OneInactiveItemHidden(m: MenuItem, c: PageContent)
    requires !m.isActive
    ensures GetPageBySlug([m], [c], GetPageBySlugInput(m.slug)).None?
    ensures GetMenuItems([m]) == []
    ensures GetAllPages([m], [c]) == []
  {
    NothingActiveNothingListed([m], [c]);
  }

  /** Creates "Home" and its content in an empty store and reads the page. */
  method PublishHome() returns (store: Store, shown: Option<PageData>)
    ensures fresh(store) && store.Valid()
    ensures |store.menuItems| == 1 && |store.pageContents| == 1
    ensures var home := store.menuItems[0];
      home.id == 1 && home.name == "Home" && home.slug == "home" && home.order == 0 && home.isActive
    ensures store.pageContents[0] == PageContent(1, 1, "Welcome", "Hi", None, None,
      store.pageContents[0].createdAt, store.pageContents[0].updatedAt)
    ensures shown == Some(PageData(1, 1, "Home", "home", "Welcome", "Hi", None, None, true, 0))
  {
    store := new Store();
    var item := store.CreateMenuItem(CreateMenuItemInput("Home", "home", 0, None));
    assert item.Ok?;
    var home := item.value;
    assert store.menuItems == [home];

    var page := store.CreatePageContent(CreatePageContentInput(1, "Welcome", "Hi", None, None));
    assert home in [home];
    assert page.Ok?;
    var content := page.value;
    assert store.pageContents == [content];

    OnePageShown(home, content);
    shown := GetPageBySlug(store.menuItems, store.pageContents, GetPageBySlugInput("home"));
  }

  /** Two menu items created in a new store take the serial ids 1 and 2. */
  method TwoItemsTakeConsecutiveIds() returns (first: Result<MenuItem>, second: Result<MenuItem>)
    ensures first.Ok? && first.value.id == 1
    ensures second.Ok? && second.value.id == 2
  {
    var store := new Store();
    first := store.CreateMenuItem(CreateMenuItemInput("Home", "home", 0, None));
    assert store.menuItems == [first.value];
    second := store.CreateMenuItem(CreateMenuItemInput("About", "about", 1, None));
  }

  /** The walk-through: the published page is found by its slug; after the
      menu item is deactivated its row remains but no read path shows it. */
  method HomePageScenario() returns (shown: Option<PageData>, hidden: Option<PageData>,
                                     listed: seq<MenuItem>, allPages: seq<PageData>, rows: nat)
    ensures shown == Some(PageData(1, 1, "Home", "home", "Welcome", "Hi", None, None, true, 0))
    ensures hidden == None
    ensures listed == [] && allPages == []
    ensures rows == 1
  {
    var store;
    store, shown := PublishHome();
    var content := store.pageContents[0];
    assert store.pageContents == [content];
    assert HasMenuItemId(store.menuItems, 1) by {
      assert store.menuItems[0] in store.menuItems;
    }
    assert IndexOfMenuItem(store.menuItems, 1) == Some(0);
    var off := store.UpdateMenuItem(UpdateMenuItemInput(1, None, None, None, Some(false)));
    assert off.Ok?;
    var hiddenHome := off.value;
    assert store.menuItems == [hiddenHome];
    assert !hiddenHome.isActive && hiddenHome.slug == "home";
    OneInactiveItemHidden(hiddenHome, content);
    hidden := GetPageBySlug(store.menuItems, store.pageContents, GetPageBySlugInput("home"));
    listed := GetMenuItems(store.menuItems);
    allPages := GetAllPages(store.menuItems, store.pageContents);
    rows := |store.menuItems|;
  }
}
