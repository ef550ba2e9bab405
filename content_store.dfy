/** The content store the mutating handlers write to: the two tables, the
    `serial` counters that hand out primary keys, and an abstract clock that
    stands for `new Date()` / `now()` and advances on every write. */
module ContentStore {
  import opened Wrappers
  import opened DbSchema
  import opened InputSchema

  class Store {
    var menuItems: seq<MenuItem>
    var pageContents: seq<PageContent>
    var nextMenuItemId: int
    var nextPageContentId: int
    var clock: nat

    /** The table invariant, keys below their counters, and no row stamped
        after the current clock reading. */
    ghost predicate Valid()
      reads this
    {
      && TablesValid(menuItems, pageContents)
      && 1 <= nextMenuItemId && 1 <= nextPageContentId
      && (forall m :: m in menuItems ==> 1 <= m.id < nextMenuItemId && m.updatedAt <= clock)
      && (forall c :: c in pageContents ==> 1 <= c.id < nextPageContentId && c.updatedAt <= clock)
    }

    /** An empty database whose `serial` sequences start at 1. */
    constructor ()
      ensures Valid()
      ensures menuItems == [] && pageContents == []
      ensures nextMenuItemId == 1 && nextPageContentId == 1 && clock == 0
    {
      menuItems, pageContents := [], [];
      nextMenuItemId, nextPageContentId := 1, 1;
      clock := 0;
    }

    /** `createMenuItem`: a slug held by any menu item is a conflict and
        nothing is written; otherwise one row carrying the input is appended. */
    method CreateMenuItem(input: CreateMenuItemInput) returns (r: Result<MenuItem>)
      requires Valid() && ValidCreateMenuItemInput(input)
      modifies this
      ensures Valid()
      ensures r.Err? <==> SlugTaken(old(menuItems), input.slug)
      ensures r.Err? ==> r.error == Conflict && unchanged(this)
      ensures r.Ok? ==>
        && r.value.name == input.name && r.value.slug == input.slug
        && r.value.order == input.order && r.value.isActive == ActiveFlag(input)
        && r.value.id == old(nextMenuItemId) && !HasMenuItemId(old(menuItems), r.value.id)
        && clock == old(clock) + 1 && r.value.createdAt == clock && r.value.updatedAt == clock
        && menuItems == old(menuItems) + [r.value]
        && pageContents == old(pageContents)
        && nextMenuItemId == old(nextMenuItemId) + 1 && nextPageContentId == old(nextPageContentId)
    {
      if SlugTaken(menuItems, input.slug) {
        return Err(Conflict);
      }
      clock := clock + 1;
      var item := MenuItem(nextMenuItemId, input.name, input.slug, input.order, ActiveFlag(input), clock, clock);
      InsertMenuItemKeepsValid(menuItems, pageContents, item);
      menuItems := menuItems + [item];
      nextMenuItemId := nextMenuItemId + 1;
      r := Ok(item);
    }

    /** `updateMenuItem`: an unknown id is not found; a supplied slug that a
        different menu item holds is a conflict; in both cases nothing is
        written. Otherwise the row is overwritten in place: the supplied
        fields take the input's values, the others keep theirs, and
        `updatedAt` is stamped with the advanced clock. */
    method UpdateMenuItem(input: UpdateMenuItemInput) returns (r: Result<MenuItem>)
      requires Valid() && ValidUpdateMenuItemInput(input)
      modifies this
      ensures Valid()
      ensures r == Err(NotFound) <==> !HasMenuItemId(old(menuItems), input.id)
      ensures r == Err(Conflict) <==>
        HasMenuItemId(old(menuItems), input.id) && input.slug.Some? &&
        SlugHeldByOther(old(menuItems), input.slug.value, input.id)
      ensures r.Ok? <==> (HasMenuItemId(old(menuItems), input.id) &&
        !(input.slug.Some? && SlugHeldByOther(old(menuItems), input.slug.value, input.id)))
      ensures r.Err? ==> unchanged(this)
      ensures (exists m :: m in old(menuItems) && m.id == input.id && input.slug == Some(m.slug)) ==> r.Ok?
      ensures r.Ok? ==>
        var i := IndexOfMenuItem(old(menuItems), input.id).value;
        var was := old(menuItems)[i];
        && r.value.id == was.id == input.id
        && r.value.name == input.name.GetOr(was.name)
        && r.value.slug == input.slug.GetOr(was.slug)
        && r.value.order == input.order.GetOr(was.order)
        && r.value.isActive == input.isActive.GetOr(was.isActive)
        && r.value.createdAt == was.createdAt
        && clock == old(clock) + 1 && r.value.updatedAt == clock && r.value.updatedAt > was.updatedAt
        && menuItems == old(menuItems)[i := r.value]
        && pageContents == old(pageContents)
        && nextMenuItemId == old(nextMenuItemId) && nextPageContentId == old(nextPageContentId)
    {
      var found := IndexOfMenuItem(menuItems, input.id);
      if found.None? {
        return Err(NotFound);
      }
      var i := found.value;
      OwnSlugNotHeldByOther(menuItems, i);
      // `if (input.slug)` tests truthiness; a valid input never supplies "".
      if input.slug.Some? && input.slug.value != "" {
        if SlugHeldByOther(menuItems, input.slug.value, input.id) {
          return Err(Conflict);
        }
      }
      assert menuItems[i] in menuItems;
      clock := clock + 1;
      // Only the supplied fields are written; `updatedAt` always is.
      var was := menuItems[i];
      var updated := was.(name := input.name.GetOr(was.name), slug := input.slug.GetOr(was.slug),
                          order := input.order.GetOr(was.order),
                          isActive := input.isActive.GetOr(was.isActive), updatedAt := clock);
      ReplaceMenuItemKeepsValid(menuItems, pageContents, i, updated);
      menuItems := menuItems[i := updated];
      r := Ok(updated);
    }

    /** `createPageContent`: a `menuItemId` that names no menu item (active or
        not) is not found and nothing is written; otherwise one row is
        appended, whose meta fields are null when absent, null or empty. */
    method CreatePageContent(input: CreatePageContentInput) returns (r: Result<PageContent>)
      requires Valid() && ValidCreatePageContentInput(input)
      modifies this
      ensures Valid()
      ensures r.Err? <==> !HasMenuItemId(old(menuItems), input.menuItemId)
      ensures r.Err? ==> r.error == NotFound && unchanged(this)
      ensures r.Ok? ==>
        && r.value.menuItemId == input.menuItemId
        && r.value.title == input.title && r.value.content == input.content
        && r.value.metaDescription == NullIfFalsy(input.metaDescription)
        && r.value.metaKeywords == NullIfFalsy(input.metaKeywords)
        && r.value.id == old(nextPageContentId)
        && (forall c :: c in old(pageContents) ==> c.id != r.value.id)
        && clock == old(clock) + 1 && r.value.createdAt == clock && r.value.updatedAt == clock
        && pageContents == old(pageContents) + [r.value]
        && menuItems == old(menuItems)
        && nextMenuItemId == old(nextMenuItemId) && nextPageContentId == old(nextPageContentId) + 1
    {
      if !HasMenuItemId(menuItems, input.menuItemId) {
        return Err(NotFound);
      }
      clock := clock + 1;
      var content := PageContent(nextPageContentId, input.menuItemId, input.title, input.content,
                                 NullIfFalsy(input.metaDescription), NullIfFalsy(input.metaKeywords),
                                 clock, clock);
      InsertPageContentKeepsValid(menuItems, pageContents, content);
      pageContents := pageContents + [content];
      nextPageContentId := nextPageContentId + 1;
      r := Ok(content);
    }

    /** `updatePageContent`: an id that names no page content is not found and
        nothing is written. Otherwise the row is overwritten in place: a
        supplied title or content replaces the old one, a meta field that is
        absent keeps its value, `null` clears it and a string replaces it; the
        id and the parent never change, and `updatedAt` is stamped with the
        advanced clock. */
    method UpdatePageContent(input: UpdatePageContentInput) returns (r: Result<PageContent>)
      requires Valid() && ValidUpdatePageContentInput(input)
      modifies this
      ensures Valid()
      ensures r.Err? <==> !(exists c :: c in old(pageContents) && c.id == input.id)
      ensures r.Err? ==> r.error == NotFound && unchanged(this)
      ensures r.Ok? ==>
        var i := IndexOfPageContent(old(pageContents), input.id).value;
        var was := old(pageContents)[i];
        && r.value.id == was.id == input.id
        && r.value.menuItemId == was.menuItemId
        && r.value.title == input.title.GetOr(was.title)
        && r.value.content == input.content.GetOr(was.content)
        && r.value.metaDescription == ApplyNullable(input.metaDescription, was.metaDescription)
        && r.value.metaKeywords == ApplyNullable(input.metaKeywords, was.metaKeywords)
        && r.value.createdAt == was.createdAt
        && clock == old(clock) + 1 && r.value.updatedAt == clock && r.value.updatedAt > was.updatedAt
        && pageContents == old(pageContents)[i := r.value]
        && menuItems == old(menuItems)
        && nextMenuItemId == old(nextMenuItemId) && nextPageContentId == old(nextPageContentId)
    {
      var found := IndexOfPageContent(pageContents, input.id);
      if found.None? {
        return Err(NotFound);
      }
      var i := found.value;
      assert pageContents[i] in pageContents;
      clock := clock + 1;
      // Only the supplied fields are written; `updatedAt` always is.
      var was := pageContents[i];
      var updated := was.(title := input.title.GetOr(was.title), content := input.content.GetOr(was.content),
                          metaDescription := ApplyNullable(input.metaDescription, was.metaDescription),
                          metaKeywords := ApplyNullable(input.metaKeywords, was.metaKeywords),
                          updatedAt := clock);
      ReplacePageContentKeepsValid(menuItems, pageContents, i, updated);
      pageContents := pageContents[i := updated];
      r := Ok(updated);
    }
  }
}
