/** The handlers' input shapes and the zod rules the RPC layer checks before a
    handler runs, plus the flattened read model `PageData`.

    A field marked `optional()` is an `Option` (`None` = absent). A meta field
    that is both `nullable()` and `optional()` has three states, written
    `Option<Option<string>>`: `None` = absent, `Some(None)` = `null`,
    `Some(Some(s))` = the string `s`. */
module InputSchema {
  import opened Wrappers

  datatype CreateMenuItemInput = CreateMenuItemInput(
    name: string,
    slug: string,
    order: int,
    isActive: Option<bool>)   // `default(true)` when absent

  datatype UpdateMenuItemInput = UpdateMenuItemInput(
    id: int,
    name: Option<string>,
    slug: Option<string>,
    order: Option<int>,
    isActive: Option<bool>)

  datatype CreatePageContentInput = CreatePageContentInput(
    menuItemId: int,
    title: string,
    content: string,
    metaDescription: Option<Option<string>>,
    metaKeywords: Option<Option<string>>)

  datatype UpdatePageContentInput = UpdatePageContentInput(
    id: int,
    title: Option<string>,
    content: Option<string>,
    metaDescription: Option<Option<string>>,
    metaKeywords: Option<Option<string>>)

  datatype GetPageBySlugInput = GetPageBySlugInput(slug: string)

  /** A menu item joined with one of its page contents; `id` is the page
      content's id, `menuItemId` the menu item's. */
  datatype PageData = PageData(
    id: int,
    menuItemId: int,
    name: string,
    slug: string,
    title: string,
    content: string,
    metaDescription: Option<string>,
    metaKeywords: Option<string>,
    isActive: bool,
    order: int)

  // ----- the zod rules -----

  /** `name` and `slug` are `min(1)`, `order` is `int().nonnegative()`. */
  predicate ValidCreateMenuItemInput(input: CreateMenuItemInput) {
    |input.name| >= 1 && |input.slug| >= 1 && input.order >= 0
  }

  /** Only `id` is required; a field that is present obeys its create rule. */
  predicate ValidUpdateMenuItemInput(input: UpdateMenuItemInput) {
    && (input.name.Some? ==> |input.name.value| >= 1)
    && (input.slug.Some? ==> |input.slug.value| >= 1)
    && (input.order.Some? ==> input.order.value >= 0)
  }

  /** `title` is `min(1)`; `content` may be empty; the meta fields are free. */
  predicate ValidCreatePageContentInput(input: CreatePageContentInput) {
    |input.title| >= 1
  }

  /** A present `title` is `min(1)`; everything else is free. */
  predicate ValidUpdatePageContentInput(input: UpdatePageContentInput) {
    input.title.Some? ==> |input.title.value| >= 1
  }

  /** `slug` is `min(1)`. */
  predicate ValidGetPageBySlugInput(input: GetPageBySlugInput) {
    |input.slug| >= 1
  }

  /** The `is_active` a create input stands for once zod has filled in its
      default. */
  function ActiveFlag(input: CreateMenuItemInput): (active: bool)
    ensures input.isActive == Some(false) <==> !active
  {
    input.isActive.GetOr(true)
  }

  /** JavaScript's `value || null` on a three-state meta field: absent, `null`
      and the empty string (which is falsy) all become `null`. */
  function NullIfFalsy(field: Option<Option<string>>): (stored: Option<string>)
    ensures stored.None? <==> field.None? || field.value.None? || field.value.value == ""
    ensures stored.Some? ==> field == Some(stored) && stored.value != ""
  {
    match field
    case Some(Some(s)) => if s == "" then None else Some(s)
    case _ => None
  }

  /** The three states of an update's meta field applied to the stored value:
      absent keeps it, `null` clears it, a string replaces it. */
  function ApplyNullable(field: Option<Option<string>>, current: Option<string>): (next: Option<string>)
    ensures field.None? ==> next == current
    ensures field == Some(None) ==> next.None?
    ensures forall s :: field == Some(Some(s)) ==> next == Some(s)
  {
    match field
    case None => current
    case Some(v) => v
  }
}
