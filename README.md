# Simple menu website: content store model

The server of the simple menu website keeps two tables. `menu_items` holds the
navigation entries: name, unique slug, display order and an active flag.
`page_contents` holds the page for a menu item: title, body and two nullable
meta fields. A foreign key ties each page content to its menu item.

The server has seven handlers. Four of them write:
- `createMenuItem` refuses a slug that is already taken.
- `updateMenuItem` refuses an unknown id or a slug that another item holds.
- `createPageContent` refuses an unknown parent.
- `updatePageContent` refuses an unknown id.

Three of them read:
- `getMenuItems` lists the active items by order.
- `getPageBySlug` returns the first joined page of an active item with that slug, or null.
- `getAllPages` lists every joined page of an active item by the item's order.

This project models those tables and handlers in Dafny and proves what they
promise.

Modules:

- `Wrappers`: `Option` and the two error kinds the handlers raise. `NotFound` covers an unknown id or parent. `Conflict` covers a duplicate slug.
- `Sequences`: generic filtering and a stable insertion sort by an integer key. Lemmas cover membership, multiplicity and sortedness.
- `DbSchema`: the two row types and the `select ... where` lookups. It also holds the table invariant `TablesValid` and lemmas showing that each kind of write keeps it. The invariant is made of the primary keys, the unique slug, the foreign key, the `notNull` and zod rules, and, on the model's abstract clock, no update stamped before its row's creation.
- `InputSchema`: the zod input records and their validity rules, plus the joined `PageData` record. Two helpers model the three-state meta fields (absent, `null`, a string): one handles the `|| null` of creation, the other the `!== undefined` of update.
- `Queries`: the inner join and the three read handlers as functions of the two tables, with lemmas about them.
- `ContentStore`: class `Store`. It owns both tables, the two serial counters and a clock. Each write handler is a method that changes the store in place. Every method preserves `Valid()` and states the whole new state, the counters and the clock included.
- `Scenarios`: a home-page walk-through written as a client of the store's methods. It exercises the behaviour the `getPageBySlug` tests check: an active item's page is found, and an inactive item's is not. A second client shows that serial ids are handed out in sequence.

How the source is encoded:
- A timestamp is a reading of an abstract clock. The clock advances on every successful write.
- A serial id comes from a counter that starts at 1.
- A nullable column is an `Option`.
- An optional input field is an `Option`. An optional *and* nullable one is an `Option<Option<string>>`: `None` means absent, `Some(None)` means `null`.

## Model

| member | source | states |
|---|---|---|
| Sequences.Filter | server/src/handlers/get_menu_items.ts:9-11 | the `where` keeps exactly the elements that pass the test, and never more elements than the input has |
| Sequences.FilterCount | server/src/handlers/get_menu_items.ts:9-11 | each element that passes keeps its multiplicity; each that fails occurs zero times |
| Sequences.Insert | server/src/handlers/get_menu_items.ts:12 | inserting into a sorted sequence keeps it sorted and adds exactly one copy of the element |
| Sequences.SortBy | server/src/handlers/get_menu_items.ts:12 | `order by ... asc`: the result is sorted by the key, is a permutation of the input and has the same length |
| Sequences.AtMostOnceDistinct | server/src/db/schema.ts:6 | a sequence with no element repeated has distinct elements at distinct positions |
| Sequences.DistinctAtMostOnce | server/src/db/schema.ts:6 | the converse: distinct positions hold distinct elements, so no element repeats |
| Sequences.FilterAppend | server/src/handlers/get_page_by_slug.ts:13-18 | filtering a concatenation is the concatenation of the filtered parts |
| Sequences.FilterAllOrNone | server/src/handlers/get_page_by_slug.ts:13-18 | a filter that passes every element returns its input; one that passes none returns the empty sequence |
| DbSchema.HasMenuItemId | server/src/handlers/create_page_content.ts:10-13 | `select from menu_items where id = ?` returns a row: some stored item has that id |
| DbSchema.SlugTaken | server/src/handlers/create_menu_item.ts:10-13 | `select from menu_items where slug = ?` returns a row: some stored item has that slug |
| DbSchema.SlugHeldByOther | server/src/handlers/update_menu_item.ts:21-29 | `where slug = ? and id <> ?` returns a row: an item other than the one being updated holds the slug |
| DbSchema.UniqueMenuItemIds | server/src/db/schema.ts:6 | `id` is the primary key of `menu_items`: no two rows share it |
| DbSchema.UniqueSlugs | server/src/db/schema.ts:8 | `slug` is `unique()`: no two menu items share it |
| DbSchema.UniquePageContentIds | server/src/db/schema.ts:16 | `id` is the primary key of `page_contents`: no two rows share it |
| DbSchema.ReferencesExist | server/src/db/schema.ts:17 | every `menu_item_id` names a stored menu item; several contents may name the same one |
| DbSchema.WellFormedMenuItem | server/src/schema.ts:32-37 | a stored menu item has a non-empty name and slug and a non-negative order, as creation and update admit; its update is not stamped before its creation |
| DbSchema.WellFormedPageContent | server/src/schema.ts:53-59 | a stored page content has a non-empty title; its update is not stamped before its creation |
| DbSchema.TablesValid | server/src/db/schema.ts:5-24 | the table invariant: both primary keys, the unique slug, the foreign key, and well-formed rows |
| DbSchema.IndexOfMenuItem | server/src/handlers/update_menu_item.ts:10-17 | `where id = input.id` finds a row exactly when one exists; the result is the first such position |
| DbSchema.IndexOfPageContent | server/src/handlers/update_page_content.ts:28-36 | the same lookup for page contents, which decides whether the update is not found |
| DbSchema.OwnSlugNotHeldByOther | server/src/handlers/update_menu_item.ts:20-33 | with unique slugs, resubmitting an item's own slug never fails the `slug = ? and id <> ?` check |
| DbSchema.InsertMenuItemKeepsValid | server/src/db/schema.ts:5-13 | appending an item with a fresh id, a free slug and well-formed fields keeps keys, unique slug and foreign key |
| DbSchema.ReplaceMenuItemKeepsValid | server/src/db/schema.ts:5-13 | overwriting an item in place, keeping its id and with a slug no other item holds, keeps the invariant |
| DbSchema.InsertPageContentKeepsValid | server/src/db/schema.ts:15-24 | appending content with a fresh id and an existing parent keeps the invariant, even when the parent already has content |
| DbSchema.ReplacePageContentKeepsValid | server/src/db/schema.ts:15-24 | overwriting content in place, keeping its id and parent, keeps the invariant |
| DbSchema.SharedParentAllowed | server/src/db/schema.ts:17 | the foreign key has no unique constraint: two page contents may reference one menu item |
| InputSchema.ValidCreateMenuItemInput | server/src/schema.ts:32-37 | `name` and `slug` are non-empty, `order` is a non-negative integer; `is_active` is optional |
| InputSchema.ValidUpdateMenuItemInput | server/src/schema.ts:42-48 | only `id` is required; a supplied name or slug is non-empty and a supplied order non-negative |
| InputSchema.ValidCreatePageContentInput | server/src/schema.ts:53-59 | `title` is non-empty; `content` may be empty; the meta fields may be absent, `null` or any string |
| InputSchema.ValidUpdatePageContentInput | server/src/schema.ts:64-70 | only `id` is required; a supplied title is non-empty |
| InputSchema.ValidGetPageBySlugInput | server/src/schema.ts:75-77 | the slug is non-empty |
| InputSchema.ActiveFlag | server/src/schema.ts:36 | `is_active` defaults to true: the item is stored inactive exactly when the input says `false` |
| InputSchema.NullIfFalsy | server/src/handlers/create_page_content.ts:25-26 | `x \|\| null` stores `null` exactly when the field is absent, `null` or the empty string, and otherwise stores the string given |
| InputSchema.ApplyNullable | server/src/handlers/update_page_content.ts:20-25 | an absent meta field keeps the stored value, `null` clears it, a string replaces it |
| Queries.ToPageData | server/src/handlers/get_all_pages.ts:18-29 | a joined row flattens to `PageData`: the content's id, title, body and meta fields, and its menu item's id, name, slug, flag and order; `get_page_by_slug.ts:30-41` builds the same record |
| Queries.RowsOf | server/src/handlers/get_page_by_slug.ts:12 | the joined rows of one menu item are exactly its pairs with the page contents that reference it |
| Queries.RowsOfCount | server/src/handlers/get_page_by_slug.ts:12 | a menu item's joined row occurs no more often than its page content does |
| Queries.InnerJoin | server/src/handlers/get_all_pages.ts:12 | `inner join on menu_items.id = page_contents.menu_item_id` contains exactly the pairs whose foreign key matches |
| Queries.GetMenuItems | server/src/handlers/get_menu_items.ts:9-15 | only active items; every active item of the table; each with its multiplicity in the table; ascending by `order` |
| Queries.GetPageBySlug | server/src/handlers/get_page_by_slug.ts:10-41 | `null` exactly when no active item with the slug has content; otherwise the flattened row of such an item and one of its contents |
| Queries.SlugRows | server/src/handlers/get_page_by_slug.ts:10-19 | the selected rows are exactly the joined rows whose item has the slug and is active |
| Queries.GetAllPages | server/src/handlers/get_all_pages.ts:10-29 | only active entries; an entry for every joined pair of an active item and for nothing else; ascending by the item's `order` |
| Queries.FlattenedRows | server/src/handlers/get_all_pages.ts:18-29 | the `results.map` flattening keeps membership and order of the selected rows |
| Queries.ActiveRowsByOrder | server/src/handlers/get_all_pages.ts:10-15 | the selected rows are the joined pairs of active items, sorted by order, none occurring more often than in the join |
| Queries.JoinAtMostOnce | server/src/db/schema.ts:6-17 | with primary keys on both tables no pair occurs twice in the join |
| Queries.ToPageDataInjective | server/src/handlers/get_all_pages.ts:18-29 | two different joined pairs flatten to different `PageData` entries |
| Queries.GetAllPagesNoDuplicates | server/src/handlers/get_all_pages.ts:10-29 | `getAllPages` lists no entry twice |
| Queries.SlugRowsOfItem | server/src/handlers/get_page_by_slug.ts:10-19 | with unique slugs, the rows selected for an active item's slug are exactly that item's joined rows |
| Queries.UniqueSlugsTail | server/src/db/schema.ts:8 | removing the first menu item keeps the slugs unique |
| Queries.RestHasNoSlug | server/src/db/schema.ts:8 | with unique slugs, no later item carries the first item's slug |
| Queries.RowsOfFirst | server/src/handlers/get_page_by_slug.ts:26-28 | an item's first joined row holds the earliest page content that references it |
| Queries.GetPageBySlugFirstContent | server/src/handlers/get_page_by_slug.ts:21-41 | under the invariant a found page belongs to the one item holding the slug and is that item's earliest content |
| Queries.InactiveItemHidden | server/src/handlers/get_all_pages.ts:13 | an inactive item never appears in `getMenuItems` or `getAllPages`, and its slug finds no page |
| Queries.GetMenuItemsStrictlyAscending | server/src/handlers/get_menu_items.ts:12 | when active items have distinct orders, the menu is strictly ascending |
| Queries.NothingActiveNothingListed | server/src/handlers/get_menu_items.ts:9-15 | with no active item, both listing queries return the empty list |
| Queries.EmptySlugFindsNothing | server/src/schema.ts:75-77 | the empty slug is rejected by the input schema, and under the invariant it would find nothing anyway |
| ContentStore.Store.Valid | server/src/db/schema.ts:5-24 | the table invariant, every key between 1 and its `serial` counter, and no row stamped after the current clock reading |
| ContentStore.Store.constructor | server/src/db/schema.ts:5-24 | a new store has empty tables and satisfies the invariant |
| ContentStore.Store.CreateMenuItem | server/src/handlers/create_menu_item.ts:10-31 | conflict, with nothing written, exactly when the slug is taken; otherwise a new row appended with the input's fields, the defaulted active flag, the next serial id and equal fresh timestamps |
| ContentStore.Store.UpdateMenuItem | server/src/handlers/update_menu_item.ts:10-53 | not found exactly when the id is absent; conflict exactly when a supplied slug is held by another item; nothing written on error; otherwise only the supplied fields change, `updated_at` advances, and the row is replaced in place |
| ContentStore.Store.CreatePageContent | server/src/handlers/create_page_content.ts:10-31 | not found, with nothing written, exactly when the parent is absent; otherwise a new row with the input's fields, the meta fields after `\|\| null` and the next serial id |
| ContentStore.Store.UpdatePageContent | server/src/handlers/update_page_content.ts:10-38 | not found, with nothing written, exactly when the id is absent; otherwise the supplied title and content replace the old ones, meta fields follow absent/null/string, id and parent stay, `updated_at` advances |
| Scenarios.OnePageShown | server/src/tests/get_page_by_slug.test.ts:13-49 | one active item with one content: its slug finds exactly that flattened page |
| Scenarios.OneInactiveItemHidden | server/src/tests/get_page_by_slug.test.ts:58-83 | one inactive item with content: no page by slug, and both listings are empty |
| Scenarios.PublishHome | server/src/tests/get_page_by_slug.test.ts:13-49 | the behaviour that test checks, with the model's own data: creating "Home" and its content in a new store yields ids 1 and 1 and the expected page by slug |
| Scenarios.TwoItemsTakeConsecutiveIds | server/src/db/schema.ts:6 | two menu items created in a new store take the `serial` ids 1 and 2 |
| Scenarios.HomePageScenario | server/src/tests/get_page_by_slug.test.ts:58-83 | the behaviour that test checks, reached through `UpdateMenuItem` rather than an inactive insert: after deactivating "Home" its row remains, the page by slug is `null`, and both listings are empty |

## Left out

- Logging and the `try`/`catch` re-throw in every handler are left out. They do not change the result.
- Error message texts are left out. An error is modelled by its kind only: `NotFound` or `Conflict`.
- Input validation by zod happens before a handler runs. It is modelled as each method's precondition (`Valid...Input`), not as an error result.
- `new Date()` and `now()` are replaced by an abstract clock that advances by one on every successful write. Wall-clock values and the precision of real timestamps are not modelled.
- Concurrency is left out. Each handler is treated as atomic with respect to the others. In the source, the slug check and the insert or update are separate statements; under concurrent requests the unique constraint on `slug` would instead raise a database error.
- Postgres `integer` is 32 bits wide. An `order` or id outside that range makes the database raise an error; the model uses unbounded integers and has no such failure.
- Timestamps: creation stamps `createdAt` and `updatedAt` with the same clock reading, and the invariant keeps `createdAt <= updatedAt`. Both belong to the model's abstract clock. The source stamps `created_at` with the database's `defaultNow()`, while `updated_at` on create and update of a menu item comes from the server's `new Date()`. Those are two different clocks, and the program promises no order between them.
- Database failures with no counterpart in the model are left out: a lost connection; Postgres rejecting a NUL character in a `text` value; and strings that Dafny cannot express. JavaScript strings are UTF-16 and may hold a lone surrogate, while a Dafny `string` holds Unicode scalar values only.
- Ids are modelled as integers. Zod's `z.number()` also admits non-integer ids, which can never match a serial key. The model covers them only as ids that match nothing.
- Row order of a join: SQL leaves it unspecified beyond `order by`. The model's join runs menu-major in table order, then page contents in table order.
  - Queries.GetPageBySlug: its contract says only "some matching pair", not which one.
  - Queries.GetAllPages: its contract fixes the order of entries only by `order`. Ties are broken by the model's join order.
- ContentStore.Store.UpdateMenuItem: the source checks slug uniqueness under `if (input.slug)`, which skips the empty string. It writes the slug under `!== undefined`. The two tests agree because the precondition requires a valid input, and a valid input has no empty slug.
- ContentStore.Store.UpdatePageContent: in the source, the not-found case is detected after the `update` returns no row. The model checks first and writes nothing. The resulting state is the same.
- The HTTP/tRPC routing in `server/src/index.ts` and the React client in `client/src/App.tsx` are not part of this model.
