# Note store and sidebar tree, modelled in Dafny

This project models the two in-memory stores of a small note-taking web
application:

- the **note store** (`NoteService`), an ordered collection of notes seeded with
  two notes of page 1, with list (optionally by page), get, create, update and
  delete;
- the **category/page tree** of the sidebar (`SidebarComponent`), a list of
  categories each holding its pages, with its expansion flags, the collapsed
  flag of the sidebar and the selected page.

Both are classes whose fields the methods reassign, as the TypeScript code
mutates its arrays (`push`, index assignment, `splice`, reassignment to a
`filter` result). Beside each class, functions on values
(`ListNotes`, `IndexOfId`, `NewNote`, `Deleted`, `WithCategory`, `WithPage`,
`WithoutPage`, ...) say what each method leaves behind, and lemmas state what
that means: which note `findIndex` picks, that filters keep order, that the new
page id is above every id in use, and which ids can be issued twice.

Files: `optional.dfy` (optional properties), `text.dfy` (JavaScript `trim`),
`seqs.dfy` (`filter`, `splice(i, 1)`, distinct keys), `note_model.dfy` and
`category_model.dfy` (the entity shapes), `note_service.dfy` (module
`NoteStore`), `sidebar.dfy` (module `Sidebar`).

Modelling choices:

- Optional TypeScript properties (`id?`, `createdAt?`, `isExpanded?`, ...) are
  `Option` values; `null` for the selected page is `None`.
- `new Date()` is a `now: Timestamp` parameter. The two reads in `createNote`
  and the four in the seed are taken to return the same instant.
- The sidebar's element type `Category & {isExpanded?: boolean}` is
  `Entry(category, isExpanded)`.
- `toggleCategory`, `addPage` and `deletePage` change the category object the
  template hands them, which is always an element of `categories`. The model
  addresses that element by its position `ci`.
- `confirm(...)` is a `confirmed: bool` parameter. `pageSelected.emit` becomes
  the `Selection` that `SelectPage` returns.
- "Blank" means that every character is in ECMAScript's WhiteSpace or
  LineTerminator set, which is what `trim` removes.
- A JavaScript number used as a condition (`pageId ? ...`) is false for
  `undefined` and 0.

The ids follow the code exactly:

- Note and category ids are `length + 1`. After a delete, a create can
  therefore issue an id that is still in use (`CreateAfterDeleteReusesId`,
  `CategoryIdReuse`). Note ids are proved distinct only for create-only
  histories from the seed (`CreateOnlyFromSeed`).
- A page id is `1 + max(0, ids in that category)`. It is always above every id
  in use in that category, so page ids stay distinct within a category under
  any run of adds and deletes (`PageOpsKeepDistinct`). Deleting pages while
  another page still holds the maximum id leaves the next page id unchanged
  (`DeletingNonMaxKeepsNextId`); deleting every page that holds a positive
  maximum lowers it (`DeletingMaxLowersNextId`).
- From pages 1, 2: adding gives 3; deleting page 1 and adding gives 4
  (`DeletingLowerIdDoesNotFreeIt`); deleting page 3 instead and adding gives 3
  again (`DeletingMaxIdReusesIt`). Note, category and page ids can all be
  issued twice.

## Model

| member | source | states |
|---|---|---|
| `Text.Trim` | src/app/components/sidebar/sidebar.component.ts:186 | `s.trim()` is empty exactly when every character of `s` is whitespace; a non-empty result starts and ends with a non-whitespace character |
| `Seqs.Filter` | src/app/components/sidebar/sidebar.component.ts:198 | `filter` keeps only elements satisfying the predicate, keeps every element that satisfies it, and never grows the array |
| `Seqs.FilterConcat` | src/app/services/note.service.ts:37 | filtering distributes over concatenation, so kept elements stay in their stored order |
| `Seqs.FilterKeepsAll` | src/app/components/sidebar/sidebar.component.ts:216 | a filter that rejects nothing returns its input unchanged |
| `Seqs.RemoveAt` | src/app/services/note.service.ts:68 | `splice(i, 1)` shortens the array by one and shifts the elements after `i` down by one, leaving those before `i` in place |
| `Seqs.FilterKeepsKeysDistinct` | src/app/components/sidebar/sidebar.component.ts:216 | filtering an array whose keys are pairwise distinct leaves them pairwise distinct |
| `Seqs.RemoveAtKeepsKeysDistinct` | src/app/services/note.service.ts:68 | removing one element keeps distinct keys distinct |
| `NoteStore.SeedNotes` | src/app/services/note.service.ts:12-31 | the seed is two notes, with ids 1 and 2 in that order, both on page 1 |
| `NoteStore.ListNotes` | src/app/services/note.service.ts:35-38 | with a falsy page id (absent or 0) the whole collection; otherwise only stored notes of that page, and every stored note of that page; never longer than the store |
| `NoteStore.IndexOfId` | src/app/services/note.service.ts:57 | `findIndex` gives -1 exactly when no note has the id; otherwise the position of a note with the id, and no earlier note has it |
| `NoteStore.FindNote` | src/app/services/note.service.ts:40-43 | `find` gives nothing exactly when no note has the id; otherwise a stored note with the id, with no earlier note having it |
| `NoteStore.NewNote` | src/app/services/note.service.ts:46-51 | the created note has id = previous length + 1 and both timestamps = now; title, content, page, user and images are the input's |
| `NoteStore.Replacement` | src/app/services/note.service.ts:59 | the stored replacement has the requested id and `updatedAt` = now; `createdAt` and all other fields come from the input, not the old note |
| `NoteStore.Deleted` | src/app/services/note.service.ts:65-71 | with the id absent the store is unchanged; with it present the store is one note shorter |
| `NoteStore.NoteService.constructor` | src/app/services/note.service.ts:12-31 | a new service holds exactly the seed notes |
| `NoteStore.NoteService.GetNotes` | src/app/services/note.service.ts:35-38 | returns `ListNotes` of the store (the whole store for a falsy page id, only notes of the page otherwise) and modifies nothing |
| `NoteStore.NoteService.GetNote` | src/app/services/note.service.ts:40-43 | returns the first note with the id, or nothing when no note has it; modifies nothing |
| `NoteStore.NoteService.CreateNote` | src/app/services/note.service.ts:45-54 | appends exactly the `NewNote` at the end, every earlier note unchanged in place, returns the stored note, and keeps ids sequential |
| `NoteStore.NoteService.UpdateNote` | src/app/services/note.service.ts:56-63 | with the id present, replaces only the first match by the `Replacement`, keeps length and other positions, returns the stored note; with the id absent, changes nothing and returns the argument |
| `NoteStore.NoteService.DeleteNote` | src/app/services/note.service.ts:65-71 | the new store is `Deleted(old store, id)` |
| `NoteStore.ListNotesConcat` | src/app/services/note.service.ts:37 | listing by page preserves stored order (distributes over concatenation) |
| `NoteStore.ListedAfterCreate` | src/app/services/note.service.ts:52 | after a create, the new note is listed last for its own page and for the whole store |
| `NoteStore.CreateIssuesFreshId` | src/app/services/note.service.ts:48 | when ids are 1..n, the id a create issues is carried by no stored note |
| `NoteStore.SequentialIdsDistinct` | src/app/services/note.service.ts:48 | ids 1..n are pairwise distinct |
| `NoteStore.CreateAll` | src/app/services/note.service.ts:45-54 | a run of creates adds one note per input and leaves the earlier notes as they were |
| `NoteStore.CreateAllSequential` | src/app/services/note.service.ts:48 | creates alone keep the ids equal to position + 1 |
| `NoteStore.CreateOnlyFromSeed` | src/app/services/note.service.ts:12-31 | from the seed, any run of creates leaves ids exactly 1..n and pairwise distinct |
| `NoteStore.DeleteRemovesFirstMatch` | src/app/services/note.service.ts:66-68 | a delete removes exactly the first note with the id, the others keeping their relative order |
| `NoteStore.DeleteTwiceIsDeleteOnce` | src/app/services/note.service.ts:65-71 | with distinct ids, after a delete no note carries the id and a repeated delete is a no-op |
| `NoteStore.DeleteKeepsIdsDistinct` | src/app/services/note.service.ts:68 | a delete keeps distinct ids distinct |
| `NoteStore.UpdateKeepsIdsDistinct` | src/app/services/note.service.ts:59 | an update of a present id keeps distinct ids distinct |
| `NoteStore.CreateAfterDeleteReusesId` | src/app/services/note.service.ts:48 | from the seed, deleting note 1 and creating a note leaves two notes with id 2 |
| `Sidebar.InitialCategories` | src/app/components/sidebar/sidebar.component.ts:164-174 | one category with id 1 holding two pages whose ids are distinct |
| `Sidebar.Toggled` | src/app/components/sidebar/sidebar.component.ts:181-183 | the flag becomes present and its truth value flips, an absent flag counting as false; the category itself is untouched |
| `Sidebar.WithCategory` | src/app/components/sidebar/sidebar.component.ts:185-194 | a blank name leaves the categories unchanged; otherwise one category is appended with id = old length + 1, the untrimmed name, no pages, expanded |
| `Sidebar.WithoutCategory` | src/app/components/sidebar/sidebar.component.ts:198 | every remaining category has an id different from the deleted one, and every such category remains, pages included; never more categories than before |
| `Sidebar.MaxPageId` | src/app/components/sidebar/sidebar.component.ts:205 | `Math.max(0, ...ids)` with a missing id as 0 is non-negative, at least every id, and either 0 or one of the ids |
| `Sidebar.NextPageId` | src/app/components/sidebar/sidebar.component.ts:205 | the new page id is positive and strictly above every id present in that category |
| `Sidebar.WithPage` | src/app/components/sidebar/sidebar.component.ts:202-211 | a blank title leaves the category unchanged; otherwise one page is appended with id `NextPageId`, the title, the category's id and no notes |
| `Sidebar.WithoutPage` | src/app/components/sidebar/sidebar.component.ts:216 | the category keeps its id, name and flag; no remaining page has the id, every page with another id remains, and there are never more pages than before |
| `Sidebar.Active` | src/app/components/sidebar/sidebar.component.ts:36 | a page is active exactly when its id equals the selected page's id; with nothing selected, exactly the pages without an id |
| `Sidebar.SidebarComponent.constructor` | src/app/components/sidebar/sidebar.component.ts:163-175 | the sidebar starts expanded, with the initial categories and no selection |
| `Sidebar.SidebarComponent.ToggleSidebar` | src/app/components/sidebar/sidebar.component.ts:177-179 | flips `isCollapsed` and changes nothing else |
| `Sidebar.SidebarComponent.ToggleCategory` | src/app/components/sidebar/sidebar.component.ts:181-183 | toggles only the given category; others, pages, collapse flag and selection are untouched |
| `Sidebar.SidebarComponent.AddCategory` | src/app/components/sidebar/sidebar.component.ts:185-194 | the categories become `WithCategory(old, name)`; nothing else changes; per-category page-id distinctness is kept |
| `Sidebar.SidebarComponent.DeleteCategory` | src/app/components/sidebar/sidebar.component.ts:196-200 | confirmed: every category with that id goes, with its pages; not confirmed: no change |
| `Sidebar.SidebarComponent.AddPage` | src/app/components/sidebar/sidebar.component.ts:202-211 | only the addressed category changes, to `WithPage(old, title)`; page ids stay distinct |
| `Sidebar.SidebarComponent.DeletePage` | src/app/components/sidebar/sidebar.component.ts:213-218 | confirmed: only the addressed category changes, to `WithoutPage`; the selection is kept even if it is a removed page; not confirmed: no change |
| `Sidebar.SidebarComponent.SelectPage` | src/app/components/sidebar/sidebar.component.ts:220-223 | sets the selection to the page and returns the emitted `(category, page)` pair; categories and collapse flag unchanged |
| `Sidebar.AddPageKeepsDistinct` | src/app/components/sidebar/sidebar.component.ts:204-205 | adding a page keeps the category's page ids pairwise distinct |
| `Sidebar.DeletePageKeepsDistinct` | src/app/components/sidebar/sidebar.component.ts:216 | deleting pages keeps the category's page ids pairwise distinct |
| `Sidebar.DeletingAbsentPageIsNoOp` | src/app/components/sidebar/sidebar.component.ts:216 | deleting an id no page carries leaves the category unchanged |
| `Sidebar.PageOpsKeepDistinct` | src/app/components/sidebar/sidebar.component.ts:202-218 | any run of page adds and (confirmed or not) deletes keeps page ids distinct |
| `Sidebar.InitialPageIdsStayDistinct` | src/app/components/sidebar/sidebar.component.ts:170-171 | from the seed pages 1 and 2, page ids stay distinct under any run of adds and deletes |
| `Sidebar.PagesOneTwoPlusOne` | src/app/components/sidebar/sidebar.component.ts:205 | adding a page to a category holding pages 1 and 2 gives it id 3 |
| `Sidebar.AfterDeleting` | src/app/components/sidebar/sidebar.component.ts:216 | after adding a page to pages 1, 2, deleting an id keeps exactly the three pages whose id differs, in order |
| `Sidebar.DeletingNonMaxKeepsNextId` | src/app/components/sidebar/sidebar.component.ts:205-216 | when a page other than the deleted ones still holds the maximum id, the next page id after the delete is the same as before |
| `Sidebar.DeletingMaxLowersNextId` | src/app/components/sidebar/sidebar.component.ts:205-216 | when every page holding a positive maximum id is deleted, the next page id drops |
| `Sidebar.InitialHoldsPagesOneTwo` | src/app/components/sidebar/sidebar.component.ts:169-172 | the initial category holds exactly pages 1 and 2 |
| `Sidebar.DeletingLowerIdDoesNotFreeIt` | src/app/components/sidebar/sidebar.component.ts:205 | pages 1, 2: add gives 3; deleting 1 and adding gives 4 |
| `Sidebar.DeletingMaxIdReusesIt` | src/app/components/sidebar/sidebar.component.ts:205 | pages 1, 2: add gives 3; deleting 3 and adding gives 3 again |
| `Sidebar.CategoryIdReuse` | src/app/components/sidebar/sidebar.component.ts:188 | from the initial tree, adding, deleting category 1 and adding again leaves two categories with id 2 |
| `Sidebar.ToggleTwiceRestoresExpansion` | src/app/components/sidebar/sidebar.component.ts:182 | toggling twice restores whether the category is expanded and leaves its content alone |
| `Sidebar.WithoutCategoryKeepsOrder` | src/app/components/sidebar/sidebar.component.ts:198 | deleting a category keeps the remaining ones in their order |
| `Sidebar.ToggleSidebarTwice` | src/app/components/sidebar/sidebar.component.ts:177-179 | toggling the sidebar twice restores the whole state |

## Left out

- The `Observable`/`of(...)` wrapping of the service results: each method returns its value directly.
- The HTTP client and `apiUrl` of the service: they are never used by the modelled operations.
- The `file?: File` property of an attached image: it is a browser object that no modelled operation reads.
- Wall-clock time: `new Date()` is a parameter, each call's reads are one instant, and timestamps are not required to increase.
- Templates, styles, `event.stopPropagation()` and the `EventEmitter` itself. The emitted pair is returned instead.
- `Sidebar.SidebarComponent.ToggleCategory`, `AddPage`, `DeletePage`: the category is addressed by position, so a call with a category object that is not in the list (or one listed twice) is not modelled.
- `NoteStore.NoteService.GetNotes`, `GetNote`, `CreateNote`, `UpdateNote`: the source returns the store's own array (falsy page id) and the stored note objects, and a stored note shares the caller's `images` array through the shallow spread copy; notes are values here and `GetNotes` returns a snapshot, so callers that keep the store's array or change a stored note's `images` in place (and thereby the store, without `updateNote`) are not modelled.
- NaN ids and page ids: `Math.max` and `===` on NaN are not modelled, because ids are integers here.
- Unicode details of `trim` beyond the fixed whitespace set in `Text.IsWhitespace`.
- The notes component (form handling, file reading, the create-or-update dispatch), the login component, the authentication service and the application bootstrap. They are UI and storage glue around the two stores and are not part of this model.
