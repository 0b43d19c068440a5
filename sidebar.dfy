/** The category/page tree of the sidebar (src/app/components/sidebar/sidebar.component.ts).
    The component's fields are changed in place by its methods; the functions of
    this module say, on values, what a category looks like after each change. */
module Sidebar {
  import opened Optional
  import opened NoteModel
  import opened CategoryModel
  import Text
  import Seqs

  /** A listed category together with the component's own `isExpanded` flag
      (the element type `Category & {isExpanded?: boolean}`). */
  datatype Entry = Entry(category: Category, isExpanded: Option<bool>)

  /** The `{category, page}` pair that `pageSelected` emits. */
  datatype Selection = Selection(category: Category, page: Page)

  /** The tree the component starts with: "Personnel", expanded, with pages 1 and 2. */
  function InitialCategories(): (r: seq<Entry>)
    ensures |r| == 1 && r[0].category.id == Some(1) && |r[0].category.pages| == 2
    ensures AllPageIdsDistinct(r)
  {
    var pages := [ Page(Some(1), "Notes quotidiennes", None, []),
                   Page(Some(2), "Idées", None, []) ];
    assert PageId(pages[0]) != PageId(pages[1]);
    [ Entry(Category(Some(1), "Personnel", pages), Some(true)) ]
  }

  function PageId(p: Page): Option<int> { p.id }

  /** No two pages of one category share an id. */
  ghost predicate PageIdsDistinct(pages: seq<Page>) {
    Seqs.KeysDistinct(pages, PageId)
  }

  /** Page ids are distinct within every category (across categories they may repeat). */
  ghost predicate AllPageIdsDistinct(entries: seq<Entry>) {
    forall i :: 0 <= i < |entries| ==> PageIdsDistinct(entries[i].category.pages)
  }

  /** The category is shown expanded: its flag is present and true. */
  predicate Expanded(e: Entry) {
    e.isExpanded == Some(true)
  }

  /** `category.isExpanded = !category.isExpanded`: an absent flag counts as false. */
  function Toggled(e: Entry): (r: Entry)
    ensures Expanded(r) == !Expanded(e)
    ensures r.isExpanded.Some? && r.category == e.category
  {
    e.(isExpanded := Some(!(e.isExpanded == Some(true))))
  }

  /** `categories` after `addCategory(name)`. */
  function WithCategory(entries: seq<Entry>, name: string): (r: seq<Entry>)
    ensures Text.IsBlank(name) ==> r == entries
    ensures !Text.IsBlank(name) ==>
              r == entries + [Entry(Category(Some(|entries| + 1), name, []), Some(true))]
  {
    if Text.Trim(name) != [] then
      entries + [Entry(Category(Some(|entries| + 1), name, []), Some(true))]
    else entries
  }

  /** `categories` after a confirmed `deleteCategory` of a category with id `id`. */
  function WithoutCategory(entries: seq<Entry>, id: Option<int>): (r: seq<Entry>)
    ensures |r| <= |entries|
    ensures forall k :: 0 <= k < |r| ==> r[k] in entries && r[k].category.id != id
    ensures forall k :: 0 <= k < |entries| && entries[k].category.id != id ==> entries[k] in r
  {
    Seqs.Filter(entries, (e: Entry) => e.category.id != id)
  }

  /** `p.id || 0`: a missing id counts as 0 (an id of 0 is 0 either way). */
  function IdOrZero(p: Page): int {
    match p.id
    case Some(v) => v
    case None => 0
  }

  /** `Math.max(0, ...pages.map(p => p.id || 0))`. */
  function MaxPageId(pages: seq<Page>): (m: int)
    ensures m >= 0
    ensures forall k :: 0 <= k < |pages| ==> IdOrZero(pages[k]) <= m
    ensures m == 0 || exists k :: 0 <= k < |pages| && IdOrZero(pages[k]) == m
  {
    if pages == [] then 0
    else
      var m := MaxPageId(pages[1..]);
      if IdOrZero(pages[0]) > m then IdOrZero(pages[0]) else m
  }

  /** The id `addPage` gives a new page of a category holding `pages`: it is
      positive and above every id in use there. */
  function NextPageId(pages: seq<Page>): (r: int)
    ensures r >= 1
    ensures forall k :: 0 <= k < |pages| && pages[k].id.Some? ==> pages[k].id.value < r
  {
    MaxPageId(pages) + 1
  }

  /** The category after `addPage(category, title)`. */
  function WithPage(e: Entry, title: string): (r: Entry)
    ensures Text.IsBlank(title) ==> r == e
    ensures !Text.IsBlank(title) ==>
              r == e.(category := e.category.(pages := e.category.pages +
                       [Page(Some(NextPageId(e.category.pages)), title, e.category.id, [])]))
  {
    if Text.Trim(title) != [] then
      var page := Page(Some(NextPageId(e.category.pages)), title, e.category.id, []);
      e.(category := e.category.(pages := e.category.pages + [page]))
    else e
  }

  /** The category after a confirmed `deletePage` of a page with id `id`. */
  function WithoutPage(e: Entry, id: Option<int>): (r: Entry)
    ensures r.isExpanded == e.isExpanded
    ensures r.category.id == e.category.id && r.category.name == e.category.name
    ensures |r.category.pages| <= |e.category.pages|
    ensures forall k :: 0 <= k < |r.category.pages| ==>
              r.category.pages[k] in e.category.pages && r.category.pages[k].id != id
    ensures forall k :: 0 <= k < |e.category.pages| && e.category.pages[k].id != id ==>
              e.category.pages[k] in r.category.pages
  {
    e.(category := e.category.(pages := Seqs.Filter(e.category.pages, (p: Page) => p.id != id)))
  }

  /** `selectedPage?.id === page.id`: pages are matched by id alone, and with
      nothing selected the pages without an id are the active ones. */
  function Active(selected: Option<Page>, page: Page): (r: bool)
    ensures selected.Some? ==> (r <==> page.id == selected.value.id)
    ensures selected.None? ==> (r <==> page.id.None?)
  {
    (if selected.Some? then selected.value.id else None) == page.id
  }

  class SidebarComponent {
    var isCollapsed: bool
    var categories: seq<Entry>
    var selectedPage: Option<Page>

    constructor ()
      ensures !isCollapsed && categories == InitialCategories() && selectedPage == None
    {
      isCollapsed := false;
      categories := InitialCategories();
      selectedPage := None;
    }

    method ToggleSidebar()
      modifies this
      ensures isCollapsed == !old(isCollapsed)
      ensures categories == old(categories) && selectedPage == old(selectedPage)
    {
      isCollapsed := !isCollapsed;
    }

    /** Flips the expansion of the category at position `ci`. */
    method ToggleCategory(ci: nat)
      requires ci < |categories|
      modifies this
      ensures categories == old(categories)[ci := Toggled(old(categories)[ci])]
      ensures isCollapsed == old(isCollapsed) && selectedPage == old(selectedPage)
      ensures AllPageIdsDistinct(old(categories)) ==> AllPageIdsDistinct(categories)
    {
      categories := categories[ci := Toggled(categories[ci])];
    }

    method AddCategory(name: string)
      modifies this
      ensures categories == WithCategory(old(categories), name)
      ensures isCollapsed == old(isCollapsed) && selectedPage == old(selectedPage)
      ensures AllPageIdsDistinct(old(categories)) ==> AllPageIdsDistinct(categories)
    {
      if Text.Trim(name) != [] {
        var entry := Entry(Category(Some(|categories| + 1), name, []), Some(true));
        if AllPageIdsDistinct(categories) {
          AppendKeepsAllDistinct(categories, entry);
        }
        categories := categories + [entry];
      }
    }

    /** Removes, when `confirmed`, every category with the id of `category`, with all its pages. */
    method DeleteCategory(category: Category, confirmed: bool)
      modifies this
      ensures confirmed ==> categories == WithoutCategory(old(categories), category.id)
      ensures !confirmed ==> categories == old(categories)
      ensures isCollapsed == old(isCollapsed) && selectedPage == old(selectedPage)
      ensures AllPageIdsDistinct(old(categories)) ==> AllPageIdsDistinct(categories)
    {
      if confirmed {
        categories := WithoutCategory(categories, category.id);
      }
    }

    /** Adds a page titled `title` to the category at position `ci`, unless the title is blank. */
    method AddPage(ci: nat, title: string)
      requires ci < |categories|
      modifies this
      ensures categories == old(categories)[ci := WithPage(old(categories)[ci], title)]
      ensures isCollapsed == old(isCollapsed) && selectedPage == old(selectedPage)
      ensures AllPageIdsDistinct(old(categories)) ==> AllPageIdsDistinct(categories)
    {
      var e := categories[ci];
      if Text.Trim(title) != [] {
        var page := Page(Some(NextPageId(e.category.pages)), title, e.category.id, []);
        categories := categories[ci := e.(category := e.category.(pages := e.category.pages + [page]))];
      }
      if AllPageIdsDistinct(old(categories)) {
        AddPageKeepsDistinct(e, title);
        ReplaceKeepsAllDistinct(old(categories), ci, WithPage(e, title));
      }
    }

    /** Removes, when `confirmed`, every page with the id of `page` from the category at position `ci`.
        The selection is left as it is, even if it is one of the removed pages. */
    method DeletePage(ci: nat, page: Page, confirmed: bool)
      requires ci < |categories|
      modifies this
      ensures confirmed ==> categories == old(categories)[ci := WithoutPage(old(categories)[ci], page.id)]
      ensures !confirmed ==> categories == old(categories)
      ensures isCollapsed == old(isCollapsed) && selectedPage == old(selectedPage)
      ensures AllPageIdsDistinct(old(categories)) ==> AllPageIdsDistinct(categories)
    {
      if confirmed {
        categories := categories[ci := WithoutPage(categories[ci], page.id)];
        if AllPageIdsDistinct(old(categories)) {
          DeletePageKeepsDistinct(old(categories)[ci], page.id);
          ReplaceKeepsAllDistinct(old(categories), ci, categories[ci]);
        }
      }
    }

    /** Selects `page` and returns the pair the component emits. */
    method SelectPage(category: Category, page: Page) returns (emitted: Selection)
      modifies this
      ensures selectedPage == Some(page) && emitted == Selection(category, page)
      ensures categories == old(categories) && isCollapsed == old(isCollapsed)
    {
      selectedPage := Some(page);
      emitted := Selection(category, page);
    }
  }

  // ----- What the operations mean -----

  /** Appending a category whose page ids are distinct keeps them distinct everywhere. */
  lemma AppendKeepsAllDistinct(entries: seq<Entry>, e: Entry)
    requires AllPageIdsDistinct(entries) && PageIdsDistinct(e.category.pages)
    ensures AllPageIdsDistinct(entries + [e])
  {
  }

  /** The largest id of two pages. */
  lemma MaxPageIdOfTwo(a: Page, b: Page)
    ensures MaxPageId([a, b]) == if IdOrZero(a) > IdOrZero(b) && IdOrZero(a) > 0 then IdOrZero(a)
                                 else if IdOrZero(b) > 0 then IdOrZero(b) else 0
  {
  }

  /** Replacing one category by another whose page ids are distinct keeps them distinct everywhere. */
  lemma ReplaceKeepsAllDistinct(entries: seq<Entry>, ci: nat, e: Entry)
    requires ci < |entries| && AllPageIdsDistinct(entries) && PageIdsDistinct(e.category.pages)
    ensures AllPageIdsDistinct(entries[ci := e])
  {
  }

  /** Adding a page keeps the page ids of the category distinct. */
  lemma AddPageKeepsDistinct(e: Entry, title: string)
    requires PageIdsDistinct(e.category.pages)
    ensures PageIdsDistinct(WithPage(e, title).category.pages)
  {
    var pages := WithPage(e, title).category.pages;
    if !Text.IsBlank(title) {
      var old_pages := e.category.pages;
      forall i, j | 0 <= i < j < |pages| ensures PageId(pages[i]) != PageId(pages[j]) {
        if j == |old_pages| {
          assert pages[i] == old_pages[i];
        } else {
          assert PageId(old_pages[i]) != PageId(old_pages[j]);
        }
      }
    }
  }

  /** Deleting pages keeps the page ids of the category distinct. */
  lemma DeletePageKeepsDistinct(e: Entry, id: Option<int>)
    requires PageIdsDistinct(e.category.pages)
    ensures PageIdsDistinct(WithoutPage(e, id).category.pages)
  {
    Seqs.FilterKeepsKeysDistinct(e.category.pages, (p: Page) => p.id != id, PageId);
  }

  /** Deleting an id that no page of the category carries changes nothing. */
  lemma DeletingAbsentPageIsNoOp(e: Entry, id: Option<int>)
    requires forall k :: 0 <= k < |e.category.pages| ==> e.category.pages[k].id != id
    ensures WithoutPage(e, id) == e
  {
    Seqs.FilterKeepsAll(e.category.pages, (p: Page) => p.id != id);
  }

  /** The page operations a user can apply to one category. */
  datatype PageOp = AddPageOp(title: string) | DeletePageOp(pageId: Option<int>, confirmed: bool)

  function ApplyPageOp(e: Entry, op: PageOp): Entry {
    match op
    case AddPageOp(title) => WithPage(e, title)
    case DeletePageOp(id, confirmed) => if confirmed then WithoutPage(e, id) else e
  }

  function ApplyPageOps(e: Entry, ops: seq<PageOp>): Entry
    decreases |ops|
  {
    if ops == [] then e else ApplyPageOps(ApplyPageOp(e, ops[0]), ops[1..])
  }

  /** Any run of `addPage`/`deletePage` keeps a category's page ids distinct. */
  lemma {:induction false} PageOpsKeepDistinct(e: Entry, ops: seq<PageOp>)
    requires PageIdsDistinct(e.category.pages)
    ensures PageIdsDistinct(ApplyPageOps(e, ops).category.pages)
    decreases |ops|
  {
    if ops != [] {
      match ops[0] {
        case AddPageOp(title) => AddPageKeepsDistinct(e, title);
        case DeletePageOp(id, confirmed) => if confirmed { DeletePageKeepsDistinct(e, id); }
      }
      PageOpsKeepDistinct(ApplyPageOp(e, ops[0]), ops[1..]);
    }
  }

  /** In particular from the initial "Personnel" category, whose pages are 1 and 2. */
  lemma InitialPageIdsStayDistinct(ops: seq<PageOp>)
    ensures PageIdsDistinct(ApplyPageOps(InitialCategories()[0], ops).category.pages)
  {
    PageOpsKeepDistinct(InitialCategories()[0], ops);
  }

  /** Deleting pages while another page still holds the maximum id leaves the
      next page id as it was: no id is freed. */
  lemma DeletingNonMaxKeepsNextId(e: Entry, id: Option<int>)
    requires exists k :: 0 <= k < |e.category.pages| && e.category.pages[k].id != id &&
                         IdOrZero(e.category.pages[k]) == MaxPageId(e.category.pages)
    ensures NextPageId(WithoutPage(e, id).category.pages) == NextPageId(e.category.pages)
  {
    var pages := e.category.pages;
    var rest := WithoutPage(e, id).category.pages;
    var k :| 0 <= k < |pages| && pages[k].id != id && IdOrZero(pages[k]) == MaxPageId(pages);
    assert pages[k] in rest;
    var j :| 0 <= j < |rest| && rest[j] == pages[k];
    assert MaxPageId(rest) >= MaxPageId(pages);
    assert MaxPageId(rest) <= MaxPageId(pages) by {
      if MaxPageId(rest) != 0 {
        var m :| 0 <= m < |rest| && IdOrZero(rest[m]) == MaxPageId(rest);
        assert rest[m] in pages;
      }
    }
  }

  /** Deleting the id of every page holding a positive maximum lowers the next
      page id, so the next add reissues an id at most the deleted one. */
  lemma DeletingMaxLowersNextId(e: Entry, id: Option<int>)
    requires MaxPageId(e.category.pages) > 0
    requires forall k :: 0 <= k < |e.category.pages| &&
                         IdOrZero(e.category.pages[k]) == MaxPageId(e.category.pages) ==>
                         e.category.pages[k].id == id
    ensures NextPageId(WithoutPage(e, id).category.pages) < NextPageId(e.category.pages)
  {
    var pages := e.category.pages;
    var rest := WithoutPage(e, id).category.pages;
    if MaxPageId(rest) != 0 {
      var m :| 0 <= m < |rest| && IdOrZero(rest[m]) == MaxPageId(rest);
      assert rest[m] in pages;
      var k :| 0 <= k < |pages| && pages[k] == rest[m];
    }
  }

  /** A category holding exactly the pages 1 and 2, as the initial "Personnel" does. */
  ghost predicate HoldsPagesOneTwo(e: Entry) {
    |e.category.pages| == 2 && e.category.pages[0].id == Some(1) && e.category.pages[1].id == Some(2)
  }

  /** Deleting a page below the maximum does not free its id: from pages 1, 2,
      adding gives 3, and after deleting page 1 the next add gives 4, not 3. */
  lemma DeletingLowerIdDoesNotFreeIt(e: Entry, title1: string, title2: string)
    requires HoldsPagesOneTwo(e) && !Text.IsBlank(title1) && !Text.IsBlank(title2)
    ensures var e1 := WithPage(e, title1);
            var e3 := WithPage(WithoutPage(e1, Some(1)), title2);
            |e1.category.pages| == 3 && e1.category.pages[2].id == Some(3) &&
            |e3.category.pages| == 3 && e3.category.pages[2].id == Some(4)
  {
    var pages := PagesOneTwoPlusOne(e, title1);
    var rest := AfterDeleting(e, title1, Some(1));
    assert rest == [pages[1], pages[2]];
    assert NextPageId(rest) == 4 by {
      MaxPageIdOfTwo(pages[1], pages[2]);
    }
  }

  /** Deleting the page that holds the maximum id frees that id for the next add. */
  lemma DeletingMaxIdReusesIt(e: Entry, title1: string, title2: string)
    requires HoldsPagesOneTwo(e) && !Text.IsBlank(title1) && !Text.IsBlank(title2)
    ensures var e1 := WithPage(e, title1);
            var e3 := WithPage(WithoutPage(e1, Some(3)), title2);
            |e1.category.pages| == 3 && e1.category.pages[2].id == Some(3) &&
            |e3.category.pages| == 3 && e3.category.pages[2].id == Some(3)
  {
    var pages := PagesOneTwoPlusOne(e, title1);
    var rest := AfterDeleting(e, title1, Some(3));
    assert rest == [pages[0], pages[1]];
    assert NextPageId(rest) == 3 by {
      MaxPageIdOfTwo(pages[0], pages[1]);
    }
  }

  /** The pages left when a page is added to pages 1, 2 and then the pages with `id` are deleted. */
  lemma AfterDeleting(e: Entry, title: string, id: Option<int>) returns (rest: seq<Page>)
    requires HoldsPagesOneTwo(e) && !Text.IsBlank(title)
    ensures rest == WithoutPage(WithPage(e, title), id).category.pages
    ensures var pages := WithPage(e, title).category.pages;
            rest == (if pages[0].id != id then [pages[0]] else []) +
                    (if pages[1].id != id then [pages[1]] else []) +
                    (if pages[2].id != id then [pages[2]] else [])
  {
    var pages := PagesOneTwoPlusOne(e, title);
    FilterThree(pages, id);
    rest := WithoutPage(WithPage(e, title), id).category.pages;
  }

  /** Removing pages by id from a list of three. */
  lemma FilterThree(pages: seq<Page>, id: Option<int>)
    requires |pages| == 3
    ensures Seqs.Filter(pages, (p: Page) => p.id != id) ==
              (if pages[0].id != id then [pages[0]] else []) +
              (if pages[1].id != id then [pages[1]] else []) +
              (if pages[2].id != id then [pages[2]] else [])
  {
    assert pages == [pages[0], pages[1], pages[2]];
    Seqs.FilterOfThree(pages[0], pages[1], pages[2], (p: Page) => p.id != id);
  }

  /** Adding a page to a category holding pages 1 and 2 gives it id 3. */
  lemma PagesOneTwoPlusOne(e: Entry, title: string) returns (pages: seq<Page>)
    requires HoldsPagesOneTwo(e) && !Text.IsBlank(title)
    ensures pages == WithPage(e, title).category.pages
    ensures |pages| == 3 && pages[0].id == Some(1) && pages[1].id == Some(2) && pages[2].id == Some(3)
  {
    var p := e.category.pages;
    MaxPageIdOfTwo(p[0], p[1]);
    assert p == [p[0], p[1]];
    pages := WithPage(e, title).category.pages;
  }

  /** The initial category is such a category. */
  lemma InitialHoldsPagesOneTwo()
    ensures HoldsPagesOneTwo(InitialCategories()[0])
  {
  }

  /** Category ids are `length + 1`, so after a delete a new category can share
      an id with one still listed: deleting category 1 of [1, 2] and adding gives 2 again. */
  lemma {:induction false} CategoryIdReuse(name1: string, name2: string)
    requires !Text.IsBlank(name1) && !Text.IsBlank(name2)
    ensures var c1 := WithCategory(InitialCategories(), name1);
            var c3 := WithCategory(WithoutCategory(c1, Some(1)), name2);
            |c3| == 2 && c3[0].category.id == Some(2) && c3[1].category.id == Some(2)
  {
    var c1 := WithCategory(InitialCategories(), name1);
    assert |c1| == 2 && c1[0].category.id == Some(1) && c1[1].category.id == Some(2);
    assert WithoutCategory(c1, Some(1)) == [c1[1]] by {
      assert c1 == [c1[0], c1[1]];
      Seqs.FilterOfTwo(c1[0], c1[1], (e: Entry) => e.category.id != Some(1));
    }
  }

  /** Toggling a category twice restores whether it is expanded. */
  lemma ToggleTwiceRestoresExpansion(e: Entry)
    ensures Expanded(Toggled(Toggled(e))) == Expanded(e)
    ensures Toggled(Toggled(e)).category == e.category
  {
  }

  /** Deleting a category keeps the survivors in their order. */
  lemma WithoutCategoryKeepsOrder(a: seq<Entry>, b: seq<Entry>, id: Option<int>)
    ensures WithoutCategory(a + b, id) == WithoutCategory(a, id) + WithoutCategory(b, id)
  {
    Seqs.FilterConcat(a, b, (e: Entry) => e.category.id != id);
  }

  /** Toggling the sidebar twice restores the whole state. */
  method ToggleSidebarTwice(s: SidebarComponent)
    modifies s
    ensures s.isCollapsed == old(s.isCollapsed)
    ensures s.categories == old(s.categories) && s.selectedPage == old(s.selectedPage)
  {
    s.ToggleSidebar();
    s.ToggleSidebar();
  }
}
