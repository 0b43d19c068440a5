/** The shape of categories and pages (src/app/models/category.model.ts). */
module CategoryModel {
  import opened Optional
  import opened NoteModel

  datatype Page = Page(id: Option<int>, title: string, categoryId: Option<int>, notes: seq<Note>)

  datatype Category = Category(id: Option<int>, name: string, pages: seq<Page>)
}
