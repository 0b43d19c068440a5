/** The shape of a note (src/app/models/note.model.ts). Every property the
    interface marks optional is an `Option`. */
module NoteModel {
  import opened Optional

  /** A point in time, standing for a JavaScript `Date`. */
  type Timestamp = int

  /** An attached image: its (data) URL and its file name. */
  datatype Image = Image(url: string, name: string)

  datatype Note = Note(
    id: Option<int>,
    title: string,
    content: string,
    createdAt: Option<Timestamp>,
    updatedAt: Option<Timestamp>,
    userId: Option<int>,
    pageId: Option<int>,
    images: Option<seq<Image>>)
}
