/**
  The note resource: the stored record, the request fields the handlers
  check, and the replies (status code plus JSON body) they send back.
*/
module Notes {
  import opened Pagination

  /** The store's document identifier, abstracted to a number. */
  type Id = nat

  datatype Note = Note(title: string, description: string)

  /** A stored document as the store returns it: its identifier and its fields. */
  datatype Doc = Doc(id: Id, note: Note)

  /** A string field of a JSON request body, which the client may leave out. */
  datatype Field = Missing | Given(text: string)

  /**
    JavaScript truthiness of a string field: the only falsy forms are a
    missing field and the empty string.
  */
  predicate Truthy(f: Field): (r: bool)
    ensures !r <==> f == Missing || f == Given("")
  {
    f.Given? && f.text != []
  }

  /** A stored note meets the boundary invariant: both fields non-empty. */
  predicate Filled(n: Note) { n.title != [] && n.description != [] }

  /**
    The check shared by create and update: both fields are truthy, so the
    note built from them meets the boundary invariant.
  */
  predicate HasRequiredFields(title: Field, description: Field): (r: bool)
    ensures r ==> title.Given? && description.Given? && Filled(Note(title.text, description.text))
    ensures !r <==> title in {Missing, Given("")} || description in {Missing, Given("")}
  {
    Truthy(title) && Truthy(description)
  }

  /** The `ids` field of a bulk-delete body. */
  datatype IdsField = NoIds | NotAnArray | IdArray(ids: seq<Id>)

  /** The bulk-delete check: `ids` is present, an array, and not empty. */
  predicate IsIdList(f: IdsField): (r: bool)
    ensures !r <==> f == NoIds || f == NotAnArray || f == IdArray([])
  {
    f.IdArray? && |f.ids| > 0
  }

  /** The set of identifiers named in a list, duplicates collapsed. */
  function IdSet(ids: seq<Id>): set<Id> { set x | x in ids }

  datatype Body =
    | Listing(data: seq<Doc>, metadata: Metadata)
    | Removed(message: string, deletedNote: Doc)
    | Changed(message: string, updatedNote: Doc)
    | RemovedMany(message: string, deletedCount: nat)

  datatype Reply =
    | Created(doc: Doc)
    | Ok(body: Body)
    | BadRequest(error: string)
    | NotFound(error: string)
    | InternalError(error: string)

  /** The HTTP status of a reply; it is a success code exactly for Created and Ok. */
  function StatusCode(r: Reply): (code: int)
    ensures 200 <= code < 300 <==> r.Created? || r.Ok?
    ensures code in {200, 201, 400, 404, 500}
  {
    match r
    case Created(_) => 201
    case Ok(_) => 200
    case BadRequest(_) => 400
    case NotFound(_) => 404
    case InternalError(_) => 500
  }

  const FieldsRequired := "Title and description are required"
  const NoteNotFound := "Note not found"
  const InvalidIds := "Invalid or empty array of note IDs"
  const NothingToDelete := "No notes found to delete"
  const InternalFailure := "Internal server error"
  const NoteDeleted := "Note deleted successfully"
  const NoteUpdated := "Note updated successfully"
  const NotesDeleted := "Notes deleted successfully"
}
