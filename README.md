# Notes API: a verified model

This project models the HTTP note service of `api/app.js`. The service keeps
one resource, a note with a title and a description, in a document collection
named `notes`. It has five handlers:

- `POST /notes` creates a note.
- `GET /notes` lists one page of notes, optionally filtered by title, with
  pagination metadata.
- `PUT /notes/:id` replaces a note's title and description.
- `DELETE /notes/:id` removes one note.
- `POST /notes/delete-many` removes every note whose id is in a list.

The model has four modules:

- `Pagination` (`pagination.dfy`) is the pure arithmetic of the listing:
  - the skip of a 1-based page, `(page - 1) * limit`;
  - the page count, the ceiling of `totalNotes / limit`, or 0 when nothing
    matches;
  - the current page, clamped to the page count;
  - what the store's `skip`/`limit` returns.
- `Notes` (`notes.dfy`) is the data model. It covers the note document, the
  request-body fields, the two body checks, and the replies with their status
  codes and fixed messages. A body field is either missing or a string. It
  counts as present when it is a non-empty string, which is how JavaScript
  truthiness treats strings.
- `Query` (`query.dfy`) decides which stored notes the title filter selects,
  and in which order the store yields them.
- `NoteService` (`service.dfy`) holds the class `NoteTable`:
  - The `notes` collection is a `map` from id to note.
  - An insertion-ordered `seq` of ids gives skip and limit a defined meaning.
  - A counter is the store's id generator.
  - A ghost set records every id ever created.
  - The class invariant says the order lists exactly the stored ids, each
    once. It also says every stored note has a non-empty title and
    description: the invariant the service enforces at its boundary.
  - Each handler is a method. It validates its input, acts on the table, and
    returns the reply. Its contract gives the new notes, order and ghost set
    and the status code on every path. The generator is unchanged on every
    path except a successful create, after which it is past the new id.

The store calls `save`, `countDocuments`, `find().skip().limit()`,
`findByIdAndUpdate`, `findByIdAndDelete` and `deleteMany` become operations on
this map and sequence. Ids are numbers, not the store's object identifiers.

## Model

| member | source | states |
|---|---|---|
| `Pagination.Skip` | api/app.js:50 | For a positive page size the skip is non-negative exactly when the page is at least 1. |
| `Pagination.MetadataFor` | api/app.js:62-66 | The metadata carries the match count and the page count. The current page is never past the page count; it is the requested page when that is not past the last page, otherwise the last page. |
| `Pagination.TotalPages` | api/app.js:58 | The page count is 0 exactly when there are no matches. Otherwise it is the ceiling of totalNotes / limit: `(r-1)*limit < totalNotes <= r*limit`. |
| `Pagination.TotalPagesIsCeiling` | api/app.js:58 | Any k with `(k-1)*limit < totalNotes <= k*limit` equals TotalPages. So the bracket determines the page count uniquely. |
| `Pagination.CurrentPage` | api/app.js:65 | The reported page is the minimum of the requested page and the page count. It is never more than either of them and equals one of them. |
| `Pagination.PageOf` | api/app.js:50-56 | The store's skip then limit: the result starts at position `skip` of the matches, holds `min(limit, matches - skip)` documents, and is empty when skip reaches the end. |
| `Pagination.PagesPrefix` | api/app.js:50-56 | Pages 1 to k, concatenated, are exactly the first `k*limit` matches (or all of them). |
| `Pagination.PagesCoverAll` | api/app.js:50-58 | Going through pages 1 to totalPages yields every match exactly once, in order. |
| `Pagination.PageNonEmptyIff` | api/app.js:50-58 | For page >= 1, the page's data is non-empty if and only if page <= totalPages. |
| `Pagination.PastLastPage` | api/app.js:56-65 | Past the last page the data is empty, yet the metadata reports the last page as the current page. |
| `Pagination.FifteenMatchesTenPerPage` | api/app.js:48-65 | With 15 matches and limit 10 there are 2 pages. Page 1 holds 10, page 2 holds 5, page 3 is empty and reports current page 2. |
| `Query.Matching` | api/app.js:52-56 | The query lists at most as many documents as the table holds. With no filter it lists every stored note, in insertion order. |
| `Query.MatchingMembers` | api/app.js:52-56 | A document is listed if and only if it is stored under its id, its id is in the table order, and the filter selects it. |
| `Query.MatchingAppend` | api/app.js:56 | The query keeps the store's order: the matches of a concatenation are the concatenation of the matches. |
| `Query.MatchingFrame` | api/app.js:54-56 | Storing a note under an id outside the order does not change what the query returns. |
| `Query.ListingAfterCreate` | api/app.js:33-35 | After a create, the listing is the old listing followed by the new document, when the filter selects it. |
| `Query.Selects` | api/app.js:52 | An empty or absent filter selects every note. |
| `Query.GroceryListMatches` | api/app.js:52 | Under the case-insensitive substring approximation of the filter, the filters "grocery" and "List" select a note titled "Grocery List". |
| `Notes.Truthy` | api/app.js:27 | A string field fails the truthiness check exactly when it is missing or the empty string. |
| `Notes.HasRequiredFields` | api/app.js:96 | The check fails exactly when either field is missing or empty. When it passes, both fields are strings and the note built from them has a non-empty title and description. |
| `Notes.IsIdList` | api/app.js:123 | The bulk-delete check fails exactly for a missing `ids`, a non-array, or an empty array. |
| `Notes.StatusCode` | api/app.js:28-37 | A reply has a 2xx status exactly when it is a creation or an ok reply. The only codes are 200, 201, 400, 404 and 500, the codes every handler uses. The handlers' contracts state each path's code through it. |
| `NoteService.Without` | api/app.js:78 | Removing ids from the order keeps exactly the ids not removed, and keeps them distinct. |
| `NoteService.WithoutAppend` | api/app.js:129 | Removal distributes over concatenation, so the kept ids stay in their old relative order. |
| `NoteService.ListingAfterRemoval` | api/app.js:129 | After removing a set of ids from the map and the order, the listing is the old listing with the removed documents dropped, the rest in their old order. |
| `NoteService.RemovedCount` | api/app.js:129-137 | The number of documents a multi-document removal deletes is the number of distinct stored ids it names. |
| `NoteService.RemovalKeepsInvariant` | api/app.js:78 | Removing a set of ids from both the map and the order keeps the table invariant. |
| `NoteService.RemoveNothing` | api/app.js:129-132 | A removal that names no stored id leaves the map and the order as they were. |
| `Pagination.PrefixStep` | api/app.js:56 | The documents before `skip`, followed by the page at `skip`, are the documents before `skip + limit`. |
| `NoteService.NoteTable.Create` | api/app.js:23-37 | A missing or empty title or description gives 400 and leaves the table unchanged. Otherwise the note is stored under a fresh id and appended to the order, nothing else changes, and 201 returns the stored document. The new id is not stored and was never created before. |
| `NoteService.NoteTable.List` | api/app.js:44-67 | Returns 200 with two parts. The data is the page of the matches at skip `(page-1)*limit`. The metadata counts all matches regardless of pagination and gives the page count and clamped current page. A page below 1 gives 500. The table is not touched. |
| `NoteService.NoteTable.Delete` | api/app.js:74-84 | An unknown id gives 404 and leaves the table unchanged. Otherwise exactly that note is removed and 200 returns it. |
| `NoteService.NoteTable.Update` | api/app.js:91-112 | A missing field gives 400 and an unknown id gives 404, checked in that order. Both leave the table unchanged. Otherwise only that note's title and description are replaced, and 200 returns the updated document. |
| `NoteService.NoteTable.DeleteMany` | api/app.js:119-138 | A missing, non-array or empty `ids` gives 400 and leaves the table unchanged. Otherwise exactly the listed stored notes are removed. If none was stored, the reply is 404 and the table is unchanged. Otherwise 200 reports the number of distinct stored ids listed. |

## Left out

- Database connection and bootstrap, CORS and JSON middleware, the listening port and console logging (api/app.js:1-21, 149-151). These are I/O plumbing.
- The root greeting route (api/app.js:145-147). It has no state and no logic.
- The 500 replies that come from store failures, and from ids the store cannot cast to its identifier type. These depend on library exceptions. Ids are numbers here, so there are no malformed ids.
- Query-string parsing with `parseInt` and the defaults `page = 1`, `limit = 10` (api/app.js:46-49). The listing takes integers.
- Concurrency between requests and asynchronous store calls. Each handler is one atomic step.
- `api/Note.js` is only a schema. The two-field `Note` datatype is taken from it.
- NoteService.NoteTable.List: requires `limit > 0`. A limit of 0 makes the page count the floating-point `Infinity`, and the store reads it as "no limit". Neither is modelled.
- NoteService.NoteTable.List: a page below 1 gives a negative skip. The model reads this as the store rejecting the query, so the reply is the catch-all 500.
- Pagination.TotalPages: uses exact integer ceiling division. `Math.ceil` over floating-point division can round differently only for counts beyond 2^53.
- Query.Matching: the code builds a case-insensitive regular expression from the filter text (api/app.js:52). The model takes the matching relation as a parameter and does not model regular-expression semantics. `Query.ContainsIgnoringCase` approximates it by ASCII case-insensitive substring search, which agrees with it only for filter text without regular-expression syntax and without non-ASCII letters.
- An invalid regular-expression filter such as `(` makes the `RegExp` constructor throw (api/app.js:52), and the catch block replies 500 (api/app.js:68-70). The matching relation here is a total function, so this 500 path is not modelled.
- NoteService.NoteTable.List: requires `limit > 0`, so a negative limit such as `parseInt("-5")` is also excluded. There `Math.ceil` would give a page count of 0 or below, and the store's reading of a negative limit is not modelled.
- Body fields that are not strings (numbers, objects) and Mongoose's type casting of them are not modelled. A field is missing or a string.
