/**
  The note service: the notes collection as a table of documents in
  insertion order, and the five request handlers that validate their input,
  act on the table and choose the reply.
*/
module NoteService {
  import opened Pagination
  import opened Notes
  import opened Query

  predicate Distinct(s: seq<Id>) {
    forall i, j :: 0 <= i < j < |s| ==> s[i] != s[j]
  }

  /** The order with the identifiers in `gone` taken out, the rest kept in place. */
  function Without(s: seq<Id>, gone: set<Id>): (r: seq<Id>)
    ensures |r| <= |s|
    ensures forall x :: x in r <==> x in s && x !in gone
    ensures Distinct(s) ==> Distinct(r)
  {
    if s == [] then []
    else
      var rest := Without(s[1..], gone);
      assert forall x :: x in s <==> x == s[0] || x in s[1..];
      assert Distinct(s) ==> s[0] !in s[1..] && Distinct(s[1..]);
      if s[0] in gone then rest else [s[0]] + rest
  }

  /** Removal works element by element: it distributes over concatenation, so kept ids stay in place. */
  lemma {:induction false} WithoutAppend(a: seq<Id>, b: seq<Id>, gone: set<Id>)
    ensures Without(a + b, gone) == Without(a, gone) + Without(b, gone)
  {
    if a == [] {
      assert a + b == b;
    } else {
      assert (a + b)[0] == a[0];
      assert (a + b)[1..] == a[1..] + b;
      WithoutAppend(a[1..], b, gone);
    }
  }

  /** The documents of a listing whose identifier is not in `gone`, in their order. */
  function DropDocs(docs: seq<Doc>, gone: set<Id>): (r: seq<Doc>)
    ensures |r| <= |docs|
    ensures forall d :: d in r <==> d in docs && d.id !in gone
  {
    if docs == [] then []
    else
      assert forall d :: d in docs <==> d == docs[0] || d in docs[1..];
      (if docs[0].id in gone then [] else [docs[0]]) + DropDocs(docs[1..], gone)
  }

  lemma {:induction false} DropDocsAppend(a: seq<Doc>, b: seq<Doc>, gone: set<Id>)
    ensures DropDocs(a + b, gone) == DropDocs(a, gone) + DropDocs(b, gone)
  {
    if a == [] {
      assert a + b == b;
    } else {
      assert (a + b)[0] == a[0];
      assert (a + b)[1..] == a[1..] + b;
      DropDocsAppend(a[1..], b, gone);
    }
  }

  lemma CoversWithout(s: seq<Id>, notes: map<Id, Note>, gone: set<Id>)
    requires Covers(s, notes)
    ensures Covers(Without(s, gone), notes - gone)
  {
    var r := Without(s, gone);
    forall i | 0 <= i < |r| ensures r[i] in notes - gone {
      assert r[i] in r;
      var j :| 0 <= j < |s| && s[j] == r[i];
    }
  }

  /**
    After a removal, the listing is the old listing with the removed documents
    dropped, the rest in their old order.
  */
  lemma {:induction false} ListingAfterRemoval(order: seq<Id>, notes: map<Id, Note>, gone: set<Id>, filter: string, matcher: Matcher)
    requires Covers(order, notes)
    ensures Covers(Without(order, gone), notes - gone)
    ensures Matching(Without(order, gone), notes - gone, filter, matcher) ==
      DropDocs(Matching(order, notes, filter, matcher), gone)
  {
    CoversWithout(order, notes, gone);
    if order != [] {
      var x, tail := order[0], order[1..];
      assert Covers(tail, notes);
      ListingAfterRemoval(tail, notes, gone, filter, matcher);
      var head := Head(order, notes, filter, matcher);
      var rest := Matching(tail, notes, filter, matcher);
      assert Matching(order, notes, filter, matcher) == head + rest;
      DropDocsAppend(head, rest, gone);
      if x in gone {
        assert Without(order, gone) == Without(tail, gone);
        assert DropDocs(head, gone) == [];
      } else {
        var kept := Without(tail, gone);
        assert Without(order, gone) == [x] + kept;
        assert ([x] + kept)[0] == x && ([x] + kept)[1..] == kept;
        assert Head([x] + kept, notes - gone, filter, matcher) == head;
        assert DropDocs(head, gone) == head;
      }
    }
  }

  /** What a multi-document removal reports: the number of keys that were there. */
  lemma RemovedCount(m: map<Id, Note>, gone: set<Id>)
    ensures |m| - |m - gone| == |m.Keys * gone|
  {
    var kept := (m - gone).Keys;
    var hit := m.Keys * gone;
    assert m.Keys == kept + hit;
    assert kept !! hit;
    assert |m.Keys| == |kept| + |hit|;
  }

  /**
    The table invariant: the order lists exactly the stored identifiers, each
    once; every identifier ever handed out is below the generator; every
    stored note has a non-empty title and description.
  */
  ghost predicate TableInvariant(notes: map<Id, Note>, order: seq<Id>, issued: set<Id>, nextId: Id) {
    && Distinct(order)
    && Covers(order, notes)
    && (forall id :: id in notes ==> id in order)
    && notes.Keys <= issued
    && (forall id :: id in issued ==> id < nextId)
    && (forall id :: id in notes ==> Filled(notes[id]))
  }

  /** Removing documents, from the map and from the order alike, keeps the invariant. */
  lemma RemovalKeepsInvariant(notes: map<Id, Note>, order: seq<Id>, issued: set<Id>, nextId: Id, gone: set<Id>)
    requires TableInvariant(notes, order, issued, nextId)
    ensures TableInvariant(notes - gone, Without(order, gone), issued, nextId)
  {
    CoversWithout(order, notes, gone);
  }

  /** Removing ids none of which is stored leaves the map and the order as they were. */
  lemma RemoveNothing(m: map<Id, Note>, order: seq<Id>, gone: set<Id>)
    requires Covers(order, m) && m.Keys * gone == {}
    ensures m - gone == m
    ensures Without(order, gone) == order
  {
    forall k | k in m ensures k !in gone {
      assert k !in m.Keys * gone;
    }
    assert (m - gone).Keys == m.Keys;
    WithoutNone(order, gone);
  }

  lemma {:induction false} WithoutNone(s: seq<Id>, gone: set<Id>)
    requires forall i :: 0 <= i < |s| ==> s[i] !in gone
    ensures Without(s, gone) == s
  {
    if s != [] {
      WithoutNone(s[1..], gone);
    }
  }

  class NoteTable {
    /** The stored notes by identifier. */
    var notes: map<Id, Note>
    /** Identifiers in insertion order: the order in which the store yields documents. */
    var order: seq<Id>
    /** The store's identifier generator. */
    var nextId: Id
    /** Every identifier created so far, including those since deleted. */
    ghost var issued: set<Id>

    ghost predicate Valid()
      reads this
    {
      TableInvariant(notes, order, issued, nextId)
    }

    constructor ()
      ensures Valid()
      ensures notes == map[] && order == [] && issued == {}
    {
      notes, order, nextId := map[], [], 0;
      issued := {};
    }

    /** POST /notes */
    method Create(title: Field, description: Field) returns (reply: Reply)
      requires Valid()
      modifies this
      ensures Valid()
      ensures StatusCode(reply) == (if HasRequiredFields(title, description) then 201 else 400)
      ensures !HasRequiredFields(title, description) ==>
        && reply == BadRequest(FieldsRequired)
        && notes == old(notes) && order == old(order) && issued == old(issued) && nextId == old(nextId)
      ensures HasRequiredFields(title, description) ==>
        var n := Note(title.text, description.text);
        && reply.Created? && reply.doc.note == n && nextId > reply.doc.id
        && reply.doc.id !in old(issued) && reply.doc.id !in old(notes)
        && notes == old(notes)[reply.doc.id := n]
        && order == old(order) + [reply.doc.id]
        && issued == old(issued) + {reply.doc.id}
    {
      if !HasRequiredFields(title, description) {
        return BadRequest(FieldsRequired);
      }
      var n := Note(title.text, description.text);
      var id := nextId;
      notes := notes[id := n];
      order := order + [id];
      nextId := nextId + 1;
      issued := issued + {id};
      reply := Created(Doc(id, n));
    }

    /**
      GET /notes: the page of matching documents for a 1-based page number
      and a positive page size, and the pagination metadata. A page below 1
      gives a negative skip, which the store rejects.
    */
    method List(page: int, limit: int, filter: string, matcher: Matcher) returns (reply: Reply)
      requires Valid()
      requires limit > 0
      ensures StatusCode(reply) == (if page >= 1 then 200 else 500)
      ensures page < 1 ==> reply == InternalError(InternalFailure)
      ensures page >= 1 ==>
        var matches := Matching(order, notes, filter, matcher);
        && Skip(page, limit) >= 0
        && reply == Ok(Listing(PageOf(matches, Skip(page, limit), limit), MetadataFor(|matches|, page, limit)))
    {
      if page < 1 {
        return InternalError(InternalFailure);
      }
      var skip := Skip(page, limit);
      MulMonotone(0, page - 1, limit);
      var totalNotes := |Matching(order, notes, filter, matcher)|;
      var data := PageOf(Matching(order, notes, filter, matcher), skip, limit);
      var totalPages := TotalPages(totalNotes, limit);
      reply := Ok(Listing(data, Metadata(totalNotes, totalPages, CurrentPage(page, totalPages))));
    }

    /** DELETE /notes/:id */
    method Delete(id: Id) returns (reply: Reply)
      requires Valid()
      modifies this
      ensures Valid()
      ensures issued == old(issued) && nextId == old(nextId)
      ensures StatusCode(reply) == (if id in old(notes) then 200 else 404)
      ensures id !in old(notes) ==>
        reply == NotFound(NoteNotFound) && notes == old(notes) && order == old(order)
      ensures id in old(notes) ==>
        && reply == Ok(Removed(NoteDeleted, Doc(id, old(notes)[id])))
        && notes == old(notes) - {id}
        && order == Without(old(order), {id})
    {
      if id !in notes {
        return NotFound(NoteNotFound);
      }
      var deleted := Doc(id, notes[id]);
      RemovalKeepsInvariant(notes, order, issued, nextId, {id});
      notes := notes - {id};
      order := Without(order, {id});
      reply := Ok(Removed(NoteDeleted, deleted));
    }

    /** PUT /notes/:id */
    method Update(id: Id, title: Field, description: Field) returns (reply: Reply)
      requires Valid()
      modifies this
      ensures Valid()
      ensures order == old(order) && issued == old(issued) && nextId == old(nextId)
      ensures StatusCode(reply) ==
        if !HasRequiredFields(title, description) then 400 else if id !in old(notes) then 404 else 200
      ensures !HasRequiredFields(title, description) ==>
        reply == BadRequest(FieldsRequired) && notes == old(notes)
      ensures HasRequiredFields(title, description) && id !in old(notes) ==>
        reply == NotFound(NoteNotFound) && notes == old(notes)
      ensures HasRequiredFields(title, description) && id in old(notes) ==>
        var n := Note(title.text, description.text);
        && reply == Ok(Changed(NoteUpdated, Doc(id, n)))
        && notes == old(notes)[id := n]
    {
      if !HasRequiredFields(title, description) {
        return BadRequest(FieldsRequired);
      }
      if id !in notes {
        return NotFound(NoteNotFound);
      }
      var n := Note(title.text, description.text);
      notes := notes[id := n];
      reply := Ok(Changed(NoteUpdated, Doc(id, n)));
    }

    /** POST /notes/delete-many */
    method DeleteMany(ids: IdsField) returns (reply: Reply)
      requires Valid()
      modifies this
      ensures Valid()
      ensures issued == old(issued) && nextId == old(nextId)
      ensures StatusCode(reply) ==
        if !IsIdList(ids) then 400 else if old(notes).Keys * IdSet(ids.ids) == {} then 404 else 200
      ensures !IsIdList(ids) ==>
        reply == BadRequest(InvalidIds) && notes == old(notes) && order == old(order)
      ensures IsIdList(ids) ==>
        && notes == old(notes) - IdSet(ids.ids)
        && order == Without(old(order), IdSet(ids.ids))
      ensures IsIdList(ids) && old(notes).Keys * IdSet(ids.ids) == {} ==>
        reply == NotFound(NothingToDelete) && notes == old(notes) && order == old(order)
      ensures IsIdList(ids) && old(notes).Keys * IdSet(ids.ids) != {} ==>
        reply == Ok(RemovedMany(NotesDeleted, |old(notes).Keys * IdSet(ids.ids)|))
    {
      if !IsIdList(ids) {
        return BadRequest(InvalidIds);
      }
      var gone := IdSet(ids.ids);
      var hit := notes.Keys * gone;
      // A removal that matches no stored id removes nothing (RemoveNothing).
      if hit == {} {
        RemoveNothing(notes, order, gone);
        return NotFound(NothingToDelete);
      }
      RemovalKeepsInvariant(notes, order, issued, nextId, gone);
      notes := notes - gone;
      order := Without(order, gone);
      reply := Ok(RemovedMany(NotesDeleted, |hit|));
    }
  }
}
