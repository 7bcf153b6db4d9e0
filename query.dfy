/**
  The listing query: which stored notes a title filter selects, and in what
  order the store yields them.
*/
module Query {
  import opened Notes

  /**
    Whether a title filter matches a title. The service builds a
    case-insensitive regular expression from the filter text; the model takes
    the matching relation as a parameter (ContainsIgnoringCase below is an
    approximation of it for filters without regular-expression syntax).
  */
  type Matcher = (string, string) -> bool

  /** An empty or absent filter selects every note. */
  predicate Selects(filter: string, matcher: Matcher, n: Note): (r: bool)
    ensures filter == [] ==> r
  {
    filter == [] || matcher(filter, n.title)
  }

  /** Every identifier of the order has a stored note. */
  predicate Covers(order: seq<Id>, notes: map<Id, Note>) {
    forall i :: 0 <= i < |order| ==> order[i] in notes
  }

  /** The documents the query selects, in the table's insertion order. */
  function Matching(order: seq<Id>, notes: map<Id, Note>, filter: string, matcher: Matcher): (r: seq<Doc>)
    requires Covers(order, notes)
    ensures |r| <= |order|
    ensures filter == [] ==> |r| == |order| && forall i :: 0 <= i < |r| ==> r[i] == Doc(order[i], notes[order[i]])
  {
    if order == [] then []
    else
      Head(order, notes, filter, matcher) + Matching(order[1..], notes, filter, matcher)
  }

  lemma CoversAppend(a: seq<Id>, b: seq<Id>, notes: map<Id, Note>)
    requires Covers(a, notes) && Covers(b, notes)
    ensures Covers(a + b, notes)
  {
    forall i | 0 <= i < |a + b| ensures (a + b)[i] in notes {
      if i >= |a| { assert (a + b)[i] == b[i - |a|]; }
    }
  }

  /** One step of the query: the first identifier's document, if selected, then the rest. */
  function Head(order: seq<Id>, notes: map<Id, Note>, filter: string, matcher: Matcher): seq<Doc>
    requires order != [] && order[0] in notes
  {
    var d := Doc(order[0], notes[order[0]]);
    if Selects(filter, matcher, d.note) then [d] else []
  }

  /** A document is listed exactly when it is stored, in the order, and selected by the filter. */
  lemma {:induction false} MatchingMembers(order: seq<Id>, notes: map<Id, Note>, filter: string, matcher: Matcher)
    requires Covers(order, notes)
    ensures forall d :: d in Matching(order, notes, filter, matcher) <==>
      d.id in order && d.id in notes && d.note == notes[d.id] && Selects(filter, matcher, d.note)
  {
    if order != [] {
      assert Covers(order[1..], notes);
      MatchingMembers(order[1..], notes, filter, matcher);
      assert forall x :: x in order <==> x == order[0] || x in order[1..];
    }
  }

  /** The query respects the order: matches of a concatenation are concatenated. */
  lemma {:induction false} MatchingAppend(a: seq<Id>, b: seq<Id>, notes: map<Id, Note>, filter: string, matcher: Matcher)
    requires Covers(a, notes) && Covers(b, notes)
    ensures Covers(a + b, notes)
    ensures Matching(a + b, notes, filter, matcher) == Matching(a, notes, filter, matcher) + Matching(b, notes, filter, matcher)
  {
    CoversAppend(a, b, notes);
    if a == [] {
      assert a + b == b;
    } else {
      var tail := a[1..];
      assert (a + b)[0] == a[0];
      assert (a + b)[1..] == tail + b;
      assert Covers(tail, notes);
      MatchingAppend(tail, b, notes, filter, matcher);
      var head := Head(a, notes, filter, matcher);
      assert Head(a + b, notes, filter, matcher) == head;
      var x, y := Matching(tail, notes, filter, matcher), Matching(b, notes, filter, matcher);
      assert Matching(a, notes, filter, matcher) == head + x;
      assert Matching(a + b, notes, filter, matcher) == head + (x + y);
      assert head + (x + y) == (head + x) + y;
    }
  }

  /** Notes outside the order do not affect the query. */
  lemma {:induction false} MatchingFrame(order: seq<Id>, notes: map<Id, Note>, id: Id, n: Note, filter: string, matcher: Matcher)
    requires Covers(order, notes) && id !in order
    ensures Covers(order, notes[id := n])
    ensures Matching(order, notes[id := n], filter, matcher) == Matching(order, notes, filter, matcher)
  {
    if order != [] {
      MatchingFrame(order[1..], notes, id, n, filter, matcher);
    }
  }

  /** A newly created note is listed last, when the filter selects it. */
  lemma ListingAfterCreate(order: seq<Id>, notes: map<Id, Note>, id: Id, n: Note, filter: string, matcher: Matcher)
    requires Covers(order, notes) && id !in notes
    ensures Covers(order + [id], notes[id := n])
    ensures Matching(order + [id], notes[id := n], filter, matcher) ==
      Matching(order, notes, filter, matcher) + (if Selects(filter, matcher, n) then [Doc(id, n)] else [])
  {
    var after := notes[id := n];
    assert id !in order;
    MatchingFrame(order, notes, id, n, filter, matcher);
    assert Covers([id], after);
    MatchingAppend(order, [id], after, filter, matcher);
    assert [id][1..] == [];
  }

  /** ASCII letters folded to lower case; every other character unchanged. */
  function LowerAscii(c: char): char {
    if 'A' <= c <= 'Z' then (c as int + 32) as char else c
  }

  predicate EqualIgnoringCase(a: string, b: string) {
    |a| == |b| && forall i :: 0 <= i < |a| ==> LowerAscii(a[i]) == LowerAscii(b[i])
  }

  /** The pattern occurs in the title starting at position k, ignoring case. */
  predicate OccursAt(pattern: string, title: string, k: int) {
    0 <= k <= |title| - |pattern| && EqualIgnoringCase(pattern, title[k..k + |pattern|])
  }

  /**
    Unanchored, ASCII-case-insensitive substring match: the approximation of
    the service's regular-expression filter for plain filter text.
  */
  predicate ContainsIgnoringCase(pattern: string, title: string) {
    exists k :: 0 <= k <= |title| - |pattern| && OccursAt(pattern, title, k)
  }

  /** A note titled "Grocery List" is selected by the filters "grocery" and "List". */
  lemma GroceryListMatches(description: string)
    ensures Selects("grocery", ContainsIgnoringCase, Note("Grocery List", description))
    ensures Selects("List", ContainsIgnoringCase, Note("Grocery List", description))
  {
    var title := "Grocery List";
    assert OccursAt("grocery", title, 0);
    assert OccursAt("List", title, 8);
  }
}
