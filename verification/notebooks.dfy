/**
 * A notebook: an insertion-ordered list of notes with creation, search,
 * lookup by id and in-place modification of one note's memo or tags.
 */
module Notebooks {
  import opened Wrappers
  import opened Notes

  datatype Notebook = Notebook(notes: seq<Note>)

  /** A fresh notebook holds no notes. */
  function NewNotebook(): (nb: Notebook)
    ensures |nb.notes| == 0
  {
    Notebook([])
  }

  /** The ids of `notes`, in list order. */
  function Ids(notes: seq<Note>): (r: seq<nat>)
    ensures |r| == |notes|
    ensures forall i :: 0 <= i < |notes| ==> r[i] == notes[i].id
  {
    seq(|notes|, i requires 0 <= i < |notes| => notes[i].id)
  }

  /** Ids grow strictly along the list, i.e. in creation order. */
  ghost predicate IdsIncreasing(notes: seq<Note>)
  {
    forall i, j :: 0 <= i < j < |notes| ==> notes[i].id < notes[j].id
  }

  /** Every id in the list has already been handed out by a counter at `bound`. */
  ghost predicate IdsAtMost(notes: seq<Note>, bound: nat)
  {
    forall i :: 0 <= i < |notes| ==> notes[i].id <= bound
  }

  // ---------------------------------------------------------------- new_note

  /** What `new_note` produces: the notebook afterwards and the advanced counter. */
  datatype Appended = Appended(notebook: Notebook, lastId: nat)

  /**
   * Appends a freshly constructed note. The shared counter goes in as
   * `lastId` and comes back advanced.
   */
  function NewNote(nb: Notebook, lastId: nat, today: Date, memo: string, tags: string := ""): (r: Appended)
    ensures r.lastId == lastId + 1
    ensures |r.notebook.notes| == |nb.notes| + 1
    ensures r.notebook.notes[..|nb.notes|] == nb.notes
    ensures r.notebook.notes[|nb.notes|] == Note(r.lastId, memo, tags, today)
  {
    var c := Construct(lastId, today, memo, tags);
    Appended(Notebook(nb.notes + [c.note]), c.lastId)
  }

  /** Appending keeps the ids in creation order and within the counter. */
  lemma NewNoteKeepsIdsIncreasing(nb: Notebook, lastId: nat, today: Date, memo: string, tags: string)
    requires IdsIncreasing(nb.notes) && IdsAtMost(nb.notes, lastId)
    ensures var r := NewNote(nb, lastId, today, memo, tags);
      IdsIncreasing(r.notebook.notes) && IdsAtMost(r.notebook.notes, r.lastId)
  {
    var after := NewNote(nb, lastId, today, memo, tags).notebook.notes;
    var n := |nb.notes|;
    forall i, j | 0 <= i < j < |after|
      ensures after[i].id < after[j].id
    {
      assert after[i] == nb.notes[i];
      if j < n {
        assert after[j] == nb.notes[j];
      }
    }
    forall i | 0 <= i < |after|
      ensures after[i].id <= lastId + 1
    {
      if i < n {
        assert after[i] == nb.notes[i];
      }
    }
  }

  // ------------------------------------------------------------------ search

  /** `a` can be obtained from `b` by deleting elements. */
  ghost predicate IsSubsequence<T>(a: seq<T>, b: seq<T>)
    decreases |b|
  {
    if |a| == 0 then true
    else if |b| == 0 then false
    else
      (a[|a| - 1] == b[|b| - 1] && IsSubsequence(a[..|a| - 1], b[..|b| - 1]))
      || IsSubsequence(a, b[..|b| - 1])
  }

  /** Reference filter: the notes that match, in their original order. */
  function Matching(notes: seq<Note>, filter: string, caseSensitive: bool): (r: seq<Note>)
    ensures |r| <= |notes|
    ensures forall x :: x in r <==> x in notes && Match(x, filter, caseSensitive)
    decreases |notes|
  {
    if |notes| == 0 then []
    else
      var init, last := notes[..|notes| - 1], notes[|notes| - 1];
      assert notes == init + [last];
      Matching(init, filter, caseSensitive) + (if Match(last, filter, caseSensitive) then [last] else [])
  }

  /** The list comprehension of `search`: keep each note that matches. */
  method Search(nb: Notebook, filter: string, caseSensitive: bool := true) returns (r: seq<Note>)
    ensures r == Matching(nb.notes, filter, caseSensitive)
    ensures forall x :: x in r <==> x in nb.notes && Match(x, filter, caseSensitive)
    ensures IsSubsequence(r, nb.notes)
  {
    r := [];
    for i := 0 to |nb.notes|
      invariant r == Matching(nb.notes[..i], filter, caseSensitive)
    {
      assert nb.notes[..i + 1][..i] == nb.notes[..i];
      if Match(nb.notes[i], filter, caseSensitive) {
        r := r + [nb.notes[i]];
      }
    }
    assert nb.notes[..|nb.notes|] == nb.notes;
    MatchingIsSubsequence(nb.notes, filter, caseSensitive);
  }

  /** The search result keeps the notebook's order: it is a subsequence. */
  lemma {:induction false} MatchingIsSubsequence(notes: seq<Note>, filter: string, caseSensitive: bool)
    ensures IsSubsequence(Matching(notes, filter, caseSensitive), notes)
    decreases |notes|
  {
    if |notes| > 0 {
      var init := notes[..|notes| - 1];
      MatchingIsSubsequence(init, filter, caseSensitive);
      var r := Matching(notes, filter, caseSensitive);
      if Match(notes[|notes| - 1], filter, caseSensitive) {
        assert r[..|r| - 1] == Matching(init, filter, caseSensitive);
      } else {
        assert r == Matching(init, filter, caseSensitive);
      }
    }
  }

  /** When every note matches, the search returns the whole list. */
  lemma {:induction false} AllMatchKeepsAll(notes: seq<Note>, filter: string, caseSensitive: bool)
    requires forall i :: 0 <= i < |notes| ==> Match(notes[i], filter, caseSensitive)
    ensures Matching(notes, filter, caseSensitive) == notes
    decreases |notes|
  {
    if |notes| > 0 {
      var init, last := notes[..|notes| - 1], notes[|notes| - 1];
      assert forall i :: 0 <= i < |init| ==> init[i] == notes[i];
      AllMatchKeepsAll(init, filter, caseSensitive);
      assert Matching(notes, filter, caseSensitive) == init + [last];
      assert notes == init + [last];
    }
  }

  /** Search keeps the whole list exactly when every note matches. */
  lemma MatchingKeepsAll(notes: seq<Note>, filter: string, caseSensitive: bool)
    ensures Matching(notes, filter, caseSensitive) == notes
        <==> forall x :: x in notes ==> Match(x, filter, caseSensitive)
  {
    if forall x :: x in notes ==> Match(x, filter, caseSensitive) {
      assert forall i :: 0 <= i < |notes| ==> notes[i] in notes;
      AllMatchKeepsAll(notes, filter, caseSensitive);
    }
  }

  /** Search comes back empty exactly when no note matches. */
  lemma MatchingEmpty(notes: seq<Note>, filter: string, caseSensitive: bool)
    ensures Matching(notes, filter, caseSensitive) == []
        <==> forall x :: x in notes ==> !Match(x, filter, caseSensitive)
  {
    var r := Matching(notes, filter, caseSensitive);
    if r != [] {
      assert r[0] in r;
    }
  }

  /** Searching a concatenation searches each part and concatenates. */
  lemma {:induction false} MatchingConcat(a: seq<Note>, b: seq<Note>, filter: string, caseSensitive: bool)
    ensures Matching(a + b, filter, caseSensitive)
         == Matching(a, filter, caseSensitive) + Matching(b, filter, caseSensitive)
    decreases |b|
  {
    if |b| == 0 {
      assert a + b == a;
    } else {
      var init, last := b[..|b| - 1], b[|b| - 1];
      assert (a + b)[..|a + b| - 1] == a + init;
      assert (a + b)[|a + b| - 1] == last;
      MatchingConcat(a, init, filter, caseSensitive);
    }
  }

  /** The case-insensitive result contains the case-sensitive one, in order. */
  lemma {:induction false} CaseInsensitiveSearchSuperset(notes: seq<Note>, filter: string)
    ensures IsSubsequence(Matching(notes, filter, true), Matching(notes, filter, false))
    decreases |notes|
  {
    if |notes| > 0 {
      var init, last := notes[..|notes| - 1], notes[|notes| - 1];
      CaseInsensitiveSearchSuperset(init, filter);
      CaseInsensitiveIsWeaker(last, filter);
      var a, b := Matching(notes, filter, true), Matching(notes, filter, false);
      var a0, b0 := Matching(init, filter, true), Matching(init, filter, false);
      if Match(last, filter, true) {
        assert a[..|a| - 1] == a0 && b[..|b| - 1] == b0;
      } else if Match(last, filter, false) {
        assert a == a0 && b[..|b| - 1] == b0;
      } else {
        assert a == a0 && b == b0;
      }
    }
  }

  // -------------------------------------------------------------- _find_note

  /** Scan from `from` for the first note carrying `id`. */
  function FindIndexFrom(notes: seq<Note>, id: int, from: nat): (r: Option<nat>)
    requires from <= |notes|
    ensures r.Some? ==> from <= r.value < |notes| && notes[r.value].id == id
    ensures r.Some? ==> forall j :: from <= j < r.value ==> notes[j].id != id
    ensures r.None? ==> forall j :: from <= j < |notes| ==> notes[j].id != id
    decreases |notes| - from
  {
    if from == |notes| then None
    else if notes[from].id == id then Some(from)
    else FindIndexFrom(notes, id, from + 1)
  }

  /** Position of the first note carrying `id`, scanning the whole list. */
  function FindIndex(notes: seq<Note>, id: int): (r: Option<nat>)
    ensures r.Some? ==> r.value < |notes| && notes[r.value].id == id
    ensures r.Some? ==> forall j :: 0 <= j < r.value ==> notes[j].id != id
    ensures r.None? <==> forall j :: 0 <= j < |notes| ==> notes[j].id != id
  {
    FindIndexFrom(notes, id, 0)
  }

  /** The intended lookup: the first note with the given id, if any. */
  function FindNote(nb: Notebook, id: int): (r: Option<Note>)
    ensures r.Some? ==> r.value.id == id && r.value in nb.notes
    ensures r.None? <==> forall j :: 0 <= j < |nb.notes| ==> nb.notes[j].id != id
    ensures r.Some? ==> exists i :: 0 <= i < |nb.notes| && r.value == nb.notes[i]
                                    && forall j :: 0 <= j < i ==> nb.notes[j].id != id
  {
    match FindIndex(nb.notes, id)
    case None => None
    case Some(i) => Some(nb.notes[i])
  }

  /**
   * The lookup as the source writes it: the loop returns on its first
   * iteration, so only the first note is ever examined.
   */
  function FindNoteAsWritten(nb: Notebook, id: int): (r: Option<Note>)
    ensures r.Some? ==> r.value.id == id && r.value in nb.notes
    ensures r.Some? ==> r.value == nb.notes[0]
    ensures r.None? <==> |nb.notes| == 0 || nb.notes[0].id != id
  {
    if |nb.notes| == 0 then None
    else if nb.notes[0].id == id then Some(nb.notes[0])
    else None
  }

  /**
   * The two lookups agree exactly when the list is empty, the first note
   * carries the id, or no note does.
   */
  lemma AsWrittenAgreement(nb: Notebook, id: int)
    ensures FindNoteAsWritten(nb, id) == FindNote(nb, id)
        <==> |nb.notes| == 0 || nb.notes[0].id == id
             || forall j :: 0 <= j < |nb.notes| ==> nb.notes[j].id != id
  {
    if |nb.notes| > 0 && nb.notes[0].id == id {
      assert FindIndex(nb.notes, id) == Some(0);
    }
  }

  /** A note at index 1 is missed when the first note has another id. */
  lemma AsWrittenIncomplete(nb: Notebook, id: int)
    requires |nb.notes| >= 2 && nb.notes[0].id != id && nb.notes[1].id == id
    ensures FindNoteAsWritten(nb, id) == None
    ensures FindNote(nb, id) == Some(nb.notes[1])
  {
    assert FindIndex(nb.notes, id) == Some(1);
  }

  /** Appending a note never changes what an earlier successful lookup finds. */
  lemma FindNoteAfterAppend(nb: Notebook, n: Note, id: int)
    requires FindNote(nb, id).Some?
    ensures FindNote(Notebook(nb.notes + [n]), id) == FindNote(nb, id)
  {
    var longer := nb.notes + [n];
    var i := FindIndex(nb.notes, id).value;
    var k := FindIndex(longer, id);
    assert longer[i] == nb.notes[i];
    assert k.Some? && k.value <= i;
    assert longer[k.value] == nb.notes[k.value];
  }

  /** With distinct ids the lookup returns the one note that carries the id. */
  lemma FindNoteUnique(nb: Notebook, k: nat)
    requires IdsIncreasing(nb.notes) && k < |nb.notes|
    ensures FindNote(nb, nb.notes[k].id) == Some(nb.notes[k])
  {
    var i := FindIndex(nb.notes, nb.notes[k].id);
    assert i.Some? ==> i.value == k;
  }

  /** The lookup only depends on the ids of the notes. */
  lemma FindIndexDependsOnIds(a: seq<Note>, b: seq<Note>, id: int)
    requires Ids(a) == Ids(b)
    ensures FindIndex(a, id) == FindIndex(b, id)
  {
    assert |a| == |Ids(a)| == |Ids(b)| == |b|;
    forall j | 0 <= j < |a|
      ensures a[j].id == b[j].id
    {
      assert Ids(a)[j] == Ids(b)[j];
    }
    var ra, rb := FindIndex(a, id), FindIndex(b, id);
    if ra.Some? && rb.Some? {
      assert !(ra.value < rb.value) && !(rb.value < ra.value);
    }
  }

  // ------------------------------------------------- modify_memo, modify_tags

  /** `after` is `before` with at most the note at index `i` replaced. */
  ghost predicate ChangesOnly(before: seq<Note>, after: seq<Note>, i: int)
  {
    && |after| == |before|
    && 0 <= i < |before|
    && forall j :: 0 <= j < |before| && j != i ==> after[j] == before[j]
  }

  /** The two fields a note's text can be overwritten in. */
  datatype Field = MemoField | TagsField

  function SetField(n: Note, field: Field, text: string): Note
  {
    match field
    case MemoField => n.(memo := text)
    case TagsField => n.(tags := text)
  }

  /** What a modify call returns: the notebook afterwards and the note, if any. */
  datatype Modified = Modified(notebook: Notebook, note: Option<Note>)

  /**
   * `r` is what a modify call on `nb` may return: `None` with `nb` unchanged
   * exactly when no note has the id; otherwise only the first note with the
   * id is replaced, keeping its id and date, and the replacement is returned.
   */
  ghost predicate UpdatesFirstWithId(nb: Notebook, id: int, r: Modified)
  {
    && (r.note.None? <==> FindNote(nb, id).None?)
    && (r.note.None? ==> r.notebook == nb)
    && (r.note.Some? ==>
          FindIndex(nb.notes, id).Some? &&
          var i := FindIndex(nb.notes, id).value;
          && ChangesOnly(nb.notes, r.notebook.notes, i)
          && r.notebook.notes[i] == r.note.value
          && r.note.value.id == id
          && r.note.value.created == nb.notes[i].created)
  }

  /** The shared body of `modify_memo` and `modify_tags`. */
  function Modify(nb: Notebook, id: int, field: Field, text: string): (r: Modified)
    ensures UpdatesFirstWithId(nb, id, r)
    ensures r.note.Some? ==> r.note.value == SetField(FindNote(nb, id).value, field, text)
  {
    match FindIndex(nb.notes, id)
    case None => Modified(nb, None)
    case Some(i) =>
      var n := SetField(nb.notes[i], field, text);
      Modified(Notebook(nb.notes[i := n]), Some(n))
  }

  /**
   * Overwrites the memo of the note the lookup finds and returns that note;
   * returns `None` and the notebook unchanged when there is none.
   */
  function ModifyMemo(nb: Notebook, id: int, memo: string): (r: Modified)
    ensures UpdatesFirstWithId(nb, id, r)
    ensures r.note.Some? ==> r.note.value.memo == memo && r.note.value.tags == FindNote(nb, id).value.tags
  {
    Modify(nb, id, MemoField, memo)
  }

  /** Same as `ModifyMemo`, but for the tags. */
  function ModifyTags(nb: Notebook, id: int, tags: string): (r: Modified)
    ensures UpdatesFirstWithId(nb, id, r)
    ensures r.note.Some? ==> r.note.value.tags == tags && r.note.value.memo == FindNote(nb, id).value.memo
  {
    Modify(nb, id, TagsField, tags)
  }

  /** Modifying never changes any id, so ids stay in creation order. */
  lemma ModifyKeepsIds(nb: Notebook, id: int, field: Field, text: string)
    ensures Ids(Modify(nb, id, field, text).notebook.notes) == Ids(nb.notes)
  {
    var after := Modify(nb, id, field, text).notebook.notes;
    if FindIndex(nb.notes, id).Some? {
      assert forall j :: 0 <= j < |nb.notes| ==> Ids(after)[j] == Ids(nb.notes)[j];
    }
  }

  /** The returned note is the one a later lookup by the same id finds. */
  lemma ModifyThenFind(nb: Notebook, id: int, field: Field, text: string)
    ensures var r := Modify(nb, id, field, text); FindNote(r.notebook, id) == r.note
  {
    ModifyKeepsIds(nb, id, field, text);
    FindIndexDependsOnIds(nb.notes, Modify(nb, id, field, text).notebook.notes, id);
  }

  /** Repeating a modification changes nothing further. */
  lemma ModifyIdempotent(nb: Notebook, id: int, field: Field, text: string)
    ensures var once := Modify(nb, id, field, text); Modify(once.notebook, id, field, text) == once
  {
    ModifyKeepsIds(nb, id, field, text);
    var once := Modify(nb, id, field, text);
    FindIndexDependsOnIds(nb.notes, once.notebook.notes, id);
    if FindIndex(nb.notes, id).Some? {
      var i := FindIndex(nb.notes, id).value;
      var n := once.notebook.notes[i];
      assert SetField(n, field, text) == n;
      assert once.notebook.notes[i := n] == once.notebook.notes;
    }
  }

  /** Memo and tags are independent fields: the two updates commute. */
  lemma ModifyMemoTagsCommute(nb: Notebook, id: int, memo: string, tags: string)
    ensures ModifyTags(ModifyMemo(nb, id, memo).notebook, id, tags).notebook
         == ModifyMemo(ModifyTags(nb, id, tags).notebook, id, memo).notebook
  {
    ModifyKeepsIds(nb, id, MemoField, memo);
    ModifyKeepsIds(nb, id, TagsField, tags);
    FindIndexDependsOnIds(nb.notes, ModifyMemo(nb, id, memo).notebook.notes, id);
    FindIndexDependsOnIds(nb.notes, ModifyTags(nb, id, tags).notebook.notes, id);
  }
}
