/**
 * The process as a whole: the counter every note draws its id from
 * (`Note.last_id`) together with all notebooks that exist. Threading the
 * counter explicitly lets id uniqueness be stated across notebooks.
 */
module ProcessState {
  import opened Wrappers
  import opened Notes
  import opened Notebooks

  datatype Process = Process(lastId: nat, notebooks: seq<Notebook>)

  /**
   * Ids are at least 1, never above the counter, increasing within each
   * notebook, and never shared between two notebooks.
   */
  ghost predicate Valid(p: Process)
  {
    && (forall b :: 0 <= b < |p.notebooks| ==>
          IdsIncreasing(p.notebooks[b].notes) && IdsAtMost(p.notebooks[b].notes, p.lastId))
    && (forall b, i :: 0 <= b < |p.notebooks| && 0 <= i < |p.notebooks[b].notes| ==>
          1 <= p.notebooks[b].notes[i].id)
    && (forall b, c, i, j ::
          0 <= b < |p.notebooks| && 0 <= c < |p.notebooks| && b != c &&
          0 <= i < |p.notebooks[b].notes| && 0 <= j < |p.notebooks[c].notes| ==>
          p.notebooks[b].notes[i].id != p.notebooks[c].notes[j].id)
  }

  /** A process before any note exists: the counter is at 0. */
  function Start(): (p: Process)
    ensures p.lastId == 0 && |p.notebooks| == 0
    ensures Valid(p)
  {
    Process(0, [])
  }

  /** The process after opening a notebook, and that notebook's index. */
  datatype Opened = Opened(process: Process, index: nat)

  /** `Notebook()`: a new, empty notebook; its index is returned. */
  function OpenNotebook(p: Process): (r: Opened)
    ensures r.process.lastId == p.lastId
    ensures r.index == |p.notebooks| && |r.process.notebooks| == |p.notebooks| + 1
    ensures r.process.notebooks[..|p.notebooks|] == p.notebooks
    ensures |r.process.notebooks[r.index].notes| == 0
  {
    Opened(Process(p.lastId, p.notebooks + [NewNotebook()]), |p.notebooks|)
  }

  /** `notebooks[b].new_note(memo, tags)`: only notebook `b` and the counter change. */
  function AddNote(p: Process, b: nat, today: Date, memo: string, tags: string := ""): (q: Process)
    requires b < |p.notebooks|
    ensures q.lastId == p.lastId + 1
    ensures |q.notebooks| == |p.notebooks|
    ensures forall c :: 0 <= c < |p.notebooks| && c != b ==> q.notebooks[c] == p.notebooks[c]
    ensures q.notebooks[b].notes == p.notebooks[b].notes + [Note(q.lastId, memo, tags, today)]
  {
    var r := NewNote(p.notebooks[b], p.lastId, today, memo, tags);
    assert r.notebook.notes
        == r.notebook.notes[..|p.notebooks[b].notes|] + [r.notebook.notes[|p.notebooks[b].notes|]];
    Process(r.lastId, p.notebooks[b := r.notebook])
  }

  /** The process after constructing a note on its own, and that note. */
  datatype Standalone = Standalone(process: Process, note: Note)

  /** `Note(memo, tags)` outside any notebook: it still consumes an id. */
  function NewStandaloneNote(p: Process, today: Date, memo: string, tags: string := ""): (r: Standalone)
    ensures r.process.notebooks == p.notebooks
    ensures r.process.lastId == p.lastId + 1 && r.note.id == r.process.lastId
    ensures r.note.memo == memo && r.note.tags == tags && r.note.created == today
  {
    var c := Construct(p.lastId, today, memo, tags);
    Standalone(Process(c.lastId, p.notebooks), c.note)
  }

  /** Opening a notebook keeps the id invariant. */
  lemma OpenNotebookPreservesValid(p: Process)
    requires Valid(p)
    ensures Valid(OpenNotebook(p).process)
  {
    var q := OpenNotebook(p).process;
    assert forall b :: 0 <= b < |p.notebooks| ==> q.notebooks[b] == p.notebooks[b];
  }

  /** A standalone note keeps the id invariant, and its id is in no notebook. */
  lemma StandaloneNotePreservesValid(p: Process, today: Date, memo: string, tags: string)
    requires Valid(p)
    ensures var r := NewStandaloneNote(p, today, memo, tags);
      Valid(r.process) &&
      forall b :: 0 <= b < |p.notebooks| ==> FindNote(p.notebooks[b], r.note.id).None?
  {
  }

  /** The id a new note receives is carried by no note of any notebook. */
  lemma AddNoteIdIsFresh(p: Process, b: nat, today: Date, memo: string, tags: string)
    requires Valid(p) && b < |p.notebooks|
    ensures forall c, i :: 0 <= c < |p.notebooks| && 0 <= i < |p.notebooks[c].notes| ==>
      p.notebooks[c].notes[i].id != AddNote(p, b, today, memo, tags).lastId
  {
  }

  /** Adding a note to one notebook keeps the id invariant of the whole process. */
  lemma AddNotePreservesValid(p: Process, b: nat, today: Date, memo: string, tags: string)
    requires Valid(p) && b < |p.notebooks|
    ensures Valid(AddNote(p, b, today, memo, tags))
  {
    var q := AddNote(p, b, today, memo, tags);
    NewNoteKeepsIdsIncreasing(p.notebooks[b], p.lastId, today, memo, tags);
    var n := |p.notebooks[b].notes|;
    forall c | 0 <= c < |q.notebooks|
      ensures IdsIncreasing(q.notebooks[c].notes) && IdsAtMost(q.notebooks[c].notes, q.lastId)
    {
      if c != b {
        assert q.notebooks[c] == p.notebooks[c];
      }
    }
    forall c, d, i, j |
      0 <= c < |q.notebooks| && 0 <= d < |q.notebooks| && c != d &&
      0 <= i < |q.notebooks[c].notes| && 0 <= j < |q.notebooks[d].notes|
      ensures q.notebooks[c].notes[i].id != q.notebooks[d].notes[j].id
    {
      if c == b && i == n {
        assert q.notebooks[d] == p.notebooks[d];
      } else if d == b && j == n {
        assert q.notebooks[c] == p.notebooks[c];
      } else {
        assert q.notebooks[c].notes[i] == p.notebooks[c].notes[i];
        assert q.notebooks[d].notes[j] == p.notebooks[d].notes[j];
      }
    }
  }

  /**
   * After adding, the new note is found by its id in its notebook, and every
   * lookup that succeeded before still finds the same note.
   */
  lemma AddNoteLookups(p: Process, b: nat, today: Date, memo: string, tags: string)
    requires Valid(p) && b < |p.notebooks|
    ensures var q := AddNote(p, b, today, memo, tags);
      FindNote(q.notebooks[b], q.lastId) == Some(Note(q.lastId, memo, tags, today))
    ensures var q := AddNote(p, b, today, memo, tags);
      forall c, id :: 0 <= c < |p.notebooks| && FindNote(p.notebooks[c], id).Some? ==>
        FindNote(q.notebooks[c], id) == FindNote(p.notebooks[c], id)
  {
    var q := AddNote(p, b, today, memo, tags);
    var n := Note(q.lastId, memo, tags, today);
    assert FindNote(p.notebooks[b], q.lastId).None?;
    var k := FindIndex(q.notebooks[b].notes, q.lastId);
    assert q.notebooks[b].notes[|p.notebooks[b].notes|] == n;
    assert k.Some? && k.value == |p.notebooks[b].notes|;
    forall c, id | 0 <= c < |p.notebooks| && FindNote(p.notebooks[c], id).Some?
      ensures FindNote(q.notebooks[c], id) == FindNote(p.notebooks[c], id)
    {
      if c == b {
        FindNoteAfterAppend(p.notebooks[b], n, id);
      }
    }
  }

  /** Replacing a notebook by one with the same ids keeps the id invariant. */
  lemma SameIdsPreservesValid(p: Process, b: nat, nb: Notebook)
    requires Valid(p) && b < |p.notebooks|
    requires Ids(nb.notes) == Ids(p.notebooks[b].notes)
    ensures Valid(p.(notebooks := p.notebooks[b := nb]))
  {
    var before := p.notebooks[b].notes;
    assert |nb.notes| == |Ids(nb.notes)| == |before|;
    forall i | 0 <= i < |before|
      ensures nb.notes[i].id == before[i].id
    {
      assert Ids(nb.notes)[i] == Ids(before)[i];
    }
  }

  /** Modifying a note's memo or tags in one notebook keeps the id invariant of the process. */
  lemma ModifyPreservesValid(p: Process, b: nat, id: int, field: Field, text: string)
    requires Valid(p) && b < |p.notebooks|
    ensures Valid(p.(notebooks := p.notebooks[b := Modify(p.notebooks[b], id, field, text).notebook]))
  {
    ModifyKeepsIds(p.notebooks[b], id, field, text);
    SameIdsPreservesValid(p, b, Modify(p.notebooks[b], id, field, text).notebook);
  }

  /** One step of `CreateNotes`: the notes created so far and the new one can all be looked up. */
  lemma CreateStep(q: Process, reqs: seq<Request>, ids: seq<nat>, k: nat)
    requires Valid(q) && k < |reqs| && |ids| == k
    requires forall m :: 0 <= m < |reqs| ==> reqs[m].notebook < |q.notebooks|
    requires forall m :: 0 <= m < k ==>
      FindNote(q.notebooks[reqs[m].notebook], ids[m]) == Some(Note(ids[m], reqs[m].memo, reqs[m].tags, reqs[m].today))
    ensures var next := AddNote(q, reqs[k].notebook, reqs[k].today, reqs[k].memo, reqs[k].tags);
      var ids' := ids + [next.lastId];
      forall m :: 0 <= m <= k ==>
        FindNote(next.notebooks[reqs[m].notebook], ids'[m]) == Some(Note(ids'[m], reqs[m].memo, reqs[m].tags, reqs[m].today))
  {
    var r := reqs[k];
    var next := AddNote(q, r.notebook, r.today, r.memo, r.tags);
    AddNoteLookups(q, r.notebook, r.today, r.memo, r.tags);
    var ids' := ids + [next.lastId];
    forall m | 0 <= m <= k
      ensures FindNote(next.notebooks[reqs[m].notebook], ids'[m])
           == Some(Note(ids'[m], reqs[m].memo, reqs[m].tags, reqs[m].today))
    {
      if m < k {
        assert ids'[m] == ids[m];
        assert FindNote(q.notebooks[reqs[m].notebook], ids[m]).Some?;
      }
    }
  }

  /** One `new_note` call: which notebook, the note's texts, and the date the clock gives. */
  datatype Request = Request(notebook: nat, memo: string, tags: string, today: Date)

  /**
   * A sequence of `new_note` calls, possibly on different notebooks: the ids
   * handed out are consecutive from the counter, hence distinct and strictly
   * increasing in call order, and each note can be looked up by its id.
   */
  method CreateNotes(p: Process, reqs: seq<Request>) returns (q: Process, ids: seq<nat>)
    requires Valid(p)
    requires forall k :: 0 <= k < |reqs| ==> reqs[k].notebook < |p.notebooks|
    ensures Valid(q)
    ensures |q.notebooks| == |p.notebooks|
    ensures q.lastId == p.lastId + |reqs|
    ensures |ids| == |reqs|
    ensures forall k :: 0 <= k < |ids| ==> ids[k] == p.lastId + k + 1
    ensures forall k, l :: 0 <= k < l < |ids| ==> ids[k] < ids[l]
    ensures forall k :: 0 <= k < |reqs| ==>
      FindNote(q.notebooks[reqs[k].notebook], ids[k]) == Some(Note(ids[k], reqs[k].memo, reqs[k].tags, reqs[k].today))
  {
    q := p;
    ids := [];
    for k := 0 to |reqs|
      invariant Valid(q)
      invariant |q.notebooks| == |p.notebooks|
      invariant q.lastId == p.lastId + k
      invariant |ids| == k
      invariant forall m :: 0 <= m < k ==> ids[m] == p.lastId + m + 1
      invariant forall m :: 0 <= m < k ==>
        FindNote(q.notebooks[reqs[m].notebook], ids[m]) == Some(Note(ids[m], reqs[m].memo, reqs[m].tags, reqs[m].today))
    {
      var r := reqs[k];
      var next := AddNote(q, r.notebook, r.today, r.memo, r.tags);
      AddNotePreservesValid(q, r.notebook, r.today, r.memo, r.tags);
      CreateStep(q, reqs, ids, k);
      q, ids := next, ids + [next.lastId];
    }
  }
}
