/**
 * Worked examples: two notes in one notebook, searched in both modes, one of
 * them retagged, and the lookup that the as-written scan gets wrong.
 */
module Scenarios {
  import opened Wrappers
  import opened Notes
  import opened Notebooks
  import opened ProcessState

  const Today := Date(2024, 1, 1)

  /** One notebook holding "hello world" / "a b" and then "goodbye" / "b c". */
  function TwoNotes(): (p: Process)
    ensures |p.notebooks| == 1 && p.lastId == 2
    ensures p.notebooks[0].notes
         == [Note(1, "hello world", "a b", Today), Note(2, "goodbye", "b c", Today)]
  {
    var first := OpenNotebook(Start());
    var p1 := AddNote(first.process, first.index, Today, "hello world", "a b");
    AddNote(p1, first.index, Today, "goodbye", "b c")
  }

  const Hello := Note(1, "hello world", "a b", Today)
  const Goodbye := Note(2, "goodbye", "b c", Today)

  /**
   * A note whose memo holds 'o' and whose texts hold no 'O' matches "o"
   * exactly, fails "O" exactly, and matches "O" when case is ignored.
   */
  lemma MatchesOfLowercaseO(n: Note)
    requires 'o' in n.memo && 'O' !in n.memo && 'O' !in n.tags
    ensures Match(n, "o", true) && !Match(n, "O", true) && Match(n, "O", false)
  {
    Text.SingleCharSubstring('o', n.memo);
    Text.SingleCharSubstring('O', n.memo);
    Text.SingleCharSubstring('O', n.tags);
    CaseInsensitiveIsWeaker(n, "o");
    CaseInsensitiveIgnoresFilterCase(n, "O");
    assert Text.Lower("O") == "o";
  }

  /** Two notes that both hold 'o' and no 'O': the three searches of the scenario. */
  lemma SearchTwoNotes(notes: seq<Note>)
    requires |notes| == 2
    requires forall x :: x in notes ==> 'o' in x.memo && 'O' !in x.memo && 'O' !in x.tags
    ensures Matching(notes, "o", true) == notes
    ensures Matching(notes, "O", true) == []
    ensures Matching(notes, "O", false) == notes
  {
    MatchesOfLowercaseO(notes[0]);
    MatchesOfLowercaseO(notes[1]);
    assert forall x :: x in notes ==> x == notes[0] || x == notes[1];
    MatchingKeepsAll(notes, "o", true);
    MatchingEmpty(notes, "O", true);
    MatchingKeepsAll(notes, "O", false);
  }

  /** "o" matches both notes exactly; "O" matches only when case is ignored. */
  lemma SearchScenario()
    ensures var notes := TwoNotes().notebooks[0].notes;
      && Matching(notes, "o", true) == notes
      && Matching(notes, "O", true) == []
      && Matching(notes, "O", false) == notes
  {
    var notes := TwoNotes().notebooks[0].notes;
    assert 'o' in Hello.memo && 'O' !in Hello.memo && 'O' !in Hello.tags;
    assert 'o' in Goodbye.memo && 'O' !in Goodbye.memo && 'O' !in Goodbye.tags;
    SearchTwoNotes(notes);
  }

  /** Retagging note 1 returns it with the new tags; id 99 is absent. */
  lemma ModifyTagsScenario()
    ensures var nb := TwoNotes().notebooks[0];
      && ModifyTags(nb, 1, "new tag").note == Some(Note(1, "hello world", "new tag", Today))
      && ModifyTags(nb, 99, "x") == Modified(nb, None)
  {
    var nb := TwoNotes().notebooks[0];
    assert FindIndex(nb.notes, 1) == Some(0);
  }

  /** The as-written lookup misses note 2, which the full scan finds. */
  lemma AsWrittenMissesSecondNote()
    ensures var nb := TwoNotes().notebooks[0];
      && FindNoteAsWritten(nb, 2) == None
      && FindNote(nb, 2) == Some(nb.notes[1])
  {
    AsWrittenIncomplete(TwoNotes().notebooks[0], 2);
  }
}
