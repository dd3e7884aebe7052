# Notebook model

A Dafny model of a small in-memory note-taking library (`notebook.py`). A
*note* holds memo text, tag text (a space-separated list kept as raw text),
its creation date and an id drawn from a counter shared by every note in the
process. A *notebook* is an insertion-ordered list of notes with four
operations: append a new note, search by substring (optionally ignoring
case), look a note up by id, and overwrite one note's memo or tags by id.

The model is functional:

- `Notes.Note` and `Notebooks.Notebook` are immutable datatypes.
- The class-level counter `Note.last_id` is a `lastId: nat` that goes into
  every construction and comes back advanced.
- `ProcessState.Process` holds that counter together with every notebook.
  This lets id uniqueness be stated across notebooks.
- An operation that mutates a note in place returns the updated notebook
  together with an `Option<Note>` (`None` for Python's `None`).
- `search` and the lookups take a notebook and return a value, so they
  cannot change it.
- The date from the system clock is a `today: Date` parameter.
- Python's default arguments (`tags=''`, `case_sensitive=True`) are Dafny
  default parameter values.

Modules: `Wrappers` (the `Option` type), `Text` (substring search and ASCII
lower-casing), `Notes`, `Notebooks`, `ProcessState`, and `Scenarios`
(worked examples of the operations on fixed inputs).

The lookup `_find_note` returns `None` from inside its loop body. So it
gives up after the first note, although its docstring says it locates the
note with the given id. Both behaviours are modelled: `FindNoteAsWritten`
follows the code and `FindNote` scans the whole list (see Findings). The
modify operations are built on `FindNote`.

The docstring of `modify_tags` says it changes the memo. The code changes
the tags, and the model follows the code.

## Model

| member | source | states |
|---|---|---|
| Text.Contains | notebook.py:32 | `needle in hay` is true exactly when the needle occurs at some offset of `hay`, including the empty needle |
| Text.LowerChar | notebook.py:25-27 | lower-casing never leaves an upper-case letter, maps `A`-`Z` to the letter at the same alphabet position in `a`-`z`, and fixes every other character |
| Text.Lower | notebook.py:25-27 | the model of `str.lower()`: the result has the same length, and each character is lower-cased on its own as `LowerChar` states |
| Text.LowerIdempotent | notebook.py:25-27 | lower-casing twice is the same as lower-casing once |
| Text.LowerPreservesSubstring | notebook.py:24-32 | if the filter occurs in a text, its lower-cased form occurs in the lower-cased text |
| Notes.Construct | notebook.py:9-17 | constructing a note advances the shared counter by exactly one, and the new value becomes the id, above every id handed out before; memo, tags and date are stored as given |
| Notes.MatchMeaning | notebook.py:19-32 | gives the meaning of `Match`, the model of `Note.match`. Case-sensitive: true iff the filter is a substring of the memo or of the tags; otherwise the same test on the lower-cased filter, memo and tags |
| Notes.EmptyFilterMatches | notebook.py:32 | the empty filter matches every note in both modes |
| Notes.CaseInsensitiveIsWeaker | notebook.py:24-32 | a note that matches case-sensitively also matches case-insensitively |
| Notes.CaseInsensitiveIgnoresFilterCase | notebook.py:24-27 | a case-insensitive match gives the same answer for a filter and its lower-cased form |
| Notebooks.NewNotebook | notebook.py:37-39 | a new notebook holds no notes |
| Notebooks.NewNote | notebook.py:40-42 | the list grows by one and every earlier note keeps its index; the new last note carries the given memo, tags and date and the id `lastId + 1`; the counter advances by one |
| Notebooks.NewNoteKeepsIdsIncreasing | notebook.py:16-17 | if ids increase along the list and none exceeds the counter, this still holds after an append |
| Notebooks.Matching | notebook.py:46-47 | reference filter: no longer than the list, and it holds a note iff the note is in the list and matches |
| Notebooks.Search | notebook.py:43-47 | the comprehension loop returns the reference filter: exactly the matching notes, as a subsequence of the notebook's list |
| Notebooks.MatchingIsSubsequence | notebook.py:46-47 | the search result keeps insertion order: it is a subsequence of the notes |
| Notebooks.MatchingConcat | notebook.py:46-47 | searching `a + b` gives the search of `a` followed by the search of `b` |
| Notebooks.MatchingKeepsAll | notebook.py:46-47 | the search returns the whole list iff every note matches |
| Notebooks.MatchingEmpty | notebook.py:46-47 | the search returns nothing iff no note matches |
| Notebooks.CaseInsensitiveSearchSuperset | notebook.py:24-32 | the case-sensitive result is a subsequence of the case-insensitive result for the same filter |
| Notebooks.FindIndexFrom | notebook.py:51-53 | the scan from a position returns the first later index whose note has the id, or none when no later note has it |
| Notebooks.FindIndex | notebook.py:49-53 | the full scan returns the first index carrying the id, and returns nothing iff no note carries it |
| Notebooks.FindNote | notebook.py:49-53 | sound: a returned note has the id and is in the notebook. It is the first note in the list with that id. Complete: `None` only when no note has the id |
| Notebooks.FindNoteAsWritten | notebook.py:49-54 | sound: a returned note has the id. It is always the first note, since the loop returns during its first iteration. It returns `None` exactly when the list is empty or the first note has another id |
| Notebooks.AsWrittenAgreement | notebook.py:49-54 | the two lookups agree iff the list is empty, the first note has the id, or no note has it |
| Notebooks.AsWrittenIncomplete | notebook.py:49-54 | when the first note has another id and the second has the id, the as-written lookup returns `None` but the full scan finds the second note |
| Notebooks.FindNoteAfterAppend | notebook.py:40-42 | appending a note does not change what an earlier successful lookup returns |
| Notebooks.FindNoteUnique | notebook.py:49-53 | when ids increase along the list, looking up the id of any note returns that note |
| Notebooks.FindIndexDependsOnIds | notebook.py:51-53 | two lists with the same ids give the same lookup result |
| Notebooks.Modify | notebook.py:56-74 | the shared body of both modify calls. It returns `None` and leaves the notebook unchanged iff no note has the id. Otherwise only the first note with that id changes: the chosen field gets the new text, and the id and date are kept. The changed note is returned |
| Notebooks.ModifyMemo | notebook.py:56-64 | returns `None` and leaves the notebook unchanged iff no note has the id. Otherwise only the first note with that id changes: it gets the new memo and keeps its id, tags and date. The changed note is returned |
| Notebooks.ModifyTags | notebook.py:66-74 | returns `None` and leaves the notebook unchanged iff no note has the id. Otherwise only the first note with that id changes: it gets the new tags and keeps its id, memo and date. The changed note is returned |
| Notebooks.ModifyKeepsIds | notebook.py:56-74 | neither modification changes any id in the list |
| Notebooks.ModifyThenFind | notebook.py:56-74 | the returned note is exactly what a later lookup by the same id finds, as with the aliased object returned in the source |
| Notebooks.ModifyIdempotent | notebook.py:56-74 | repeating a modification of the same field with the same text changes nothing more |
| Notebooks.ModifyMemoTagsCommute | notebook.py:56-74 | setting the memo and setting the tags of the same note commute |
| ProcessState.Start | notebook.py:7 | before any note exists the counter is 0 and the id invariant holds |
| ProcessState.OpenNotebook | notebook.py:37-39 | opening a notebook appends an empty one and leaves the counter and the other notebooks unchanged |
| ProcessState.AddNote | notebook.py:40-42 | a `new_note` call on one notebook advances the shared counter by one and appends a note with the new id to that notebook only |
| ProcessState.NewStandaloneNote | notebook.py:9-17 | a note built outside any notebook still consumes the next id, and no notebook changes |
| ProcessState.OpenNotebookPreservesValid | notebook.py:37-39 | opening a notebook keeps the id invariant |
| ProcessState.StandaloneNotePreservesValid | notebook.py:16-17 | a standalone note keeps the id invariant, and no notebook holds its id |
| ProcessState.AddNoteIdIsFresh | notebook.py:16-17 | the id given to a new note is carried by no note in any notebook |
| ProcessState.AddNotePreservesValid | notebook.py:7-17 | ids stay at least 1, at most the counter, increasing within each notebook and distinct across notebooks after any `new_note` |
| ProcessState.AddNoteLookups | notebook.py:40-54 | after `new_note` the new note is found by its id, and every earlier successful lookup returns the same note |
| ProcessState.SameIdsPreservesValid | notebook.py:56-74 | replacing a notebook by one with the same ids keeps the id invariant |
| ProcessState.ModifyPreservesValid | notebook.py:56-74 | modifying a memo or tags in any notebook keeps the id invariant of the whole process |
| ProcessState.CreateStep | notebook.py:40-42 | one more `new_note` call keeps every earlier note findable by its id with its texts, and makes the new note findable too |
| ProcessState.CreateNotes | notebook.py:7-17 | a sequence of `new_note` calls on any notebooks hands out consecutive ids from the counter, so they are distinct and increase in call order; the invariant holds at the end, and each note can be looked up by its id with its memo, tags and the date of its own call |
| Scenarios.TwoNotes | notebook.py:37-42 | two `new_note` calls on a new notebook give notes with ids 1 and 2, in order |
| Scenarios.MatchesOfLowercaseO | notebook.py:19-32 | a note with `o` and without `O` matches "o" case-sensitively, does not match "O" case-sensitively, and matches "O" case-insensitively |
| Scenarios.SearchTwoNotes | notebook.py:43-47 | for two such notes, searching "o" returns both, "O" returns none, and "O" ignoring case returns both |
| Scenarios.SearchScenario | notebook.py:43-47 | in the "hello world"/"goodbye" notebook, `search("o")` returns both notes in order, `search("O")` returns none, and `search("O", False)` returns both |
| Scenarios.ModifyTagsScenario | notebook.py:66-74 | `modify_tags(1, "new tag")` returns note 1 with the new tags, and `modify_tags(99, "x")` returns `None` and changes nothing |
| Scenarios.AsWrittenMissesSecondNote | notebook.py:49-54 | in the two-note notebook the as-written lookup of id 2 returns `None`, while the full scan returns the second note |

## Left out

- `creation_date = datetime.date.today()` reads the system clock. The date is a `today` parameter, and the model never looks inside it.
- `str.lower()` is modelled for ASCII only. It maps `A`-`Z` to `a`-`z` and leaves every other character alone. Full Unicode case mapping is not modelled; it can change the length of a string.
- Notes.CaseInsensitiveIsWeaker: holds only for the ASCII lower-casing of the model. Python's `str.lower()` follows the Unicode Final_Sigma rule, so `"ΑΣ".lower()` is `"ας"` but `"Σ".lower()` is `"σ"`. A note with memo `"ΑΣ"` and empty tags therefore matches `"Σ"` case-sensitively but not case-insensitively.
- Notebooks.CaseInsensitiveSearchSuperset: holds only for the ASCII lower-casing of the model. With the `"ΑΣ"` note above, `search("Σ")` returns the note and `search("Σ", False)` does not.
- Python object identity and aliasing are not modelled. The modify operations return a new notebook and the updated note, not a shared mutable object.
- The shared counter is not safe for concurrent use. Construction is modelled as strictly sequential.
- Notebooks.Modify: built on the full-scan lookup. As written, both modify calls inherit the first-element-only lookup, so they can only change `notes[0]` and return `None` otherwise.
- Notebooks.ModifyMemo: built on the full-scan lookup. As written, `modify_memo` inherits the first-element-only lookup, so it can only change `notes[0]`. On the other inputs it returns `None`.
- Notebooks.ModifyTags: built on the full-scan lookup, for the same reason as `ModifyMemo`.
- Values of the wrong type (a non-string memo, a non-integer id) are excluded by the Dafny types.

## Findings

| source | as written | input that shows it | evidently intended | confidence | as-written member | corrected member |
|---|---|---|---|---|---|---|
| notebook.py:51-54 | `return None` is inside the `for` body, so the loop returns `None` as soon as the first note has another id | a notebook with notes of ids 1 and 2, looking up id 2 | scan every note and return `None` only after none matches, as the docstring "Locate the note with the given id" says | high; not executed | Notebooks.FindNoteAsWritten, Scenarios.AsWrittenMissesSecondNote | Notebooks.FindNote |
