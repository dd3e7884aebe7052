/**
 * A single note: memo text, space-separated tag text (kept as raw text), the
 * date it was made and an id drawn from a counter shared by every note.
 */
module Notes {
  import opened Text

  /** A calendar date; the model never inspects it, it only carries it. */
  datatype Date = Date(year: int, month: int, day: int)

  datatype Note = Note(id: nat, memo: string, tags: string, created: Date)

  /** What constructing a note produces: the note and the advanced counter. */
  datatype Constructed = Constructed(note: Note, lastId: nat)

  /**
   * Constructing a note. The shared counter `lastId` is passed in and the
   * advanced counter is handed back; `today` stands for the system clock.
   */
  function Construct(lastId: nat, today: Date, memo: string, tags: string := ""): (r: Constructed)
    ensures r.lastId == lastId + 1
    ensures r.note.id == r.lastId && r.note.id > lastId
    ensures r.note.memo == memo && r.note.tags == tags && r.note.created == today
  {
    var next := lastId + 1;
    Constructed(Note(next, memo, tags, today), next)
  }

  /**
   * Whether `filter` occurs in the memo or in the tags; when not case
   * sensitive, all three texts are lower-cased first. Its meaning in terms
   * of substrings is `MatchMeaning`, kept out of the contract so that
   * reasoning about lists of notes does not unfold it.
   */
  predicate Match(n: Note, filter: string, caseSensitive: bool := true)
  {
    var (memo, tags, f) :=
      if !caseSensitive then (Lower(n.memo), Lower(n.tags), Lower(filter))
      else (n.memo, n.tags, filter);
    Contains(memo, f) || Contains(tags, f)
  }

  lemma MatchMeaning(n: Note, filter: string, caseSensitive: bool)
    ensures caseSensitive ==>
      (Match(n, filter, caseSensitive) <==> IsSubstring(filter, n.memo) || IsSubstring(filter, n.tags))
    ensures !caseSensitive ==>
      (Match(n, filter, caseSensitive) <==>
         IsSubstring(Lower(filter), Lower(n.memo)) || IsSubstring(Lower(filter), Lower(n.tags)))
  {
  }

  /** The empty filter matches every note, in either mode. */
  lemma EmptyFilterMatches(n: Note, caseSensitive: bool)
    ensures Match(n, "", caseSensitive)
  {
    MatchMeaning(n, "", caseSensitive);
    EmptyIsSubstring(n.memo);
    assert Lower("") == "";
    EmptyIsSubstring(Lower(n.memo));
  }

  /** Case-insensitive matching is never stricter than case-sensitive matching. */
  lemma CaseInsensitiveIsWeaker(n: Note, filter: string)
    ensures Match(n, filter, true) ==> Match(n, filter, false)
  {
    MatchMeaning(n, filter, true);
    MatchMeaning(n, filter, false);
    if IsSubstring(filter, n.memo) {
      LowerPreservesSubstring(filter, n.memo);
    }
    if IsSubstring(filter, n.tags) {
      LowerPreservesSubstring(filter, n.tags);
    }
  }

  /** Case-insensitive matching ignores the case of the filter. */
  lemma CaseInsensitiveIgnoresFilterCase(n: Note, filter: string)
    ensures Match(n, filter, false) == Match(n, Lower(filter), false)
  {
    MatchMeaning(n, filter, false);
    MatchMeaning(n, Lower(filter), false);
    LowerIdempotent(filter);
  }
}
