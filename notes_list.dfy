/** The notes list's decision logic (src/screens/NotesListScreen.tsx): the
    search filter, the four sort orders and the preference write on a change of
    order. Case folding (`toLowerCase`) and title collation (`localeCompare`)
    are locale-dependent library calls and are parameters here. */
module NotesList {
  import opened Wrappers
  import opened Seqs
  import opened JsString
  import opened Storage

  /** A note matches an already lowercased query when the query occurs in its
      lowercased title or body. */
  predicate Matches(note: Note, query: string, lower: string -> string)
    ensures Matches(note, query, lower) <==>
              (exists i :: OccursAt(lower(note.title), query, i)) || (exists i :: OccursAt(lower(note.body), query, i))
  {
    IncludesIff(lower(note.title), query);
    IncludesIff(lower(note.body), query);
    Includes(lower(note.title), query) || Includes(lower(note.body), query)
  }

  function MatchesQuery(query: string, lower: string -> string): Note -> bool {
    (n: Note) => Matches(n, query, lower)
  }

  /** The search step: all notes for a blank query; otherwise the notes matching
      the lowercased (untrimmed) query, in their stored order. */
  function Searched(notes: seq<Note>, searchQuery: string, lower: string -> string): (r: seq<Note>)
    ensures IsBlank(searchQuery) ==> r == notes
    ensures !IsBlank(searchQuery) ==>
              && (forall k :: 0 <= k < |r| ==> r[k] in notes && Matches(r[k], lower(searchQuery), lower))
              && (forall k :: 0 <= k < |notes| && Matches(notes[k], lower(searchQuery), lower) ==> notes[k] in r)
  {
    if IsBlank(searchQuery) then notes else Filter(notes, MatchesQuery(lower(searchQuery), lower))
  }

  /** The search never adds or duplicates a note: each note keeps its count if
      it is shown and drops to zero if it is not. */
  lemma SearchedCounts(notes: seq<Note>, searchQuery: string, lower: string -> string)
    ensures forall n :: multiset(Searched(notes, searchQuery, lower))[n] ==
              if IsBlank(searchQuery) || Matches(n, lower(searchQuery), lower) then multiset(notes)[n] else 0
  {
    if !IsBlank(searchQuery) {
      FilterMultiset(notes, MatchesQuery(lower(searchQuery), lower));
    }
  }

  /** The comparator handed to `filtered.sort`: a result that is not positive lets
      `a` stay before `b`. A note always has a title string here, so the
      source's `title || ''` fallback is the title itself. */
  function Compare(option: SortOption, titleCompare: (string, string) -> int, a: Note, b: Note): (r: int)
    ensures option == Newest ==> (r <= 0 <==> a.updatedAt >= b.updatedAt)
    ensures option == Oldest ==> (r <= 0 <==> a.updatedAt <= b.updatedAt)
    ensures option == TitleAsc ==> (r <= 0 <==> titleCompare(a.title, b.title) <= 0)
    ensures option == TitleDesc ==> (r <= 0 <==> titleCompare(b.title, a.title) <= 0)
  {
    match option
    case Newest => b.updatedAt - a.updatedAt
    case Oldest => a.updatedAt - b.updatedAt
    case TitleAsc => titleCompare(a.title, b.title)
    case TitleDesc => titleCompare(b.title, a.title)
  }

  predicate InOrder(option: SortOption, titleCompare: (string, string) -> int, a: Note, b: Note) {
    Compare(option, titleCompare, a, b) <= 0
  }

  /** What the sort needs of the title collation: "not after" is total and transitive. */
  ghost predicate ConsistentComparator(titleCompare: (string, string) -> int) {
    && (forall x, y :: titleCompare(x, y) <= 0 || titleCompare(y, x) <= 0)
    && (forall x, y, z :: titleCompare(x, y) <= 0 && titleCompare(y, z) <= 0 ==> titleCompare(x, z) <= 0)
  }

  ghost predicate SortedBy(option: SortOption, titleCompare: (string, string) -> int, s: seq<Note>) {
    forall i, j :: 0 <= i < j < |s| ==> InOrder(option, titleCompare, s[i], s[j])
  }

  /** Under every option, of two notes at least one may go first. */
  lemma InOrderTotal(option: SortOption, titleCompare: (string, string) -> int, a: Note, b: Note)
    requires ConsistentComparator(titleCompare)
    ensures InOrder(option, titleCompare, a, b) || InOrder(option, titleCompare, b, a)
  {
  }

  /** Under every option, "may go first" is transitive. */
  lemma InOrderTransitive(option: SortOption, titleCompare: (string, string) -> int, a: Note, b: Note, c: Note)
    requires ConsistentComparator(titleCompare)
    requires InOrder(option, titleCompare, a, b) && InOrder(option, titleCompare, b, c)
    ensures InOrder(option, titleCompare, a, c)
  {
  }

  /** 'titleDesc' is 'titleAsc' with the operands swapped. */
  lemma TitleDescReversesTitleAsc(titleCompare: (string, string) -> int, a: Note, b: Note)
    ensures InOrder(TitleDesc, titleCompare, a, b) == InOrder(TitleAsc, titleCompare, b, a)
  {
  }

  /** Exchanges two neighbouring elements. */
  method SwapAdjacent(a: array<Note>, j: int)
    requires 0 < j < a.Length
    modifies a
    ensures a[..] == old(a[..])[j - 1 := old(a[j])][j := old(a[j - 1])]
    ensures multiset(a[..]) == multiset(old(a[..]))
  {
    a[j - 1], a[j] := a[j], a[j - 1];
  }

  /** Every pair of `s[..i + 1]` that avoids position `j` is in order. */
  ghost predicate OrderedExcept(option: SortOption, titleCompare: (string, string) -> int,
                                s: seq<Note>, i: int, j: int)
    requires 0 <= j <= i < |s|
  {
    forall k, l :: 0 <= k < l <= i && k != j && l != j ==> InOrder(option, titleCompare, s[k], s[l])
  }

  /** `s[j]` may precede every note after it up to `i`. */
  ghost predicate PrecedesRest(option: SortOption, titleCompare: (string, string) -> int,
                               s: seq<Note>, i: int, j: int)
    requires 0 <= j <= i < |s|
  {
    forall l :: j < l <= i ==> InOrder(option, titleCompare, s[j], s[l])
  }

  /** Swapping the moving note with an out-of-order left neighbour keeps both
      facts, one position further left. */
  lemma SwapStep(option: SortOption, titleCompare: (string, string) -> int,
                                    b: seq<Note>, i: int, j: int)
    requires ConsistentComparator(titleCompare)
    requires 0 < j <= i < |b|
    requires OrderedExcept(option, titleCompare, b, i, j) && PrecedesRest(option, titleCompare, b, i, j)
    requires !InOrder(option, titleCompare, b[j - 1], b[j])
    ensures var c := b[j - 1 := b[j]][j := b[j - 1]];
            OrderedExcept(option, titleCompare, c, i, j - 1) && PrecedesRest(option, titleCompare, c, i, j - 1)
  {
    var c := b[j - 1 := b[j]][j := b[j - 1]];
    InOrderTotal(option, titleCompare, b[j - 1], b[j]);
    assert forall k :: 0 <= k <= i && k != j - 1 && k != j ==> c[k] == b[k];
  }

  /** Once the moving note's left neighbour is in order with it, or it has
      reached the front, the whole prefix is in order. */
  lemma InsertDone(option: SortOption, titleCompare: (string, string) -> int,
                                      s: seq<Note>, i: int, j: int)
    requires ConsistentComparator(titleCompare)
    requires 0 <= j <= i < |s|
    requires OrderedExcept(option, titleCompare, s, i, j) && PrecedesRest(option, titleCompare, s, i, j)
    requires j == 0 || InOrder(option, titleCompare, s[j - 1], s[j])
    ensures forall k, l :: 0 <= k < l <= i ==> InOrder(option, titleCompare, s[k], s[l])
  {
    forall k | 0 <= k < j
      ensures InOrder(option, titleCompare, s[k], s[j])
    {
      if k < j - 1 {
        InOrderTransitive(option, titleCompare, s[k], s[j - 1], s[j]);
      }
    }
  }

  /** One pass of the insertion sort: moves `a[i]` down past every note that
      must come after it, so that `a[..i + 1]` is ordered. */
  method InsertLast(a: array<Note>, i: int, option: SortOption, titleCompare: (string, string) -> int)
    requires 0 <= i < a.Length
    requires ConsistentComparator(titleCompare)
    requires forall k, l :: 0 <= k < l < i ==> InOrder(option, titleCompare, a[k], a[l])
    modifies a
    ensures forall k, l :: 0 <= k < l <= i ==> InOrder(option, titleCompare, a[k], a[l])
    ensures multiset(a[..]) == multiset(old(a[..]))
    ensures a[i + 1..] == old(a[i + 1..])
  {
    var j := i;
    while j > 0 && Compare(option, titleCompare, a[j - 1], a[j]) > 0
      invariant 0 <= j <= i
      invariant OrderedExcept(option, titleCompare, a[..], i, j)
      invariant PrecedesRest(option, titleCompare, a[..], i, j)
      invariant multiset(a[..]) == multiset(old(a[..]))
      invariant a[i + 1..] == old(a[i + 1..])
    {
      SwapStep(option, titleCompare, a[..], i, j);
      SwapAdjacent(a, j);
      j := j - 1;
    }
    InsertDone(option, titleCompare, a[..], i, j);
  }

  /** `filtered.sort(comparator)`, in place: an insertion sort. */
  method SortNotes(a: array<Note>, option: SortOption, titleCompare: (string, string) -> int)
    requires ConsistentComparator(titleCompare)
    modifies a
    ensures SortedBy(option, titleCompare, a[..])
    ensures multiset(a[..]) == multiset(old(a[..]))
  {
    var i := 0;
    while i < a.Length
      invariant 0 <= i <= a.Length
      invariant forall k, l :: 0 <= k < l < i ==> InOrder(option, titleCompare, a[k], a[l])
      invariant multiset(a[..]) == multiset(old(a[..]))
    {
      InsertLast(a, i, option, titleCompare);
      i := i + 1;
    }
  }

  /** `filterAndSortNotes`: the shown list is a permutation of the search
      result, ordered by the chosen option. */
  method FilterAndSortNotes(notes: seq<Note>, searchQuery: string, option: SortOption,
                            lower: string -> string, titleCompare: (string, string) -> int)
    returns (shown: seq<Note>)
    requires ConsistentComparator(titleCompare)
    ensures multiset(shown) == multiset(Searched(notes, searchQuery, lower))
    ensures SortedBy(option, titleCompare, shown)
    ensures option == Newest ==> forall i, j :: 0 <= i < j < |shown| ==> shown[i].updatedAt >= shown[j].updatedAt
    ensures option == Oldest ==> forall i, j :: 0 <= i < j < |shown| ==> shown[i].updatedAt <= shown[j].updatedAt
    ensures option == TitleAsc ==> forall i, j :: 0 <= i < j < |shown| ==> titleCompare(shown[i].title, shown[j].title) <= 0
    ensures option == TitleDesc ==> forall i, j :: 0 <= i < j < |shown| ==> titleCompare(shown[j].title, shown[i].title) <= 0
  {
    var filtered := notes;
    if !IsBlank(searchQuery) {
      var query := lower(searchQuery);
      filtered := Filter(filtered, MatchesQuery(query, lower));
    }
    var a := new Note[|filtered|](i requires 0 <= i < |filtered| => filtered[i]);
    assert a[..] == filtered;
    SortNotes(a, option, titleCompare);
    shown := a[..];
    assert forall i, j :: 0 <= i < j < |shown| ==> InOrder(option, titleCompare, shown[i], shown[j]);
  }

  /** `handleSortChange`: the chosen option is shown at once and, when a user is
      loaded, written as `{sortOption: option}` to that user's preferences. */
  method HandleSortChange(store: Store, username: Option<string>, option: SortOption, writeFails: bool)
    returns (selected: SortOption)
    modifies store`prefs
    ensures selected == option
    ensures store.prefs == if Truthy(username) && !writeFails
                           then old(store.prefs)[PreferencesKey(username.value) := option]
                           else old(store.prefs)
    ensures Truthy(username) && !writeFails ==> store.PreferencesOf(username.value) == UserPreferences(option)
  {
    selected := option;
    if Truthy(username) {
      store.SaveUserPreferences(username.value, UserPreferences(option), writeFails);
    }
  }
}
