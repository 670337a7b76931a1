/** The local account and note store (src/utils/storage.ts): the user registry
    with its password hash, the session pointer, per-user note collections and
    per-user sort preferences.

    The platform key-value store is replaced by four typed fields of `Store`.
    Each operation reads the whole collection, changes it in memory and writes
    it back whole. Storage errors are the `Faults` parameters: a failed read is
    caught and yields `[]` (or the default preferences), a failed write is
    caught and leaves the stored value as it was. */
module Storage {
  import opened Wrappers
  import opened Seqs
  import opened Decimal

  // ---------------------------------------------------------------- data model

  /** A registered account; `password` holds the hash, never the plain text. */
  datatype User = User(username: string, password: string, createdAt: int)

  datatype Note = Note(
    id: string,
    title: string,
    body: string,
    imageUri: Option<string>,
    createdAt: int,
    updatedAt: int)

  datatype SortOption = Newest | Oldest | TitleAsc | TitleDesc

  datatype UserPreferences = UserPreferences(sortOption: SortOption)

  const DefaultPreferences := UserPreferences(Newest)

  /** Which of an operation's storage calls throw. */
  datatype Faults = Faults(readFails: bool, writeFails: bool)

  const NoFaults := Faults(false, false)

  // -------------------------------------------------------------- storage keys

  const NotesPrefix := "user_"
  const NotesSuffix := "_notes"
  const PreferencesPrefix := "user_preferences_"

  /** The key of a user's note collection; the username can be read back from it. */
  function NotesKey(username: string): (k: string)
    ensures |k| == |NotesPrefix| + |username| + |NotesSuffix|
    ensures k[..|NotesPrefix|] == NotesPrefix && k[|k| - |NotesSuffix|..] == NotesSuffix
    ensures k[|NotesPrefix|..|k| - |NotesSuffix|] == username
  {
    NotesPrefix + username + NotesSuffix
  }

  /** The key of a user's preference record; the username is its tail. */
  function PreferencesKey(username: string): (k: string)
    ensures |k| == |PreferencesPrefix| + |username|
    ensures k[..|PreferencesPrefix|] == PreferencesPrefix
    ensures k[|PreferencesPrefix|..] == username
  {
    PreferencesPrefix + username
  }

  lemma NotesKeyInjective(a: string, b: string)
    ensures NotesKey(a) == NotesKey(b) <==> a == b
  {
    if NotesKey(a) == NotesKey(b) {
      assert a == NotesKey(a)[|NotesPrefix|..|NotesKey(a)| - |NotesSuffix|];
    }
  }

  lemma PreferencesKeyInjective(a: string, b: string)
    ensures PreferencesKey(a) == PreferencesKey(b) <==> a == b
  {
    if PreferencesKey(a) == PreferencesKey(b) {
      assert a == PreferencesKey(a)[|PreferencesPrefix|..];
    }
  }

  /** The two key spaces are not disjoint: the note collection of one user and
      the preference record of another are stored under the same key. */
  lemma KeySpacesOverlap()
    ensures NotesKey("preferences_x") == PreferencesKey("x_notes")
  {
  }

  // ------------------------------------------------------------- password hash

  const TwoTo31 := 0x8000_0000
  const TwoTo32 := 0x1_0000_0000

  predicate IsInt32(x: int) {
    -TwoTo31 <= x < TwoTo31
  }

  /** ECMAScript ToInt32 of an integral number: the signed 32-bit value
      congruent to `x` modulo 2^32. */
  function ToInt32(x: int): (r: int)
    ensures IsInt32(r)
  {
    (x + 0x8000_0000) % 0x1_0000_0000 - 0x8000_0000
  }

  /** ToInt32 subtracts a whole number of 2^32 periods. */
  lemma ToInt32Quotient(x: int)
    ensures ToInt32(x) == x - ((x + 0x8000_0000) / 0x1_0000_0000) * 0x1_0000_0000
  {
  }

  /** ToInt32 only sees `x` modulo 2^32. */
  lemma ToInt32Periodic(x: int, k: int)
    ensures ToInt32(x + k * 0x1_0000_0000) == ToInt32(x)
  {
    var y := x + 0x8000_0000;
    var q := y / 0x1_0000_0000 + k;
    var r := y % 0x1_0000_0000;
    assert y + k * 0x1_0000_0000 == q * 0x1_0000_0000 + r;
    assert (y + k * 0x1_0000_0000) % 0x1_0000_0000 == r;
  }

  lemma ToInt32OfInt32(x: int)
    requires IsInt32(x)
    ensures ToInt32(x) == x
  {
  }

  /** One pass of the loop body: `hash = (hash << 5) - hash + char` followed by
      `hash = hash & hash`. The shift and the `&` both go through ToInt32. */
  function HashStep(hash: int, c: char): (r: int)
    ensures IsInt32(r)
  {
    var shifted := ToInt32(ToInt32(hash) * 32);
    ToInt32(shifted - hash + c as int)
  }

  /** For a 32-bit `hash`, a step is `31 * hash + char` wrapped to 32 bits. */
  lemma HashStepWraps(hash: int, c: char)
    requires IsInt32(hash)
    ensures HashStep(hash, c) == ToInt32(31 * hash + c as int)
  {
    ToInt32OfInt32(hash);
    var p := hash * 32;
    var k := (p + 0x8000_0000) / 0x1_0000_0000;
    ToInt32Quotient(p);
    var x := 31 * hash + c as int;
    assert ToInt32(p) - hash + c as int == x + (-k) * 0x1_0000_0000;
    ToInt32Periodic(x, -k);
  }

  /** The hash of a password: the loop's value after consuming every character. */
  function HashFold(s: string): (h: int)
    ensures IsInt32(h)
  {
    if s == [] then 0 else HashStep(HashFold(s[..|s| - 1]), s[|s| - 1])
  }

  /** s[0]*31^(n-1) + ... + s[n-1]*31^0 with no wrap-around. */
  function Polynomial(s: string): int {
    if s == [] then 0 else 31 * Polynomial(s[..|s| - 1]) + s[|s| - 1] as int
  }

  /** Wrapping at every step gives the unbounded polynomial wrapped once. */
  lemma {:induction false} HashFoldIsWrappedPolynomial(s: string)
    ensures HashFold(s) == ToInt32(Polynomial(s))
  {
    if s != [] {
      var init, c := s[..|s| - 1], s[|s| - 1];
      HashFoldIsWrappedPolynomial(init);
      var h, p := HashFold(init), Polynomial(init);
      HashStepWraps(h, c);
      var k := (p + 0x8000_0000) / 0x1_0000_0000;
      ToInt32Quotient(p);
      assert h == p - k * 0x1_0000_0000;
      assert 31 * h + c as int == Polynomial(s) + (-31 * k) * 0x1_0000_0000;
      ToInt32Periodic(Polynomial(s), -31 * k);
    }
  }

  /** The stored form of a password: the decimal string of its hash, which
      reads back as that signed 32-bit value. */
  function PasswordHash(password: string): (r: string)
    ensures ParseInt(r) == HashFold(password) && IsInt32(ParseInt(r))
  {
    IntToDecimalRoundTrip(HashFold(password));
    IntToDecimal(HashFold(password))
  }

  /** `hashPassword`: a loop over the characters, updating `hash` in place. */
  method HashPassword(password: string) returns (r: string)
    ensures r == PasswordHash(password)
  {
    var hash := 0;
    for i := 0 to |password|
      invariant hash == HashFold(password[..i])
    {
      assert password[..i + 1][..i] == password[..i];
      hash := ToInt32(ToInt32(hash) * 32) - hash + password[i] as int;
      hash := ToInt32(hash);
    }
    assert password[..|password|] == password;
    r := IntToDecimal(hash);
  }

  lemma EmptyPasswordHash()
    ensures PasswordHash("") == "0"
  {
  }

  /** Two passwords hash alike exactly when their 32-bit folds agree. */
  lemma PasswordHashMatches(a: string, b: string)
    ensures PasswordHash(a) == PasswordHash(b) <==> HashFold(a) == HashFold(b)
  {
    IntToDecimalInjective(HashFold(a), HashFold(b));
  }

  /** While the hash stays small, a step is exactly `31 * hash + char`. */
  lemma SmallHashStep(hash: int, c: char)
    requires 0 <= hash < 0x10_0000
    ensures HashStep(hash, c) == 31 * hash + c as int
  {
    ToInt32OfInt32(hash);
    ToInt32OfInt32(hash * 32);
    ToInt32OfInt32(31 * hash + c as int);
  }

  /** The hash is not collision free: "Aa" and "BB" are stored alike. */
  lemma HashCollision()
    ensures PasswordHash("Aa") == PasswordHash("BB")
  {
    assert "Aa"[..1] == "A" && "BB"[..1] == "B";
    assert "A"[..0] == "" && "B"[..0] == "";
    SmallHashStep(0, 'A');
    SmallHashStep(0, 'B');
    assert HashFold("A") == 65;
    assert HashFold("B") == 66;
    SmallHashStep(65, 'a');
    SmallHashStep(66, 'B');
    assert HashFold("Aa") == 2112 == HashFold("BB");
  }

  // ------------------------------------------------------------- user registry

  function HasUsername(name: string): User -> bool {
    (u: User) => u.username == name
  }

  /** `users.find(u => u.username === name)`. */
  function FindUser(users: seq<User>, name: string): (r: Option<User>)
    ensures r.None? <==> forall k :: 0 <= k < |users| ==> users[k].username != name
    ensures r.Some? ==> r.value in users && r.value.username == name
    ensures r.Some? ==> exists k :: && 0 <= k < |users| && users[k] == r.value
                                    && forall j :: 0 <= j < k ==> users[j].username != name
  {
    var i := FindIndex(users, HasUsername(name));
    if i < 0 then None else Some(users[i])
  }

  /** No two accounts share a username. */
  ghost predicate UniqueUsernames(users: seq<User>) {
    forall i, j :: 0 <= i < j < |users| ==> users[i].username != users[j].username
  }

  /** What `verifyUser` decides for a registry it has read: a name with no
      account never logs in, whatever the password. */
  predicate Authenticates(users: seq<User>, name: string, password: string)
    ensures (forall k :: 0 <= k < |users| ==> users[k].username != name) ==>
              !Authenticates(users, name, password)
  {
    match FindUser(users, name)
    case None => false
    case Some(u) => u.password == PasswordHash(password)
  }

  /** A password authenticates a name exactly when the first account with
      that name holds the password's hash. */
  lemma AuthenticatesFirstMatch(users: seq<User>, name: string, password: string)
    ensures Authenticates(users, name, password) <==>
              exists k :: && 0 <= k < |users| && users[k].username == name
                          && (forall j :: 0 <= j < k ==> users[j].username != name)
                          && users[k].password == PasswordHash(password)
  {
    var i := FindIndex(users, HasUsername(name));
    if i >= 0 {
      assert users[i].username == name;
    }
  }

  /** Appending an account whose username is new keeps usernames unique. */
  lemma RegisterKeepsUnique(users: seq<User>, user: User)
    requires UniqueUsernames(users)
    requires FindUser(users, user.username).None?
    ensures UniqueUsernames(users + [user])
  {
  }

  /** Once appended, a username is taken: registering it again is refused. */
  lemma RegisteredIsFound(users: seq<User>, user: User)
    ensures FindUser(users + [user], user.username).Some?
  {
    assert (users + [user])[|users|] == user;
  }

  /** Registering `name` with `password` makes exactly the passwords whose hash
      folds to the same value log in as `name`. */
  lemma RegisterThenAuthenticate(users: seq<User>, name: string, password: string,
                                 now: int, attempt: string)
    requires FindUser(users, name).None?
    ensures Authenticates(users + [User(name, PasswordHash(password), now)], name, attempt)
            <==> HashFold(attempt) == HashFold(password)
  {
    var user := User(name, PasswordHash(password), now);
    FindIndexAppend(users, user, HasUsername(name));
    PasswordHashMatches(password, attempt);
  }

  /** Registering one username changes nobody else's login outcome. */
  lemma RegisterLeavesOthers(users: seq<User>, user: User, name: string, password: string)
    requires name != user.username
    ensures FindUser(users + [user], name) == FindUser(users, name)
    ensures Authenticates(users + [user], name, password) == Authenticates(users, name, password)
  {
    FindIndexAppend(users, user, HasUsername(name));
  }

  // ---------------------------------------------------------- note collections

  function HasId(id: string): Note -> bool {
    (n: Note) => n.id == id
  }

  /** The complement of `HasId(id)`, the test `deleteNote` keeps by. */
  function LacksId(id: string): Note -> bool {
    (n: Note) => n.id != id
  }

  ghost predicate UniqueIds(notes: seq<Note>) {
    forall i, j :: 0 <= i < j < |notes| ==> notes[i].id != notes[j].id
  }

  /** The collection stored for `username`, or `[]` when nothing is stored. */
  function NotesIn(m: map<string, seq<Note>>, username: string): (r: seq<Note>)
    ensures NotesKey(username) !in m ==> r == []
    ensures NotesKey(username) in m ==> r == m[NotesKey(username)]
  {
    if NotesKey(username) in m then m[NotesKey(username)] else []
  }

  /** Writing one user's collection leaves every other user's collection as it was. */
  lemma NotesIsolation(m: map<string, seq<Note>>, u: string, v: string, s: seq<Note>)
    requires u != v
    ensures NotesIn(m[NotesKey(u) := s], v) == NotesIn(m, v)
  {
    NotesKeyInjective(u, v);
  }

  /** The collection `saveNote` writes back: the first note with the same id is
      replaced where it stands, or the note is appended. */
  function Upsert(notes: seq<Note>, note: Note): (r: seq<Note>)
    ensures |r| == if FindIndex(notes, HasId(note.id)) >= 0 then |notes| else |notes| + 1
    ensures forall k :: 0 <= k < |notes| && k != FindIndex(notes, HasId(note.id)) ==> r[k] == notes[k]
    ensures FindIndex(r, HasId(note.id)) >= 0 && r[FindIndex(r, HasId(note.id))] == note
    ensures FindIndex(notes, HasId(note.id)) >= 0 ==> r[FindIndex(notes, HasId(note.id))] == note
  {
    var i := FindIndex(notes, HasId(note.id));
    if i >= 0 then
      var r := notes[i := note];
      FindIndexIs(r, HasId(note.id), i);
      r
    else
      FindIndexAppend(notes, note, HasId(note.id));
      notes + [note]
  }

  /** In a collection with unique ids, saving a note under the id found at `i`
      replaces exactly that note. */
  lemma UpsertReplacesInPlace(notes: seq<Note>, note: Note, i: int)
    requires UniqueIds(notes) && 0 <= i < |notes| && notes[i].id == note.id
    ensures Upsert(notes, note) == notes[i := note]
  {
    FindIndexIs(notes, HasId(note.id), i);
    var r := Upsert(notes, note);
    assert forall k :: 0 <= k < i ==> r[k] == notes[k] && !HasId(note.id)(r[k]);
    FindIndexIs(r, HasId(note.id), i);
  }

  /** Saving keeps note ids unique. */
  lemma UpsertKeepsUniqueIds(notes: seq<Note>, note: Note)
    requires UniqueIds(notes)
    ensures UniqueIds(Upsert(notes, note))
  {
    var i := FindIndex(notes, HasId(note.id));
    var r := Upsert(notes, note);
    if i >= 0 {
      forall a, b | 0 <= a < b < |r| ensures r[a].id != r[b].id {
        if a == i {
          assert notes[i].id == note.id;
        } else if b == i {
          assert notes[i].id == note.id;
        }
      }
    }
  }

  /** Saving twice under one id is the same as saving the second note once:
      the collection still holds one entry for that id, at the same place. */
  lemma UpsertTwice(notes: seq<Note>, first: Note, second: Note)
    requires first.id == second.id
    ensures Upsert(Upsert(notes, first), second) == Upsert(notes, second)
  {
    var i := FindIndex(notes, HasId(first.id));
    var once := Upsert(notes, first);
    var j := FindIndex(once, HasId(first.id));
    if i >= 0 {
      FindIndexIs(once, HasId(first.id), i);
    } else {
      FindIndexIs(once, HasId(first.id), |notes|);
    }
  }

  /** The collection `deleteNote` writes back. */
  function WithoutId(notes: seq<Note>, id: string): (r: seq<Note>)
    ensures forall k :: 0 <= k < |r| ==> r[k].id != id && r[k] in notes
    ensures forall k :: 0 <= k < |notes| && notes[k].id != id ==> notes[k] in r
  {
    Filter(notes, LacksId(id))
  }

  /** Deleting an id that is not present writes back the same collection. */
  lemma DeleteAbsentIsNoop(notes: seq<Note>, id: string)
    requires FindIndex(notes, HasId(id)) < 0
    ensures WithoutId(notes, id) == notes
  {
    FilterKeepsAll(notes, LacksId(id));
  }

  /** Deleting keeps every other note exactly as often as before. */
  lemma DeleteKeepsOthers(notes: seq<Note>, id: string)
    ensures forall n :: multiset(WithoutId(notes, id))[n] == if n.id != id then multiset(notes)[n] else 0
  {
    FilterMultiset(notes, LacksId(id));
  }

  /** Deleting a note's id after saving it gives what deleting it before would have. */
  lemma DeleteUndoesUpsert(notes: seq<Note>, note: Note)
    ensures WithoutId(Upsert(notes, note), note.id) == WithoutId(notes, note.id)
  {
    var i := FindIndex(notes, HasId(note.id));
    if i >= 0 {
      FilterIgnoresDropped(Upsert(notes, note), notes, LacksId(note.id));
    } else {
      FilterConcat(notes, [note], LacksId(note.id));
    }
  }

  // --------------------------------------------------------------- preferences

  /** The preferences stored for `username`, or the default when none are stored. */
  function PreferencesIn(m: map<string, SortOption>, username: string): (p: UserPreferences)
    ensures PreferencesKey(username) !in m ==> p == DefaultPreferences
    ensures PreferencesKey(username) in m ==> p.sortOption == m[PreferencesKey(username)]
  {
    if PreferencesKey(username) in m then UserPreferences(m[PreferencesKey(username)])
    else DefaultPreferences
  }

  /** Writing one user's preferences leaves every other user's as they were. */
  lemma PreferencesIsolation(m: map<string, SortOption>, u: string, v: string, o: SortOption)
    requires u != v
    ensures PreferencesIn(m[PreferencesKey(u) := o], v) == PreferencesIn(m, v)
  {
    PreferencesKeyInjective(u, v);
  }

  // --------------------------------------------------------------------- store

  class Store {
    var users: seq<User>
    var session: Option<string>
    var notes: map<string, seq<Note>>
    var prefs: map<string, SortOption>

    /** Usernames are unique and a stored session name is never empty. */
    ghost predicate Valid()
      reads this
    {
      UniqueUsernames(users) && (session.Some? ==> session.value != "")
    }

    constructor ()
      ensures Valid()
      ensures users == [] && session == None && notes == map[] && prefs == map[]
    {
      users, session, notes, prefs := [], None, map[], map[];
    }

    function NotesOf(username: string): seq<Note>
      reads this
    {
      NotesIn(notes, username)
    }

    function PreferencesOf(username: string): UserPreferences
      reads this
    {
      PreferencesIn(prefs, username)
    }

    /** `getAllUsers`: the registry, or `[]` when the read fails. */
    method GetAllUsers(readFails: bool) returns (r: seq<User>)
      ensures r == if readFails then [] else users
    {
      if readFails {
        r := [];
      } else {
        r := users;
      }
    }

    /** `saveUser`: refuses a username already in the registry it read, otherwise
        appends the account with the hashed password and writes the registry back.
        A failed read makes the registry look empty, so the write-back then holds
        the new account alone. */
    method SaveUser(username: string, password: string, now: int, faults: Faults) returns (ok: bool)
      requires Valid()
      modifies this`users
      ensures Valid()
      ensures var seen := if faults.readFails then [] else old(users);
              && ok == (FindUser(seen, username).None? && !faults.writeFails)
              && users == if ok then seen + [User(username, PasswordHash(password), now)] else old(users)
    {
      var current := GetAllUsers(faults.readFails);
      if FindUser(current, username).Some? {
        return false;
      }
      var hashed := HashPassword(password);
      var newUser := User(username, hashed, now);
      RegisterKeepsUnique(current, newUser);
      current := current + [newUser];
      if faults.writeFails {
        return false;
      }
      users := current;
      ok := true;
    }

    /** `verifyUser`: false for an unknown username or a failed read; otherwise
        whether the stored hash equals the hash of `password`. */
    method VerifyUser(username: string, password: string, readFails: bool) returns (ok: bool)
      ensures ok == (!readFails && Authenticates(users, username, password))
    {
      var current := GetAllUsers(readFails);
      var user := FindUser(current, username);
      if user.None? {
        return false;
      }
      var hashed := HashPassword(password);
      ok := user.value.password == hashed;
    }

    /** `setCurrentUser`: a non-empty name is stored; null or "" removes the
        session. A failed write leaves the session as it was. */
    method SetCurrentUser(username: Option<string>, writeFails: bool)
      requires Valid()
      modifies this`session
      ensures Valid()
      ensures session == if writeFails then old(session)
                         else if Truthy(username) then username else None
    {
      if writeFails {
        return;
      }
      if Truthy(username) {
        session := username;
      } else {
        session := None;
      }
    }

    /** `getCurrentUser`: the stored name, or null when none is stored or the
        read fails; never the empty string. */
    method GetCurrentUser(readFails: bool) returns (r: Option<string>)
      requires Valid()
      ensures r == if readFails then None else session
      ensures r.Some? ==> r.value != ""
    {
      if readFails {
        r := None;
      } else {
        r := session;
      }
    }

    /** `getNotes`: the user's collection, `[]` when nothing is stored or the read fails. */
    method GetNotes(username: string, readFails: bool) returns (r: seq<Note>)
      ensures r == if readFails then [] else NotesOf(username)
    {
      if readFails {
        r := [];
      } else if NotesKey(username) in notes {
        r := notes[NotesKey(username)];
      } else {
        r := [];
      }
    }

    /** `saveNote`: replaces the first note with the same id in place, or appends,
        then writes the whole collection back. Reports failure only when the
        write fails. After a failed read the write-back holds the note alone. */
    method SaveNote(username: string, note: Note, faults: Faults) returns (ok: bool)
      modifies this`notes
      ensures ok == !faults.writeFails
      ensures var seen := if faults.readFails then [] else old(NotesOf(username));
              notes == if ok then old(notes)[NotesKey(username) := Upsert(seen, note)] else old(notes)
    {
      var current := GetNotes(username, faults.readFails);
      var existingIndex := FindIndex(current, HasId(note.id));
      if existingIndex >= 0 {
        current := current[existingIndex := note];
      } else {
        current := current + [note];
      }
      if faults.writeFails {
        return false;
      }
      notes := notes[NotesKey(username) := current];
      ok := true;
    }

    /** `deleteNote`: writes back the notes whose id differs. Succeeds whether or
        not a note matched; reports failure only when the write fails. */
    method DeleteNote(username: string, noteId: string, faults: Faults) returns (ok: bool)
      modifies this`notes
      ensures ok == !faults.writeFails
      ensures var seen := if faults.readFails then [] else old(NotesOf(username));
              notes == if ok then old(notes)[NotesKey(username) := WithoutId(seen, noteId)] else old(notes)
    {
      var current := GetNotes(username, faults.readFails);
      var filtered := WithoutId(current, noteId);
      if faults.writeFails {
        return false;
      }
      notes := notes[NotesKey(username) := filtered];
      ok := true;
    }

    /** `getUserPreferences`: the stored record, or `{sortOption: 'newest'}` when
        none is stored or the read fails. */
    method GetUserPreferences(username: string, readFails: bool) returns (p: UserPreferences)
      ensures p == if readFails then DefaultPreferences else PreferencesOf(username)
      ensures PreferencesKey(username) !in prefs ==> p == DefaultPreferences
    {
      if readFails {
        p := DefaultPreferences;
      } else if PreferencesKey(username) in prefs {
        p := UserPreferences(prefs[PreferencesKey(username)]);
      } else {
        p := DefaultPreferences;
      }
    }

    /** `saveUserPreferences`: overwrites the user's record unless the write fails. */
    method SaveUserPreferences(username: string, preferences: UserPreferences, writeFails: bool)
      modifies this`prefs
      ensures prefs == if writeFails then old(prefs)
                       else old(prefs)[PreferencesKey(username) := preferences.sortOption]
    {
      if !writeFails {
        prefs := prefs[PreferencesKey(username) := preferences.sortOption];
      }
    }
  }
}
