/** The create/edit screen (src/screens/CreateEditNoteScreen.tsx): its form
    state, the image handlers, saving and discarding. The clock (`Date.now()`),
    the random id suffix, the image pickers and the user's answer to the
    discard dialog are parameters; image deletions are recorded in order
    instead of touching files. */
module NoteEditor {
  import opened Wrappers
  import opened Seqs
  import opened JsString
  import opened Decimal
  import opened Storage
  import Auth

  /** `createdAt` of the note being saved under an existing id: the creation
      time of the first stored note with that id, unless it is missing or 0,
      in which case the save time. */
  function CreatedAt(stored: seq<Note>, id: string, now: int): (r: int)
    ensures (forall k :: 0 <= k < |stored| ==> stored[k].id != id) ==> r == now
    ensures forall k :: 0 <= k < |stored| && stored[k].id == id &&
                        (forall j :: 0 <= j < k ==> stored[j].id != id) ==>
                          r == if stored[k].createdAt != 0 then stored[k].createdAt else now
  {
    var i := FindIndex(stored, HasId(id));
    if i >= 0 && stored[i].createdAt != 0 then stored[i].createdAt else now
  }

  /** The id of a new note: "note_", the save time, "_", the random suffix.
      The time reads back from between the two underscores. */
  function GeneratedId(now: int, suffix: string): (r: string)
    ensures "note_" <= r && |r| >= 6 + |suffix|
    ensures r[|r| - |suffix|..] == suffix && r[|r| - |suffix| - 1] == '_'
    ensures '_' !in r[5..|r| - |suffix| - 1]
    ensures r[5..|r| - |suffix| - 1] == IntToDecimal(now)
    ensures ParseInt(r[5..|r| - |suffix| - 1]) == now
  {
    var time := IntToDecimal(now);
    var r := "note_" + time + "_" + suffix;
    IntToDecimalRoundTrip(now);
    assert r[5..|r| - |suffix| - 1] == time;
    r
  }

  /** Two generated ids are equal only when both the time and the suffix are;
      a suffix drawn from base-36 digits never holds the '_' that ends the time. */
  lemma GeneratedIdsDistinct(now1: int, suffix1: string, now2: int, suffix2: string)
    requires '_' !in suffix1 && '_' !in suffix2
    ensures GeneratedId(now1, suffix1) == GeneratedId(now2, suffix2) <==>
              now1 == now2 && suffix1 == suffix2
  {
    var d1, d2 := IntToDecimal(now1), IntToDecimal(now2);
    var id1, id2 := GeneratedId(now1, suffix1), GeneratedId(now2, suffix2);
    if id1 == id2 {
      assert id1[5 + |d1|] == '_';
      assert id2[5 + |d2|] == '_';
      assert |d1| == |d2|;
      assert d1 == id1[5..5 + |d1|] == id2[5..5 + |d2|] == d2;
      IntToDecimalInjective(now1, now2);
      assert suffix1 == id1[6 + |d1|..] == id2[6 + |d2|..] == suffix2;
    }
  }

  /** The record `handleSave` builds from the form: the route's id if there is
      one, else a generated id; trimmed title and body; the form's image;
      stamped as updated at `now`. `stored` is what the lookup of the existing
      note returned. */
  function BuildNote(noteId: Option<string>, suffix: string, title: string, body: string,
                     imageUri: Option<string>, stored: seq<Note>, now: int): (r: Note)
    ensures Truthy(noteId) ==> r.id == noteId.value
    ensures !Truthy(noteId) ==> r.id == GeneratedId(now, suffix) && r.createdAt == now
    ensures Truthy(noteId) ==> r.createdAt == CreatedAt(stored, noteId.value, now)
    ensures r.id != ""
    ensures r.title == Trim(title) && r.body == Trim(body) && r.imageUri == imageUri
    ensures r.updatedAt == now
  {
    var id := if Truthy(noteId) then noteId.value else GeneratedId(now, suffix);
    var createdAt := if Truthy(noteId) then CreatedAt(stored, id, now) else now;
    Note(id, Trim(title), Trim(body), imageUri, createdAt, now)
  }

  /** Saving an edit of a stored note, in a collection with unique ids, replaces
      that note where it stands; the new record keeps the note's id and its
      creation time (when non-zero) and takes the trimmed form content. */
  lemma EditKeepsIdentity(stored: seq<Note>, i: int, suffix: string, title: string, body: string,
                          imageUri: Option<string>, now: int)
    requires UniqueIds(stored) && 0 <= i < |stored| && stored[i].id != ""
    ensures var note := BuildNote(Some(stored[i].id), suffix, title, body, imageUri, stored, now);
            && Upsert(stored, note) == stored[i := note]
            && UniqueIds(Upsert(stored, note))
            && note.id == stored[i].id
            && note.createdAt == (if stored[i].createdAt != 0 then stored[i].createdAt else now)
            && note.title == Trim(title) && note.body == Trim(body) && note.updatedAt == now
  {
    var id := stored[i].id;
    FindIndexIs(stored, HasId(id), i);
    var note := BuildNote(Some(id), suffix, title, body, imageUri, stored, now);
    UpsertReplacesInPlace(stored, note, i);
    UpsertKeepsUniqueIds(stored, note);
  }

  datatype SaveOutcome = NoUser | EmptyNote | Saved | SaveFailed

  /** The screen's state: the route's note id, the signed-in user, the form
      fields, the image shown and the image last committed by a handler, and
      the images deleted so far. */
  class Editor {
    const noteId: Option<string>
    var username: Option<string>
    var title: string
    var body: string
    var imageUri: Option<string>
    var originalImageUri: Option<string>
    var deletedImages: seq<string>

    /** Every handler sets the image and the original image together. */
    ghost predicate Valid()
      reads this
    {
      imageUri == originalImageUri
    }

    constructor (noteId: Option<string>)
      ensures Valid()
      ensures this.noteId == noteId && username == None && title == "" && body == ""
      ensures imageUri == None && deletedImages == []
    {
      this.noteId := noteId;
      username, title, body := None, "", "";
      imageUri, originalImageUri := None, None;
      deletedImages := [];
    }

    /** Whether the form has anything worth a confirmation before leaving:
        a title or body that is not all whitespace, or an image. */
    predicate HasChanges()
      reads this
      ensures HasChanges() <==> !AllWhitespace(title) || !AllWhitespace(body) || Truthy(imageUri)
    {
      !IsBlank(title) || !IsBlank(body) || Truthy(imageUri)
    }

    /** `loadUser`: takes the signed-in user, or reports that the screen must
        go to the login screen. */
    method LoadUser(store: Store, readFails: bool) returns (toLogin: bool)
      requires store.Valid()
      modifies this`username
      ensures toLogin <==> readFails || store.session.None?
      ensures username == if toLogin then old(username) else store.session
      ensures !toLogin ==> Truthy(username)
    {
      var user := Auth.GetLoggedInUser(store, readFails);
      if user.None? {
        return true;
      }
      username := user;
      toLogin := false;
    }

    /** Where `loadNote` finds the note: the index of the first stored note with
        the route's id among the user's notes, or -1 when there is no user, no
        id, no such note, or the read fails. */
    function FoundAt(store: Store, readFails: bool): (i: int)
      reads this, store
      ensures -1 <= i
      ensures 0 <= i ==> && !readFails && Truthy(username) && Truthy(noteId)
                         && i < |store.NotesOf(username.value)|
                         && store.NotesOf(username.value)[i].id == noteId.value
                         && forall k :: 0 <= k < i ==> store.NotesOf(username.value)[k].id != noteId.value
      ensures i == -1 <==> || readFails || !Truthy(username) || !Truthy(noteId)
                           || forall k :: 0 <= k < |store.NotesOf(username.value)| ==>
                                store.NotesOf(username.value)[k].id != noteId.value
    {
      if readFails || !Truthy(username) || !Truthy(noteId) then -1
      else FindIndex(store.NotesOf(username.value), HasId(noteId.value))
    }

    /** `loadNote`: with a user and a note id, copies the first stored note
        with that id into the form; otherwise, or when no note has that id,
        nothing changes. */
    method LoadNote(store: Store, readFails: bool)
      requires Valid()
      modifies this`title, this`body, this`imageUri, this`originalImageUri
      ensures Valid()
      ensures var i := FoundAt(store, readFails);
              if 0 <= i then
                var note := store.NotesOf(username.value)[i];
                title == note.title && body == note.body && imageUri == note.imageUri
              else
                title == old(title) && body == old(body) && imageUri == old(imageUri)
    {
      if !Truthy(username) || !Truthy(noteId) {
        return;
      }
      var stored := store.GetNotes(username.value, readFails);
      var i := FindIndex(stored, HasId(noteId.value));
      if i >= 0 {
        title, body := stored[i].title, stored[i].body;
        imageUri, originalImageUri := stored[i].imageUri, stored[i].imageUri;
      }
    }

    /** `handlePickImage` and `handleTakePhoto`: a picked path replaces the
        image, deleting the previous one when it is a different file; a
        cancelled or failed pick (`None` or "") changes nothing. */
    method AttachImage(picked: Option<string>)
      requires Valid()
      modifies this`imageUri, this`originalImageUri, this`deletedImages
      ensures Valid()
      ensures imageUri == if Truthy(picked) then picked else old(imageUri)
      ensures deletedImages == old(deletedImages) +
                (if Truthy(picked) && Truthy(old(imageUri)) && old(imageUri) != picked
                 then [old(imageUri).value] else [])
    {
      if Truthy(picked) {
        if Truthy(originalImageUri) && originalImageUri != picked {
          deletedImages := deletedImages + [originalImageUri.value];
        }
        imageUri, originalImageUri := picked, picked;
      }
    }

    /** `handleRemoveImage`: deletes the image if there is one and clears it. */
    method RemoveImage()
      requires Valid()
      modifies this`imageUri, this`originalImageUri, this`deletedImages
      ensures Valid() && imageUri == None
      ensures deletedImages == old(deletedImages) +
                (if Truthy(old(imageUri)) then [old(imageUri).value] else [])
    {
      if Truthy(imageUri) {
        deletedImages := deletedImages + [imageUri.value];
      }
      imageUri, originalImageUri := None, None;
    }

    /** `handleSave`: without a user, or with a blank title and a blank body,
        nothing is stored; otherwise the note built from the form is saved
        under the user, an existing note's creation time being looked up
        first when editing. */
    method HandleSave(store: Store, now: int, suffix: string, lookupFails: bool, saveFaults: Faults)
      returns (outcome: SaveOutcome)
      modifies store`notes
      ensures !Truthy(username) ==> outcome == NoUser
      ensures Truthy(username) && IsBlank(title) && IsBlank(body) ==> outcome == EmptyNote
      ensures Truthy(username) && !(IsBlank(title) && IsBlank(body)) ==>
                outcome == if saveFaults.writeFails then SaveFailed else Saved
      ensures outcome == NoUser || outcome == EmptyNote ==> store.notes == old(store.notes)
      ensures outcome.Saved? || outcome.SaveFailed? ==>
                && Truthy(username) && !(IsBlank(title) && IsBlank(body))
                && outcome.Saved? == !saveFaults.writeFails
      ensures outcome.Saved? || outcome.SaveFailed? ==>
                var stored := if lookupFails then [] else old(store.NotesOf(username.value));
                var note := BuildNote(noteId, suffix, title, body, imageUri, stored, now);
                var seen := if saveFaults.readFails then [] else old(store.NotesOf(username.value));
                store.notes == if outcome.Saved?
                               then old(store.notes)[NotesKey(username.value) := Upsert(seen, note)]
                               else old(store.notes)
    {
      if !Truthy(username) {
        return NoUser;
      }
      if IsBlank(title) && IsBlank(body) {
        return EmptyNote;
      }
      var stored: seq<Note> := [];
      if Truthy(noteId) {
        stored := store.GetNotes(username.value, lookupFails);
      }
      var note := BuildNote(noteId, suffix, title, body, imageUri, stored, now);
      var ok := store.SaveNote(username.value, note, saveFaults);
      outcome := if ok then Saved else SaveFailed;
    }

    /** `handleCancel`: with unsaved changes the user is asked and leaves only
        on "Discard", which deletes the image of a note that was never saved;
        with none it leaves at once. */
    method HandleCancel(discard: bool) returns (leaves: bool)
      modifies this`deletedImages
      ensures leaves <==> !HasChanges() || discard
      ensures deletedImages == old(deletedImages) +
                (if discard && !Truthy(noteId) && Truthy(imageUri) then [imageUri.value] else [])
    {
      if HasChanges() {
        if discard {
          if !Truthy(noteId) && Truthy(imageUri) {
            deletedImages := deletedImages + [imageUri.value];
          }
          return true;
        }
        return false;
      }
      leaves := true;
    }
  }

  /** Opens the editor on a stored note "n1" of user "u" whose image is "a". */
  method OpenNoteWithImage() returns (editor: Editor, store: Store)
    ensures fresh(editor) && fresh(store)
    ensures editor.Valid() && editor.noteId == Some("n1")
    ensures editor.imageUri == Some("a") && editor.deletedImages == []
    ensures store.NotesOf("u") == [Note("n1", "t", "b", Some("a"), 1, 1)]
  {
    var note := Note("n1", "t", "b", Some("a"), 1, 1);
    store := new Store();
    var ok := store.SaveNote("u", note, NoFaults);
    assert Upsert([], note) == [note];
    assert store.NotesOf("u") == [note];
    store.SetCurrentUser(Some("u"), false);
    assert store.session == Some("u") && store.NotesOf("u") == [note];
    editor := new Editor(Some("n1"));
    var toLogin := editor.LoadUser(store, false);
    assert editor.username == Some("u");
    assert editor.FoundAt(store, false) == 0;
    editor.LoadNote(store, false);
  }

  /** Editing a stored note with image "a" and picking "b" deletes "a" at once,
      before anything is saved. Discarding then deletes nothing: the stored note
      keeps referring to the deleted "a" and the copied "b" is left orphaned. */
  method DiscardAfterNewImageScenario() returns (editor: Editor, store: Store)
    ensures editor.deletedImages == ["a"]
    ensures |store.NotesOf("u")| == 1 && store.NotesOf("u")[0].imageUri == Some("a")
  {
    editor, store := OpenNoteWithImage();
    editor.AttachImage(Some("b"));
    var leaves := editor.HandleCancel(true);
  }
}
