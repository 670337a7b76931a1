# Notes app: account store, session and note rules in Dafny

This project models the core of a React Native notes application written in TypeScript. The model covers:

- **The local store** (`src/utils/storage.ts`). It holds a user registry with a 32-bit password hash, the session pointer, one note collection per user and one sort preference per user.
  - `Storage.Store` is a class with four fields: `users`, `session`, `notes` and `prefs`.
  - `notes` and `prefs` are keyed by the same storage-key strings the app builds, so per-user isolation rests on those keys being injective.
  - Each storage call that can fail takes a `Faults` flag. A failed read gives `[]`, the default preferences, or no session (`null`). A failed write leaves the field as it was and reports `false` where the source returns a boolean.
- **The session façade** (`src/utils/auth.ts`).
- **The rules the screens apply**: sign-up validation and password strength, the notes list's search and four sort orders, the note card's preview and relative date, and the editor's construction of a saved note and its image bookkeeping.

Each TypeScript function becomes a Dafny `function`, a `method` on a class, or a module-level `method`: the session façade, the sign-up handler and the notes list's handlers take the store they work on, `HashPassword` takes the password, `FilterAndSortNotes` takes the notes and `SortNotes` takes the array it sorts.

- Loops and in-place updates are kept as loops and in-place updates:
  - the hash fold is a `for` loop;
  - the notes list is sorted in place in an `array`;
  - the editor is a class whose handlers update its fields.
- The JavaScript library operations the code relies on are defined and proved in their own modules. They are `trim`, `split`, `join`, `includes`, `substring`, `filter`, `findIndex` and integer `toString`.

Three properties of the source deserve a reader's attention:

- **Password hashes collide.** The hash is the decimal form of a polynomial in the character codes with base 31, wrapped once to signed 32 bits (`HashFoldIsWrappedPolynomial`). So "Aa" and "BB" have the same stored hash, and each logs in with the other's password (`HashCollision`).
- **Storage keys from different namespaces can coincide.** The notes key of `preferences_x` equals the preferences key of `x_notes` (`KeySpacesOverlap`). The model keeps notes and preferences in separate maps, so this coincidence has no effect inside the model.
- **Discarding can leave a note pointing at a deleted image.** The sequence is: edit a stored note that has image "a", pick image "b", then discard. Picking "b" deletes "a" at once, before anything is saved. The discard then deletes nothing, so the stored note keeps pointing at the deleted "a" and the copied "b" is left orphaned (`NoteEditor.DiscardAfterNewImageScenario`).

## Model

| member | source | states |
|---|---|---|
| Seqs.Filter | src/utils/storage.ts:132 | `Array.prototype.filter`: every kept element passes and comes from the input, and every passing input element is kept |
| Seqs.FilterConcat | src/utils/storage.ts:132 | filtering distributes over concatenation, so kept elements stay in their original order |
| Seqs.FilterMultiset | src/screens/NotesListScreen.tsx:87-91 | a filter keeps each passing element exactly as many times as it occurs, and drops every failing one |
| Seqs.FilterKeepsAll | src/components/NoteItem.tsx:57 | when every element passes, the filter returns its input |
| Seqs.FilterIgnoresDropped | src/utils/storage.ts:132 | two inputs that differ only at elements failing the predicate filter to the same result |
| Seqs.FindIndex | src/utils/storage.ts:113 | `findIndex`: -1 exactly when nothing matches; otherwise the index of a match with no match before it |
| Seqs.FindIndexIs | src/utils/storage.ts:113 | the first matching index is the one `findIndex` returns |
| Seqs.FindIndexAppend | src/utils/storage.ts:118 | appending an element leaves an earlier match where it was, and otherwise finds the new element or nothing |
| Decimal.NatToDecimal | src/utils/storage.ts:21 | `toString` of a natural number: at least one character, all decimal digits, and a leading '0' exactly for zero |
| Decimal.IntToDecimal | src/utils/storage.ts:21 | `toString` of an integer: '-' first exactly for negatives, decimal digits everywhere else, and no leading zero except for 0 itself |
| Decimal.ParseNatToDecimal | src/utils/storage.ts:21 | reading the digits back yields the number |
| Decimal.IntToDecimalRoundTrip | src/utils/storage.ts:21 | parsing the decimal form of any integer yields that integer |
| Decimal.IntToDecimalInjective | src/utils/storage.ts:21 | two integers have the same decimal form exactly when they are equal |
| JsString.TrimStart | src/screens/SignUpScreen.tsx:71 | drops exactly the leading whitespace: the result is a suffix that starts with a non-whitespace character or is empty |
| JsString.TrimEnd | src/screens/SignUpScreen.tsx:71 | drops exactly the trailing whitespace |
| JsString.TrimsToEmpty | src/screens/SignUpScreen.tsx:71 | trimming both ends leaves nothing exactly when every character is whitespace |
| JsString.Trim | src/screens/SignUpScreen.tsx:71 | `trim`: empty exactly when the input is all ECMAScript whitespace; neither end of the result is whitespace |
| JsString.TrimmedEnds | src/screens/SignUpScreen.tsx:71 | neither end of the trimmed text is whitespace |
| JsString.TrimIsInfix | src/screens/SignUpScreen.tsx:71 | `trim` returns one contiguous piece of its input; everything before it and after it is whitespace |
| JsString.LeadingIsWhitespace | src/screens/SignUpScreen.tsx:71 | every character removed at the start is whitespace |
| JsString.TrimmedIsSlice | src/screens/SignUpScreen.tsx:71 | the trimmed text is the input read from the first kept position on |
| JsString.TrailingIsWhitespace | src/screens/SignUpScreen.tsx:71 | every character removed at the end is whitespace |
| JsString.IsBlank | src/screens/SignUpScreen.tsx:71 | `!s.trim()` holds exactly when every character is whitespace |
| JsString.TrimKeeps | src/screens/SignUpScreen.tsx:71 | a string with no whitespace at either end is its own trim |
| JsString.TrimIdempotent | src/screens/SignUpScreen.tsx:74 | trimming twice gives the same as trimming once |
| JsString.Split | src/components/NoteItem.tsx:57 | `split` on one character: at least one part, and no part contains the separator |
| JsString.Join | src/components/NoteItem.tsx:59 | `join`: the first part comes first, followed by the separator when there is a second part |
| JsString.JoinSplit | src/components/NoteItem.tsx:57-59 | joining the parts of a split with the same separator rebuilds the string |
| JsString.SplitWithoutSeparator | src/components/NoteItem.tsx:57 | a string without the separator splits into itself alone |
| JsString.Includes | src/screens/NotesListScreen.tsx:89-90 | `includes`: a prefix of the haystack, the empty needle included, is always found; a needle longer than the haystack never is |
| JsString.OccurrenceIsIncluded | src/screens/NotesListScreen.tsx:89-90 | a needle that occurs at some position is reported by `includes` |
| JsString.IncludedOccurs | src/screens/NotesListScreen.tsx:89-90 | when `includes` holds, it yields a position where the needle occurs |
| JsString.IncludesIff | src/screens/NotesListScreen.tsx:89-90 | `includes` holds exactly when the needle occurs at some position of the haystack |
| JsString.Prefix | src/components/NoteItem.tsx:59 | `substring(0, n)`: a prefix of the string of length exactly n, or the whole string when it is no longer than n |
| JsString.PrefixAndRest | src/components/NoteItem.tsx:59 | the cut-off prefix followed by the rest gives back the string |
| Storage.NotesKey | src/utils/storage.ts:96-98 | the notes key starts with "user_", ends with "_notes", and the username can be sliced back out of its middle |
| Storage.PreferencesKey | src/utils/storage.ts:142-144 | the preferences key starts with "user_preferences_", and the username is the rest of it |
| Storage.NotesKeyInjective | src/utils/storage.ts:96-98 | two usernames share a notes key exactly when they are equal |
| Storage.PreferencesKeyInjective | src/utils/storage.ts:142-144 | two usernames share a preferences key exactly when they are equal |
| Storage.KeySpacesOverlap | src/utils/storage.ts:4-10 | the notes key of "preferences_x" equals the preferences key of "x_notes" |
| Storage.ToInt32 | src/utils/storage.ts:19 | `h & h` gives a signed 32-bit value |
| Storage.ToInt32Quotient | src/utils/storage.ts:19 | `h & h` subtracts a whole multiple of 2^32 |
| Storage.ToInt32Periodic | src/utils/storage.ts:18-19 | adding a multiple of 2^32 does not change the wrapped value |
| Storage.ToInt32OfInt32 | src/utils/storage.ts:19 | a value already in 32-bit range is unchanged |
| Storage.HashStep | src/utils/storage.ts:17-19 | one step of the loop yields a signed 32-bit value |
| Storage.HashStepWraps | src/utils/storage.ts:18-19 | `(h << 5) - h + c` followed by `h & h` is 31·h + c wrapped to signed 32 bits |
| Storage.SmallHashStep | src/utils/storage.ts:18-19 | for a small non-negative hash one step is exactly 31·h + c, with no wrap-around |
| Storage.HashFold | src/utils/storage.ts:15-20 | the hash stays a signed 32-bit value |
| Storage.HashFoldIsWrappedPolynomial | src/utils/storage.ts:15-20 | the folded hash is the polynomial in the character codes with base 31, wrapped once to 32 bits |
| Storage.HashPassword | src/utils/storage.ts:13-22 | the loop computes the decimal form of the folded hash |
| Storage.PasswordHash | src/utils/storage.ts:21 | the stored hash string reads back as the signed 32-bit folded hash |
| Storage.EmptyPasswordHash | src/utils/storage.ts:15-21 | the empty password hashes to "0" |
| Storage.PasswordHashMatches | src/utils/storage.ts:21 | two stored hashes are equal exactly when the 32-bit folds are |
| Storage.HashCollision | src/utils/storage.ts:13-22 | "Aa" and "BB" have the same stored hash |
| Storage.FindUser | src/utils/storage.ts:62 | `find` by username: none exactly when no user has that name, otherwise the first registered user with it |
| Storage.Authenticates | src/utils/storage.ts:59-67 | `verifyUser` on a registry it has read: a name that no account has never logs in, whatever the password (the full characterisation is `AuthenticatesFirstMatch`) |
| Storage.AuthenticatesFirstMatch | src/utils/storage.ts:59-72 | a password logs in as a name exactly when the first account with that name stores the password's hash |
| Storage.RegisterKeepsUnique | src/utils/storage.ts:40-50 | appending a user whose name is absent keeps usernames pairwise distinct |
| Storage.RegisteredIsFound | src/utils/storage.ts:50 | an appended user can be found by name |
| Storage.RegisterThenAuthenticate | src/utils/storage.ts:44-67 | after registering a fresh name, a password attempt authenticates exactly when its 32-bit fold equals the registered password's |
| Storage.RegisterLeavesOthers | src/utils/storage.ts:50 | registering one name changes neither the lookup nor the authentication of any other name |
| Storage.NotesIn | src/utils/storage.ts:100-108 | the collection stored under the user's notes key, or [] when that key is absent |
| Storage.NotesIsolation | src/utils/storage.ts:96-121 | writing one user's notes leaves every other user's notes unchanged |
| Storage.Upsert | src/utils/storage.ts:112-119 | replace-or-append: when a note has the id, the first such position now holds the note and the length is kept; otherwise the note is appended; every other position is unchanged |
| Storage.UpsertReplacesInPlace | src/utils/storage.ts:113-116 | with unique ids, saving under an existing id replaces exactly that position |
| Storage.UpsertKeepsUniqueIds | src/utils/storage.ts:112-119 | saving keeps note ids unique |
| Storage.UpsertTwice | src/utils/storage.ts:112-119 | saving two notes with one id in turn is the same as saving the second alone |
| Storage.WithoutId | src/utils/storage.ts:132 | the kept notes are exactly the input notes whose id differs |
| Storage.DeleteAbsentIsNoop | src/utils/storage.ts:129-134 | deleting an id that no note has leaves the list unchanged |
| Storage.DeleteKeepsOthers | src/utils/storage.ts:132 | every note with another id keeps its count, and the deleted id's notes are gone |
| Storage.DeleteUndoesUpsert | src/utils/storage.ts:110-133 | deleting a note's id after saving it gives the same as deleting it before |
| Storage.PreferencesIn | src/utils/storage.ts:146-152 | the stored sort option, or 'newest' when none is stored |
| Storage.PreferencesIsolation | src/utils/storage.ts:142-161 | writing one user's preferences leaves every other user's preferences unchanged |
| Storage.Store.constructor | src/utils/storage.ts:25-33 | the state before any key is written: no users, no session, no notes, no preferences |
| Storage.Store.GetAllUsers | src/utils/storage.ts:25-33 | the registry, or [] when the read fails |
| Storage.Store.SaveUser | src/utils/storage.ts:35-57 | refuses a name in the registry it read; otherwise appends the user with the hashed password, unless the write fails; usernames stay unique |
| Storage.Store.VerifyUser | src/utils/storage.ts:59-72 | true exactly when the read succeeds, the name exists, and the stored hash equals the password's hash |
| Storage.Store.SetCurrentUser | src/utils/storage.ts:74-84 | a non-empty name becomes the session; null or "" removes it; a failed write changes nothing |
| Storage.Store.GetCurrentUser | src/utils/storage.ts:86-93 | the session, or null when the read fails; never "" |
| Storage.Store.GetNotes | src/utils/storage.ts:100-108 | the user's notes, or [] when none are stored or the read fails |
| Storage.Store.SaveNote | src/utils/storage.ts:110-127 | writes back the upsert of the note into what was read; reports false exactly when the write fails |
| Storage.Store.DeleteNote | src/utils/storage.ts:129-139 | writes back the notes with a different id; reports false exactly when the write fails |
| Storage.Store.GetUserPreferences | src/utils/storage.ts:146-157 | the stored preferences, or 'newest' when none are stored or the read fails |
| Storage.Store.SaveUserPreferences | src/utils/storage.ts:159-165 | stores the preferences under the user's key unless the write fails |
| Auth.Login | src/utils/auth.ts:3-9 | returns exactly `verifyUser`'s result; on success the name becomes the session; on failure the session is untouched |
| Auth.Logout | src/utils/auth.ts:11-13 | removes the session unless the write fails |
| Auth.IsLoggedIn | src/utils/auth.ts:15-18 | true exactly when `getCurrentUser` yields a name |
| Auth.GetLoggedInUser | src/utils/auth.ts:20-22 | the same value as `getCurrentUser` |
| Auth.RegisterLoginScenario | src/utils/auth.ts:3-22 | on a fresh store: registering succeeds, a second registration of the name is refused, login with the password succeeds, and the logged-in user is that name |
| Auth.WrongPasswordScenario | src/utils/auth.ts:3-18 | a password whose hash differs fails to log in; nobody is logged in before or after logout |
| SignUp.FormError.Message | src/screens/SignUpScreen.tsx:71-86 | each failing check's alert names the field it concerns: "Username" for the two username checks, "Password" for the three password checks |
| SignUp.MessagesDistinct | src/screens/SignUpScreen.tsx:71-86 | two checks show the same alert text exactly when they are the same check |
| SignUp.PasswordError | src/screens/SignUpScreen.tsx:77-86 | the password checks pass exactly when the password is not blank, has at least 4 characters and equals the confirmation; otherwise the first failing check in that order is reported |
| SignUp.ValidateForm | src/screens/SignUpScreen.tsx:70-87 | no error exactly when every check passes; otherwise the first failing check in source order: a blank username is "required", a trimmed username of 1 or 2 characters is "too short", and after that the password checks decide |
| SignUp.ValidateUsesTrimmedUsername | src/screens/SignUpScreen.tsx:71-75 | only the trimmed username matters to validation |
| SignUp.BlankPasswordIsRequired | src/screens/SignUpScreen.tsx:77-79 | an all-whitespace password, after a valid username, fails with "Password is required" |
| SignUp.MismatchIsLastCheck | src/screens/SignUpScreen.tsx:71-85 | "Passwords do not match" is reported only when every earlier check passed and the passwords differ |
| SignUp.PasswordStrength | src/screens/SignUpScreen.tsx:61-66 | empty: no label, border colour, width 0; 1-3 characters: Weak, error colour, 33; 4-7: Medium, warning colour, 66; 8 or more: Strong, success colour, 100 |
| SignUp.StrengthMonotone | src/screens/SignUpScreen.tsx:61-66 | a longer password never shows a narrower strength bar |
| SignUp.AcceptedIsAtLeastMedium | src/screens/SignUpScreen.tsx:61-87 | a password the form accepts shows at least the Medium width |
| SignUp.CreateAccount | src/screens/SignUpScreen.tsx:101-117 | registers the name exactly when it is absent from the registry read and the write succeeds; on success the name becomes the session unless that write fails; a refusal leaves users and session untouched |
| SignUp.HandleSignUp | src/screens/SignUpScreen.tsx:89-123 | an invalid form reports its first error and changes nothing; otherwise the trimmed name is registered exactly when it is absent and the write succeeds, and on success it becomes the session; a refusal leaves users and session untouched |
| NotesList.Matches | src/screens/NotesListScreen.tsx:87-91 | a note matches exactly when the query occurs at some position of its lower-cased title or of its lower-cased body |
| NotesList.Searched | src/screens/NotesListScreen.tsx:82-92 | a blank query keeps every note; otherwise exactly the notes whose lower-cased title or body includes the lower-cased, untrimmed query |
| NotesList.SearchedCounts | src/screens/NotesListScreen.tsx:82-92 | the search neither adds nor duplicates notes: each kept note keeps its count |
| NotesList.Compare | src/screens/NotesListScreen.tsx:95-108 | a note may stay before another exactly when: 'newest', it was updated no earlier; 'oldest', no later; 'titleAsc', the collation puts its title first or ties; 'titleDesc', the collation puts the other title first or ties |
| NotesList.InOrderTotal | src/screens/NotesListScreen.tsx:95-108 | under every sort option, any two notes are ordered one way or the other |
| NotesList.InOrderTransitive | src/screens/NotesListScreen.tsx:95-108 | under every sort option the order is transitive |
| NotesList.TitleDescReversesTitleAsc | src/screens/NotesListScreen.tsx:101-104 | 'titleDesc' orders two notes as 'titleAsc' orders them swapped |
| NotesList.SwapAdjacent | src/screens/NotesListScreen.tsx:95 | exchanges two neighbours and keeps the array a permutation |
| NotesList.SwapStep | src/screens/NotesListScreen.tsx:95-108 | swapping an out-of-order element one place down keeps the rest of the prefix ordered and the moved element before everything after it |
| NotesList.InsertDone | src/screens/NotesListScreen.tsx:95-108 | once the moving element is in order with its left neighbour, the whole prefix is sorted |
| NotesList.InsertLast | src/screens/NotesListScreen.tsx:95-108 | extends a sorted prefix by one element, keeps the array a permutation, and leaves every element after that one in place |
| NotesList.SortNotes | src/screens/NotesListScreen.tsx:95-108 | `sort` with the comparator: the array ends sorted and is a permutation of its old contents |
| NotesList.FilterAndSortNotes | src/screens/NotesListScreen.tsx:81-111 | the shown list is a permutation of the search result; 'newest' is non-increasing and 'oldest' non-decreasing in updatedAt; the title orders follow the comparator forwards or backwards |
| NotesList.HandleSortChange | src/screens/NotesListScreen.tsx:133-138 | selects the option and, with a signed-in user and no write failure, persists it as that user's preference |
| NoteItem.AgeOf | src/components/NoteItem.tsx:43-53 | 'Just now' exactly below one minute, future times included; then whole minutes below an hour, hours below a day, days below a week, each count n satisfying n·unit ≤ elapsed < (n+1)·unit; otherwise the calendar date |
| NoteItem.FormatDate | src/components/NoteItem.tsx:41-54 | "Just now" below one minute; the locale date string from seven days on |
| NoteItem.FormatDateAgo | src/components/NoteItem.tsx:49-51 | below a week the text is the count's digits (which read back as the count), a space, the unit's name, "s" exactly when the count is not 1, and " ago"; it is never "Just now" |
| NoteItem.JoinLengthAnySeparator | src/components/NoteItem.tsx:57-59 | the length of a join does not depend on the separator character |
| NoteItem.JoinFilterShorter | src/components/NoteItem.tsx:57 | dropping lines never makes their join longer |
| NoteItem.ContentLines | src/components/NoteItem.tsx:57 | the kept lines are non-blank and hold no line break, and joined by single spaces they are no longer than the body |
| NoteItem.FirstTwoJoined | src/components/NoteItem.tsx:59 | the first line alone, or the first two lines with one space between them; never longer than joining all the lines |
| NoteItem.WhitespaceCons | src/components/NoteItem.tsx:57 | a string is all whitespace exactly when its first character is and the rest is |
| NoteItem.LinesAfterBreak | src/components/NoteItem.tsx:57 | a leading line break adds one empty line, so it does not change whether every line is blank |
| NoteItem.LinesAfterChar | src/components/NoteItem.tsx:57 | a leading character joins the first line, so every line is blank exactly when it is whitespace and every line of the rest is blank |
| NoteItem.AllLinesBlankIffBlank | src/components/NoteItem.tsx:57 | every line of the body is blank exactly when the whole body is whitespace |
| NoteItem.NoContentLinesIffBlank | src/components/NoteItem.tsx:57-58 | no line survives the filter exactly when the body is blank |
| NoteItem.GetPreview | src/components/NoteItem.tsx:56-60 | at most 103 characters; "No content" for a blank body; a body of at most 100 characters is shown as its first two non-blank lines joined by a space, uncut; a longer body shows the first 100 characters of that text followed by "..." |
| NoteItem.OneShortLineIsItsOwnPreview | src/components/NoteItem.tsx:57-59 | a non-blank single line of at most 100 characters is its own preview |
| NoteItem.PlaceholderIsAlsoAPreview | src/components/NoteItem.tsx:58-59 | a non-blank body reading "No content" is previewed as "No content" |
| NoteItem.DisplayTitle | src/components/NoteItem.tsx:82 | an empty title shows as "Untitled Note"; a non-empty title is shown as it is |
| NoteEditor.CreatedAt | src/screens/CreateEditNoteScreen.tsx:138 | the creation time of the first stored note with the id if it is non-zero, otherwise the save time |
| NoteEditor.GeneratedId | src/screens/CreateEditNoteScreen.tsx:134 | a new id starts with "note_" and ends with "_" and the suffix; the part between is the canonical decimal form of the save time (no leading zero), holds no underscore and reads back as the save time |
| NoteEditor.GeneratedIdsDistinct | src/screens/CreateEditNoteScreen.tsx:134 | two generated ids are equal exactly when the times and the suffixes are |
| NoteEditor.BuildNote | src/screens/CreateEditNoteScreen.tsx:133-140 | the route's id, or a generated one; trimmed title and body; the form's image; updated at the save time; created at the save time for a new note, and at the stored note's creation time (or the save time when it is missing or 0) for an edit |
| NoteEditor.EditKeepsIdentity | src/screens/CreateEditNoteScreen.tsx:133-142 | saving an edit of the note at position i replaces exactly position i: the id is kept and ids stay unique, the creation time is kept when non-zero and otherwise becomes the save time, the title and body are trimmed and the update time is the save time |
| NoteEditor.Editor.constructor | src/screens/CreateEditNoteScreen.tsx:37-43 | an empty form for the route's note id, with no image |
| NoteEditor.Editor.HasChanges | src/screens/CreateEditNoteScreen.tsx:156 | the form has changes exactly when the title or the body is not all whitespace, or an image is set |
| NoteEditor.Editor.LoadUser | src/screens/CreateEditNoteScreen.tsx:50-57 | takes the signed-in user, or sends the screen to login when there is none |
| NoteEditor.Editor.FoundAt | src/screens/CreateEditNoteScreen.tsx:59-63 | the position of the first stored note with the route's id, or -1 exactly when the read fails, there is no user or id, or no note has the id |
| NoteEditor.Editor.LoadNote | src/screens/CreateEditNoteScreen.tsx:59-69 | with a user and an id, copies the first stored note with that id into the form; otherwise nothing changes |
| NoteEditor.Editor.AttachImage | src/screens/CreateEditNoteScreen.tsx:81-109 | a picked path replaces the image and its original, deleting the previous original only when it is set and differs; no path changes nothing |
| NoteEditor.Editor.RemoveImage | src/screens/CreateEditNoteScreen.tsx:111-117 | deletes the current image if there is one and clears both image fields |
| NoteEditor.Editor.HandleSave | src/screens/CreateEditNoteScreen.tsx:119-153 | nothing is stored without a user or when title and body are both blank; otherwise the save always happens: the outcome is Saved exactly when the write succeeds, and then the user's notes are the upsert of the built note into the notes read |
| NoteEditor.Editor.HandleCancel | src/screens/CreateEditNoteScreen.tsx:155-173 | leaves at once without changes, otherwise only on "Discard"; discarding deletes the image only of a note that has no id |
| NoteEditor.DiscardAfterNewImageScenario | src/screens/CreateEditNoteScreen.tsx:59-173 | after editing a note with image "a", picking "b" and discarding, exactly "a" has been deleted (by the pick, not the discard) while the stored note still refers to it |

## Left out

- Persistence: AsyncStorage, JSON encoding and `async`/`await` are replaced by the typed fields of `Storage.Store`. Malformed stored JSON is not modelled. An exception in a storage call is modelled by the `Faults` flags: a read fault gives `[]`, the default, or no session (`null`), and a write fault leaves the state unchanged.
- Concurrency: two overlapping read-modify-write calls on one user's notes are not modelled. Every operation runs to completion before the next starts.
- Image files: picking, copying, checking and unlinking files belong to `src/utils/imageHandler.ts`, which is not part of this model. Each call to `deleteImageFromStorage` is recorded in `NoteEditor.Editor.deletedImages`. A failed or cancelled pick is a `None` or empty path.
- Clock and randomness: `Date.now()` is the parameter `now`, used once per operation, although `handleSave` reads the clock up to three times. The random id suffix is the parameter `suffix`.
- Locale-dependent calls are parameters:
  - `toLowerCase` is `lower`;
  - `localeCompare` is `titleCompare`, required to be a total, transitive relation when compared with 0;
  - `toLocaleDateString` is `localeDate`.
- Characters: a `char` is a Unicode code point, while JavaScript's `length`, `charCodeAt` and `substring` count UTF-16 code units. For text with characters outside the Basic Multilingual Plane (emoji, for example) the two differ: such a character counts once here and twice in the app, so the 3- and 4-character minimums of the sign-up form, the password-strength bands, the 100-character preview cut and the password hash (which folds each code unit) give different results for such text. Text inside the Basic Multilingual Plane behaves the same.
- NotesList.SortNotes: proves a sorted permutation but not stability. The sort is an insertion sort, not the engine's algorithm, so equal notes may come out in a different order from `Array.prototype.sort`.
- NotesList.FilterAndSortNotes: `(a.title || '')` is the identity on a string title, so the fallback is not written out.
- Storage.Store: notes and preferences sit in two maps, so an overwrite across namespaces through the colliding keys of `KeySpacesOverlap` is not reproduced.
- Screen plumbing is not modelled: alerts, navigation, animations, focus listeners, loading flags, `LoginScreen.tsx`, the search and sort pickers, and the theme.
