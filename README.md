# Image labelling session — a Dafny model

This project models the session logic of a small image-labelling web tool
(`labelling_app.py`). An operator logs in with a shared password. The tool lists
the image files of a directory (the *catalog*), builds a per-session *queue* of
images that have no label record yet, and shows them one at a time. Each form
submission does one of three things: Previous, Next, or Save Labels. Save
upserts `(filename, tags)` into a remote table (the *label store*), pops the
image from the queue and pulls the cursor back if it fell off the end.

Modules:

- `StringOrder` (`string_order.dfy`): Python's ordering of strings, `Sorted`,
  `Distinct`, and `sorted` modelled as an insertion sort. It proves that the
  sorted listing is unique, so the choice of sorting algorithm does not matter.
- `ImageCatalog` (`image_catalog.dfy`): `PurePath.suffix`, lower-casing, the
  extension filter and `get_files`.
- `SessionQueue` (`session_queue.dfy`): the pure queue operations. These are
  the unlabeled filter of `initialize_state`, `list.pop`, the cursor
  arithmetic, and the subsequence relation that ties the queue to the catalog.
- `LabelStore` (`label_store.dfy`): the `labels` table as a class holding a
  map, with `Upsert` (`save_label_supabase`) and `LabeledFilenames`
  (`load_all_labels`).
- `Session` (`session.dfy`): the session state as a class (`authenticated`,
  the queue, `unlabeled_index`). Its methods are the password gate,
  `initialize_state`, Previous, Next, Save, and a whole form submission. Its
  invariant `Valid()` holds these facts together:
  - when the queue is non-empty, `0 <= index < |queue|`;
  - the queue is an order-preserving selection of the sorted catalog;
  - every catalog image that has left the queue has a label record;
  - if directory names are distinct, no queued image has a record.

Points where the code's behaviour is easy to misread:

- The initial queue is an order-preserving list filter of the sorted catalog,
  not a set difference.
- The Save block labels and pops the image at `idx`, the cursor the script read
  at the start of the run (line 81). Its clamp then compares the session's current index, which
  the navigation block may already have changed. `Save(at, …)` therefore takes
  the popped position as a parameter. `Submit` models both blocks together,
  with Previous taking precedence over Next.
- The clamp is "if index ≥ len then max(0, len−1)". It agrees with
  `min(index, len−1)` (0 when the queue is empty) whenever the index was in
  range before the pop (`ClampIsMin`).
- `APP_PASSWORD` may be unset (`os.getenv` returns `None`). Then no entry
  matches, so the secret is an `Option<string>`.

## Model

| member | source | states |
|---|---|---|
| StringOrder.LessEq | labelling_app.py:40-43 | Python's `<=` on names: a prefix comes before every extension of it, and a name that is at most another starts with a character no greater than the other's first |
| StringOrder.Insert | labelling_app.py:40 | one step of the sort: the result is one longer and holds exactly the old elements plus the inserted name |
| StringOrder.Sort | labelling_app.py:40 | `sorted` keeps the number of entries; its order and contents are stated by `SortSpec` |
| StringOrder.SortSpec | labelling_app.py:40-43 | `sorted` returns an ascending rearrangement of exactly its input (same multiset) |
| StringOrder.DistinctCounts | labelling_app.py:40-43 | a sequence has no repetition exactly when every name occurs at most once in it |
| StringOrder.SortedUnique | labelling_app.py:40-43 | two ascending sequences with the same elements are equal, so the sorted catalog is determined by the directory contents alone |
| ImageCatalog.LastDot | labelling_app.py:42 | the index found is a '.', with no '.' after it; None only when the name has no '.' at all |
| ImageCatalog.Suffix | labelling_app.py:42 | the suffix is empty or a proper tail of the name of length at least 2 that starts with its only '.' |
| ImageCatalog.SuffixPresent | labelling_app.py:42 | the suffix is non-empty exactly when the last '.' is neither the first nor the last character |
| ImageCatalog.SuffixAt | labelling_app.py:42 | when the last '.' is strictly inside the name, the suffix is the text from that dot |
| ImageCatalog.UpperCaseExtension | labelling_app.py:42 | "a.JPG" passes the filter: the comparison ignores case |
| ImageCatalog.MixedCaseExtension | labelling_app.py:42 | "boat.Jpeg" passes the filter: the comparison ignores case |
| ImageCatalog.LastExtensionPasses | labelling_app.py:42 | "x.tar.png" passes: only the last extension counts |
| ImageCatalog.LastExtensionFails | labelling_app.py:42 | "a.png.txt" does not pass: an earlier image extension is ignored |
| ImageCatalog.NamesWithoutSuffix | labelling_app.py:42 | ".jpg", "png" and "a." are not images: a leading dot, no dot or a trailing dot gives no suffix |
| ImageCatalog.LowerChar | labelling_app.py:42 | `str.lower` on one character, ASCII only; its body is the definition (a capital moves to its small letter, every other character is unchanged), and `LowerIdempotent` states that no capital is left |
| ImageCatalog.Lower | labelling_app.py:42 | `str.lower` on the ASCII letters, character by character as `LowerChar`; what it means for the filter is stated by `CaseInsensitive`, `SuffixOfLower` and `LowerIdempotent` |
| ImageCatalog.SuffixOfLower | labelling_app.py:42 | lower-casing a name moves no dot, so the suffix of the lowered name is the lowered suffix |
| ImageCatalog.CaseInsensitive | labelling_app.py:42 | for every name, the filter accepts the name exactly when it accepts its lower-cased form: the extension test ignores case |
| ImageCatalog.LowerIdempotent | labelling_app.py:42 | the lowered suffix has no ASCII capital left, so lowering it again changes nothing |
| ImageCatalog.ImageNameShape | labelling_app.py:42 | a name that passes the filter has a suffix of 4 or 5 characters starting with a dot, and text before that dot |
| ImageCatalog.IsImage | labelling_app.py:42 | the filter condition: the lowered suffix is ".jpg", ".jpeg" or ".png"; what it admits is stated by `ImageEntriesMembers`, `ImageNameShape` and the example lemmas |
| ImageCatalog.ImageEntries | labelling_app.py:41-42 | the filtered list never holds more copies of a name than the directory listing |
| ImageCatalog.ImageEntriesMembers | labelling_app.py:41-42 | the filter keeps exactly the entries with an image suffix |
| ImageCatalog.Catalog | labelling_app.py:36-43 | the catalog is ascending, is a rearrangement of the filtered entries, and has no repeated name when the directory has none |
| ImageCatalog.CatalogMembers | labelling_app.py:40-43 | the catalog holds exactly the directory entries with an image suffix |
| ImageCatalog.CatalogIsTheSortedListing | labelling_app.py:40-43 | any ascending rearrangement of the image entries equals the catalog |
| ImageCatalog.NoImagesEmptyCatalog | labelling_app.py:40-43 | a directory without image entries gives an empty catalog, so the session starts out complete whatever the store holds |
| ImageCatalog.NoImageEntries | labelling_app.py:41-42 | the filter of a listing without image entries is empty |
| SessionQueue.Unlabeled | labelling_app.py:60-62 | the initial queue holds exactly the catalog names that have no label record |
| SessionQueue.UnlabeledIsSubsequence | labelling_app.py:60-62 | the initial queue keeps catalog order: it is a subsequence of the catalog |
| SessionQueue.SubsequenceSorted | labelling_app.py:60-62 | a subsequence of the sorted catalog is sorted, so the queue is sorted |
| SessionQueue.SubsequenceMultiset | labelling_app.py:60-62 | a subsequence never holds more copies of a name than the sequence it comes from |
| SessionQueue.SubsequenceLength | labelling_app.py:68-70 | a subsequence is no longer than the sequence it comes from, so `total - len(queue)` is never negative |
| SessionQueue.SubsequenceTransitive | labelling_app.py:111 | a subsequence of a subsequence of the catalog is one too, so the queue stays a subsequence across pops |
| SessionQueue.SubsequenceReflexive | labelling_app.py:60-62 | every sequence is a subsequence of itself |
| SessionQueue.RemoveAt | labelling_app.py:111 | `list.pop(i)` on an in-range position shortens the queue by one; `RemoveAtSpec` states which element goes |
| SessionQueue.PrevIndex | labelling_app.py:99-100 | `max(0, idx-1)` never moves forward and moves back at most one place |
| SessionQueue.NextIndex | labelling_app.py:101-102 | `min(n-1, idx+1)` is always a position of the queue, and from an in-range cursor it moves forward at most one place |
| SessionQueue.Navigate | labelling_app.py:99-102 | the navigation block keeps an in-range cursor in range and moves it by at most one place, or to the last element |
| SessionQueue.ClampAfterPop | labelling_app.py:112-113 | after a pop the cursor lies inside a non-empty queue and is 0 for an empty one; an index still in range is unchanged, and one at or past the end of a non-empty queue becomes its last position `len - 1` |
| SessionQueue.ClampIsMin | labelling_app.py:112-113 | for a cursor that was in range before the pop, the clamp equals `min(index, len - 1)`, and 0 when the queue is empty |
| SessionQueue.RemoveAtIsSubsequence | labelling_app.py:111 | `pop(i)` leaves a subsequence of the queue |
| SessionQueue.RemoveAtSpec | labelling_app.py:111 | `pop(i)` shortens the queue by one and drops exactly the element at `i`; the elements before it stay put and those after it move down one place |
| SessionQueue.RemovedIsGone | labelling_app.py:111 | in a queue without repeated names, the popped name is no longer in the queue and the rest stays repetition-free |
| SessionQueue.NavigationInRange | labelling_app.py:99-102 | Previous and Next keep an in-range cursor in range; Previous never moves forward and Next never moves back |
| SessionQueue.NavigationIdempotentAtBoundary | labelling_app.py:92-102 | Previous at 0 and Next at the last element leave the cursor unchanged, and repeating them changes nothing |
| SessionQueue.EnabledButtonsMove | labelling_app.py:92-102 | an enabled Previous or Next button moves the cursor by exactly one |
| SessionQueue.PreviousWins | labelling_app.py:99-102 | when both buttons report a press, the Previous branch decides the cursor |
| SessionQueue.SaveMiddleScenario | labelling_app.py:111-113 | saving the middle of [a, b, c] at cursor 1 leaves [a, c] with the cursor on c |
| SessionQueue.SaveLastScenario | labelling_app.py:111-113 | saving the last of [a, b, c] at cursor 2 leaves [a, b] with the cursor pulled back to 1, on b |
| LabelStore.Store.Upsert | labelling_app.py:45-48 | the row for the filename is inserted or overwritten with the labels; no other row changes; the filename is then listed as labeled |
| LabelStore.Store.LabeledFilenames | labelling_app.py:50-53 | the labeled set is exactly the filenames that have a row |
| Session.QueueInvariant | labelling_app.py:57-63 | what the script relies on about its queue: it is an order-preserving selection of the sorted catalog, the cursor indexes it when it is non-empty, every catalog image that left it has a label record, and with distinct names no queued image has one; established by `InitialQueue` and kept by `SaveKeepsInvariant` |
| Session.SessionState.Valid | labelling_app.py:65-82 | the session invariant: the queue exists only after login, no queue means no catalog and cursor 0, and the queue invariant holds; every method of the session keeps it |
| Session.SessionState.Complete | labelling_app.py:76-78 | the queue is empty; in a valid session every catalog image then has a label record |
| Session.SessionState.constructor | labelling_app.py:23-24 | a new session is not authenticated and has no queue |
| Session.SessionState.PasswordGate | labelling_app.py:21-34 | the flag becomes true exactly when the entry equals the configured secret and never goes back to false; a wrong non-empty entry is reported as incorrect, an empty one waits |
| Session.SessionState.Init | labelling_app.py:55-63 | on the first run after login the queue is the catalog without the names in the store and the cursor is 0, and the invariant holds; later runs change nothing |
| Session.SessionState.Current | labelling_app.py:80-82 | indexing the queue with the cursor is always in range; the image at the cursor is in the catalog and has no label record when names are distinct |
| Session.SessionState.LabeledCount | labelling_app.py:68-70 | the labeled count is a natural number and adds up with the queue length to the catalog size |
| Session.SessionState.Previous | labelling_app.py:99-100 | the cursor becomes `max(0, idx-1)` and the invariant is kept |
| Session.SessionState.Next | labelling_app.py:101-102 | the cursor becomes `min(len-1, idx+1)` and the invariant is kept |
| Session.SessionState.Save | labelling_app.py:104-117 | with tags: the store maps the image at `at` to them and changes no other row, the queue loses exactly that element, and an index past the end is clamped, keeping the invariant; without tags: only a warning, nothing changes |
| Session.SessionState.Submit | labelling_app.py:81-117 | one form submission: navigation first (Previous before Next), then Save labels and pops the image at the cursor read at the start of the run and re-clamps the navigated cursor; the queue and store change only on a save with tags |
| Session.InitialQueue | labelling_app.py:57-63 | the queue built at start-up, with cursor 0, satisfies the queue invariant: it is an ordered selection of the sorted catalog, every image left out has a label record, and none kept has one; an image-free directory gives an empty queue whatever the store holds |
| Session.SaveKeepsInvariant | labelling_app.py:106-113 | upserting the image at `at`, popping it and clamping any in-range cursor keeps the queue invariant |
| Session.QueueSorted | labelling_app.py:60-62 | at every point of a session the queue is sorted by name |
| Session.EmptyDirectoryExample | labelling_app.py:76-78 | a session started on an empty directory has nothing to label |
| Session.LoginExample | labelling_app.py:21-34 | "wrong" against "secret123" is refused, "secret123" is granted, and the session then stays in |
| Session.SaveMiddleExample | labelling_app.py:104-115 | in a session on [a.jpg, b.jpg, c.jpg] at cursor 1, Save with ["Boat"] leaves [a.jpg, c.jpg] with c.jpg on screen and b.jpg labeled |

## Left out

- `downloadFiles` (src/data.py) is not modelled. It downloads an archive over the network and unzips it. The model takes the resulting directory listing as a sequence of names.
- Streamlit rendering (`st.title`, `st.write`, `st.image`, `st.toast`, `st.warning`, `st.error`) is not modelled. Its control through `st.rerun`/`st.stop` appears only as the `GateOutcome` and `Notice` values. Each interaction is one method call, not a re-execution of the script.
- `@st.cache_data` memoization is not modelled. The catalog is computed once when the queue is built and kept in the session. That matches the process-wide cache as long as the directory does not change.
- The Supabase client is reduced to a local map, so network and database errors are not modelled.
- LabelStore.Store.LabeledFilenames: it returns every key of the table. The query at labelling_app.py:52 has no range, and the service caps the rows returned per request (1000 by default). With more labelled rows than that, labelled images would come back into a new session's queue. The invariant's clause that no queued image has a record, and `Current`'s promise that the image at the cursor has none, rely on the full key set.
- Other sessions writing the same table concurrently are not modelled. The invariant linking the queue to the store therefore assumes a single session.
- Environment and dotenv loading is not modelled. The secret is a parameter of the gate.
- `sorted` compares `Path` objects. On POSIX all entries share one parent directory and compare by name, so the model sorts the names directly. The Windows order, which compares case-folded names ("a.jpg" before "B.jpg"), is not modelled.
- `pathlib` is not modelled beyond `suffix` on names. A directory entry whose name ends in an image extension passes the filter, as it does in the source.
- Lower: only ASCII letters are lower-cased. Python's `str.lower` also maps other characters, but none of them to the letters of ".jpg", ".jpeg" or ".png", so the filter is unaffected.
- Previous, Next and Current: the model takes the image at the cursor (`Current`) to be the one on screen. In the script the navigation block (lines 99-102) moves the cursor without re-running, so after Previous or Next the page still shows the image of the old cursor, with the button states computed for it. A following Save (lines 81, 107, 111) labels and pops the image at the moved cursor, the neighbour of the one shown. The model does not record which image is displayed and so does not exhibit this.
- The tag vocabulary (`TAGS`, labelling_app.py:19) is not modelled. The model accepts any sequence of strings as the selection.
- Session.SessionState.Submit: it accepts several button flags at once. It does not model the framework's guarantee that a form submission reports at most one pressed button.
