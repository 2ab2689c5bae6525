/**
 * One browser session of the labelling tool (labelling_app.py): the password
 * gate, the queue of images still to label with its cursor, and the three
 * form actions. Streamlit re-runs the whole script on every interaction; here
 * each interaction is one method call on the session state.
 */
module Session {
  import opened Wrappers
  import opened StringOrder
  import opened ImageCatalog
  import opened SessionQueue
  import opened LabelStore

  /** What the login screen does with one password entry. */
  datatype GateOutcome =
    | AlreadyIn   // the session was authenticated before: the page is shown
    | Granted     // the entry matches the secret: the flag is set and the page re-runs
    | Incorrect   // a wrong, non-empty entry: an error is shown and the script stops
    | Waiting     // nothing entered yet: the script stops

  /** The notification a form submission produces. */
  datatype Notice = Quiet | Saved(filename: string) | Warning

  class SessionState {
    /** The shared label store (the Supabase table). */
    const store: Store
    /** `st.session_state.authenticated`. */
    var authenticated: bool
    /** Whether `st.session_state.unlabeled_images` exists yet. */
    var initialized: bool
    /** The (memoized) result of `get_files()` the queue was built from. */
    var catalog: seq<string>
    /** `st.session_state.unlabeled_images`. */
    var queue: seq<string>
    /** `st.session_state.unlabeled_index`. */
    var index: nat

    /**
     * The session invariant: the queue is built only after login, and the
     * queue, cursor and store satisfy `QueueInvariant`.
     */
    ghost predicate Valid()
      reads this, store
    {
      && (initialized ==> authenticated)
      && (!initialized ==> catalog == [] && queue == [] && index == 0)
      && QueueInvariant(catalog, queue, index, store.rows)
    }

    /** A fresh session: not logged in, no queue. */
    constructor (store: Store)
      ensures Valid()
      ensures this.store == store
      ensures !authenticated && !initialized
    {
      this.store := store;
      authenticated := false;
      initialized := false;
      catalog := [];
      queue := [];
      index := 0;
    }

    /** `password_gate`, given the entered text and the configured secret (absent when unset). */
    method PasswordGate(input: string, secret: Option<string>) returns (outcome: GateOutcome)
      requires Valid()
      modifies this`authenticated
      ensures Valid()
      ensures authenticated <==> old(authenticated) || secret == Some(input)
      ensures old(authenticated) ==> outcome == AlreadyIn
      ensures !old(authenticated) ==>
        outcome == (if secret == Some(input) then Granted else if input != [] then Incorrect else Waiting)
    {
      if authenticated {
        return AlreadyIn;
      }
      if secret == Some(input) {
        authenticated := true;
        outcome := Granted;
      } else if input != [] {
        outcome := Incorrect;
      } else {
        outcome := Waiting;
      }
    }

    /**
     * `initialize_state`: on the first run after login, the queue is the
     * catalog without the images the store already has labels for, and the
     * cursor is 0; later runs leave everything as it is.
     */
    method Init(entries: seq<string>)
      requires Valid() && authenticated
      modifies this`initialized, this`catalog, this`queue, this`index
      ensures Valid() && initialized
      ensures old(initialized) ==> catalog == old(catalog) && queue == old(queue) && index == old(index)
      ensures !old(initialized) ==>
        && catalog == Catalog(entries)
        && queue == Unlabeled(catalog, store.rows.Keys)
        && index == 0
    {
      if initialized {
        return;
      }
      var labeled := store.LabeledFilenames();
      assert labeled == store.rows.Keys;
      catalog := Catalog(entries);
      queue := Unlabeled(catalog, labeled);
      index := 0;
      initialized := true;
      InitialQueue(entries, store.rows);
      assert QueueInvariant(catalog, queue, index, store.rows);
    }

    /**
     * The queue is empty: the page shows its completion message and stops. In
     * a valid session every image of the catalog then has a label record.
     */
    predicate Complete()
      reads this, store
      ensures Valid() && Complete() ==> forall x :: x in catalog ==> x in store.rows
    {
      initialized && queue == []
    }

    /**
     * The image at the cursor (`unlabeled_images[idx]`). It is the image drawn
     * by a run that starts from this state; after Previous or Next the page
     * still shows the image of the old cursor until the next run.
     */
    function Current(): (name: string)
      reads this, store
      requires Valid() && queue != []
      ensures name in queue && name in catalog
      ensures Distinct(catalog) ==> name !in store.rows
    {
      SubsequenceMultiset(queue, catalog);
      assert queue[index] in multiset(catalog);
      queue[index]
    }

    /** `labeled_count = total_images - len(unlabeled_images)`, never negative. */
    function LabeledCount(): (count: nat)
      reads this, store
      requires Valid()
      ensures count + |queue| == |catalog|
    {
      SubsequenceLength(queue, catalog);
      |catalog| - |queue|
    }

    /** Previous: `max(0, idx - 1)`. */
    method Previous()
      requires Valid() && queue != []
      modifies this`index
      ensures Valid()
      ensures index == PrevIndex(old(index))
    {
      index := if index == 0 then 0 else index - 1;
    }

    /** Next: `min(len(queue) - 1, idx + 1)`. */
    method Next()
      requires Valid() && queue != []
      modifies this`index
      ensures Valid()
      ensures index == NextIndex(old(index), |queue|)
    {
      index := if index + 1 <= |queue| - 1 then index + 1 else |queue| - 1;
    }

    /**
     * Save Labels, for the image at `at` (the cursor as the script read it at
     * the start of the run). With tags selected: the store maps that image to them, the
     * image leaves the queue, and a cursor past the end is pulled back. With
     * none selected: only a warning.
     */
    method Save(at: nat, selected: seq<string>) returns (notice: Notice)
      requires Valid() && at < |queue|
      modifies this`queue, this`index, store
      ensures Valid()
      ensures selected == [] ==>
        && notice == Warning
        && queue == old(queue) && index == old(index) && store.rows == old(store.rows)
      ensures selected != [] ==>
        && notice == Saved(old(queue)[at])
        && store.rows == old(store.rows)[old(queue)[at] := selected]
        && queue == RemoveAt(old(queue), at)
        && index == ClampAfterPop(old(index), |queue|)
    {
      if selected == [] {
        return Warning;
      }
      var name := queue[at];
      SaveKeepsInvariant(catalog, queue, index, store.rows, at, selected);
      store.Upsert(name, selected);
      queue := RemoveAt(queue, at);
      if index >= |queue| {
        index := if |queue| == 0 then 0 else |queue| - 1;
      }
      notice := Saved(name);
    }

    /**
     * One submission of the labelling form (the script from the cursor read to
     * the save block): the navigation block, Previous taking precedence, then
     * the save block, which labels and pops the image at the cursor read at the
     * start of the run, not the one the navigation block moved to.
     */
    method Submit(prev: bool, next: bool, save: bool, selected: seq<string>) returns (notice: Notice)
      requires Valid() && queue != []
      modifies this`queue, this`index, store
      ensures Valid()
      ensures save && selected != [] ==>
        && notice == Saved(old(queue)[old(index)])
        && store.rows == old(store.rows)[old(queue)[old(index)] := selected]
        && queue == RemoveAt(old(queue), old(index))
        && index == ClampAfterPop(Navigate(prev, next, old(index), |old(queue)|), |queue|)
      ensures !(save && selected != []) ==>
        && notice == (if save then Warning else Quiet)
        && queue == old(queue) && store.rows == old(store.rows)
        && index == Navigate(prev, next, old(index), |old(queue)|)
    {
      var idx := index;
      if prev {
        Previous();
      } else if next {
        Next();
      }
      if save {
        notice := Save(idx, selected);
      } else {
        notice := Quiet;
      }
    }
  }

  /**
   * What the session relies on about its queue: it is an order-preserving
   * selection of the sorted catalog, the cursor points at an element whenever
   * there is one, every catalog image that has left the queue has a label
   * record, and (names in a directory being distinct) no image still in the
   * queue has one.
   */
  ghost predicate QueueInvariant(catalog: seq<string>, queue: seq<string>, index: nat, rows: map<string, seq<string>>)
  {
    && Sorted(catalog)
    && IsSubsequence(queue, catalog)
    && (if queue == [] then index == 0 else index < |queue|)
    && (forall x :: x in catalog && x !in queue ==> x in rows)
    && (Distinct(catalog) ==> forall x :: x in queue ==> x !in rows)
  }

  /**
   * The queue `initialize_state` builds, with the cursor at 0, satisfies the
   * invariant; it is empty when the directory holds no image.
   */
  lemma InitialQueue(entries: seq<string>, rows: map<string, seq<string>>)
    ensures QueueInvariant(Catalog(entries), Unlabeled(Catalog(entries), rows.Keys), 0, rows)
    ensures (forall e :: e in entries ==> !IsImage(e)) ==> Unlabeled(Catalog(entries), rows.Keys) == []
  {
    var c := Catalog(entries);
    UnlabeledIsSubsequence(c, rows.Keys);
    if forall e :: e in entries ==> !IsImage(e) {
      NoImagesEmptyCatalog(entries);
    }
  }

  /**
   * Saving the image at `at` (the store records it, the queue pops it, the
   * cursor is clamped) keeps the invariant, from whatever in-range cursor the
   * navigation block left.
   */
  lemma SaveKeepsInvariant(catalog: seq<string>, queue: seq<string>, index: nat,
                           rows: map<string, seq<string>>, at: nat, selected: seq<string>)
    requires QueueInvariant(catalog, queue, index, rows) && at < |queue|
    ensures QueueInvariant(catalog, RemoveAt(queue, at), ClampAfterPop(index, |queue| - 1),
                           rows[queue[at] := selected])
  {
    var name, after := queue[at], RemoveAt(queue, at);
    RemoveAtIsSubsequence(queue, at);
    SubsequenceTransitive(after, queue, catalog);
    RemoveAtSpec(queue, at);
    forall x | x in queue && x != name ensures x in after {
      assert x in multiset(queue);
    }
    if Distinct(catalog) {
      SubsequenceMultiset(queue, catalog);
      DistinctSubMultiset(queue, catalog);
      RemovedIsGone(queue, at);
    }
  }

  /** The queue is always in catalog order, hence sorted by name. */
  lemma QueueSorted(s: SessionState)
    requires s.Valid()
    ensures Sorted(s.queue)
  {
    SubsequenceSorted(s.queue, s.catalog);
  }

  /** Login: a wrong entry is refused, the right one lets the session in, and it stays in. */
  method LoginExample(s: SessionState)
    requires s.Valid() && !s.authenticated
    modifies s
    ensures s.authenticated
  {
    var outcome := s.PasswordGate("wrong", Some("secret123"));
    assert outcome == Incorrect && !s.authenticated;
    outcome := s.PasswordGate("secret123", Some("secret123"));
    assert outcome == Granted;
    outcome := s.PasswordGate("wrong", Some("secret123"));
    assert outcome == AlreadyIn;
  }

  /** An empty image directory leaves nothing to label, whatever the store holds. */
  method EmptyDirectoryExample(s: SessionState)
    requires s.Valid() && s.authenticated && !s.initialized
    modifies s
    ensures s.Complete()
  {
    s.Init([]);
    InitialQueue([], s.store.rows);
  }

  /** Saving the middle of [a, b, c] leaves [a, c] with the cursor on c, and b labeled. */
  method SaveMiddleExample(s: SessionState)
    requires s.Valid() && s.queue == ["a.jpg", "b.jpg", "c.jpg"] && s.index == 1
    modifies s, s.store
    ensures s.Valid() && s.queue == ["a.jpg", "c.jpg"] && s.index == 1
    ensures s.Current() == "c.jpg"
    ensures "b.jpg" in s.store.LabeledFilenames()
  {
    var notice := s.Submit(false, false, true, ["Boat"]);
    assert notice == Saved("b.jpg");
    assert RemoveAt(["a.jpg", "b.jpg", "c.jpg"], 1) == ["a.jpg", "c.jpg"];
  }
}
