/**
 * What the add and edit handlers promise about the table, stated over their
 * outcome functions (which the App methods are proved to compute).
 */
module HandlerLaws {
  import opened Wrappers
  import opened Records
  import opened Ancestry
  import opened Listing
  import opened Serialise
  import opened Handlers

  // ---------------------------------------------------------------------
  // add_family_member
  // ---------------------------------------------------------------------

  /** An add succeeds exactly when every field and the file part are there and a present upload is saved; otherwise nothing changes. */
  lemma AddSucceedsIff(t: Table, form: Form, files: Files, saveOk: bool)
    ensures AddOutcome(t, form, files, saveOk).response.Redirect? <==>
      && FirstMissing(form, TextFields).None?
      && "image_file" in files
      && (Present(files["image_file"]) ==> saveOk)
    ensures !AddOutcome(t, form, files, saveOk).response.Redirect? ==>
      AddOutcome(t, form, files, saveOk).table == t && AddOutcome(t, form, files, saveOk).response.Failed?
    ensures FirstMissing(form, TextFields).Some? ==>
      AddOutcome(t, form, files, saveOk).response == Failed(MissingField(FirstMissing(form, TextFields).value))
  {
  }

  /** A successful add inserts exactly one record, under a fresh key, and changes no other. */
  lemma AddInsertsOneRecord(t: Table, form: Form, files: Files, saveOk: bool)
    requires AddOutcome(t, form, files, saveOk).response.Redirect?
    ensures NextId(t) !in t
    ensures AddOutcome(t, form, files, saveOk).table.Keys == t.Keys + {NextId(t)}
    ensures forall k :: k in t ==> AddOutcome(t, form, files, saveOk).table[k] == t[k]
    ensures |AddOutcome(t, form, files, saveOk).table| == |t| + 1
  {
  }

  /**
   * The new record holds the submitted text, parent_id exactly as submitted
   * (so an empty one is kept as text, not NULL), and the saved path of a
   * present upload or no image.
   */
  lemma AddStoresSubmission(t: Table, form: Form, files: Files, saveOk: bool)
    requires AddOutcome(t, form, files, saveOk).response.Redirect?
    ensures FirstMissing(form, TextFields).None? && HasTextFields(form) && "image_file" in files
    ensures var m, u := AddOutcome(t, form, files, saveOk).table[NextId(t)], files["image_file"];
      && m.firstName == form["first_name"] && m.middleName == Some(form["middle_name"])
      && m.lastName == form["last_name"] && m.suffix == Some(form["suffix"])
      && m.birthDate == Some(form["birth_date"]) && m.spouse == Some(form["spouse"])
      && m.weddingAnniversary == Some(form["wedding_anniversary"]) && m.bio == Some(form["bio"])
      && m.favoriteMemories == Some(form["favorite_memories"])
      && m.parentId == Coerce(form["parent_id"]) && m.parentId != Null
      && (m.imageFile.None? <==> !Present(u))
      && (Present(u) ==> m.imageFile == Some(StoredPath(u)))
  {
    TextFieldsPresent(form);
  }

  /** A record that was added shows up in both listings: once in key order, once on the edit page. */
  lemma AddedRecordIsListed(t: Table, form: Form, files: Files, saveOk: bool)
    requires AddOutcome(t, form, files, saveOk).response.Redirect?
    ensures var t' := AddOutcome(t, form, files, saveOk).table;
      && Row(NextId(t), t'[NextId(t)]) in Rows(t')
      && multiset(EditListing(t'))[Row(NextId(t), t'[NextId(t)])] == 1
  {
    var t' := AddOutcome(t, form, files, saveOk).table;
    RowsInKeyOrder(t');
    EditListingExactlyOnce(t');
  }

  // ---------------------------------------------------------------------
  // edit_family_member, commit branch
  // ---------------------------------------------------------------------

  /** The key the commit branch edits: the row that member_id_hidden names. */
  function EditedKey(t: Table, form: Form): Option<int> {
    if "member_id_hidden" in form then Lookup(t, form["member_id_hidden"]) else None
  }

  /** A commit succeeds exactly when the row exists, every field and the file part are there and a present upload is saved; otherwise nothing changes. */
  lemma CommitSucceedsIff(t: Table, form: Form, files: Files, saveOk: bool)
    ensures CommitOutcome(t, form, files, saveOk).response.Redirect? <==>
      && EditedKey(t, form).Some?
      && FirstMissing(form, TextFields).None?
      && "image_file" in files
      && (Present(files["image_file"]) ==> saveOk)
    ensures !CommitOutcome(t, form, files, saveOk).response.Redirect? ==>
      CommitOutcome(t, form, files, saveOk).table == t && CommitOutcome(t, form, files, saveOk).response.Failed?
    ensures "member_id_hidden" in form && "first_name" in form && EditedKey(t, form).None? ==>
      CommitOutcome(t, form, files, saveOk).response == Failed(NoSuchMember)
  {
  }

  /** A successful commit changes only the edited record, and keeps its key. */
  lemma CommitChangesOnlyTarget(t: Table, form: Form, files: Files, saveOk: bool)
    requires CommitOutcome(t, form, files, saveOk).response.Redirect?
    ensures EditedKey(t, form).Some? && EditedKey(t, form).value in t
    ensures CommitOutcome(t, form, files, saveOk).table.Keys == t.Keys
    ensures forall k :: k in t && k != EditedKey(t, form).value ==>
      CommitOutcome(t, form, files, saveOk).table[k] == t[k]
  {
  }

  /**
   * The edited record holds the submitted text; an empty parent_id becomes
   * NULL and any other is stored as submitted; image_file changes only when
   * a file is uploaded.
   */
  lemma CommitStoresSubmission(t: Table, form: Form, files: Files, saveOk: bool)
    requires CommitOutcome(t, form, files, saveOk).response.Redirect?
    ensures FirstMissing(form, TextFields).None? && HasTextFields(form) && "image_file" in files
    ensures EditedKey(t, form).Some? && EditedKey(t, form).value in t
    ensures var id := EditedKey(t, form).value;
      var m, u := CommitOutcome(t, form, files, saveOk).table[id], files["image_file"];
      && m.firstName == form["first_name"] && m.middleName == Some(form["middle_name"])
      && m.lastName == form["last_name"] && m.suffix == Some(form["suffix"])
      && m.birthDate == Some(form["birth_date"]) && m.spouse == Some(form["spouse"])
      && m.weddingAnniversary == Some(form["wedding_anniversary"]) && m.bio == Some(form["bio"])
      && m.favoriteMemories == Some(form["favorite_memories"])
      && (form["parent_id"] == "" ==> m.parentId == Null)
      && (form["parent_id"] != "" ==> m.parentId == Coerce(form["parent_id"]))
      && (!Present(u) ==> m.imageFile == t[id].imageFile)
      && (Present(u) ==> m.imageFile == Some(StoredPath(u)))
  {
    TextFieldsPresent(form);
  }

  /** Submitting the same edit twice leaves the table as submitting it once. */
  lemma CommitIdempotent(t: Table, form: Form, files: Files, saveOk: bool)
    requires CommitOutcome(t, form, files, saveOk).response.Redirect?
    ensures var t' := CommitOutcome(t, form, files, saveOk).table;
      CommitOutcome(t', form, files, saveOk) == CommitOutcome(t, form, files, saveOk)
  {
  }

  // ---------------------------------------------------------------------
  // Consequences for /api/members
  // ---------------------------------------------------------------------

  /**
   * An add with an empty parent_id stores the empty text, which to_dict
   * reports as "" rather than null; the new record is still a root.
   */
  lemma AddWithEmptyParent(t: Table, form: Form, files: Files, saveOk: bool)
    requires AddOutcome(t, form, files, saveOk).response.Redirect?
    requires "parent_id" in form && form["parent_id"] == ""
    ensures var t' := AddOutcome(t, form, files, saveOk).table;
      && NextId(t) in t'
      && t'[NextId(t)].parentId == Text("")
      && Parent(t', NextId(t)).None?
      && Acyclic(t', NextId(t))
      && ToDict(t', NextId(t)).fields["parent"] == JNull
      && Columns(NextId(t), t'[NextId(t)])["parent_id"] == JStr("")
  {
    var t' := AddOutcome(t, form, files, saveOk).table;
    AddStoresSubmission(t, form, files, saveOk);
    RootDepth(t', NextId(t));
    ParentEntry(t', NextId(t));
    ColumnsHold(NextId(t), t'[NextId(t)]);
  }

  /**
   * Nothing stops an edit from making a record its own parent (a parent_id
   * that stores as the edited key, "007" for row 7 as well as "7");
   * afterwards /api/members answers 500.
   */
  lemma EditCanCreateCycle(t: Table, form: Form, files: Files, saveOk: bool)
    requires CommitOutcome(t, form, files, saveOk).response.Redirect?
    requires "member_id_hidden" in form && "parent_id" in form
    requires form["parent_id"] != "" && Coerce(form["parent_id"]) == Coerce(form["member_id_hidden"])
    ensures var t' := CommitOutcome(t, form, files, saveOk).table;
      && EditedKey(t, form).Some?
      && HasCycle(t', EditedKey(t, form).value)
      && GetMembers(t').status == 500
  {
    var t' := CommitOutcome(t, form, files, saveOk).table;
    CommitChangesOnlyTarget(t, form, files, saveOk);
    CommitStoresSubmission(t, form, files, saveOk);
    var id := EditedKey(t, form).value;
    assert t'[id].parentId == Key(id);
    assert Walk(t', id, 0) == Walk(t', id, 1) == Some(id);
    CycleFailsGetMembers(t', id);
  }

  /**
   * Nothing stops an add from naming the key the new record is about to
   * receive as its parent_id; the record is then its own parent and
   * /api/members answers 500.
   */
  lemma AddCanCreateCycle(t: Table, form: Form, files: Files, saveOk: bool)
    requires AddOutcome(t, form, files, saveOk).response.Redirect?
    requires "parent_id" in form && form["parent_id"] == Numeral(NextId(t))
    ensures var t' := AddOutcome(t, form, files, saveOk).table;
      && NextId(t) in t'
      && HasCycle(t', NextId(t))
      && GetMembers(t').status == 500
  {
    var t' := AddOutcome(t, form, files, saveOk).table;
    var id := NextId(t);
    AddStoresSubmission(t, form, files, saveOk);
    CoerceNumeral(id);
    assert t'[id].parentId == Key(id);
    assert Walk(t', id, 0) == Walk(t', id, 1) == Some(id);
    CycleFailsGetMembers(t', id);
  }

  /** Every stored parent key names an existing row (the foreign key, which SQLite does not enforce here). */
  ghost predicate Linked(t: Table) {
    forall k :: k in t && t[k].parentId.Key? ==> t[k].parentId.id in t
  }

  /** Every chain in the table ends, so to_dict is defined on every row. */
  ghost predicate ChainsEnd(t: Table) {
    forall k :: k in t ==> Acyclic(t, k)
  }

  /** No stored parent_id holds the key id. */
  ghost predicate Unnamed(t: Table, id: int) {
    forall j :: j in t ==> t[j].parentId != Key(id)
  }

  /** With the foreign key held, no stored parent_id names an unused key. */
  lemma LinkedLeavesUnusedUnnamed(t: Table, id: int)
    requires Linked(t) && id !in t
    ensures Unnamed(t, id)
  {
  }

  /** Adding a row no stored key points to leaves the walks from the old rows as they were. */
  lemma {:induction false} WalkUnchangedByInsert(t: Table, id: int, m: Member, k: int, n: nat)
    requires Unnamed(t, id) && id !in t && k in t
    ensures Walk(t[id := m], k, n) == Walk(t, k, n)
    decreases n
  {
    var t' := t[id := m];
    if n > 0 {
      assert t'[k] == t[k];
      assert Parent(t', k) == Parent(t, k);
      match Parent(t, k)
      case None =>
      case Some(p) => WalkUnchangedByInsert(t, id, m, p, n - 1);
    }
  }

  /** Inserting a row under an unused key keeps every chain ending, unless the row names its own key as parent. */
  lemma InsertKeepsChainsEnding(t: Table, id: int, m: Member)
    requires Unnamed(t, id) && ChainsEnd(t) && id !in t && m.parentId != Key(id)
    ensures ChainsEnd(t[id := m])
  {
    var t' := t[id := m];
    forall k | k in t
      ensures Acyclic(t', k)
    {
      var d := Depth(t, k);
      WalkUnchangedByInsert(t, id, m, k, d);
      WalkUnchangedByInsert(t, id, m, k, d + 1);
      assert IsDepth(t', k, d);
    }
    match Parent(t', id)
    case None =>
      RootDepth(t', id);
    case Some(p) =>
      assert p in t;
      var d := Depth(t, p);
      WalkUnchangedByInsert(t, id, m, p, d);
      WalkUnchangedByInsert(t, id, m, p, d + 1);
      assert Walk(t', id, d + 1) == Walk(t', p, d);
      assert Walk(t', id, d + 2) == Walk(t', p, d + 1);
      assert IsDepth(t', id, d + 1);
  }

  /**
   * When every stored parent key names a row, a successful add keeps every
   * chain finite unless the new record names itself: its parent_id being the
   * very key it receives.
   */
  lemma AddKeepsChainsEnding(t: Table, form: Form, files: Files, saveOk: bool)
    requires AddOutcome(t, form, files, saveOk).response.Redirect?
    requires Unnamed(t, NextId(t)) && ChainsEnd(t)
    requires "parent_id" in form && Coerce(form["parent_id"]) != Key(NextId(t))
    ensures ChainsEnd(AddOutcome(t, form, files, saveOk).table)
  {
    var t' := AddOutcome(t, form, files, saveOk).table;
    AddInsertsOneRecord(t, form, files, saveOk);
    AddStoresSubmission(t, form, files, saveOk);
    assert t' == t[NextId(t) := t'[NextId(t)]];
    InsertKeepsChainsEnding(t, NextId(t), t'[NextId(t)]);
  }

  /**
   * A dangling parent_id is adopted by the add that hands out that key: row
   * k, which names the next key as its parent, becomes the new row's child.
   * If the add also names k as the new row's parent, the two rows are each
   * other's parent and /api/members answers 500.
   */
  lemma AddAdoptsDanglingKey(t: Table, form: Form, files: Files, saveOk: bool, k: int)
    requires AddOutcome(t, form, files, saveOk).response.Redirect?
    requires k in t && t[k].parentId == Key(NextId(t))
    ensures var t' := AddOutcome(t, form, files, saveOk).table;
      && k in t'
      && Parent(t', k) == Some(NextId(t))
      && ("parent_id" in form && form["parent_id"] == Numeral(k) ==>
            HasCycle(t', k) && GetMembers(t').status == 500)
  {
    var t' := AddOutcome(t, form, files, saveOk).table;
    var id := NextId(t);
    AddInsertsOneRecord(t, form, files, saveOk);
    assert t'[k] == t[k];
    if "parent_id" in form && form["parent_id"] == Numeral(k) {
      AddStoresSubmission(t, form, files, saveOk);
      CoerceNumeral(k);
      assert t'[id].parentId == Key(k);
      assert Walk(t', k, 1) == Some(id);
      assert Walk(t', k, 0) == Walk(t', k, 2) == Some(k);
      CycleFailsGetMembers(t', k);
    }
  }
}
