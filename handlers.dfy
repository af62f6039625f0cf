/**
 * The request handlers that change or list the table: add_family_member
 * (FTapp.py:52-88) and edit_family_member (FTapp.py:90-127); get_members
 * is modelled with to_dict, in module Serialise.  A request carries a form (field name to text) and a
 * set of file parts; reading a field or part that is absent raises, and the
 * handler's `except Exception` turns that into an error text.  Changes to
 * the fetched row are pending in the session until db.session.commit(), so a
 * request that fails leaves the table as it was.
 */
module Handlers {
  import opened Wrappers
  import opened Records
  import opened Listing

  type Form = map<string, string>
  type Files = map<string, Upload>

  /** Why a handler answered with "An error occurred: ...". */
  datatype Failure =
    | MissingField(name: string)  // request.form[...] or request.files[...] without that key
    | NoSuchMember                // attribute assignment on the None that query.get returned
    | SaveFailed(path: string)    // image_file.save raised

  datatype Verb = Get | Post

  datatype Response =
    | Redirect(endpoint: string)
    | Failed(cause: Failure)
    | Page(template: string, members: seq<Row>, selected: Option<Row>)

  /** A handler's answer together with the table it leaves behind. */
  datatype Outcome = Outcome(response: Response, table: Table)

  /** The text fields both forms submit, in the order the handlers read them. */
  const TextFields: seq<string> := [
    "first_name", "middle_name", "last_name", "suffix", "birth_date",
    "parent_id", "spouse", "wedding_anniversary", "bio", "favorite_memories"]

  /** The first of keys the form lacks: the one whose lookup raises. */
  function FirstMissing(form: Form, keys: seq<string>): (r: Option<string>)
    ensures r.None? <==> forall i :: 0 <= i < |keys| ==> keys[i] in form
    ensures r.Some? ==> exists i :: 0 <= i < |keys| && keys[i] == r.value && r.value !in form &&
                                    forall j :: 0 <= j < i ==> keys[j] in form
  {
    if keys == [] then None
    else if keys[0] !in form then Some(keys[0])
    else
      var r := FirstMissing(form, keys[1..]);
      assert forall i :: 1 <= i < |keys| ==> keys[i] == keys[1..][i - 1];
      r
  }

  /** Each text field is in the form. */
  predicate HasTextFields(form: Form) {
    && "first_name" in form && "middle_name" in form && "last_name" in form
    && "suffix" in form && "birth_date" in form && "parent_id" in form
    && "spouse" in form && "wedding_anniversary" in form && "bio" in form
    && "favorite_memories" in form
  }

  /** When no text field is missing, each of them can be read. */
  lemma TextFieldsPresent(form: Form)
    requires FirstMissing(form, TextFields).None?
    ensures HasTextFields(form)
  {
    assert TextFields[0] in form && TextFields[1] in form && TextFields[2] in form;
    assert TextFields[3] in form && TextFields[4] in form && TextFields[5] in form;
    assert TextFields[6] in form && TextFields[7] in form && TextFields[8] in form;
    assert TextFields[9] in form;
  }

  /** A record holding the submitted text fields, with the given photo and parent. */
  function Submitted(form: Form, image: Option<string>, parent: ParentColumn): Member
    requires FirstMissing(form, TextFields).None?
  {
    TextFieldsPresent(form);
    Member(
      form["first_name"], Some(form["middle_name"]), form["last_name"], Some(form["suffix"]),
      Some(form["birth_date"]), parent, Some(form["spouse"]), Some(form["wedding_anniversary"]),
      Some(form["bio"]), Some(form["favorite_memories"]), image)
  }

  /** The key SQLite gives a new row: one more than the largest key, 1 in an empty table. */
  function NextId(t: Table): (id: int)
    ensures id !in t
    ensures forall k :: k in t ==> k < id
  {
    if |t| == 0 then 1
    else
      var ks := SortedKeys(t.Keys);
      assert forall k :: k in t ==> k <= ks[|ks| - 1] by {
        forall k | k in t
          ensures k <= ks[|ks| - 1]
        {
          var i :| 0 <= i < |ks| && ks[i] == k;
          assert i == |ks| - 1 || ks[i] < ks[|ks| - 1];
        }
      }
      ks[|ks| - 1] + 1
  }

  /** What the POST branch of add_family_member does to the table t. */
  function AddOutcome(t: Table, form: Form, files: Files, saveOk: bool): Outcome {
    match FirstMissing(form, TextFields)
    case Some(name) => Outcome(Failed(MissingField(name)), t)
    case None =>
      if "image_file" !in files then Outcome(Failed(MissingField("image_file")), t)
      else
        var u := files["image_file"];
        if Present(u) && !saveOk then Outcome(Failed(SaveFailed(StoredPath(u))), t)
        else
          var image := if Present(u) then Some(StoredPath(u)) else None;
          TextFieldsPresent(form);
          Outcome(Redirect("index"), t[NextId(t) := Submitted(form, image, Coerce(form["parent_id"]))])
  }

  /** What the commit branch of edit_family_member does to the table t. */
  function CommitOutcome(t: Table, form: Form, files: Files, saveOk: bool): Outcome {
    if "member_id_hidden" !in form then Outcome(Failed(MissingField("member_id_hidden")), t)
    else if "first_name" !in form then Outcome(Failed(MissingField("first_name")), t)
    else match Lookup(t, form["member_id_hidden"])
      case None => Outcome(Failed(NoSuchMember), t)
      case Some(id) =>
        match FirstMissing(form, TextFields)
        case Some(name) => Outcome(Failed(MissingField(name)), t)
        case None =>
          if "image_file" !in files then Outcome(Failed(MissingField("image_file")), t)
          else
            var u := files["image_file"];
            if Present(u) && !saveOk then Outcome(Failed(SaveFailed(StoredPath(u))), t)
            else
              var image := if Present(u) then Some(StoredPath(u)) else t[id].imageFile;
              TextFieldsPresent(form);
              var parent := if form["parent_id"] == "" then Null else Coerce(form["parent_id"]);
              Outcome(Redirect("index"), t[id := Submitted(form, image, parent)])
  }

  /** The family tree application's state: the family_member table. */
  class App {
    var table: Table

    constructor (initial: Table)
      ensures table == initial
    {
      table := initial;
    }

    /** add_family_member: GET renders the form with every member; POST inserts one. */
    method AddFamilyMember(verb: Verb, form: Form, files: Files, saveOk: bool) returns (r: Response)
      modifies this
      ensures verb == Post ==> Outcome(r, table) == AddOutcome(old(table), form, files, saveOk)
      ensures verb == Get ==> table == old(table) && r == Page("add_family_member.html", Rows(table), None)
    {
      if verb == Post {
        r := AddSubmitted(form, files, saveOk);
      } else {
        r := Page("add_family_member.html", Rows(table), None);
      }
    }

    /** The POST branch of add_family_member, FTapp.py:55-85. */
    method AddSubmitted(form: Form, files: Files, saveOk: bool) returns (r: Response)
      modifies this
      ensures Outcome(r, table) == AddOutcome(old(table), form, files, saveOk)
    {
      var missing := FirstMissing(form, TextFields);
      if missing.Some? {
        return Failed(MissingField(missing.value));
      }
      if "image_file" !in files {
        return Failed(MissingField("image_file"));
      }
      TextFieldsPresent(form);
      var upload := files["image_file"];
      var imagePath: Option<string> := None;
      if Present(upload) {
        var path := StoredPath(upload);
        if !saveOk {
          return Failed(SaveFailed(path));
        }
        imagePath := Some(path);
      }
      var member := Submitted(form, imagePath, Coerce(form["parent_id"]));
      table := table[NextId(table) := member];
      r := Redirect("index");
    }

    /**
     * edit_family_member: GET lists every member by last_name; POST with
     * member_id adds that member's values; any other POST commits an edit.
     */
    method EditFamilyMember(verb: Verb, form: Form, files: Files, saveOk: bool) returns (r: Response)
      modifies this
      ensures verb == Post && "member_id" !in form ==>
        Outcome(r, table) == CommitOutcome(old(table), form, files, saveOk)
      ensures verb == Post && "member_id" in form ==>
        table == old(table) && r == EditPage(table, Some(form["member_id"]))
      ensures verb == Get ==> table == old(table) && r == EditPage(table, None)
    {
      if verb == Post {
        if "member_id" in form {
          r := EditPage(table, Some(form["member_id"]));
        } else {
          r := CommitEdit(form, files, saveOk);
        }
      } else {
        r := EditPage(table, None);
      }
    }

    /**
     * The commit branch of edit_family_member, FTapp.py:100-124: the fetched
     * row is updated field by field, and the table changes only at commit.
     */
    method CommitEdit(form: Form, files: Files, saveOk: bool) returns (r: Response)
      modifies this
      ensures Outcome(r, table) == CommitOutcome(old(table), form, files, saveOk)
    {
      if "member_id_hidden" !in form {
        return Failed(MissingField("member_id_hidden"));
      }
      var target := Lookup(table, form["member_id_hidden"]);
      if "first_name" !in form {
        return Failed(MissingField("first_name"));
      }
      if target.None? {
        return Failed(NoSuchMember);
      }
      var id := target.value;
      var missing := FirstMissing(form, TextFields);
      if missing.Some? {
        return Failed(MissingField(missing.value));
      }
      TextFieldsPresent(form);
      var member := table[id];
      member := member.(firstName := form["first_name"], middleName := Some(form["middle_name"]));
      member := member.(lastName := form["last_name"], suffix := Some(form["suffix"]));
      member := member.(birthDate := Some(form["birth_date"]));
      member := member.(parentId := if form["parent_id"] != "" then Coerce(form["parent_id"]) else Null);
      member := member.(spouse := Some(form["spouse"]), weddingAnniversary := Some(form["wedding_anniversary"]));
      member := member.(bio := Some(form["bio"]), favoriteMemories := Some(form["favorite_memories"]));
      if "image_file" !in files {
        return Failed(MissingField("image_file"));
      }
      var upload := files["image_file"];
      if Present(upload) {
        var path := StoredPath(upload);
        if !saveOk {
          return Failed(SaveFailed(path));
        }
        member := member.(imageFile := Some(path));
      }
      table := table[id := member];
      r := Redirect("index");
    }
  }

  /**
   * The edit page: every member ordered by last_name, and the member whose
   * key was submitted as member_id, if one has it.
   */
  function EditPage(t: Table, memberId: Option<string>): (r: Response)
    ensures r.Page? && r.template == "edit_family_member.html"
    ensures r.selected.Some? <==> memberId.Some? && Lookup(t, memberId.value).Some?
    ensures r.selected.Some? ==> r.selected.value.id in t && r.selected.value.member == t[r.selected.value.id]
    ensures r.selected.Some? ==> r.selected.value.id == Lookup(t, memberId.value).value
    ensures r.members == EditListing(t)
  {
    var selected := match memberId
      case None => None
      case Some(raw) =>
        match Lookup(t, raw)
        case None => None
        case Some(id) => Some(Row(id, t[id]));
    Page("edit_family_member.html", EditListing(t), selected)
  }
}
