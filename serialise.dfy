/**
 * FamilyMember.to_dict (FTapp.py:27-42) and the /api/members endpoint
 * (FTapp.py:134-141).  to_dict copies the twelve columns and nests
 * to_dict of the parent row under 'parent', so the result carries the whole
 * ancestor chain.  On a chain that runs round a cycle the recursion never
 * ends: Python stops it with a RecursionError, which the endpoint's
 * `except Exception` turns into a 500 response.
 */
module Serialise {
  import opened Wrappers
  import opened Records
  import opened Ancestry
  import opened Listing

  /** The JSON values jsonify produces from Python dicts, lists, strings, ints and None. */
  datatype Json = JNull | JInt(n: int) | JStr(s: string) | JObject(fields: map<string, Json>) | JArray(items: seq<Json>)

  /** The twelve column keys of a serialised member. */
  const ColumnKeys: set<string> := {
    "id", "first_name", "middle_name", "last_name", "suffix", "birth_date",
    "parent_id", "spouse", "wedding_anniversary", "bio", "favorite_memories", "image_file"}

  /** Every key of a serialised member. */
  const DictKeys: set<string> := ColumnKeys + {"parent"}

  function OptStr(o: Option<string>): Json {
    match o
    case None => JNull
    case Some(s) => JStr(s)
  }

  function ParentIdJson(c: ParentColumn): Json {
    match c
    case Null => JNull
    case Key(n) => JInt(n)
    case Text(s) => JStr(s)
  }

  /** The twelve column entries of to_dict for the row (k, m). */
  function Columns(k: int, m: Member): map<string, Json> {
    map[
      "id" := JInt(k),
      "first_name" := JStr(m.firstName),
      "middle_name" := OptStr(m.middleName),
      "last_name" := JStr(m.lastName),
      "suffix" := OptStr(m.suffix),
      "birth_date" := OptStr(m.birthDate),
      "parent_id" := ParentIdJson(m.parentId),
      "spouse" := OptStr(m.spouse),
      "wedding_anniversary" := OptStr(m.weddingAnniversary),
      "bio" := OptStr(m.bio),
      "favorite_memories" := OptStr(m.favoriteMemories),
      "image_file" := OptStr(m.imageFile)]
  }

  /** to_dict of the row under k: its columns, and to_dict of its parent row (or None) under 'parent'. */
  function ToDict(t: Table, k: int): (j: Json)
    requires Acyclic(t, k)
    ensures j.JObject? && "parent" in j.fields
    decreases Depth(t, k)
  {
    var parent := if Parent(t, k).None? then JNull else (ParentDepth(t, k); ToDict(t, Parent(t, k).value));
    JObject(Columns(k, t[k])["parent" := parent])
  }

  /** The output has the thirteen keys of the dict literal and no other. */
  lemma ToDictKeys(t: Table, k: int)
    requires Acyclic(t, k)
    ensures ToDict(t, k).fields.Keys == DictKeys
  {
  }

  // ---------------------------------------------------------------------
  // Reading a serialised member back: the partner of ToDict.
  // ---------------------------------------------------------------------

  predicate IsOptStr(j: Json) {
    j.JNull? || j.JStr?
  }

  function OptStrOf(j: Json): Option<string> {
    if j.JStr? then Some(j.s) else None
  }

  predicate IsParentId(j: Json) {
    j.JNull? || j.JInt? || j.JStr?
  }

  function ParentIdOf(j: Json): ParentColumn {
    match j
    case JInt(n) => Key(n)
    case JStr(s) => Text(s)
    case _ => Null
  }

  predicate HasOptStr(f: map<string, Json>, key: string) {
    key in f && IsOptStr(f[key])
  }

  predicate HasStr(f: map<string, Json>, key: string) {
    key in f && f[key].JStr?
  }

  /** The object has every column, each holding a value of its column's kind. */
  predicate Decodable(f: map<string, Json>) {
    && "id" in f && f["id"].JInt?
    && HasStr(f, "first_name") && HasOptStr(f, "middle_name") && HasStr(f, "last_name")
    && HasOptStr(f, "suffix") && HasOptStr(f, "birth_date")
    && "parent_id" in f && IsParentId(f["parent_id"])
    && HasOptStr(f, "spouse") && HasOptStr(f, "wedding_anniversary") && HasOptStr(f, "bio")
    && HasOptStr(f, "favorite_memories") && HasOptStr(f, "image_file")
  }

  /** The key and record a JSON object describes, if it has the shape of a serialised member. */
  function FromDict(j: Json): Option<Row> {
    if j.JObject? && Decodable(j.fields) then
      var f := j.fields;
      Some(Row(f["id"].n, Member(
        f["first_name"].s, OptStrOf(f["middle_name"]), f["last_name"].s,
        OptStrOf(f["suffix"]), OptStrOf(f["birth_date"]), ParentIdOf(f["parent_id"]),
        OptStrOf(f["spouse"]), OptStrOf(f["wedding_anniversary"]), OptStrOf(f["bio"]),
        OptStrOf(f["favorite_memories"]), OptStrOf(f["image_file"]))))
    else None
  }

  /** The twelve column entries, as they are found in a map f. */
  predicate HoldsColumns(f: map<string, Json>, k: int, m: Member) {
    && "id" in f && f["id"] == JInt(k)
    && "first_name" in f && f["first_name"] == JStr(m.firstName)
    && "middle_name" in f && f["middle_name"] == OptStr(m.middleName)
    && "last_name" in f && f["last_name"] == JStr(m.lastName)
    && "suffix" in f && f["suffix"] == OptStr(m.suffix)
    && "birth_date" in f && f["birth_date"] == OptStr(m.birthDate)
    && "parent_id" in f && f["parent_id"] == ParentIdJson(m.parentId)
    && "spouse" in f && f["spouse"] == OptStr(m.spouse)
    && "wedding_anniversary" in f && f["wedding_anniversary"] == OptStr(m.weddingAnniversary)
    && "bio" in f && f["bio"] == OptStr(m.bio)
    && "favorite_memories" in f && f["favorite_memories"] == OptStr(m.favoriteMemories)
    && "image_file" in f && f["image_file"] == OptStr(m.imageFile)
  }

  /** What to_dict puts under each column key. */
  lemma ColumnsHold(k: int, m: Member)
    ensures HoldsColumns(Columns(k, m), k, m)
  {
  }

  lemma DecodeColumns(f: map<string, Json>, k: int, m: Member)
    requires HoldsColumns(f, k, m)
    ensures FromDict(JObject(f)) == Some(Row(k, m))
  {
  }

  lemma ColumnsUnderParent(k: int, m: Member, parent: Json)
    ensures HoldsColumns(Columns(k, m)["parent" := parent], k, m)
  {
    ColumnsHold(k, m);
  }

  /** Every column reaches the output unchanged under its own name: reading them back gives the row. */
  lemma ToDictRoundTrip(t: Table, k: int)
    requires Acyclic(t, k)
    ensures FromDict(ToDict(t, k)) == Some(Row(k, t[k]))
  {
    ColumnsUnderParent(k, t[k], ToDict(t, k).fields["parent"]);
    DecodeColumns(ToDict(t, k).fields, k, t[k]);
  }

  // ---------------------------------------------------------------------
  // The nesting under 'parent'.
  // ---------------------------------------------------------------------

  /** The object reached by following 'parent' i times (null once there is none). */
  function Nested(j: Json, i: nat): Json {
    if i == 0 then j
    else if j.JObject? && "parent" in j.fields then Nested(j.fields["parent"], i - 1)
    else JNull
  }

  /** 'parent' is None exactly for a record without a parent row, and to_dict of the parent otherwise. */
  lemma ParentEntry(t: Table, k: int)
    requires Acyclic(t, k)
    ensures Parent(t, k).Some? ==> Acyclic(t, Parent(t, k).value)
    ensures ToDict(t, k).fields["parent"].JNull? <==> Parent(t, k).None?
    ensures Parent(t, k).Some? ==> ToDict(t, k).fields["parent"] == ToDict(t, Parent(t, k).value)
  {
    if Parent(t, k).Some? {
      ParentDepth(t, k);
    }
  }

  /** Following 'parent' i times gives to_dict of the i-th ancestor: the whole chain is nested. */
  lemma {:induction false} NestsWholeChain(t: Table, k: int, i: nat)
    requires Acyclic(t, k)
    ensures Walk(t, k, i).Some? ==> Acyclic(t, Walk(t, k, i).value)
    ensures Nested(ToDict(t, k), i) == if Walk(t, k, i).Some? then ToDict(t, Walk(t, k, i).value) else JNull
    decreases i
  {
    if Walk(t, k, i).Some? {
      AncestorDepth(t, k, i);
    }
    if i > 0 {
      NestedStep(t, k, i);
      match Parent(t, k)
      case None =>
      case Some(p) =>
        ParentDepth(t, k);
        assert Walk(t, k, i) == Walk(t, p, i - 1);
        NestsWholeChain(t, p, i - 1);
    }
  }

  /** One step down the nesting is one step up the chain. */
  lemma NestedStep(t: Table, k: int, i: nat)
    requires Acyclic(t, k) && i > 0
    ensures Parent(t, k).Some? ==> Acyclic(t, Parent(t, k).value)
    ensures Nested(ToDict(t, k), i) ==
      if Parent(t, k).Some? then Nested(ToDict(t, Parent(t, k).value), i - 1) else JNull
  {
    ParentEntry(t, k);
  }

  /** The nesting depth of 'parent' in to_dict is the number of ancestors. */
  lemma NestingDepth(t: Table, k: int)
    requires Acyclic(t, k)
    ensures forall i: nat :: Nested(ToDict(t, k), i).JObject? <==> i <= Depth(t, k)
  {
    forall i: nat
      ensures Nested(ToDict(t, k), i).JObject? <==> i <= Depth(t, k)
    {
      NestsWholeChain(t, k, i);
      WalkDefinedUpToDepth(t, k, i);
    }
  }

  // ---------------------------------------------------------------------
  // GET /api/members
  // ---------------------------------------------------------------------

  datatype ApiResponse = ApiResponse(status: int, body: Json)

  /** str() of the RecursionError Python raises when to_dict runs round a cycle. */
  const RecursionMessage: string := "maximum recursion depth exceeded"

  function SerialiseRows(t: Table, rows: seq<Row>): (out: seq<Json>)
    requires forall i :: 0 <= i < |rows| ==> Acyclic(t, rows[i].id)
    ensures |out| == |rows|
    ensures forall i :: 0 <= i < |rows| ==> out[i] == ToDict(t, rows[i].id)
  {
    if rows == [] then [] else [ToDict(t, rows[0].id)] + SerialiseRows(t, rows[1..])
  }

  lemma AllAcyclic(t: Table)
    ensures (forall k :: k in t ==> Terminates(t, k)) <==> (forall k :: k in t ==> Acyclic(t, k))
  {
    forall k | k in t
      ensures Terminates(t, k) <==> Acyclic(t, k)
    {
      AcyclicIffNoCycle(t, k);
    }
  }

  /** jsonify([member.to_dict() for member in FamilyMember.query.all()]), or the error response. */
  function GetMembers(t: Table): (r: ApiResponse)
    ensures r.status == 200 <==> forall k :: k in t ==> Acyclic(t, k)
    ensures r.status == 200 ==> r.body.JArray? && |r.body.items| == |t|
    ensures r.status != 200 ==> r.status == 500 && r.body == JObject(map["error" := JStr(RecursionMessage)])
  {
    AllAcyclic(t);
    if forall k | k in t :: Terminates(t, k) then
      RowsInKeyOrder(t);
      ApiResponse(200, JArray(SerialiseRows(t, Rows(t))))
    else
      ApiResponse(500, JObject(map["error" := JStr(RecursionMessage)]))
  }

  /** When every chain ends, the endpoint lists to_dict of every row, in key order. */
  lemma GetMembersListsEveryRow(t: Table)
    requires forall k :: k in t ==> Acyclic(t, k)
    ensures |Rows(t)| == |t| && forall i :: 0 <= i < |t| ==> Rows(t)[i].id in t
    ensures GetMembers(t).status == 200 && |GetMembers(t).body.items| == |t|
    ensures forall i :: 0 <= i < |t| ==> GetMembers(t).body.items[i] == ToDict(t, Rows(t)[i].id)
  {
  }

  /** A record whose chain runs round a cycle makes the endpoint answer 500. */
  lemma CycleFailsGetMembers(t: Table, k: int)
    requires k in t && HasCycle(t, k)
    ensures GetMembers(t).status == 500
  {
    CycleNeverEnds(t, k);
  }
}
