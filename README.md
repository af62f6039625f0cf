# Family tree web application: a verified model of its core

The application is a single Flask file (`FTapp.py`) that records a family tree.
It stores `FamilyMember` rows in an SQLite table. Each row has eleven columns besides its integer key.
One column, `parent_id`, refers to another row.
This project models the parts of that file that carry logic, and proves what they do:

- **the record and its parent relation** (`records.dfy`, `ancestry.dfy`): the table is a `map<int, Member>`.
  `parent_id` holds NULL, an integer key, or text. Form values arrive as text. SQLite's INTEGER column
  stores a decimal integer numeral as that integer, and text that is no numeric literal at all (the empty
  string included) as text. Real literals such as `"5.0"` or `"2.5"` are outside the model (see Left out).
  A row's parent is the row whose key its `parent_id` holds. The ancestor chain is walked step by step.
  The model proves that a chain ends at a root exactly when no key repeats on it (a pigeonhole argument
  over the table's keys), and that it then has fewer ancestors than the table has rows.
- **`FamilyMember.to_dict` and `/api/members`** (`serialise.dfy`): `to_dict` is a function that requires
  the chain to end and decreases on the number of ancestors. The model proves four things:
  - every column comes back unchanged when the output is read back;
  - `'parent'` is null exactly for a row without a parent row;
  - following `'parent'` i times gives `to_dict` of the i-th ancestor, so the whole chain is nested;
  - the nesting depth equals the number of ancestors.
  On a cycle the Python recursion overflows. The endpoint's `except Exception` turns that into a 500
  response, and the model does the same.
- **the two member listings** (`listing.dfy`): `query.all()` gives the rows in key order (the order of
  SQLite's table scan for this schema; see Left out).
  `order_by(last_name)` gives them sorted by last name, with every row exactly once.
- **the add and edit handlers** (`handlers.dfy`, `laws.dfy`): a class `App` holds the table.
  Its methods follow the source branch by branch, and each is proved equal to an outcome function.
  The lemmas about those functions state the promises:
  - one fresh key on add, and the edited row only on edit;
  - an empty `parent_id` becomes NULL on edit, but add stores it as text;
  - `image_file` changes only on an upload;
  - nothing changes on any failure;
  - an edit is idempotent;
  - add keeps every chain finite when no stored `parent_id` names the key it hands out (always so when
    every stored key names a row), unless the submitted `parent_id` is the numeral of the key the new row receives (for example `"7"` when the largest key is 6): the row is then
    its own parent, and `/api/members` answers 500;
  - an add also adopts a dangling key: a row whose stored `parent_id` names no row gets the new row as its
    parent once add hands out that key, and when the new row names that row as its parent the two form a
    cycle and `/api/members` answers 500;
  - an edit can make a row its own ancestor in the same way.

The request is modelled as a form (`map<string, string>`) and the file parts (`map<string, Upload>`).
Saving an upload is not modelled; whether the save succeeded is a parameter (`saveOk`).

Two behaviours of the code are worth stating outright:

- Add stores an empty `parent_id` as the text `""` (FTapp.py:61, FTapp.py:76), which `to_dict` reports as
  `""`; the row has no parent row (`HandlerLaws.AddWithEmptyParent`). Only edit turns an empty `parent_id`
  into NULL (FTapp.py:109).
- `to_dict` calls itself on the parent (FTapp.py:41), so the output nests the entire ancestor chain
  (`Serialise.NestsWholeChain`).

## Model

| member | source | states |
|---|---|---|
| `Records.Coerce` | FTapp.py:18 | text stored in the INTEGER column is never NULL; text is stored as a key exactly when it is a decimal integer numeral, and any other text is kept verbatim |
| `Records.NatNumeral` | FTapp.py:18 | the decimal rendering of a key is a non-empty digit string without a leading zero |
| `Records.Numeral` | FTapp.py:18 | the rendering of any key is a numeral the column accepts |
| `Records.CoerceNumeral` | FTapp.py:18 | a key submitted as its numeral is stored as that same key (round trip) |
| `Records.Lookup` | FTapp.py:101-102 | `query.get` finds a row exactly when the submitted text denotes an existing key |
| `Records.Present` | FTapp.py:68 | an upload is truthy exactly when it carries a file name; `HandlerLaws.AddStoresSubmission` and `HandlerLaws.CommitStoresSubmission` state what follows from it |
| `Records.StoredPath` | FTapp.py:69 | `os.path.join(app.config['UPLOAD_FOLDER'], image_file.filename)`; `Records.JoinPath` states its properties and `HandlerLaws.AddStoresSubmission` and `HandlerLaws.CommitStoresSubmission` that it is what `image_file` records |
| `Records.JoinPath` | FTapp.py:69 | the stored photo path ends with the file name; an absolute name replaces the folder, otherwise the path starts with the folder |
| `Ancestry.Parent` | FTapp.py:25 | the parent is the existing row whose key `parent_id` holds; there is none when `parent_id` is NULL, text or a missing key |
| `Ancestry.Walk` | FTapp.py:41 | the i-th ancestor reached by following `self.parent` i times; `Ancestry.WalkDefinedUpToDepth`, `Ancestry.AcyclicIffNoCycle` and `Serialise.NestsWholeChain` state its properties |
| `Ancestry.WalkDefinedUpToDepth` | FTapp.py:41 | on an acyclic chain the i-th ancestor exists exactly for i up to the number of ancestors |
| `Ancestry.AncestorDepth` | FTapp.py:41 | every ancestor of an acyclic row is acyclic, with i fewer ancestors |
| `Ancestry.ParentDepth` | FTapp.py:41 | the parent row has exactly one ancestor fewer, so the recursion in `to_dict` descends |
| `Ancestry.RootDepth` | FTapp.py:41 | a row without a parent row has no ancestors, and `to_dict` stops there |
| `Ancestry.CycleNeverEnds` | FTapp.py:41 | if a key repeats on the chain, the chain never reaches a root |
| `Ancestry.ChainFitsTable` | FTapp.py:41 | a chain without a repeated key visits distinct rows, so it is shorter than the table |
| `Ancestry.NoCycleEnds` | FTapp.py:41 | a chain without a repeated key ends within as many steps as the table has rows |
| `Ancestry.AcyclicIffNoCycle` | FTapp.py:41 | the recursion terminates iff no key repeats on the chain, iff the chain ends within \|table\| steps |
| `Ancestry.DepthBelowSize` | FTapp.py:41 | an acyclic row has fewer ancestors than the table has rows |
| `Listing.MinKey` | FTapp.py:137 | the least key of a non-empty key set |
| `Listing.SortedKeys` | FTapp.py:137 | every key of the table once, in strictly ascending order |
| `Listing.RowsAt` | FTapp.py:137 | the rows under the given keys, in the same order |
| `Listing.Rows` | FTapp.py:137 | `query.all()`; `Listing.RowsInKeyOrder` states that it lists every row once, unchanged, in ascending key order |
| `Listing.RowsInKeyOrder` | FTapp.py:87 | `query.all()` lists every row once, as stored, in ascending key order |
| `Listing.LastNameLeq` | FTapp.py:97 | SQLite's BINARY collation of `last_name`, code point by code point, a prefix first; `Listing.LastNameTotal` and `Listing.LastNameTransitive` state that it is a total preorder |
| `Listing.LastNameTotal` | FTapp.py:97 | any two last names are comparable under the binary collation |
| `Listing.LastNameTransitive` | FTapp.py:97 | the collation order is transitive |
| `Listing.Insert` | FTapp.py:97 | inserting a row into a sorted list keeps it sorted and adds exactly that row |
| `Listing.OrderByLastName` | FTapp.py:97 | `order_by(last_name)` is sorted by last name and a permutation of its input |
| `Listing.SortedAllPairs` | FTapp.py:126 | in the sorted listing every earlier last name precedes or equals every later one |
| `Listing.EditListing` | FTapp.py:126 | `query.order_by(last_name).all()`; `Listing.EditListingExactlyOnce` states that it lists every row exactly once, sorted by last name |
| `Listing.EditListingExactlyOnce` | FTapp.py:126 | the edit page lists every row of the table exactly once, nothing else, sorted non-decreasingly by last name |
| `Serialise.Columns` | FTapp.py:28-40 | the twelve column entries of `to_dict`; `Serialise.ColumnsHold` and `Serialise.DecodeColumns` state what each holds and that they read back as the row |
| `Serialise.ToDict` | FTapp.py:27-42 | `to_dict` is an object with a `'parent'` entry, defined on every row whose chain ends |
| `Serialise.ToDictKeys` | FTapp.py:28-41 | the output has exactly the twelve column keys and `'parent'` |
| `Serialise.ColumnsHold` | FTapp.py:29-40 | each column value sits under its own name, NULL as null |
| `Serialise.ColumnsUnderParent` | FTapp.py:28-41 | adding `'parent'` leaves the twelve column entries as they were |
| `Serialise.DecodeColumns` | FTapp.py:28-40 | an object with the twelve column entries reads back as that row |
| `Serialise.ToDictRoundTrip` | FTapp.py:28-40 | reading the output back gives the key and the record unchanged |
| `Serialise.ParentEntry` | FTapp.py:41 | `'parent'` is null exactly when the row has no parent row, else `to_dict` of the parent |
| `Serialise.NestedStep` | FTapp.py:41 | one step down the `'parent'` nesting is one step up the ancestor chain |
| `Serialise.NestsWholeChain` | FTapp.py:41 | following `'parent'` i times gives `to_dict` of the i-th ancestor, and null past the root |
| `Serialise.NestingDepth` | FTapp.py:41 | the nesting depth of `'parent'` equals the number of ancestors |
| `Serialise.SerialiseRows` | FTapp.py:138 | the list holds `to_dict` of each row, in order |
| `Serialise.AllAcyclic` | FTapp.py:136-141 | the model's bounded check `Terminates`, which decides whether the recursion at FTapp.py:41 fails, holds for all rows iff every chain ends |
| `Serialise.GetMembers` | FTapp.py:134-141 | the answer is 200 iff every chain ends, with one entry per row; otherwise 500 with an error object |
| `Serialise.GetMembersListsEveryRow` | FTapp.py:137-138 | when every chain ends, entry i is `to_dict` of the i-th row in key order |
| `Serialise.CycleFailsGetMembers` | FTapp.py:139-141 | a row on a cycle makes the endpoint answer 500 |
| `Handlers.FirstMissing` | FTapp.py:56-66 | the reported missing field is absent and every field read before it is present; there is none iff all are present |
| `Handlers.TextFieldsPresent` | FTapp.py:56-65 | when no field is missing, each of the ten text fields is in the form |
| `Handlers.Submitted` | FTapp.py:74-79 | the record built from the ten submitted text fields, with the given photo and parent; `HandlerLaws.AddStoresSubmission` and `HandlerLaws.CommitStoresSubmission` state what each column receives |
| `Handlers.NextId` | FTapp.py:12 | the new key is unused and larger than every existing key |
| `Handlers.AddOutcome` | FTapp.py:55-85 | the POST branch of add; `HandlerLaws.AddSucceedsIff`, `HandlerLaws.AddInsertsOneRecord` and `HandlerLaws.AddStoresSubmission` state its failures, its frame and the stored record |
| `Handlers.CommitOutcome` | FTapp.py:100-124 | the commit branch of edit; `HandlerLaws.CommitSucceedsIff`, `HandlerLaws.CommitChangesOnlyTarget` and `HandlerLaws.CommitStoresSubmission` state its failures, its frame and the stored record |
| `Handlers.EditPage` | FTapp.py:93-98 | the edit page shows `EditListing` of the table, and a selected row exactly when the submitted id names a row, that row being the one under the key `query.get` finds |
| `Handlers.App.AddFamilyMember` | FTapp.py:52-88 | GET lists the members in key order and changes nothing; POST does what `AddOutcome` says |
| `Handlers.App.AddSubmitted` | FTapp.py:55-85 | the new table and response are those of `AddOutcome` |
| `Handlers.App.EditFamilyMember` | FTapp.py:90-127 | GET and member_id selection render the edit page and change nothing; any other POST commits as `CommitOutcome` says |
| `Handlers.App.CommitEdit` | FTapp.py:100-124 | the field-by-field update, committed only at the end, yields `CommitOutcome` |
| `HandlerLaws.AddSucceedsIff` | FTapp.py:55-85 | add succeeds iff all fields and the file part are there and a present upload is saved; on failure the table is unchanged, and the first missing field is reported |
| `HandlerLaws.AddInsertsOneRecord` | FTapp.py:74-82 | a successful add inserts exactly one record under a fresh key and changes no other |
| `HandlerLaws.AddStoresSubmission` | FTapp.py:56-79 | the new record holds the submitted text and the raw `parent_id`; `image_file` is null iff no file was uploaded, else the joined path |
| `HandlerLaws.AddedRecordIsListed` | FTapp.py:81-87 | an added record appears in the key-order listing and exactly once on the edit page |
| `HandlerLaws.CommitSucceedsIff` | FTapp.py:100-124 | an edit succeeds iff the row exists, all fields and the file part are there and a present upload is saved; on failure nothing changes |
| `HandlerLaws.CommitChangesOnlyTarget` | FTapp.py:101-121 | a successful edit keeps the key set and changes no record but the selected one |
| `HandlerLaws.CommitStoresSubmission` | FTapp.py:104-119 | the nine text fields take the form values; an empty `parent_id` becomes NULL, any other is stored as submitted; `image_file` is kept unless a file is uploaded, then it is the joined path |
| `HandlerLaws.CommitIdempotent` | FTapp.py:104-121 | submitting the same edit twice leaves the same table as submitting it once |
| `HandlerLaws.AddWithEmptyParent` | FTapp.py:61-76 | an add with an empty `parent_id` stores the empty text, which `to_dict` reports as `""`; the row is still a root |
| `HandlerLaws.AddCanCreateCycle` | FTapp.py:61-82 | an add whose `parent_id` is the numeral of the key the new row receives makes that row its own parent, and `/api/members` then answers 500 |
| `HandlerLaws.EditCanCreateCycle` | FTapp.py:109 | an edit whose non-empty `parent_id` stores as the edited row's key (`"007"` for row 7 as well as `"7"`) puts the row on a cycle, and `/api/members` then answers 500 |
| `HandlerLaws.AddAdoptsDanglingKey` | FTapp.py:61-82 | after any successful add, a row whose `parent_id` is the key add handed out has the new row as its parent; if the new row also names that row as parent, both are on a cycle and `/api/members` answers 500 |
| `HandlerLaws.LinkedLeavesUnusedUnnamed` | FTapp.py:18 | when every stored `parent_id` key names a row (the foreign key held), no stored `parent_id` names an unused key |
| `HandlerLaws.WalkUnchangedByInsert` | FTapp.py:81 | inserting a row under an unused key that no stored `parent_id` names leaves every old chain unchanged |
| `HandlerLaws.InsertKeepsChainsEnding` | FTapp.py:81 | inserting a row under an unused key that no stored `parent_id` names keeps every chain finite unless the row names its own key |
| `HandlerLaws.AddKeepsChainsEnding` | FTapp.py:74-82 | when no stored `parent_id` names the key add hands out, a successful add keeps every chain finite unless the submitted `parent_id` stores as the key the row receives |

## Left out

- Flask routing, `render_template`, `redirect`/`url_for` and `jsonify` are not modelled. Responses are
  values: a redirect target, a failure cause, or a page with its template name and member list.
  The routes that only render templates (`index`, `view_family_tree`, `display_family_members`) are left
  out; `display_family_members` uses the same key-order listing as `Listing.Rows`.
- SQLAlchemy session mechanics and SQLite configuration are not modelled. The table is an abstract map.
  Pending changes are a local record that is written back only at commit.
  A failing `db.session.commit()` is not modelled.
- Foreign keys are not enforced (SQLite's default), so a dangling `parent_id` has no parent row only until
  add hands out that key; the new row then becomes its parent (`HandlerLaws.AddAdoptsDanglingKey`).
  `HandlerLaws.AddKeepsChainsEnding` assumes that no stored `parent_id` names the key add hands out;
  `HandlerLaws.LinkedLeavesUnusedUnnamed` shows that referential integrity (`HandlerLaws.Linked`) ensures it.
- `image_file.save` is file I/O. Whether it succeeds is the `saveOk` parameter. An orphaned file left
  behind by a failed request is not modelled.
- `Records.JoinPath` models `os.path.join` for two components only; path normalisation is not modelled.
- `Records.Coerce` models SQLite's text-to-integer conversion for optional `-` followed by ASCII digits.
  Real and exponent literals are not modelled: SQLite stores `"5.0"` as 5, `"3e2"` as 300 and `"2.5"` as
  REAL, while `Coerce` keeps them as text. Surrounding whitespace, a leading `+`, and numerals outside 64
  bits (which become REAL) are not modelled either. `Records.Lookup` and `Ancestry.Parent` inherit this:
  `query.get("5.0")` finds row 5 in SQLite but not in the model, and a stored `"5.0"` names no parent row.
- `Handlers.NextId` models SQLite's rowid choice as the largest key plus one.
  The random choice SQLite makes once the largest key is 2^63-1 is not modelled.
- `String(n)` length limits are not modelled; SQLite does not enforce them.
- `Handlers.Failure` stands for the exception the handlers stringify into "An error occurred: ...".
  The exact message text of werkzeug's `BadRequestKeyError` and Python's `AttributeError` is not modelled.
- `Serialise.GetMembers`: its 500 body carries a fixed stand-in for the `RecursionError` message.
  A chain that ends but is deeper than Python's recursion limit also fails in the source.
  The model serialises every chain that ends.
- `Listing.Rows`: SQLite leaves the row order of a SELECT without ORDER BY undefined. The model takes
  ascending key order, which is what SQLite's table scan gives for this schema. `Serialise.GetMembers`,
  `Serialise.GetMembersListsEveryRow` and the GET branch of `Handlers.App.AddFamilyMember` inherit that
  order; the claim that every row appears exactly once does not depend on it.
- `Listing.OrderByLastName`: ties between equal last names keep key order.
  SQL does not promise any order for ties, so only sortedness and permutation are stated.
- The debug `print` in `get_members`, `db.create_all`, `app.run`, and concurrent requests
  (last write wins) are left out.
