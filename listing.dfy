/**
 * The two member listings: FamilyMember.query.all() (FTapp.py:87, FTapp.py:131,
 * FTapp.py:137), which SQLite returns in key order, and
 * FamilyMember.query.order_by(FamilyMember.last_name).all() (FTapp.py:97,
 * FTapp.py:126), which orders by last_name under SQLite's binary collation,
 * i.e. code point by code point.
 */
module Listing {
  import opened Records

  function MinKey(s: set<int>): (k: int)
    requires s != {}
    ensures k in s && forall j :: j in s ==> k <= j
  {
    MinKeyExists(s);
    var k :| k in s && forall j :: j in s ==> k <= j; k
  }

  lemma {:induction false} MinKeyExists(s: set<int>)
    requires s != {}
    ensures exists k :: k in s && forall j :: j in s ==> k <= j
    decreases |s|
  {
    Inhabited(s);
    var x :| x in s;
    if s != {x} {
      Inhabited(s - {x});
      MinKeyExists(s - {x});
      var m :| m in s - {x} && forall j :: j in s - {x} ==> m <= j;
      var k := if x <= m then x else m;
      forall j | j in s
        ensures k <= j
      {
        if j != x {
          assert j in s - {x};
        }
      }
    }
  }

  lemma Inhabited(s: set<int>)
    ensures s == {} || exists x :: x in s
  {
    if forall x :: x !in s {
      assert s == {};
    }
  }

  /** The keys of s in ascending order. */
  function SortedKeys(s: set<int>): (ks: seq<int>)
    ensures |ks| == |s|
    ensures forall i :: 0 <= i < |ks| ==> ks[i] in s
    ensures forall k :: k in s ==> k in ks
    ensures forall i, j :: 0 <= i < j < |ks| ==> ks[i] < ks[j]
    decreases |s|
  {
    if |s| == 0 then []
    else
      Inhabited(s);
      var k := MinKey(s);
      [k] + SortedKeys(s - {k})
  }

  /** The rows under the keys ks, in that order. */
  function RowsAt(t: Table, ks: seq<int>): (rows: seq<Row>)
    requires forall i :: 0 <= i < |ks| ==> ks[i] in t
    ensures |rows| == |ks|
    ensures forall i :: 0 <= i < |ks| ==> rows[i] == Row(ks[i], t[ks[i]])
  {
    if ks == [] then [] else [Row(ks[0], t[ks[0]])] + RowsAt(t, ks[1..])
  }

  /** Every row of the table, by ascending key. */
  function Rows(t: Table): seq<Row> {
    RowsAt(t, SortedKeys(t.Keys))
  }

  /** The unordered listing holds each row of the table once, in key order. */
  lemma RowsInKeyOrder(t: Table)
    ensures |Rows(t)| == |t|
    ensures forall i :: 0 <= i < |Rows(t)| ==> Rows(t)[i].id in t && Rows(t)[i].member == t[Rows(t)[i].id]
    ensures forall k :: k in t ==> Row(k, t[k]) in Rows(t)
    ensures forall i, j :: 0 <= i < j < |Rows(t)| ==> Rows(t)[i].id < Rows(t)[j].id
  {
  }

  /** a precedes or equals b in code-point lexicographic order. */
  predicate LastNameLeq(a: string, b: string) {
    if a == [] then true
    else if b == [] then false
    else if a[0] != b[0] then a[0] < b[0]
    else LastNameLeq(a[1..], b[1..])
  }

  lemma {:induction false} LastNameTotal(a: string, b: string)
    ensures LastNameLeq(a, b) || LastNameLeq(b, a)
  {
    if a != [] && b != [] && a[0] == b[0] {
      LastNameTotal(a[1..], b[1..]);
    }
  }

  lemma {:induction false} LastNameTransitive(a: string, b: string, c: string)
    requires LastNameLeq(a, b) && LastNameLeq(b, c)
    ensures LastNameLeq(a, c)
  {
    if a != [] && b != [] && c != [] && a[0] == b[0] == c[0] {
      LastNameTransitive(a[1..], b[1..], c[1..]);
    }
  }

  /** Each row's last_name is no greater than the next one's. */
  predicate SortedByLastName(rows: seq<Row>) {
    forall i :: 0 < i < |rows| ==> LastNameLeq(rows[i - 1].member.lastName, rows[i].member.lastName)
  }

  function Insert(r: Row, rows: seq<Row>): (out: seq<Row>)
    requires SortedByLastName(rows)
    ensures SortedByLastName(out)
    ensures multiset(out) == multiset(rows) + multiset{r}
    ensures |out| > 0 && (out[0] == r || (|rows| > 0 && out[0] == rows[0]))
  {
    if rows == [] || LastNameLeq(r.member.lastName, rows[0].member.lastName) then [r] + rows
    else
      LastNameTotal(r.member.lastName, rows[0].member.lastName);
      assert rows == [rows[0]] + rows[1..];
      [rows[0]] + Insert(r, rows[1..])
  }

  /** ORDER BY last_name: the rows, reordered by last_name; equal names keep their order. */
  function OrderByLastName(rows: seq<Row>): (out: seq<Row>)
    ensures SortedByLastName(out)
    ensures multiset(out) == multiset(rows)
  {
    if rows == [] then []
    else
      assert rows == [rows[0]] + rows[1..];
      Insert(rows[0], OrderByLastName(rows[1..]))
  }

  /** The member list the edit page shows. */
  function EditListing(t: Table): seq<Row> {
    OrderByLastName(Rows(t))
  }

  /** Sorted by adjacent pairs means sorted for every pair. */
  lemma {:induction false} SortedAllPairs(rows: seq<Row>, i: nat, j: nat)
    requires SortedByLastName(rows) && i <= j < |rows|
    ensures LastNameLeq(rows[i].member.lastName, rows[j].member.lastName)
    decreases j - i
  {
    if i == j {
      LastNameTotal(rows[i].member.lastName, rows[i].member.lastName);
    } else {
      SortedAllPairs(rows, i + 1, j);
      LastNameTransitive(rows[i].member.lastName, rows[i + 1].member.lastName, rows[j].member.lastName);
    }
  }

  lemma {:induction false} DistinctOnce(rows: seq<Row>, r: Row)
    requires forall i, j :: 0 <= i < j < |rows| ==> rows[i].id < rows[j].id
    requires r in rows
    ensures multiset(rows)[r] == 1
  {
    assert rows == [rows[0]] + rows[1..];
    if rows[0] == r {
      assert r !in rows[1..];
    } else {
      DistinctOnce(rows[1..], r);
    }
  }

  /**
   * The edit page lists every record of the table exactly once, nothing
   * else, sorted non-decreasingly by last_name.
   */
  lemma EditListingExactlyOnce(t: Table)
    ensures forall k :: k in t ==> multiset(EditListing(t))[Row(k, t[k])] == 1
    ensures forall r :: r in EditListing(t) ==> r.id in t && r.member == t[r.id]
    ensures forall i, j :: 0 <= i <= j < |EditListing(t)| ==>
      LastNameLeq(EditListing(t)[i].member.lastName, EditListing(t)[j].member.lastName)
  {
    var rows, list := Rows(t), EditListing(t);
    RowsInKeyOrder(t);
    forall k | k in t
      ensures multiset(list)[Row(k, t[k])] == 1
    {
      DistinctOnce(rows, Row(k, t[k]));
    }
    forall r | r in list
      ensures r.id in t && r.member == t[r.id]
    {
      assert r in multiset(list);
      assert r in multiset(rows);
    }
    forall i, j | 0 <= i <= j < |list|
      ensures LastNameLeq(list[i].member.lastName, list[j].member.lastName)
    {
      SortedAllPairs(list, i, j);
    }
  }
}
