/**
 * The parent relationship of FamilyMember (FTapp.py:18, FTapp.py:25) and the
 * ancestor chain that to_dict follows.  A record's parent is the row whose
 * key its parent_id column holds; a parent_id that is NULL, text, or a key
 * no row has gives no parent.  Nothing in the source keeps the relation
 * acyclic, so the chain from a record may end at a root or loop forever.
 */
module Ancestry {
  import opened Wrappers
  import opened Records

  /** self.parent: the key of the parent row, if there is one. */
  function Parent(t: Table, k: int): (p: Option<int>)
    requires k in t
    ensures p.Some? ==> p.value in t && t[k].parentId == Key(p.value)
    ensures p.None? ==> !(t[k].parentId.Key? && t[k].parentId.id in t)
  {
    match t[k].parentId
    case Key(q) => if q in t then Some(q) else None
    case _ => None
  }

  /** The ancestor reached from k after n parent steps (step 0 is k itself). */
  function Walk(t: Table, k: int, n: nat): Option<int>
    decreases n
  {
    if k !in t then None
    else if n == 0 then Some(k)
    else match Parent(t, k)
      case None => None
      case Some(p) => Walk(t, p, n - 1)
  }

  /** k has exactly d ancestors: the chain reaches a root after d steps. */
  ghost predicate IsDepth(t: Table, k: int, d: nat) {
    Walk(t, k, d).Some? && Walk(t, k, d + 1).None?
  }

  /** The parent chain from k ends at a root. */
  ghost predicate Acyclic(t: Table, k: int) {
    k in t && exists d: nat :: IsDepth(t, k, d)
  }

  /** The number of ancestors of an acyclic record. */
  ghost function Depth(t: Table, k: int): nat
    requires Acyclic(t, k)
  {
    var d: nat :| IsDepth(t, k, d); d
  }

  /** Some key recurs on the chain from k: the chain runs round a cycle. */
  ghost predicate HasCycle(t: Table, k: int) {
    exists i: nat, j: nat :: i < j && Walk(t, k, i).Some? && Walk(t, k, i) == Walk(t, k, j)
  }

  /**
   * The model's bounded check: the chain from k reaches a root within as
   * many steps as the table has rows.  It decides whether the recursion of
   * to_dict (FTapp.py:41) fails.
   */
  function Terminates(t: Table, k: int): bool {
    k in t && Walk(t, k, |t|).None?
  }

  // ---------------------------------------------------------------------
  // Facts about walks.
  // ---------------------------------------------------------------------

  lemma {:induction false} WalkInTable(t: Table, k: int, n: nat)
    requires Walk(t, k, n).Some?
    ensures Walk(t, k, n).value in t
    decreases n
  {
    if n > 0 {
      WalkInTable(t, Parent(t, k).value, n - 1);
    }
  }

  /** Once the chain has ended it stays ended. */
  lemma {:induction false} WalkEnds(t: Table, k: int, i: nat, j: nat)
    requires i <= j && Walk(t, k, i).None?
    ensures Walk(t, k, j).None?
    decreases i
  {
    if k in t && i > 0 {
      match Parent(t, k)
      case None =>
      case Some(p) => WalkEnds(t, p, i - 1, j - 1);
    }
  }

  /** Walking i steps and then m more is walking i + m steps. */
  lemma {:induction false} WalkCompose(t: Table, k: int, i: nat, m: nat)
    requires Walk(t, k, i).Some?
    ensures Walk(t, k, i + m) == Walk(t, Walk(t, k, i).value, m)
    decreases i
  {
    if i > 0 {
      WalkCompose(t, Parent(t, k).value, i - 1, m);
    } else {
      assert k in t;
    }
  }

  lemma DepthUnique(t: Table, k: int, d1: nat, d2: nat)
    requires IsDepth(t, k, d1) && IsDepth(t, k, d2)
    ensures d1 == d2
  {
    if d1 < d2 {
      WalkEnds(t, k, d1 + 1, d2);
    } else if d2 < d1 {
      WalkEnds(t, k, d2 + 1, d1);
    }
  }

  /** The i-th ancestor exists exactly up to the depth. */
  lemma WalkDefinedUpToDepth(t: Table, k: int, i: nat)
    requires Acyclic(t, k)
    ensures Walk(t, k, i).Some? <==> i <= Depth(t, k)
  {
    var d := Depth(t, k);
    if i <= d {
      if Walk(t, k, i).None? {
        WalkEnds(t, k, i, d);
      }
    } else {
      WalkEnds(t, k, d + 1, i);
    }
  }

  /**
   * An ancestor of an acyclic record is acyclic, with i fewer ancestors; in
   * particular the parent (i = 1) has one ancestor fewer.
   */
  lemma AncestorDepth(t: Table, k: int, i: nat)
    requires Acyclic(t, k) && Walk(t, k, i).Some?
    ensures Acyclic(t, Walk(t, k, i).value)
    ensures Depth(t, Walk(t, k, i).value) == Depth(t, k) - i
  {
    var a := Walk(t, k, i).value;
    var d := Depth(t, k);
    WalkDefinedUpToDepth(t, k, i);
    WalkInTable(t, k, i);
    WalkCompose(t, k, i, d - i);
    WalkCompose(t, k, i, d - i + 1);
    assert IsDepth(t, a, d - i);
    DepthUnique(t, a, d - i, Depth(t, a));
  }

  lemma ParentDepth(t: Table, k: int)
    requires Acyclic(t, k) && Parent(t, k).Some?
    ensures Acyclic(t, Parent(t, k).value)
    ensures Depth(t, k) >= 1 && Depth(t, Parent(t, k).value) == Depth(t, k) - 1
  {
    assert Walk(t, k, 1) == Walk(t, Parent(t, k).value, 0);
    WalkDefinedUpToDepth(t, k, 1);
    AncestorDepth(t, k, 1);
  }

  lemma RootDepth(t: Table, k: int)
    requires k in t && Parent(t, k).None?
    ensures Acyclic(t, k) && Depth(t, k) == 0
  {
    assert IsDepth(t, k, 0);
    DepthUnique(t, k, 0, Depth(t, k));
  }

  // ---------------------------------------------------------------------
  // Acyclic exactly when no key recurs.
  // ---------------------------------------------------------------------

  /** From a key that comes back to itself after p > 0 steps, every walk goes on. */
  lemma {:induction false} LoopNeverEnds(t: Table, a: int, p: nat, m: nat)
    requires p > 0 && Walk(t, a, p) == Some(a)
    ensures Walk(t, a, m).Some?
    decreases m
  {
    if m < p {
      if Walk(t, a, m).None? {
        WalkEnds(t, a, m, p);
      }
    } else {
      LoopNeverEnds(t, a, p, m - p);
      WalkCompose(t, a, p, m - p);
    }
  }

  lemma CycleNeverEnds(t: Table, k: int)
    requires HasCycle(t, k)
    ensures !Acyclic(t, k)
  {
    var i: nat, j: nat :| i < j && Walk(t, k, i).Some? && Walk(t, k, i) == Walk(t, k, j);
    var a := Walk(t, k, i).value;
    WalkCompose(t, k, i, j - i);
    if Acyclic(t, k) {
      var d := Depth(t, k);
      LoopNeverEnds(t, a, j - i, d + 1);
      WalkCompose(t, k, i, d + 1);
      WalkEnds(t, k, d + 1, i + d + 1);
      assert false;
    }
  }

  /** The first n ancestors, as a set. */
  ghost function Prefix(t: Table, k: int, n: nat): set<int> {
    set i: nat | i < n && Walk(t, k, i).Some? :: Walk(t, k, i).value
  }

  lemma {:induction false} PrefixSize(t: Table, k: int, n: nat)
    requires Walk(t, k, n).Some? && !HasCycle(t, k)
    ensures |Prefix(t, k, n + 1)| == n + 1
    ensures Prefix(t, k, n + 1) <= t.Keys
    decreases n
  {
    var v := Walk(t, k, n).value;
    WalkInTable(t, k, n);
    assert Prefix(t, k, n + 1) == Prefix(t, k, n) + {v};
    if n > 0 {
      if Walk(t, k, n - 1).None? {
        WalkEnds(t, k, n - 1, n);
      }
      PrefixSize(t, k, n - 1);
    } else {
      assert Prefix(t, k, 0) == {};
    }
    assert v !in Prefix(t, k, n);
  }

  /** Pigeonhole: a chain without a recurring key visits n + 1 distinct rows in n steps. */
  lemma ChainFitsTable(t: Table, k: int, n: nat)
    requires Walk(t, k, n).Some? && !HasCycle(t, k)
    ensures n < |t|
  {
    var seen := Prefix(t, k, n + 1);
    PrefixSize(t, k, n);
    assert t.Keys == seen + (t.Keys - seen);
  }

  /** A chain without a recurring key ends within |t| steps. */
  lemma NoCycleEnds(t: Table, k: int)
    requires !HasCycle(t, k)
    ensures Walk(t, k, |t|).None?
  {
    if Walk(t, k, |t|).Some? {
      ChainFitsTable(t, k, |t|);
    }
  }

  /** A chain that has ended after n steps ends at a root: the record is acyclic. */
  lemma {:induction false} EndedIsAcyclic(t: Table, k: int, n: nat)
    requires k in t && Walk(t, k, n).None?
    ensures Acyclic(t, k)
    decreases n
  {
    assert Walk(t, k, 0).Some?;
    if Walk(t, k, n - 1).Some? {
      assert IsDepth(t, k, n - 1);
    } else {
      EndedIsAcyclic(t, k, n - 1);
    }
  }

  /**
   * to_dict on k terminates exactly when no key recurs on k's chain, and the
   * bounded check Terminates decides it.
   */
  lemma AcyclicIffNoCycle(t: Table, k: int)
    requires k in t
    ensures Acyclic(t, k) <==> !HasCycle(t, k)
    ensures Acyclic(t, k) <==> Terminates(t, k)
  {
    if HasCycle(t, k) {
      CycleNeverEnds(t, k);
      if Walk(t, k, |t|).None? {
        EndedIsAcyclic(t, k, |t|);
      }
    } else {
      NoCycleEnds(t, k);
      EndedIsAcyclic(t, k, |t|);
    }
  }

  /** A record has fewer ancestors than the table has rows. */
  lemma DepthBelowSize(t: Table, k: int)
    requires Acyclic(t, k)
    ensures Depth(t, k) < |t|
  {
    AcyclicIffNoCycle(t, k);
    WalkDefinedUpToDepth(t, k, |t|);
  }
}
