/**
 * The order in which the printer visits lines: table order in flat mode
 * (print_table), and in tree mode the roots in table order, each followed
 * depth-first, pre-order, by its children in list order (print_tree,
 * print_tree_line). The recursion depth is bounded by `fuel`; the printer
 * passes the number of lines.
 */
module Traversal {
  import opened Wrappers
  import opened Model

  /** print_table's order: every line, in table order. */
  function FlatOrder(n: nat): (r: seq<nat>)
    ensures |r| == n && forall k :: 0 <= k < n ==> r[k] == k
  {
    seq(n, k => k)
  }

  /** print_tree_line: the line, then each child's subtree in list order. */
  function Subtree(ls: seq<Line>, i: nat, fuel: nat): (r: seq<nat>)
    requires WellFormed(ls) && i < |ls|
    ensures |r| >= 1 && r[0] == i
    ensures forall k :: 0 <= k < |r| ==> r[k] < |ls|
    decreases fuel, 0
  {
    if fuel == 0 then [i] else [i] + Forest(ls, ls[i].children, fuel - 1)
  }

  /** The subtrees of a run of siblings, one after the other. */
  function Forest(ls: seq<Line>, cs: seq<nat>, fuel: nat): (r: seq<nat>)
    requires WellFormed(ls) && forall k :: 0 <= k < |cs| ==> cs[k] < |ls|
    ensures forall k :: 0 <= k < |r| ==> r[k] < |ls|
    decreases fuel, |cs| + 1
  {
    if |cs| == 0 then []
    else Forest(ls, cs[..|cs| - 1], fuel) + Subtree(ls, cs[|cs| - 1], fuel)
  }

  /** print_tree's order over the first `n` lines: each root's subtree, roots
      in table order, other lines skipped. */
  function TreeOrder(ls: seq<Line>, n: nat): (r: seq<nat>)
    requires WellFormed(ls) && n <= |ls|
    ensures forall k :: 0 <= k < |r| ==> r[k] < |ls|
  {
    if n == 0 then []
    else TreeOrder(ls, n - 1) + (if ls[n - 1].parent.None? then Subtree(ls, n - 1, |ls|) else [])
  }

  /** Every visited line has parent `p`, or its parent was visited before it. */
  ghost predicate ParentFirst(ls: seq<Line>, out: seq<nat>, p: Option<nat>)
    requires forall k :: 0 <= k < |out| ==> out[k] < |ls|
  {
    forall k :: 0 <= k < |out| ==>
      ls[out[k]].parent == p || exists j :: 0 <= j < k && ls[out[k]].parent == Some(out[j])
  }

  /** The roots among a sequence of lines, in order. */
  function Roots(ls: seq<Line>, xs: seq<nat>): seq<nat>
    requires forall k :: 0 <= k < |xs| ==> xs[k] < |ls|
  {
    if |xs| == 0 then []
    else Roots(ls, xs[..|xs| - 1]) + (if ls[xs[|xs| - 1]].parent.None? then [xs[|xs| - 1]] else [])
  }

  lemma {:induction false} ParentFirstConcat(ls: seq<Line>, a: seq<nat>, b: seq<nat>, p: Option<nat>)
    requires forall k :: 0 <= k < |a| ==> a[k] < |ls|
    requires forall k :: 0 <= k < |b| ==> b[k] < |ls|
    requires ParentFirst(ls, a, p) && ParentFirst(ls, b, p)
    ensures forall k :: 0 <= k < |a + b| ==> (a + b)[k] < |ls|
    ensures ParentFirst(ls, a + b, p)
  {
    var c := a + b;
    forall k | 0 <= k < |c|
      ensures ls[c[k]].parent == p || exists j :: 0 <= j < k && ls[c[k]].parent == Some(c[j])
    {
      if k >= |a| {
        assert c[k] == b[k - |a|];
        if ls[c[k]].parent != p {
          var j :| 0 <= j < k - |a| && ls[b[k - |a|]].parent == Some(b[j]);
          assert c[j + |a|] == b[j];
        }
      } else {
        assert c[k] == a[k];
        if ls[c[k]].parent != p {
          var j :| 0 <= j < k && ls[a[k]].parent == Some(a[j]);
          assert c[j] == a[j];
        }
      }
    }
  }

  lemma {:induction false} RootsConcat(ls: seq<Line>, a: seq<nat>, b: seq<nat>)
    requires forall k :: 0 <= k < |a| ==> a[k] < |ls|
    requires forall k :: 0 <= k < |b| ==> b[k] < |ls|
    ensures forall k :: 0 <= k < |a + b| ==> (a + b)[k] < |ls|
    ensures Roots(ls, a + b) == Roots(ls, a) + Roots(ls, b)
    decreases |b|
  {
    if |b| == 0 {
      assert a + b == a;
    } else {
      var b' := b[..|b| - 1];
      assert (a + b)[..|a + b| - 1] == a + b';
      RootsConcat(ls, a, b');
    }
  }

  /** A subtree is visited parent before child: its first line is the
      subtree's root, and every later line's parent comes earlier. */
  lemma {:induction false} SubtreeParentFirst(ls: seq<Line>, i: nat, fuel: nat)
    requires WellFormed(ls) && Linked(ls) && i < |ls|
    ensures ParentFirst(ls, Subtree(ls, i, fuel), ls[i].parent)
    decreases fuel, 0
  {
    if fuel > 0 {
      var f := Forest(ls, ls[i].children, fuel - 1);
      ForestParentFirst(ls, ls[i].children, fuel - 1, i);
      ParentFirstCons(ls, i, f);
    }
  }

  /** A line followed by a run whose lines have it, or an earlier line of
      the run, as parent is visited parent before child. */
  lemma ParentFirstCons(ls: seq<Line>, i: nat, f: seq<nat>)
    requires i < |ls| && forall k :: 0 <= k < |f| ==> f[k] < |ls|
    requires ParentFirst(ls, f, Some(i))
    ensures forall k :: 0 <= k < |[i] + f| ==> ([i] + f)[k] < |ls|
    ensures ParentFirst(ls, [i] + f, ls[i].parent)
  {
    var out := [i] + f;
    forall k | 0 <= k < |out|
      ensures ls[out[k]].parent == ls[i].parent || exists j :: 0 <= j < k && ls[out[k]].parent == Some(out[j])
    {
      if k > 0 {
        assert out[k] == f[k - 1];
        if ls[f[k - 1]].parent == Some(i) {
          assert out[0] == i;
        } else {
          var j :| 0 <= j < k - 1 && ls[f[k - 1]].parent == Some(f[j]);
          assert out[j + 1] == f[j];
        }
      }
    }
  }

  /** The subtrees of children of `p` are visited parent before child, the
      children themselves having parent `p`. */
  lemma {:induction false} ForestParentFirst(ls: seq<Line>, cs: seq<nat>, fuel: nat, p: nat)
    requires WellFormed(ls) && Linked(ls) && p < |ls|
    requires forall k :: 0 <= k < |cs| ==> cs[k] < |ls| && ls[cs[k]].parent == Some(p)
    ensures ParentFirst(ls, Forest(ls, cs, fuel), Some(p))
    decreases fuel, |cs| + 1
  {
    if |cs| > 0 {
      ForestParentFirst(ls, cs[..|cs| - 1], fuel, p);
      SubtreeParentFirst(ls, cs[|cs| - 1], fuel);
      ParentFirstConcat(ls, Forest(ls, cs[..|cs| - 1], fuel), Subtree(ls, cs[|cs| - 1], fuel), Some(p));
    }
  }

  /** Tree mode visits parents before children: every visited line is a root
      or its parent was visited earlier. */
  lemma {:induction false} TreeOrderParentFirst(ls: seq<Line>, n: nat)
    requires WellFormed(ls) && Linked(ls) && n <= |ls|
    ensures ParentFirst(ls, TreeOrder(ls, n), None)
  {
    if n > 0 {
      TreeOrderParentFirst(ls, n - 1);
      var tail := if ls[n - 1].parent.None? then Subtree(ls, n - 1, |ls|) else [];
      if ls[n - 1].parent.None? {
        SubtreeParentFirst(ls, n - 1, |ls|);
      }
      ParentFirstConcat(ls, TreeOrder(ls, n - 1), tail, None);
    }
  }

  /** A run visited with ParentFirst for a parent `Some(p)` holds no root. */
  lemma {:induction false} NoRoots(ls: seq<Line>, out: seq<nat>, p: nat)
    requires forall k :: 0 <= k < |out| ==> out[k] < |ls|
    requires ParentFirst(ls, out, Some(p))
    ensures Roots(ls, out) == []
    decreases |out|
  {
    if |out| > 0 {
      var out' := out[..|out| - 1];
      assert ParentFirst(ls, out', Some(p)) by {
        forall k | 0 <= k < |out'|
          ensures ls[out'[k]].parent == Some(p) || exists j :: 0 <= j < k && ls[out'[k]].parent == Some(out'[j])
        {
          assert out'[k] == out[k];
          if ls[out[k]].parent != Some(p) {
            var j :| 0 <= j < k && ls[out[k]].parent == Some(out[j]);
            assert out'[j] == out[j];
          }
        }
      }
      NoRoots(ls, out', p);
      assert ls[out[|out| - 1]].parent.Some?;
    }
  }

  /** A root's subtree holds one root: itself. */
  lemma {:induction false} RootSubtreeRoots(ls: seq<Line>, i: nat)
    requires WellFormed(ls) && Linked(ls) && i < |ls| && ls[i].parent.None?
    ensures Roots(ls, Subtree(ls, i, |ls|)) == [i]
  {
    var f := Forest(ls, ls[i].children, |ls| - 1);
    ForestParentFirst(ls, ls[i].children, |ls| - 1, i);
    NoRoots(ls, f, i);
    RootsConcat(ls, [i], f);
    assert [i][..0] == [];
    assert Roots(ls, [i]) == [i];
    assert Subtree(ls, i, |ls|) == [i] + f;
  }

  /** Tree mode starts a block at exactly the table's roots, in table order. */
  lemma {:induction false} TreeOrderRoots(ls: seq<Line>, n: nat)
    requires WellFormed(ls) && Linked(ls) && n <= |ls|
    ensures Roots(ls, TreeOrder(ls, n)) == Roots(ls, FlatOrder(n))
  {
    if n > 0 {
      TreeOrderRoots(ls, n - 1);
      var tail := if ls[n - 1].parent.None? then Subtree(ls, n - 1, |ls|) else [];
      RootsConcat(ls, TreeOrder(ls, n - 1), tail);
      assert FlatOrder(n)[..n - 1] == FlatOrder(n - 1);
      if ls[n - 1].parent.None? {
        RootSubtreeRoots(ls, n - 1);
      }
    }
  }
}
