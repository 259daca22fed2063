/** What the task tree's operations promise, stated over addresses of nodes. */
module Properties {
  import opened Types

  // ---------------------------------------------------------------------------
  // Status precedence
  // ---------------------------------------------------------------------------

  /** A complete task is Complete whatever its blocking flag and children are. */
  lemma CompleteOverrides(t: Task, blocking: bool, children: seq<Task>)
    requires t.complete
    ensures Status(t.(blocking := blocking, children := children)) == Complete
  {
  }

  /** An incomplete blocking task is Blocking even when it is ready. */
  lemma BlockingOverridesReady(t: Task)
    requires !t.complete && t.blocking && IsReady(t)
    ensures Status(t) == Blocking
  {
  }

  /** Readiness and status look only one level down: the children's own subtrees do not matter. */
  lemma StatusDependsOnChildFlagsOnly(t: Task, u: Task)
    requires t.complete == u.complete && t.blocking == u.blocking && t.variant == u.variant
    requires |t.children| == |u.children|
    requires forall i :: 0 <= i < |t.children| ==> t.children[i].complete == u.children[i].complete
    ensures IsReady(t) == IsReady(u) && Status(t) == Status(u)
  {
  }

  /** Distinct statuses are rendered with distinct glyphs. */
  lemma GlyphInjective(s: TaskStatus, s': TaskStatus)
    requires Glyph(s) == Glyph(s')
    ensures s == s'
  {
  }

  // ---------------------------------------------------------------------------
  // Leaf enumeration
  // ---------------------------------------------------------------------------

  /** The addresses of the leaves of a subtree, in the order Leaves lists them. */
  function LeafPaths(t: Task): (ps: seq<seq<nat>>)
    decreases t, 1
  {
    if |t.children| == 0 then [[]] else LeafPathsUpTo(t, |t.children|)
  }

  function LeafPathsUpTo(t: Task, k: nat): (ps: seq<seq<nat>>)
    requires k <= |t.children|
    decreases t, 0, k
  {
    if k == 0 then [] else LeafPathsUpTo(t, k - 1) + Under(k - 1, LeafPaths(t.children[k - 1]))
  }

  /** Every address of `ps`, taken from child `j`. */
  function Under(j: nat, ps: seq<seq<nat>>): seq<seq<nat>>
  {
    seq(|ps|, i requires 0 <= i < |ps| => [j] + ps[i])
  }

  predicate StrictlySorted(ps: seq<seq<nat>>)
  {
    forall i, j :: 0 <= i < j < |ps| ==> LexLess(ps[i], ps[j])
  }

  /** The set of addresses LeafPaths lists. */
  function LeafAddresses(t: Task): set<seq<nat>>
  {
    set p | p in LeafPaths(t)
  }

  predicate Distinct(ps: seq<seq<nat>>)
  {
    forall i, j :: 0 <= i < |ps| && 0 <= j < |ps| && i != j ==> ps[i] != ps[j]
  }

  /** A sequence without repetitions has exactly as many distinct elements as entries. */
  lemma {:induction false} DistinctCard(ps: seq<seq<nat>>)
    requires Distinct(ps)
    ensures |set p | p in ps| == |ps|
    decreases |ps|
  {
    if |ps| > 0 {
      var front := ps[..|ps| - 1];
      assert Distinct(front);
      DistinctCard(front);
      assert ps == front + [ps[|ps| - 1]];
      assert (set p | p in ps) == (set p | p in front) + {ps[|ps| - 1]};
      assert ps[|ps| - 1] !in front;
    }
  }

  /** Each listed address is the address of a leaf, and Leaves lists the nodes at those addresses. */
  lemma {:induction false} LeafPathsSound(t: Task)
    ensures |LeafPaths(t)| == |Leaves(t)|
    ensures forall i :: 0 <= i < |LeafPaths(t)| ==>
      IsLeafPath(t, LeafPaths(t)[i]) && Leaves(t)[i] == At(t, LeafPaths(t)[i])
    decreases t, 1
  {
    if |t.children| > 0 {
      LeafPathsSoundUpTo(t, |t.children|);
    }
  }

  lemma {:induction false} LeafPathsSoundUpTo(t: Task, k: nat)
    requires k <= |t.children|
    ensures |LeafPathsUpTo(t, k)| == |LeavesUpTo(t, k)|
    ensures forall i :: 0 <= i < |LeafPathsUpTo(t, k)| ==>
      var p := LeafPathsUpTo(t, k)[i];
      |p| > 0 && p[0] < k && IsLeafPath(t, p) && LeavesUpTo(t, k)[i] == At(t, p)
    decreases t, 0, k
  {
    if k > 0 {
      LeafPathsSoundUpTo(t, k - 1);
      var c := t.children[k - 1];
      LeafPathsSound(c);
      var front, back := LeafPathsUpTo(t, k - 1), Under(k - 1, LeafPaths(c));
      assert LeafPathsUpTo(t, k) == front + back;
      forall i | 0 <= i < |back|
        ensures IsLeafPath(t, back[i]) && Leaves(c)[i] == At(t, back[i])
      {
        ConsPath(t, k - 1, LeafPaths(c)[i]);
      }
    }
  }

  /** Every leaf of the subtree is listed. */
  lemma {:induction false} LeafPathsComplete(t: Task, q: seq<nat>)
    requires IsLeafPath(t, q)
    ensures q in LeafPaths(t)
    decreases t, 1
  {
    if |q| > 0 {
      LeafPathsCompleteUpTo(t, |t.children|, q);
    }
  }

  lemma {:induction false} LeafPathsCompleteUpTo(t: Task, k: nat, q: seq<nat>)
    requires k <= |t.children|
    requires IsLeafPath(t, q) && |q| > 0 && q[0] < k
    ensures q in LeafPathsUpTo(t, k)
    decreases t, 0, k
  {
    if q[0] < k - 1 {
      LeafPathsCompleteUpTo(t, k - 1, q);
    } else {
      var c := t.children[k - 1];
      ConsPath(t, k - 1, q[1..]);
      assert q == [k - 1] + q[1..];
      LeafPathsComplete(c, q[1..]);
      var i :| 0 <= i < |LeafPaths(c)| && LeafPaths(c)[i] == q[1..];
      assert Under(k - 1, LeafPaths(c))[i] == q;
    }
  }

  /** The addresses come in strictly increasing lexicographic order: depth first, left to right. */
  lemma {:induction false} LeafPathsSorted(t: Task)
    ensures StrictlySorted(LeafPaths(t))
    decreases t, 1
  {
    if |t.children| > 0 {
      LeafPathsSortedUpTo(t, |t.children|);
    }
  }

  lemma {:induction false} LeafPathsSortedUpTo(t: Task, k: nat)
    requires k <= |t.children|
    ensures StrictlySorted(LeafPathsUpTo(t, k))
    decreases t, 0, k
  {
    if k > 0 {
      LeafPathsSortedUpTo(t, k - 1);
      LeafPathsSoundUpTo(t, k - 1);
      var c := t.children[k - 1];
      LeafPathsSorted(c);
      var front, back := LeafPathsUpTo(t, k - 1), Under(k - 1, LeafPaths(c));
      var all := front + back;
      assert LeafPathsUpTo(t, k) == all;
      forall i, j | 0 <= i < j < |all| ensures LexLess(all[i], all[j]) {
        if j < |front| {
          assert all[i] == front[i] && all[j] == front[j];
        } else if i < |front| {
          assert all[i] == front[i] && all[j] == back[j - |front|];
        } else {
          var p, q := LeafPaths(c)[i - |front|], LeafPaths(c)[j - |front|];
          assert all[i] == [k - 1] + p && all[j] == [k - 1] + q;
          assert ([k - 1] + p)[1..] == p && ([k - 1] + q)[1..] == q;
        }
      }
    }
  }

  /** get_completable lists every leaf exactly once: its addresses are the leaves of the
      subtree, all of them, in depth-first left-to-right order, without repetition. */
  lemma LeafEnumeration(t: Task)
    ensures Leaves(t) != []
    ensures |Leaves(t)| == |LeafPaths(t)| == |LeafAddresses(t)|
    ensures forall q :: IsLeafPath(t, q) <==> q in LeafAddresses(t)
    ensures forall i :: 0 <= i < |LeafPaths(t)| ==>
      IsLeafPath(t, LeafPaths(t)[i]) && Leaves(t)[i] == At(t, LeafPaths(t)[i])
    ensures StrictlySorted(LeafPaths(t))
    ensures Distinct(LeafPaths(t))
  {
    LeafPathsSound(t);
    LeafPathsSorted(t);
    forall q | IsLeafPath(t, q) ensures q in LeafPaths(t) {
      LeafPathsComplete(t, q);
    }
    forall i, j | 0 <= i < |LeafPaths(t)| && 0 <= j < |LeafPaths(t)| && i != j
      ensures LeafPaths(t)[i] != LeafPaths(t)[j]
    {
      if i < j {
        LexLessIrreflexive(LeafPaths(t)[i]);
      } else {
        LexLessIrreflexive(LeafPaths(t)[j]);
      }
    }
    DistinctCard(LeafPaths(t));
  }

  /** get_blocking lists exactly the blocking leaves; a task with children never appears,
      whatever its own blocking flag. */
  lemma BlockingAreBlockingLeaves(t: Task)
    ensures forall x :: x in BlockingOnly(Leaves(t)) <==> x in Leaves(t) && x.blocking
    ensures forall x :: x in BlockingOnly(Leaves(t)) ==> x.children == [] && x.blocking
    ensures |t.children| > 0 ==> t !in BlockingOnly(Leaves(t))
  {
  }

  // ---------------------------------------------------------------------------
  // Child insertion
  // ---------------------------------------------------------------------------

  /** With an empty address the new task becomes the last child of `t`; nothing else changes. */
  lemma AddChildEmptyAddress(t: Task, c: Task)
    ensures AddChild(t, [], c).result == Some(())
    ensures AddChild(t, [], c).tree == t.(children := t.children + [c])
  {
  }

  /** On success the addressed node gains `c` as its last child and is otherwise as it was. */
  lemma {:induction false} AddChildAppends(t: Task, address: seq<nat>, c: Task)
    requires IsPath(t, address)
    ensures IsPath(AddChild(t, address, c).tree, address)
    ensures At(AddChild(t, address, c).tree, address) ==
      At(t, address).(children := At(t, address).children + [c])
    decreases |address|
  {
    if |address| > 0 {
      AddChildAppends(t.children[address[0]], address[1..], c);
    }
  }

  /** On success every node of `t` is still there with the same name, description, flags and
      variant; only the addressed node has one more child. */
  lemma {:induction false} AddChildKeepsNodes(t: Task, address: seq<nat>, c: Task, q: seq<nat>)
    requires IsPath(t, address) && IsPath(t, q)
    ensures IsPath(AddChild(t, address, c).tree, q)
    ensures At(AddChild(t, address, c).tree, q).(children := []) == At(t, q).(children := [])
    ensures |At(AddChild(t, address, c).tree, q).children| ==
      |At(t, q).children| + (if q == address then 1 else 0)
    decreases |q|
  {
    if |q| > 0 && |address| > 0 {
      var tree := AddChild(t, address, c).tree;
      if q[0] == address[0] {
        AddChildKeepsNodes(t.children[q[0]], address[1..], c, q[1..]);
        assert q == address <==> q[1..] == address[1..] by {
          if q[1..] == address[1..] {
            assert q == [q[0]] + q[1..] && address == [address[0]] + address[1..];
          }
        }
      } else {
        assert tree.children[q[0]] == t.children[q[0]];
      }
    }
  }

  /** On success every node that is not on the way to the addressed node, nor the addressed
      node itself, keeps its whole subtree. */
  lemma {:induction false} AddChildFrame(t: Task, address: seq<nat>, c: Task, q: seq<nat>)
    requires IsPath(t, address) && IsPath(t, q) && !IsPrefix(q, address)
    ensures IsPath(AddChild(t, address, c).tree, q)
    ensures At(AddChild(t, address, c).tree, q) == At(t, q)
    decreases |q|
  {
    var tree := AddChild(t, address, c).tree;
    if |address| == 0 {
      // q is non-empty, so it walks into one of the existing children
      ConsPath(t, q[0], q[1..]);
      ConsPath(tree, q[0], q[1..]);
      assert q == [q[0]] + q[1..];
    } else if q[0] != address[0] {
      assert tree.children[q[0]] == t.children[q[0]];
      ConsPath(t, q[0], q[1..]);
      ConsPath(tree, q[0], q[1..]);
      assert q == [q[0]] + q[1..];
    } else {
      assert !IsPrefix(q[1..], address[1..]);
      AddChildFrame(t.children[q[0]], address[1..], c, q[1..]);
    }
  }

  /** On success the new task sits right after the addressed node's former children. */
  lemma {:induction false} AddChildPlacesNewChild(t: Task, address: seq<nat>, c: Task)
    requires IsPath(t, address)
    ensures IsPath(AddChild(t, address, c).tree, address + [|At(t, address).children|])
    ensures At(AddChild(t, address, c).tree, address + [|At(t, address).children|]) == c
    decreases |address|
  {
    var n := |At(t, address).children|;
    if |address| == 0 {
      assert [] + [n] == [n];
      var single: seq<nat> := [n];
      assert single[1..] == [];
    } else {
      AddChildPlacesNewChild(t.children[address[0]], address[1..], c);
      assert (address + [n])[1..] == address[1..] + [n];
    }
  }

  /** On success the only new addresses are those inside the new task's subtree. */
  lemma {:induction false} AddChildNoOtherPaths(t: Task, address: seq<nat>, c: Task, q: seq<nat>)
    requires IsPath(t, address) && IsPath(AddChild(t, address, c).tree, q)
    ensures IsPath(t, q) || IsPrefix(address + [|At(t, address).children|], q)
    decreases |address|
  {
    var tree := AddChild(t, address, c).tree;
    var n := |At(t, address).children|;
    if |q| > 0 {
      if |address| == 0 {
        assert address + [n] == [n];
        if q[0] < n {
          assert tree.children[q[0]] == t.children[q[0]];
        }
      } else if q[0] != address[0] {
        assert tree.children[q[0]] == t.children[q[0]];
      } else {
        AddChildNoOtherPaths(t.children[q[0]], address[1..], c, q[1..]);
        assert address + [n] == [address[0]] + (address[1..] + [n]);
        assert q == [q[0]] + q[1..];
      }
    }
  }
}
