/** Small concrete trees and what the operations do on them. */
module Scenarios {
  import opened Types
  import opened Properties

  /** An incomplete childless All task. */
  function Leaf(name: string, blocking: bool): Task
  {
    Task(name, "", blocking, false, All, [])
  }

  /** A fresh project's root is ready: an All task without children. */
  lemma FreshRootIsReady(name: string, description: string)
    ensures IsReady(NewProject(name, description).primary)
    ensures Status(NewProject(name, description).primary) == Ready
  {
  }

  /** Adding one incomplete child to a fresh root makes the root Incomplete. */
  lemma IncompleteChildMakesRootIncomplete(a: Task)
    requires !a.complete
    ensures AddChild(NewProject("p", "").primary, [], a).result == Some(())
    ensures !IsReady(AddChild(NewProject("p", "").primary, [], a).tree)
    ensures Status(AddChild(NewProject("p", "").primary, [], a).tree) == Incomplete
  {
  }

  /** An Any task with no complete child is not ready; once one child is complete it is. */
  lemma AnyNeedsOneCompleteChild(a: Task, b: Task)
    requires !a.complete && b.complete
    ensures !IsReady(Task("t", "", false, false, Any, [a]))
    ensures Status(Task("t", "", false, false, Any, [a, b])) == Ready
  {
    assert Task("t", "", false, false, Any, [a, b]).children[1].complete;
  }

  /** With one blocking leaf below the root, both leaf queries return exactly that leaf. */
  lemma SingleBlockingLeaf()
    ensures var a := Leaf("A", true);
      var root := AddChild(NewProject("p", "").primary, [], a).tree;
      Leaves(root) == [a] && BlockingOnly(Leaves(root)) == [a]
  {
    var a := Leaf("A", true);
    var root := AddChild(NewProject("p", "").primary, [], a).tree;
    assert root.children == [a];
    assert Leaves(root) == LeavesUpTo(root, 1) == [] + Leaves(a);
    assert BlockingOnly([a]) == BlockingOnly([]) + [a];
  }

  /** Addressing a child of a childless child fails and leaves the tree unchanged. */
  lemma AddressPastLeafFails(b: Task)
    ensures var root := AddChild(NewProject("p", "").primary, [], Leaf("A", false)).tree;
      AddChild(root, [0, 0], b) == AddOutcome(None, root)
  {
  }

  /** The leaf queries as methods, on a root with a blocking and a non-blocking leaf. */
  method QueryTwoLeaves() returns (completable: seq<Task>, blocking: seq<Task>)
    ensures completable == [Leaf("A", true), Leaf("B", false)]
    ensures blocking == [Leaf("A", true)]
  {
    var root := Task("r", "", true, false, All, [Leaf("A", true), Leaf("B", false)]);
    completable := GetCompletable(root);
    blocking := GetBlocking(root);
    assert LeavesUpTo(root, 1) == [Leaf("A", true)];
    assert Leaves(root) == LeavesUpTo(root, 2) == [Leaf("A", true)] + [Leaf("B", false)];
    assert BlockingOnly([Leaf("A", true)]) == BlockingOnly([]) + [Leaf("A", true)];
    assert BlockingOnly(Leaves(root)) == BlockingOnly([Leaf("A", true)]) + [];
  }
}
