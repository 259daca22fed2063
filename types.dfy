/** The task/checklist tree: a task's status is derived from its own flags and,
    through its variant, from the completion of its direct children. */
module Types {

  datatype Option<T> = None | Some(value: T)

  /** The aggregation rule a task applies to its children's completion. */
  datatype TaskType = All | Any

  datatype TaskStatus = Complete | Ready | Incomplete | Blocking

  /** One node of the tree. `complete` and `blocking` are set by callers, never derived;
      each node owns its children, in insertion order. */
  datatype Task = Task(
    name: string,
    description: string,
    blocking: bool,
    complete: bool,
    variant: TaskType,
    children: seq<Task>)

  /** A named handle on a single root task. */
  datatype Project = Project(primary: Task)

  /** A fresh project: its root is incomplete, not blocking, of variant All and childless. */
  function NewProject(name: string, description: string): (p: Project)
    ensures p.primary.name == name && p.primary.description == description
    ensures !p.primary.complete && !p.primary.blocking
    ensures p.primary.variant == All && p.primary.children == []
    ensures Status(p.primary) == Ready
    ensures Leaves(p.primary) == [p.primary]
  {
    Project(Task(name, description, false, false, All, []))
  }

  // ---------------------------------------------------------------------------
  // Readiness and status
  // ---------------------------------------------------------------------------

  /** The iterator `all` over the children's `complete` flags. */
  function AllComplete(ts: seq<Task>): (r: bool)
    ensures r <==> forall i :: 0 <= i < |ts| ==> ts[i].complete
  {
    |ts| == 0 || (ts[0].complete && AllComplete(ts[1..]))
  }

  /** The iterator `any` over the children's `complete` flags. */
  function AnyComplete(ts: seq<Task>): (r: bool)
    ensures r <==> exists i :: 0 <= i < |ts| && ts[i].complete
  {
    |ts| > 0 && (ts[0].complete || AnyComplete(ts[1..]))
  }

  /** Whether the task's completion criteria, per its variant, are met by its children. */
  function IsReady(t: Task): (r: bool)
    ensures t.variant == All ==> (r <==> forall i :: 0 <= i < |t.children| ==> t.children[i].complete)
    ensures t.variant == Any ==> (r <==> exists i :: 0 <= i < |t.children| && t.children[i].complete)
    ensures t.children == [] ==> (r <==> t.variant == All)
  {
    match t.variant
    case All => AllComplete(t.children)
    case Any => AnyComplete(t.children)
  }

  /** The status of one node; the first matching rule of complete, blocking, ready wins. */
  function Status(t: Task): (r: TaskStatus)
    ensures r == Complete <==> t.complete
    ensures r == Blocking <==> !t.complete && t.blocking
    ensures r == Ready <==> !t.complete && !t.blocking && IsReady(t)
    ensures r == Incomplete <==> !t.complete && !t.blocking && !IsReady(t)
  {
    if t.complete then Complete
    else if t.blocking then Blocking
    else if IsReady(t) then Ready
    else Incomplete
  }

  /** The glyph the one-line rendering puts before a task's name. */
  function Glyph(s: TaskStatus): (g: string)
    ensures |g| == 3 && g[0] == '[' && g[2] == ']'
    ensures g[1] == (match s case Complete => 'X' case Incomplete => ' ' case Blocking => '!' case Ready => '*')
  {
    match s
    case Complete => "[X]"
    case Incomplete => "[ ]"
    case Blocking => "[!]"
    case Ready => "[*]"
  }

  // ---------------------------------------------------------------------------
  // Leaf enumeration
  // ---------------------------------------------------------------------------

  /** The leaves of a subtree, depth first, children in stored order. */
  function Leaves(t: Task): (r: seq<Task>)
    ensures r != []
    ensures forall x :: x in r ==> x.children == []
    decreases t, 1
  {
    if |t.children| == 0 then [t] else LeavesUpTo(t, |t.children|)
  }

  /** The leaves below the first `k` children of `t`, concatenated in child order. */
  function LeavesUpTo(t: Task, k: nat): (r: seq<Task>)
    requires k <= |t.children|
    ensures k > 0 ==> r != []
    ensures forall x :: x in r ==> x.children == []
    decreases t, 0, k
  {
    if k == 0 then [] else LeavesUpTo(t, k - 1) + Leaves(t.children[k - 1])
  }

  /** The tasks of `s` whose `blocking` flag is set, in their order in `s`. */
  function BlockingOnly(s: seq<Task>): (r: seq<Task>)
    ensures |r| <= |s|
    ensures forall x :: x in r <==> x in s && x.blocking
  {
    if |s| == 0 then []
    else BlockingOnly(s[..|s| - 1]) + (if s[|s| - 1].blocking then [s[|s| - 1]] else [])
  }

  lemma {:induction false} BlockingOnlyAppend(a: seq<Task>, b: seq<Task>)
    ensures BlockingOnly(a + b) == BlockingOnly(a) + BlockingOnly(b)
    decreases |b|
  {
    if |b| == 0 {
      assert a + b == a;
    } else {
      var b' := b[..|b| - 1];
      assert (a + b)[..|a + b| - 1] == a + b';
      assert (a + b)[|a + b| - 1] == b[|b| - 1];
      BlockingOnlyAppend(a, b');
    }
  }

  /** get_completable: every leaf of the subtree, depth first and left to right. */
  method GetCompletable(t: Task) returns (results: seq<Task>)
    ensures results == Leaves(t)
    decreases t
  {
    results := [];
    if |t.children| == 0 {
      results := results + [t];
    } else {
      var i := 0;
      while i < |t.children|
        invariant 0 <= i <= |t.children|
        invariant results == LeavesUpTo(t, i)
      {
        var sub := GetCompletable(t.children[i]);
        results := results + sub;
        i := i + 1;
      }
    }
  }

  /** get_blocking: the blocking leaves of the subtree, in the order of GetCompletable. */
  method GetBlocking(t: Task) returns (results: seq<Task>)
    ensures results == BlockingOnly(Leaves(t))
    decreases t
  {
    results := [];
    if |t.children| == 0 {
      if t.blocking {
        results := results + [t];
      }
      assert BlockingOnly([t]) == BlockingOnly([]) + (if t.blocking then [t] else []);
    } else {
      var i := 0;
      while i < |t.children|
        invariant 0 <= i <= |t.children|
        invariant results == BlockingOnly(LeavesUpTo(t, i))
      {
        var sub := GetBlocking(t.children[i]);
        BlockingOnlyAppend(LeavesUpTo(t, i), Leaves(t.children[i]));
        results := results + sub;
        i := i + 1;
      }
    }
  }

  // ---------------------------------------------------------------------------
  // Addresses
  // ---------------------------------------------------------------------------

  /** `p` addresses a node of `t`: every index is below the child count at its depth. */
  predicate IsPath(t: Task, p: seq<nat>)
    decreases |p|
  {
    |p| == 0 || (p[0] < |t.children| && IsPath(t.children[p[0]], p[1..]))
  }

  /** The node of `t` at address `p`. */
  function At(t: Task, p: seq<nat>): Task
    requires IsPath(t, p)
    decreases |p|
  {
    if |p| == 0 then t else At(t.children[p[0]], p[1..])
  }

  predicate IsLeafPath(t: Task, p: seq<nat>)
  {
    IsPath(t, p) && At(t, p).children == []
  }

  predicate IsPrefix(p: seq<nat>, q: seq<nat>)
  {
    |p| <= |q| && q[..|p|] == p
  }

  /** Stepping into child `j` first: the address `[j] + p` of `t` is the address `p` of child `j`. */
  lemma ConsPath(t: Task, j: nat, p: seq<nat>)
    requires j < |t.children|
    ensures IsPath(t, [j] + p) <==> IsPath(t.children[j], p)
    ensures IsPath(t, [j] + p) ==> At(t, [j] + p) == At(t.children[j], p)
  {
  }

  /** Lexicographic order on addresses that diverge: the first differing index is smaller. */
  predicate LexLess(p: seq<nat>, q: seq<nat>)
    decreases |p|
  {
    |p| > 0 && |q| > 0 && (p[0] < q[0] || (p[0] == q[0] && LexLess(p[1..], q[1..])))
  }

  lemma {:induction false} LexLessIrreflexive(p: seq<nat>)
    ensures !LexLess(p, p)
    decreases |p|
  {
    if |p| > 0 {
      LexLessIrreflexive(p[1..]);
    }
  }

  // ---------------------------------------------------------------------------
  // Child insertion
  // ---------------------------------------------------------------------------

  /** What add_child returns, together with the tree as it stands after the call. */
  datatype AddOutcome = AddOutcome(result: Option<()>, tree: Task)

  /** add_child: descend by the indices of `address`; when the address is exhausted,
      append `newChild` to that node's children. An index past the end fails. */
  function AddChild(t: Task, address: seq<nat>, newChild: Task): (o: AddOutcome)
    ensures o.result == Some(()) <==> IsPath(t, address)
    ensures o.result == None <==> !IsPath(t, address)
    ensures o.result == None ==> o.tree == t
    decreases |address|
  {
    if |address| == 0 then
      AddOutcome(Some(()), t.(children := t.children + [newChild]))
    else if address[0] < |t.children| then
      var sub := AddChild(t.children[address[0]], address[1..], newChild);
      AddOutcome(sub.result, t.(children := t.children[address[0] := sub.tree]))
    else
      AddOutcome(None, t)
  }
}
