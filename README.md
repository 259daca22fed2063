# Task tree of blockfinder, in Dafny

This project models the task/checklist tree of blockfinder (`src/types.rs`). A `Task` carries a
name, a description, two caller-set flags (`complete`, `blocking`), a variant (`All` or `Any`) and
an ordered list of owned child tasks. A `Project` wraps one root task.

- `types.dfy`, module `Types`: the datatypes, `NewProject` (`Project::new`), `IsReady` (`ready`) built
  on the iterator folds `AllComplete` / `AnyComplete`, `Status` (`status`), the status glyph of the
  one-line rendering, the leaf queries `GetCompletable` / `GetBlocking` as recursive methods with a
  loop over the children (the source's `for_each` + `append`), proved against the specification
  functions `Leaves` and `BlockingOnly(Leaves(t))`, node addresses (`IsPath`, `At`), and `AddChild`
  (`add_child`).
- `properties.dfy`, module `Properties`: status precedence, the leaf enumeration characterised by
  the addresses of the leaves (every leaf listed, nothing else, in strictly increasing
  lexicographic address order, hence each once and depth first left to right, as many entries as
  there are distinct leaf addresses), and what `AddChild` changes and keeps.
- `scenarios.dfy`, module `Scenarios`: small concrete trees.

The accessors `complete()` and `blocking()` return the raw flags; the model reads the datatype
fields `complete` and `blocking` directly. Indices of an address are `nat` (Rust `usize`); no
arithmetic on them can overflow in the source.

`add_child` works in place through `&mut self`. Because every node has exactly one owner and is
never shared, the model writes it as a function `AddChild(t, address, newChild)` that returns the
`Option<()>` result together with the tree as it stands after the call; the failure path returns
the tree untouched, as the source does when it never reaches `push`.

## Model

| member | source | states |
|---|---|---|
| Types.NewProject | src/types.rs:12-23 | the root carries the given name and description, is neither complete nor blocking, is of variant All, has no children, its status is Ready and it is its own only leaf |
| Types.AllComplete | src/types.rs:111 | true exactly when every task of the list has its complete flag set (so true on the empty list) |
| Types.AnyComplete | src/types.rs:115 | true exactly when some task of the list has its complete flag set (so false on the empty list) |
| Types.IsReady | src/types.rs:107-118 | for All: ready iff every child is complete; for Any: ready iff some child is complete; a childless task is ready iff its variant is All |
| Types.Status | src/types.rs:68-79 | Complete iff complete; Blocking iff not complete and blocking; Ready iff neither flag and ready; Incomplete iff neither flag and not ready |
| Types.Glyph | src/types.rs:80-87 | the glyph is three characters `[c]` with X, space, ! and * for Complete, Incomplete, Blocking and Ready |
| Types.GetCompletable | src/types.rs:136-146 | returns exactly `Leaves(t)`: the node itself when childless, else the children's leaf lists concatenated in child order |
| Types.GetBlocking | src/types.rs:120-134 | returns exactly the blocking members of `Leaves(t)`, in that order |
| Types.Leaves | src/types.rs:136-146 | the reference leaf list: never empty, and every task on it is childless |
| Types.LeavesUpTo | src/types.rs:141-143 | the leaves below the first k children: non-empty once k is at least one, and all childless |
| Types.BlockingOnly | src/types.rs:120-134 | the filter get_blocking is specified by: never longer than its input, and holds exactly the input's tasks whose blocking flag is set |
| Types.BlockingOnlyAppend | src/types.rs:129-131 | filtering by the blocking flag distributes over concatenation of children's results |
| Types.AddChild | src/types.rs:147-158 | add_child returns Some exactly when every index of the address is below the child count at its depth, None otherwise, and on None the tree is unchanged |
| Types.ConsPath | src/types.rs:148-150 | descending into child j and then following p is the address j followed by p |
| Properties.CompleteOverrides | src/types.rs:68-70 | a complete task is Complete whatever its blocking flag and children |
| Properties.BlockingOverridesReady | src/types.rs:71-72 | an incomplete blocking task is Blocking even when ready |
| Properties.StatusDependsOnChildFlagsOnly | src/types.rs:107-118 | readiness and status depend only on the node's own flags, its variant and its children's complete flags |
| Properties.GlyphInjective | src/types.rs:80-87 | distinct statuses get distinct glyphs |
| Properties.LeafPathsSound | src/types.rs:136-146 | each listed address addresses a childless node, and the i-th leaf listed is the node at the i-th address |
| Properties.LeafPathsSoundUpTo | src/types.rs:141-143 | the addresses below the first k children start with an index below k and address leaves |
| Properties.LeafPathsComplete | src/types.rs:136-146 | every address of a childless node is listed |
| Properties.LeafPathsCompleteUpTo | src/types.rs:141-143 | every leaf address below one of the first k children is listed among theirs |
| Properties.LeafPathsSorted | src/types.rs:136-146 | listed addresses strictly increase lexicographically (depth first, left to right) |
| Properties.LeafPathsSortedUpTo | src/types.rs:141-143 | the same for the leaves below the first k children |
| Properties.LeafEnumeration | src/types.rs:136-146 | get_completable lists every leaf exactly once, nothing else, in depth-first left-to-right order; it is never empty and its length is the number of distinct leaf addresses of the subtree |
| Properties.BlockingAreBlockingLeaves | src/types.rs:120-134 | get_blocking lists exactly the blocking leaves; a task with children is never listed, whatever its own flag |
| Properties.AddChildEmptyAddress | src/types.rs:154-156 | with an empty address add_child returns Some and the new task becomes the last child, earlier children and all fields kept |
| Properties.AddChildAppends | src/types.rs:147-158 | on success the addressed node's children are its former children followed by the new task, and its other fields are unchanged |
| Properties.AddChildKeepsNodes | src/types.rs:147-158 | on success every old address remains, with the same name, description, flags and variant; only the addressed node's child count grows, by one |
| Properties.AddChildFrame | src/types.rs:147-158 | on success every node not on the way to the addressed node keeps its whole subtree |
| Properties.AddChildPlacesNewChild | src/types.rs:147-158 | on success the new task is at the addressed node's former child count |
| Properties.AddChildNoOtherPaths | src/types.rs:147-158 | on success every address of the new tree is an old address or lies inside the new task's subtree |
| Scenarios.FreshRootIsReady | src/types.rs:12-23 | a fresh project's root is ready and its status is Ready |
| Scenarios.IncompleteChildMakesRootIncomplete | src/types.rs:107-111 | appending an incomplete child to a fresh root succeeds and makes the root Incomplete |
| Scenarios.AnyNeedsOneCompleteChild | src/types.rs:113-116 | an Any task with no complete child is not ready; with one it is Ready |
| Scenarios.SingleBlockingLeaf | src/types.rs:120-146 | with one blocking leaf below the root both queries return exactly that leaf |
| Scenarios.AddressPastLeafFails | src/types.rs:147-153 | the address [0, 0] below a root whose only child is a leaf fails and leaves the tree unchanged |
| Scenarios.QueryTwoLeaves | src/types.rs:120-146 | on a blocking root with a blocking and a non-blocking leaf, get_completable returns both leaves in order and get_blocking returns only the blocking one |

## Left out

- `display_short`, `display_long` and the `Display` impls: they colour text with the external `colored` crate and rely on `format!` and `Debug` formatting; only the glyph choice per status is modelled (`Glyph`), not the colours or the rest of the text.
- The `Display` impl of `TaskType`: presentation only.
- Borrowed results: `get_blocking` and `get_completable` return references into the tree; the model returns the task values, and node identity is given by addresses (`LeafPaths`).
- In-place update: `add_child` mutates through `&mut self`; the model returns the tree after the call. With single ownership there is no aliasing that this would hide.
- The contents of `name` and `description`: carried as plain strings that no operation inspects.
- Concurrency: the source has none.
