# forest: a verified model of the nested-set task store

forest is a command-line task manager. It keeps a *forest* of named trees,
and each tree holds tasks. Every task is a row `(id, tree, left, right,
name, description)` of one SQLite table. The tree structure is never stored
as parent pointers. It is encoded only by the intervals `[left, right]`:

- a task is an ancestor of another exactly when its interval contains the
  other's;
- every tree has a synthetic root with `left = 1`, created as `[1, 2]`.

The store also holds:

- notes, which are attached to a tree's root task;
- time-tracking frames, also attached to a root;
- a single state row that names the current tree.

This project models that store in Dafny:

- `Db.Forest` is a class whose fields are the tables;
- each command is a method that changes those fields and returns a
  `Result`;
- a panic of the program is an `Err(Panic(reason))` outcome;
- every bulk `UPDATE ... SET left = CASE ... END, right = CASE ... END` is a
  function that maps every row of one tree, each row evaluated against the
  old table.

The global invariant is `Db.Consistent`. It says:

- every interval is proper (`left < right`);
- any two tasks of one tree are nested or disjoint;
- a tree's root encloses all its other tasks, and every tree that holds a
  task holds its root;
- identifiers are well formed;
- the foreign keys hold: task to tree, note and frame to a root task, state
  to tree.

Every command is proved to preserve the invariant. Every command also states
its whole outcome: the error it returns, or the new tables.

Modules, one per source file, plus shared ones:

- `Types`: identifiers, short forms, `LIKE` prefix matching.
- `Outcomes`: errors, panics, `Result`, `Option`.
- `NestedSet`: the invariant, and the gap opening and gap closing of `task add` and `task remove`.
- `Reorder`: the parent and child queries and the two move rewrites of `task priority`.
- `Listing`: the stack traversal of `task list`.
- `Query`: `ORDER BY` as a specified sort, and string order.
- `Db`: the tables and the schema's constraints.
- `DbUtils`: the current-tree lookup.
- `Tasks`, `Trees`, `NoteTaking`, `TimeTracking`, `ForestReport`: the commands of `task.rs`, `tree.rs`, `notetaking.rs`, `timetracking.rs` and `forest.rs`.

Values the program gets from outside are parameters of the methods:

- freshly generated identifiers;
- the text an editor returns;
- the current time.

A query with `fetch_one` or `LIMIT 1` may return any matching row. It is
modelled as a method that returns some matching row, and its contract holds
for every choice.

Where the program's comments or documentation and its code disagree, the
model follows the code:

- `task priority` counts the moved task itself among its parent's
  children. It excludes only the parent.
- `start` opens a frame and changes nothing else. It does not close a frame
  that is still open, and it does not switch the current tree.
- `tree rename` of a tree that tasks or the state row still reference is
  refused by the foreign key (no update action). A consistent store
  references every tree that has a root, so only a rootless tree, or a
  rename to the same name, succeeds.
- The `Priority` type's documentation (src/forest/types.rs:28-31) calls 0 the highest priority. The code instead panics on 0: `priority - 1` underflows and `u32::try_from(...).unwrap()` fails (src/forest/task.rs:721). `Tasks.OutOfRange` includes 0.
- `tree remove` of the current tree is refused by the state row's foreign
  key (no delete action). It surfaces as a panic.
- The `get_current_tree_name(...).await?` calls in the command files apply
  `?` to an `Option` inside functions returning `Result`. Their "no
  current tree" outcome is modelled as the `EmptyForest` error.

## Model

| member | source | states |
|---|---|---|
| Types.AlphabetIsHex | src/forest/types.rs:19-21 | the identifier alphabet is exactly the sixteen lower-case hexadecimal digits |
| Types.Short | src/forest/types.rs:24-26 | the short form of an identifier is a prefix of it, seven characters long for any full identifier |
| Types.ShortMatches | src/forest/types.rs:24-26 | every identifier matches its own short form under `LIKE short \|\| '%'` |
| Types.LikeFullUid | src/forest/types.rs:19-26 | for two well-formed identifiers, `LIKE uid \|\| '%'` holds exactly when they are equal |
| Types.HexLike | src/forest/types.rs:19-21 | two equal-length hex strings match under case-insensitive `LIKE` with `_` exactly when equal |
| Query.OrderBy | src/forest/task.rs:495-506 | an `ORDER BY` result holds each selected row exactly once, in the requested order |
| Query.StrLtTotal | src/forest/tree.rs:159-170 | the `ORDER BY tree_name` order is total |
| NestedSet.Pair | src/forest/task.rs:149-181 | two tasks of one tree of a well-nested table are nested or disjoint, and a root encloses the other task |
| NestedSet.DistinctBoundaries | src/forest/task.rs:149-181 | no two tasks of one tree share a boundary value |
| NestedSet.OpenGap | src/forest/task.rs:149-181 | the shift of `add` keeps every row and only moves intervals |
| NestedSet.OpenGapShifts | src/forest/task.rs:149-181 | at parent right `p`, a row of the tree gets `+2` on `left > p` and on `right >= p`, other trees are untouched, and the parent row is among the updated rows, so the zero-rows panic cannot fire |
| NestedSet.InsertedRow | src/forest/task.rs:149-215 | after `add`, each old row is its shifted self and the new row is `[p, p+1]` |
| NestedSet.InsertValid | src/forest/task.rs:149-215 | shifting and inserting `[p, p+1]` under the parent keeps the table well nested |
| NestedSet.OpenGapValid | src/forest/task.rs:149-181 | the shift alone (when the insertion then fails on a duplicate id) keeps the table well nested |
| NestedSet.InsertPlacement | src/forest/task.rs:149-215 | the new task is `[p, p+1]`, the parent's right becomes `p+2`, and the tasks enclosing the new task are exactly the parent and its ancestors: the new task is the parent's last child |
| NestedSet.DeleteSpan | src/forest/task.rs:270-296 | the delete keeps a subset of the rows, unchanged |
| NestedSet.CloseGap | src/forest/task.rs:298-327 | closing the gap keeps every row and only moves intervals |
| NestedSet.SpanIsSubtree | src/forest/task.rs:270-296 | the rows with `left` in `[l, r]` are exactly the removed task and its descendants |
| NestedSet.RemovedRow | src/forest/task.rs:270-327 | after `remove`, the subtree is gone, and every survivor of the tree has both boundaries outside `[l, r]` and loses `r - l + 1` on each boundary above `r`; other trees are unchanged |
| NestedSet.RemoveValid | src/forest/task.rs:270-327 | deleting a subtree and closing the gap keeps the table well nested |
| NestedSet.RemoveKeepsRoots | src/forest/task.rs:270-327 | removing a non-root task keeps every root in place with `left = 1` |
| NestedSet.NarrowWiden | src/forest/task.rs:149-181 | the closing shift undoes the opening shift on every other row |
| NestedSet.GapRoundTrip | src/forest/task.rs:149-327 | inserting `[p, p+1]` and then removing it gives back the table exactly |
| NestedSet.AddThenRemove | src/forest/task.rs:149-327 | adding a task under a parent and then removing that task restores every other task's interval |
| Reorder.ChildrenAreImmediate | src/forest/task.rs:720-778 | the child query returns exactly the tasks immediately below the parent |
| Reorder.NoMiddle | src/forest/task.rs:720-778 | no task lies strictly between a parent and its immediate child |
| Reorder.ParentIsImmediate | src/forest/task.rs:686-718 | the enclosing task with the greatest `left` is the immediate parent |
| Reorder.ParentExists | src/forest/task.rs:686-718 | a non-root task always has an enclosing task (its tree's root), so the parent query cannot come back empty |
| Reorder.MoveLeft | src/forest/task.rs:790-848 | the left-move rewrite keeps every row |
| Reorder.MoveRight | src/forest/task.rs:850-911 | the right-move rewrite keeps every row |
| Reorder.Moved | src/forest/task.rs:780-911 | the move keeps every row and leaves the rows of other trees untouched |
| Reorder.MoveToSelf | src/forest/task.rs:780-911 | a target that is the moved task itself changes nothing |
| Reorder.SiblingsApart | src/forest/task.rs:780-911 | two different children of one parent are disjoint |
| Reorder.BlocksWhole | src/forest/task.rs:780-911 | every task lies wholly inside or wholly outside the moved subtree and the block it swaps with |
| Reorder.LeftMovePair | src/forest/task.rs:790-848 | the left move keeps the nesting and the disjointness of every two rows |
| Reorder.RightMovePair | src/forest/task.rs:850-911 | the right move keeps the nesting and the disjointness of every two rows |
| Reorder.MovedRow | src/forest/task.rs:780-911 | the move rewrites each row by the CASE expressions on its own old values |
| Reorder.MovePair | src/forest/task.rs:780-911 | after the move, every interval is proper, roots stay roots, and every two tasks are nested or disjoint exactly as before |
| Reorder.MoveValid | src/forest/task.rs:780-911 | `priority` keeps the table well nested |
| Reorder.MoveLanding | src/forest/task.rs:780-911 | the subtree lands at the target's `left` on a left move, and ends at the target's `right` on a right move, keeping its width |
| Reorder.MoveKeepsChildren | src/forest/task.rs:780-911 | the parent has the same immediate children after the move |
| Reorder.MoveRankRow | src/forest/task.rs:780-911 | how one sibling's place relative to the moved task changes |
| Reorder.MoveRankMember | src/forest/task.rs:780-911 | the siblings before the moved task after the move are those before the target, with the moved task swapped for the target |
| Reorder.MoveRank | src/forest/task.rs:780-911 | the moved task ends with as many earlier siblings as the target had |
| Reorder.SelectParent | src/forest/task.rs:686-718 | the parent query returns the enclosing task with the greatest `left`, and nothing only when no task encloses |
| Reorder.ChildrenQuery | src/forest/task.rs:720-778 | the child query's `NOT EXISTS` filter selects the immediate children |
| Reorder.SelectChild | src/forest/task.rs:720-778 | the `(priority - 1)`-th child is returned when the parent has that many children, and nothing otherwise |
| Reorder.ParentUnique | src/forest/task.rs:686-718 | a task has one parent |
| Reorder.RankUnique | src/forest/task.rs:720-778 | two children with the same number of earlier siblings are the same child |
| Reorder.RankGrows | src/forest/task.rs:733 | a later child has more earlier siblings |
| Reorder.RankBelowCount | src/forest/task.rs:733 | a child's rank is below the number of children |
| Listing.Above | src/forest/task.rs:533-534 | popping keeps the stack entries above a value, in order |
| Listing.Indents | src/forest/task.rs:541-556 | one indent per ancestor level below the outermost; a level is blank exactly when the deeper entry is the shallower one minus 1, and a bar otherwise |
| Listing.Lines | src/forest/task.rs:508-587 | the listing has a line for every task after the root, in left order |
| Listing.AncDecreasing | src/forest/task.rs:508-587 | the ancestors' rights strictly decrease and lie beyond the task |
| Listing.AboveAnc | src/forest/task.rs:533-534 | popping the previous task's ancestors above the next task's `left` leaves the next task's ancestors |
| Listing.StackAbove | src/forest/task.rs:508-587 | after the pops, the stack holds exactly the rights of the current task's ancestors, root first |
| Listing.StackDecreasing | src/forest/task.rs:508-587 | the stack strictly decreases and never holds the `left` of the next task |
| Listing.AbovePrefix | src/forest/task.rs:533-534 | in a decreasing stack, the values above `v` form a prefix, and the pops remove exactly those below |
| Listing.AncestorsNonEmpty | src/forest/task.rs:533-534 | the root stays at the bottom, so the stack is never emptied |
| Listing.Draw | src/forest/task.rs:508-587 | the listing loop (pop while `left > top`, print, push when `right - left > 1`) yields exactly `Lines` |
| Listing.PopBelow | src/forest/task.rs:533-534 | the pop loop leaves the entries above the task's `left` |
| Listing.IndentsOf | src/forest/task.rs:541-556 | the indent loop over the stack yields exactly `Indents` |
| Listing.LastGlyph | src/forest/task.rs:558 | a task drawn with "└╴" has no later sibling: every later task that starts inside its parent is its descendant |
| Listing.SelectByLeft | src/forest/task.rs:495-506 | the listing query returns the tree's rows, each once, in ascending `left` |
| Listing.LayeredRows | src/forest/task.rs:495-506 | the first row is the root, which encloses all the others, and the rows are properly layered |
| Listing.ByLeftRank | src/forest/task.rs:495-506 | a row's position is the number of rows of the tree with a smaller `left` |
| Listing.ByLeftUnique | src/forest/task.rs:495-506 | the left order of a tree's rows is unique |
| Db.RootUnique | src/forest/tree.rs:60-82 | a tree has at most one root |
| Db.SelectRoot | src/forest/notetaking.rs:106-125 | the root query returns the tree's root, and nothing exactly when the tree has none |
| Db.Forest.constructor | src/forest/dbutils.rs:10-53 | a fresh store is empty and consistent, with a state row naming no tree |
| Db.ReplaceTasks | src/forest/task.rs:149-215 | a new, well-nested task table that keeps the roots and the trees keeps the whole store consistent |
| Db.WithoutTree | src/forest/tree.rs:109-131 | the tasks left after the cascade are exactly those of the other trees |
| Db.NotesOf | src/forest/tree.rs:109-131 | the notes left after the cascade are exactly those whose task survives |
| Db.FramesOf | src/forest/tree.rs:109-131 | the frames left after the cascade are exactly those whose task survives |
| DbUtils.GetCurrentTreeName | src/forest/dbutils.rs:61-94 | returns the stored current tree when it is set, otherwise some tree of the table, and nothing exactly when there is no state row or neither a stored tree nor any tree; it writes nothing |
| DbUtils.ResolveTree | src/forest/notetaking.rs:95-98 | a given tree name is used as is; otherwise the current tree rule applies |
| Tasks.FindUid | src/forest/task.rs:19-58 | searches only non-root tasks of the current tree: one match returns its id, none gives "not found" naming the prefix and tree, several give an error listing every candidate `(id, name)` |
| Tasks.AmbiguousListsTwo | src/forest/task.rs:19-58 | an ambiguity error lists at least two candidates |
| Tasks.FullUidResolves | src/forest/task.rs:19-58 | a full identifier of a non-root task of the tree resolves to itself |
| Tasks.AddLeaves | src/forest/task.rs:149-215 | the tables `add` leaves keep the store consistent, and the parent row is among those shifted |
| Tasks.InsertionParent | src/forest/task.rs:91-140 | the parent is the task the prefix resolves to, or the tree's root when none is given; the resolver's error or the missing-root panic otherwise |
| Tasks.Add | src/forest/task.rs:70-223 | on success the new task is `[p, p+1]` at the parent's right with the table shifted; the short-id collision panics with no change; a duplicate id panics after the shift; the store stays consistent |
| Tasks.RemoveStep | src/forest/task.rs:270-327 | removing a non-root task deletes it, drops no note or frame, and keeps the store consistent |
| Tasks.CascadeKeeps | src/forest/task.rs:270-296 | the delete takes the removed task itself and keeps every root, so the cascade drops no note and no frame |
| Tasks.RemovedShape | src/forest/task.rs:270-327 | removing a non-root task keeps every root and moves no task to another tree |
| Listing.DrawStep | src/forest/task.rs:508-587 | one turn of the listing loop: the pops leave the row's ancestors and never empty the stack, the line is drawn from them, and the next row finds those ancestors plus the row when it has children |
| Tasks.RemoveLeaves | src/forest/task.rs:270-327 | the same facts, stated of the tables the statements of `remove` compute |
| Tasks.RemovedMembers | src/forest/task.rs:270-296 | after `remove` the table holds every task except the removed one and its descendants |
| Tasks.Remove | src/forest/task.rs:232-336 | the resolved task and its subtree are deleted and the gap is closed; resolver errors leave the store unchanged |
| Tasks.Renamed | src/forest/task.rs:376-398 | the rename update keeps every row |
| Tasks.Described | src/forest/task.rs:450-472 | the edit update keeps every row |
| Tasks.OneRowUpdated | src/forest/task.rs:376-398 | the update selects exactly the resolved row, so the "exactly one row" panic cannot fire, and only that row's name or description changes |
| Tasks.UpdateStep | src/forest/task.rs:376-472 | renaming or editing a task keeps the store consistent |
| Tasks.Rename | src/forest/task.rs:339-408 | the `LIKE`-scoped update runs on the resolved id and changes exactly that task's name; errors change nothing |
| Tasks.Edit | src/forest/task.rs:411-481 | the `LIKE`-scoped update runs on the resolved id and changes exactly that task's description; errors change nothing |
| Tasks.List | src/forest/task.rs:484-589 | the lines of the current tree's tasks in left order, without the root; a tree with no row panics |
| Tasks.PriorityLeaves | src/forest/task.rs:780-911 | moving a task to its target keeps the store consistent and leaves it an immediate child of its parent with the target's rank |
| Tasks.TargetUnique | src/forest/task.rs:686-778 | the parent and the target `priority` picks are unique |
| Tasks.NoTarget | src/forest/task.rs:720-778 | when the parent has no more children than `priority - 1`, there is no target |
| Tasks.MoveToRank | src/forest/task.rs:686-911 | priority 0 or beyond 32 bits panics, too few children panics (no change either way), and otherwise the task moves to the target's place and ends with `priority - 1` earlier siblings |
| Tasks.Priority | src/forest/task.rs:650-920 | the resolved task moves as `MoveToRank` says; resolver errors leave the store unchanged |
| Trees.Switch | src/forest/tree.rs:408-447 | the current tree becomes the name; an unknown tree gives "not found" with no change; without a state row nothing changes and the command succeeds |
| Trees.NewRoot | src/forest/tree.rs:60-82 | the new root is `[1, 2]` with an empty name and description |
| Trees.NewTreeShape | src/forest/tree.rs:60-82 | a root for a tree that holds no task keeps the table well nested and rooted |
| Trees.AddLeaves | src/forest/tree.rs:29-82 | the tables `tree add` leaves are consistent, and the new tree's only task is its root |
| Trees.Add | src/forest/tree.rs:14-92 | an existing name gives "already exists" with no root inserted; otherwise the tree row is added, exactly one root `[1, 2]` is created, and the current tree switches to the new tree; a duplicate root id panics |
| Trees.SubTable | src/forest/tree.rs:109-131 | a sub-table of a well-nested table is well nested |
| Trees.RemoveLeaves | src/forest/tree.rs:109-131 | the cascade leaves a consistent store, with the notes and frames of the other trees |
| Trees.Remove | src/forest/tree.rs:101-139 | an unknown tree gives "not found"; the current tree panics; otherwise the tree, its tasks, and their notes and frames are deleted and nothing else changes |
| Trees.RenamedTree | src/forest/tree.rs:300-320 | the new key holds the old description and every other tree is kept |
| Trees.RenameLeaves | src/forest/tree.rs:300-320 | renaming an unreferenced tree keeps the store consistent |
| Trees.Rename | src/forest/tree.rs:291-329 | an unknown tree gives "not found"; a refused rename panics; otherwise only the tree's key changes |
| Trees.Edit | src/forest/tree.rs:338-399 | an unknown tree gives "not found"; otherwise only the tree's description changes |
| Trees.SelectHeads | src/forest/tree.rs:159-170 | the overview query returns every root and every `left = 2` task, each once, ordered by tree name then `left` |
| Trees.EntryOf | src/forest/tree.rs:180-229 | a root gives a header marked exactly for the current tree; a `left = 2` task gives a "next task" line only in long format |
| Trees.List | src/forest/tree.rs:148-233 | with no current tree the result is an error; otherwise the entries of the overview rows in order |
| Trees.EntriesMember | src/forest/tree.rs:180-229 | an entry is in the overview exactly when some row produces it |
| Trees.HeadersAreRoots | src/forest/tree.rs:180-197 | there is a header for exactly the trees that have a root, marked exactly for the current tree |
| Trees.HeadersAscending | src/forest/tree.rs:159-170 | the headers come in strictly ascending tree-name order, so each tree appears once |
| Trees.LongEntries | src/forest/tree.rs:198-229 | in long format there is one entry per row, in order |
| Trees.NextTaskFollowsHeader | src/forest/tree.rs:198-229 | in long format each "next task" line is a `left = 2` task, and it directly follows its own tree's header |
| NoteTaking.FindUid | src/forest/notetaking.rs:20-59 | searches all notes of every tree: one match returns it, none gives "not found", several give an error listing every matching id |
| NoteTaking.AmbiguousListsTwo | src/forest/notetaking.rs:20-59 | an ambiguity error lists at least two ids |
| NoteTaking.FullUidResolves | src/forest/notetaking.rs:20-59 | a full note identifier resolves to itself |
| NoteTaking.TakenShortFound | src/forest/notetaking.rs:77-78 | the short form of an existing note's id never comes back "not found", so the collision check triggers on it |
| NoteTaking.Add | src/forest/notetaking.rs:70-168 | the note is attached to the root of the named or current tree with the time-tracking flag; a missing root gives "tree not found" with no row; a short-id collision or duplicate id panics; nothing else changes |
| NoteTaking.SelectByDate | src/forest/notetaking.rs:186-208 | the listing query returns every note once, newest first |
| NoteTaking.Shown | src/forest/notetaking.rs:220-253 | the filter keeps a subsequence of the listed notes |
| NoteTaking.LineOf | src/forest/notetaking.rs:220-253 | a note's line carries its short id, date, tree and kind |
| NoteTaking.LinesOf | src/forest/notetaking.rs:220-253 | one line per shown note, in order |
| NoteTaking.List | src/forest/notetaking.rs:177-275 | no notes gives an error; otherwise the lines of the notes shown, newest first |
| NoteTaking.PrintLines | src/forest/notetaking.rs:220-253 | the printing loop skips time-tracking notes unless asked to show them, and yields exactly `LinesOf` of the shown notes |
| NoteTaking.ShownIn | src/forest/notetaking.rs:220-253 | a note is shown exactly when it is listed and either time-tracking notes are shown or it is not one |
| NoteTaking.ShownByDate | src/forest/notetaking.rs:186-253 | the shown notes are exactly the notes that pass the filter, each once, newest first |
| NoteTaking.ShownSub | src/forest/notetaking.rs:220-253 | filtering keeps distinctness and the date order |
| NoteTaking.Remove | src/forest/notetaking.rs:284-325 | the resolved note row, and only it, is deleted; resolver errors leave the store unchanged |
| TimeTracking.Start | src/forest/timetracking.rs:14-100 | with no tree given the current tree is used, and an empty forest is an error; a tree without a root gives "not found" with no frame; otherwise exactly one open frame on the root is inserted, leaving every other frame untouched; a duplicate frame id panics |
| ForestReport.SelectFirstTasks | src/forest.rs:34-51 | the report query returns every `left = 2` task, each once |
| ForestReport.EntryOf | src/forest.rs:53-71 | an entry is marked exactly when its tree is the current tree, and carries the task's id exactly when ids are asked for |
| ForestReport.Report | src/forest.rs:16-74 | no current tree gives an error; otherwise one entry per `left = 2` task |
| ForestReport.OnePerTree | src/forest.rs:34-59 | a tree appears in the report exactly when it has a `left = 2` task, and then once; a tree whose only task is its root does not appear |

## Left out

- The SQLite connection, the configuration directory and schema creation (src/forest/dbutils.rs:10-53) are I/O. The tables are in-memory maps and the schema's constraints are the invariant `Db.Consistent`.
- The schema file `src/sql/create_tables.sql` (read at src/forest/dbutils.rs:16) is not part of this model. Its foreign keys are taken as enforced, with these actions:
  - a tree's tasks are deleted with it (`ON DELETE CASCADE`, as the comment at src/forest/tree.rs:109-111 says);
  - a task's notes and frames are deleted with it (`ON DELETE CASCADE`);
  - the state row's reference to a tree has no delete and no update action;
  - `task.tree_name` has no update action.
- Db.Forest.constructor: the store it creates holds a state row with no current tree (`hasState` true, `currentTree` None). That initial row is an assumption, because the file that would create it is not part of this model.
- `Uid::new` and `Uid::short` are not part of this model; `Uid` is a plain `String` at src/forest/types.rs:15. A fresh identifier is taken to be 32 symbols of the alphabet, as `generate_uid` (src/forest/types.rs:24-26) produces it. Its short form is taken to be its first seven characters (`Types.ShortLength`).
- The external editor is not modelled. Its text is a parameter.
- Note bodies are files; creating, reading and deleting them, and the previews in `note list`, are not modelled.
- Text output is not modelled: ANSI styling, colours, padding widths and `println!`. Listings and reports are sequences of abstract lines.
- Random identifier generation is a foreign call. A fresh identifier is a parameter that is well formed.
- Clocks and date formatting are not modelled. Dates are integers passed in.
- The CLI, the dispatch in `main.rs`, and completion generation are plumbing and are not modelled.
- Async execution, the connection pool, and atomicity across statements are not modelled. Each command is one step.
- The `show` commands and `note edit` are outside the modelled core.
- `%` inside a user-typed prefix is not a wildcard in the model; `_` and ASCII case folding are modelled.
- NoteTaking.FindUid: the `Uid::try_from` conversion of the matching id is taken to succeed.
- Panics that a consistent store cannot reach are not written as outcomes. Lemmas show they cannot fire:
  - the "zero rows updated" panics of `task add`, `rename` and `edit` (`NestedSet.OpenGapShifts`, `Tasks.OneRowUpdated`);
  - the "at least update one row (root)" panic after the delete in `task remove` (src/forest/task.rs:319-322): the gap closing updates the tree's root, which survives (`NestedSet.RemoveKeepsRoots`);
  - the two "at least update one row" panics after the moves in `priority` (src/forest/task.rs:840-845, 903-908): the moved task is itself a row of the tree the update selects (`Tasks.MoveToRank` requires it to be in the table);
  - the failed parent query in `priority` (`Reorder.ParentExists`);
  - "not found" after the delete in `task remove` (`Tasks.CascadeKeeps`: the task is not among the kept rows);
  - "not found" after the delete in `note remove` (`NoteTaking.FindUid`: a resolved id is a note of the table);
  - the switch error inside `tree add` (`Trees.Add`: the new tree is in the table when it is switched to).
- Each command looks up the current tree once. The source looks it up again inside `find_uid` (src/forest/task.rs:10). The two lookups are taken to return the same tree, although the `LIMIT 1` fallback could in principle choose differently.
- Listing.LastGlyph: states only that a "└╴" task has no later sibling, not the converse for "├╴".
- `task priority` takes the priority as an unbounded integer below 2^64, the `u64` of the command line.
