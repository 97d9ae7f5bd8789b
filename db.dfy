/** The store: the tree, task, note, frame and state tables, with the
    constraints the schema and the commands keep. */
module Db {
  import opened Types
  import opened Outcomes
  import opened NestedSet

  /** A row of the note table; `task` is the root task of the note's tree. */
  datatype Note = Note(date: int, task: string, timeTracking: bool)

  /** A row of the frame table; an absent `end` marks a frame still open. */
  datatype Frame = Frame(start: int, end: Option<int>, task: string)

  /** The task `root` is the root of `tree`. */
  predicate IsRoot(tasks: map<string, Task>, tree: string, root: string) {
    root in tasks && tasks[root].tree == tree && tasks[root].left == 1
  }

  /** A tree has at most one root. */
  lemma RootUnique(tasks: map<string, Task>, tree: string, a: string, b: string)
    requires WellNested(tasks) && IsRoot(tasks, tree, a) && IsRoot(tasks, tree, b)
    ensures a == b
  {
    if a != b {
      Pair(tasks, a, b);
    }
  }

  /** `SELECT id FROM task WHERE tree_name = ? AND left = 1` with
      `fetch_one`: the root of `tree`, or nothing when the tree has none. */
  method SelectRoot(tasks: map<string, Task>, tree: string) returns (root: Option<string>)
    requires WellNested(tasks)
    ensures root.None? <==> !HasRoot(tasks, tree)
    ensures root.Some? ==> IsRoot(tasks, tree, root.value)
  {
    var roots := set x | x in tasks && tasks[x].tree == tree && tasks[x].left == 1;
    if roots == {} {
      root := None;
      assert forall x :: !IsRoot(tasks, tree, x) by {
        forall x | IsRoot(tasks, tree, x)
          ensures x in roots
        {
        }
      }
    } else {
      var x :| x in roots;
      assert IsRoot(tasks, tree, x);
      root := Some(x);
    }
  }

  /** `id` is the root task of its tree. */
  ghost predicate OnRoot(tasks: map<string, Task>, id: string) {
    id in tasks && tasks[id].left == 1
  }

  /** `tree` has a root task. */
  ghost predicate HasRoot(tasks: map<string, Task>, tree: string) {
    exists root :: IsRoot(tasks, tree, root)
  }

  /** Every tree that holds a task holds its root (drawn for a task where
      its tree's `HasRoot` is mentioned). */
  ghost predicate Rooted(tasks: map<string, Task>) {
    forall id {:trigger HasRoot(tasks, tasks[id].tree)} :: id in tasks ==> HasRoot(tasks, tasks[id].tree)
  }

  /** The tables satisfy the schema's constraints and the nested-set invariant. */
  ghost predicate Consistent(trees: map<string, string>, tasks: map<string, Task>, notes: map<string, Note>,
                             frames: map<string, Frame>, hasState: bool, currentTree: Option<string>)
  {
    && WellNested(tasks)
    && Rooted(tasks)
    && (forall id {:trigger IsUid(id)} :: id in tasks ==> IsUid(id))
    && (forall id :: id in tasks ==> tasks[id].tree in trees)
    && (forall n :: n in notes ==> OnRoot(tasks, notes[n].task))
    && (forall f :: f in frames ==> OnRoot(tasks, frames[f].task))
    && (!hasState ==> currentTree.None?)
    && (currentTree.Some? ==> currentTree.value in trees)
  }

  class Forest {
    /** tree name -> description */
    var trees: map<string, string>
    /** task id -> row */
    var tasks: map<string, Task>
    /** note id -> row */
    var notes: map<string, Note>
    /** frame id -> row */
    var frames: map<string, Frame>
    /** Whether the single row of the state table exists. */
    var hasState: bool
    /** The `current_tree` column of that row. */
    var currentTree: Option<string>

    /** The constraints of the schema (keys, foreign keys) and the nested-set
        invariant. */
    ghost predicate Valid()
      reads this
    {
      Consistent(trees, tasks, notes, frames, hasState, currentTree)
    }

    /** `name` is a value `get_current_tree_name` may return: the stored
        current tree, or, when none is stored, any tree of the table. */
    ghost predicate CurrentCandidate(name: string)
      reads this
    {
      hasState && (currentTree == Some(name) || (currentTree.None? && name in trees))
    }

    /** `get_current_tree_name` returns nothing: no state row, or no stored
        current tree and no tree at all. */
    ghost predicate NoCurrent()
      reads this
    {
      !hasState || (currentTree.None? && trees == map[])
    }

    /** An empty forest. */
    constructor ()
      ensures Valid() && NoCurrent()
      ensures trees == map[] && tasks == map[] && notes == map[] && frames == map[]
      ensures hasState && currentTree == None
    {
      trees := map[];
      tasks := map[];
      notes := map[];
      frames := map[];
      hasState := true;
      currentTree := None;
    }
  }

  /** The trees that hold at least one task. */
  function TreesOf(tasks: map<string, Task>): set<string> {
    set id | id in tasks :: tasks[id].tree
  }

  /** Every root stays the root of its tree in `tasks'`. */
  ghost predicate RootsKept(tasks: map<string, Task>, tasks': map<string, Task>) {
    forall x :: x in tasks && tasks[x].left == 1 ==>
      x in tasks' && tasks'[x].tree == tasks[x].tree && tasks'[x].left == 1
  }

  /** A table whose tasks belong to trees that were rooted before, and which
      keeps the old roots, is rooted. */
  lemma RootedReplaced(tasks: map<string, Task>, tasks': map<string, Task>)
    requires Rooted(tasks) && RootsKept(tasks, tasks')
    requires forall id :: id in tasks' ==> tasks'[id].tree in TreesOf(tasks)
    ensures Rooted(tasks')
  {
    forall id | id in tasks'
      ensures HasRoot(tasks', tasks'[id].tree)
    {
      var y :| y in tasks && tasks[y].tree == tasks'[id].tree;
      assert HasRoot(tasks, tasks[y].tree);
      var root :| IsRoot(tasks, tasks[y].tree, root);
      assert IsRoot(tasks', tasks'[id].tree, root);
    }
  }

  /** A new task table keeps the store consistent when it is well nested,
      keeps every root a root of its tree, and holds only well-formed ids of
      trees that already held tasks. */
  lemma ReplaceTasks(trees: map<string, string>, tasks: map<string, Task>, tasks': map<string, Task>,
                     notes: map<string, Note>, frames: map<string, Frame>, hasState: bool, cur: Option<string>)
    requires Consistent(trees, tasks, notes, frames, hasState, cur)
    requires WellNested(tasks') && RootsKept(tasks, tasks')
    requires forall id :: id in tasks' ==> IsUid(id) && tasks'[id].tree in TreesOf(tasks)
    ensures Consistent(trees, tasks', notes, frames, hasState, cur)
  {
    RootedReplaced(tasks, tasks');
    TreesReplaced(trees, tasks, tasks');
    RefsReplaced(tasks, tasks', notes, frames);
  }

  /** Notes and frames on roots stay on roots when every root is kept. */
  lemma RefsReplaced(tasks: map<string, Task>, tasks': map<string, Task>, notes: map<string, Note>, frames: map<string, Frame>)
    requires RootsKept(tasks, tasks')
    requires forall n :: n in notes ==> OnRoot(tasks, notes[n].task)
    requires forall f :: f in frames ==> OnRoot(tasks, frames[f].task)
    ensures forall n :: n in notes ==> OnRoot(tasks', notes[n].task)
    ensures forall f :: f in frames ==> OnRoot(tasks', frames[f].task)
  {
  }

  /** The trees of a table whose trees all held tasks before are in the
      tree table. */
  lemma TreesReplaced(trees: map<string, string>, tasks: map<string, Task>, tasks': map<string, Task>)
    requires forall id :: id in tasks ==> tasks[id].tree in trees
    requires forall id :: id in tasks' ==> tasks'[id].tree in TreesOf(tasks)
    ensures forall id :: id in tasks' ==> tasks'[id].tree in trees
  {
    forall id | id in tasks'
      ensures tasks'[id].tree in trees
    {
      var y :| y in tasks && tasks[y].tree == tasks'[id].tree;
    }
  }

  /** The rows of a table of `tasks` whose tree is `tree`. */
  function TreeRows(tasks: map<string, Task>, tree: string): set<string> {
    set id | id in tasks && tasks[id].tree == tree
  }

  /** The tasks of the trees other than `tree`. */
  function WithoutTree(tasks: map<string, Task>, tree: string): (r: map<string, Task>)
    ensures forall id :: id in r <==> id in tasks && tasks[id].tree != tree
    ensures forall id :: id in r ==> r[id] == tasks[id]
  {
    map id | id in tasks && tasks[id].tree != tree :: tasks[id]
  }

  /** The notes that still reference a task of `tasks`: the `ON DELETE
      CASCADE` of note.task_id. */
  function NotesOf(notes: map<string, Note>, tasks: map<string, Task>): (r: map<string, Note>)
    ensures forall n :: n in r <==> n in notes && notes[n].task in tasks
    ensures forall n :: n in r ==> r[n] == notes[n]
  {
    map n | n in notes && notes[n].task in tasks :: notes[n]
  }

  /** The frames that still reference a task of `tasks`: the `ON DELETE
      CASCADE` of frame.task_id. */
  function FramesOf(frames: map<string, Frame>, tasks: map<string, Task>): (r: map<string, Frame>)
    ensures forall f :: f in r <==> f in frames && frames[f].task in tasks
    ensures forall f :: f in r ==> r[f] == frames[f]
  {
    map f | f in frames && frames[f].task in tasks :: frames[f]
  }
}
