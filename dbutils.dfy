/** The current tree (src/forest/dbutils.rs). */
module DbUtils {
  import opened Outcomes
  import opened Db

  /** `get_current_tree_name`: the stored current tree if there is one,
      otherwise some tree of the table (the store's `LIMIT 1` picks one
      without an order), and nothing when there is no state row or neither.
      It only reads the store. */
  method GetCurrentTreeName(db: Forest) returns (name: Option<string>)
    requires db.Valid()
    ensures name.None? <==> db.NoCurrent()
    ensures name.Some? ==> db.CurrentCandidate(name.value) && name.value in db.trees
    ensures db.hasState && db.currentTree.Some? ==> name == db.currentTree
  {
    if !db.hasState {
      return None;
    }
    if db.currentTree.Some? {
      return db.currentTree;
    }
    if db.trees == map[] {
      return None;
    }
    var t :| t in db.trees;
    return Some(t);
  }

  /** The tree a note or a frame goes to: the one named, or else the current
      tree, whose absence makes the forest empty. */
  method ResolveTree(db: Forest, treeName: Option<string>) returns (tree: Option<string>)
    requires db.Valid()
    ensures treeName.Some? ==> tree == treeName
    ensures treeName.None? ==> (tree.None? <==> db.NoCurrent())
    ensures treeName.None? && tree.Some? ==> db.CurrentCandidate(tree.value)
  {
    if treeName.Some? {
      tree := treeName;
    } else {
      tree := GetCurrentTreeName(db);
    }
  }
}
