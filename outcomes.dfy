/** What a command of the forest returns: a value, a user-facing error, or one
    of the panics by which the source aborts on a broken assumption. */
module Outcomes {

  /** Why the source panics. */
  datatype PanicReason =
    | UidCollision        // a fresh identifier's short form already resolves
    | DuplicateId         // an INSERT hit an existing primary key
    | MissingRoot         // a tree has no task with left = 1
    | MissingParent       // no task encloses the task to move
    | PriorityOutOfRange  // priority 0, or priority - 1 does not fit in 32 bits
    | NoSuchChild         // the parent has fewer children than the priority asks
    | EmptyTree           // an update or a listing found no row of the tree
    | ConstraintViolation // the store refused a statement (unique or foreign key)

  datatype Error =
    | EmptyForest                                               // no current tree
    | TaskNotFound(prefix: string, tree: string)
    | AmbiguousTask(prefix: string, candidates: set<(string, string)>)  // id, name
    | TreeExists(name: string)
    | TreeNotFound(name: string)
    | NoteNotFound(prefix: string)
    | AmbiguousNote(prefix: string, ids: set<string>)
    | NoNotes
    | Panic(reason: PanicReason)

  datatype Result<+T> = Ok(value: T) | Err(error: Error)

  datatype Option<+T> = None | Some(value: T)
}
