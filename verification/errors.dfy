/** Error kinds and result wrappers shared by the storage model and the repository. */
module Errors {

  /** The failures the repository lets through to its caller unchanged. */
  datatype Error =
    | UnknownField    // a filter or a create input names a column the entity type does not have
    | MissingTarget   // delete was handed nothing: the looked-up id is not stored
    | NotPersisted    // delete was handed an entity that was never stored
    | StaleData       // an update targets a row that is no longer stored
    | IntegrityError  // a constraint failed at commit: duplicate or non-integer id, NULL in a NOT NULL column
    | RefreshFailed   // the row to reload after a commit is not stored
    | MalformedChange // an `update_multi` element lacks its entity or its update data

  datatype Option<+T> = None | Some(value: T)

  datatype Result<+T> = Ok(value: T) | Err(error: Error)
}
