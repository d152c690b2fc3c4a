/** The repository objects that handles are bound to. */
module Objects {

  /**
   * A DSpace object, identified by its id. Only items take part in
   * versioning; every other kind (community, collection, ...) is `Other`.
   */
  datatype Obj = Item(id: nat) | Other(id: nat)
}
