/** The `post_save` receiver of backend/core/signals.py: every save of a
    `File` row, created or updated, indexes that row once, synchronously. */
module Signals {
  import opened Models
  import opened SearchIndex

  /** `update_index(sender, instance, created)`: calls `index_file(instance)`. */
  method UpdateIndex(ix: IndexStore, id: nat, row: FileRecord)
    requires ix.Valid()
    modifies ix
    ensures ix.Valid()
    ensures ix.State() == IndexFileSpec(old(ix.State()), id, row.path, row.name)
  {
    ix.IndexFile(id, row.path, row.name);
  }
}
