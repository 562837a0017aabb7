/** The `File` catalog record of backend/core/models.py, as far as the core
    reads and writes it. */
module Models {

  /** One catalog row: the path it was saved under, the file's name, its
      type string and its size in bytes. The store-assigned id is the row's
      position (see `IdAt`); timestamps are not modelled. */
  datatype FileRecord = FileRecord(path: string, name: string, fileType: string, size: nat)

  /** The id the store assigns to the row at position `i`: ids count up from
      1 and the core never deletes a row. */
  function IdAt(i: nat): nat {
    i + 1
  }
}
