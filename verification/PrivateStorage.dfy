/** How writing a private file ends (private_write_atomically in src/platform/private_storage.cpp). */
module PrivateStorage {
  /** The new file is put in place before its directory is synchronised, so the write may take place although it is
      reported as a failure. */
  datatype Write = Written | NotWritten | WrittenUnreported
  {
    predicate Installs() { this != NotWritten }
  }
}
