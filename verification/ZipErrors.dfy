/** The error codes of the archive reader. */
module ZipErrors {
  datatype ZipError =
    | InvalidFile | InvalidOffset | EmptyArchive | InvalidEntryName | DuplicateEntry | EntryNotFound
    | InconsistentInformation | ReadFailed
}
