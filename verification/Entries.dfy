/** The manifest entry of walk.rs. */
module Entries {
  import opened Bytes

  datatype Entry = Entry(relPath: string, size: u64, mtime: u64, isDir: bool, readonly: bool)
}
