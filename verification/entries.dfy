/** The entries a crawl reports (src/types.ts). Folder entries carry no size
    and no MIME type, so those fields are left out of them; a date is the
    parsed calendar fields rather than their ISO-8601 rendering. */
module Entries {
  import opened Wrappers
  import Urls
  import Dates

  /** How a folder relates to the starting directory. */
  datatype Role = RootRole | SelfRole | ParentRole | ChildRole

  datatype FolderEntry = FolderEntry(url: Urls.Url, rawName: string, name: string, hidden: bool,
                                     date: Option<Dates.DateFields>, role: Role, depth: nat)

  /** `mime` is `None` while unset or when the probe reported no Content-Type. */
  datatype FileEntry = FileEntry(url: Urls.Url, rawName: string, name: string, hidden: bool,
                                 size: Option<nat>, date: Option<Dates.DateFields>,
                                 mime: Option<string>)

  /** A folder of the tree. A file is shared between the tree and the flat
      file list, so a node's `files` are positions in that list. */
  datatype FolderNode = FolderNode(entry: FolderEntry, children: seq<FolderNode>, files: seq<nat>)
}
