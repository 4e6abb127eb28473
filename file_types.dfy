/**
 * The file-system node shared by every participant of a room
 * (client/src/types/file.ts). Only the record is modelled here: the tree
 * operations that the file context declares are implemented elsewhere.
 */
module FileTypes {
  import opened Wrappers

  /** The `type` field of a node ("file" | "directory"); `type` is a Dafny keyword. */
  datatype FileKind = File | Directory

  /**
   * A node of the room tree. `children` is present on directories only,
   * `content` on files only, `isOpen` is the local expansion flag.
   */
  datatype FileSystemItem = FileSystemItem(
    id: string,
    name: string,
    kind: FileKind,
    children: Option<seq<FileSystemItem>>,
    content: Option<string>,
    isOpen: Option<bool>
  )
}
