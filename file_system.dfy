/** The part of the file system the program touches, as values: the entries directly
    inside one target directory, the names inside its archive subfolder `.old`, and the
    fallible operations `create_dir_all`, `fs_extra::file::move_file`, `remove_file`,
    `fs::copy` and `fs_extra::dir::copy`. Which operations fail for reasons outside the
    program (permissions, devices, races) is given by a `Faults` value. */
module FileSystem {
  import opened Wrappers

  /** Name of the archive subfolder created inside the target directory. */
  const ARCHIVE: string := ".old"

  /** What `DirEntry::file_type` (or `Path::is_file`/`is_dir`) reports. `Other` is
      anything that is neither a regular file nor a directory (a symbolic link, a socket, …). */
  datatype Kind = File | Folder | Other

  /** A target directory: its direct entries by name, and the names inside its
      archive subfolder. */
  datatype Directory = Directory(entries: map<string, Kind>, archive: set<string>)

  /** What fails for reasons the program does not control: whether `.old` cannot be
      created at all, and the names (of entries, or of source paths) whose move, removal
      or copy fails. */
  datatype Faults = Faults(archiveUncreatable: bool, unmovable: set<string>, undeletable: set<string>,
                           uncopyable: set<string>)

  datatype IoError =
    | CreateDirFailed(path: string)
    | ReadDirFailed
    | RemoveFailed(name: string)
    | CopyFailed(name: string)

  /** What listing a directory that may not exist yields: nothing because it is absent,
      an error from `read_dir`, or the names of its entries in listing order. */
  datatype Listing = Missing | Unreadable | Listed(names: seq<string>)

  predicate IsFile(d: Directory, name: string) {
    name in d.entries && d.entries[name] == File
  }

  /** `create_dir_all(directory.join(".old"))`: unless a fault prevents it, succeeds when
      `.old` is absent (it is created empty) or already a directory (its contents are kept). */
  function CreateArchive(d: Directory, faults: Faults): Result<Directory, IoError> {
    if faults.archiveUncreatable || (ARCHIVE in d.entries && d.entries[ARCHIVE] != Folder) then
      Err(CreateDirFailed(ARCHIVE))
    else Ok(Directory(d.entries[ARCHIVE := Folder], if ARCHIVE in d.entries then d.archive else {}))
  }

  /** `move_file(directory/name, directory/.old/name, CopyOptions::new())`: without
      `overwrite` it refuses an existing destination; otherwise it fails only by a fault. */
  function MoveToArchive(d: Directory, name: string, faults: Faults): Option<Directory> {
    if name in d.archive || name in faults.unmovable then None
    else Some(Directory(d.entries - {name}, d.archive + {name}))
  }

  /** `remove_file(directory/name)`. */
  function RemoveFile(d: Directory, name: string, faults: Faults): Result<Directory, IoError> {
    if name in faults.undeletable then Err(RemoveFailed(name))
    else Ok(d.(entries := d.entries - {name}))
  }

  /** `fs::copy(source, directory/name)`: overwrites a file, cannot replace a directory. */
  function CopyFile(d: Directory, source: string, name: string, faults: Faults): Result<Directory, IoError> {
    if source in faults.uncopyable || (name in d.entries && d.entries[name] == Folder) then Err(CopyFailed(name))
    else Ok(d.(entries := d.entries[name := File]))
  }

  /** `fs_extra::dir::copy(source, directory, overwrite = true)`: the folder is copied
      as `directory/<last component of source>`, merging into an existing folder. */
  function CopyDir(d: Directory, source: string, faults: Faults): Result<Directory, IoError> {
    var target := LastComponent(source);
    if source in faults.uncopyable || (target in d.entries && d.entries[target] != Folder) then Err(CopyFailed(target))
    else Ok(d.(entries := d.entries[target := Folder]))
  }

  /** `Path::join` for a plain file name. */
  function Join(dir: string, name: string): string {
    dir + "/" + name
  }

  /** `Path::file_name`: what follows the last separator. */
  function LastComponent(path: string): string
    decreases |path|
  {
    if path == [] || path[|path| - 1] == '/' then []
    else LastComponent(path[..|path| - 1]) + [path[|path| - 1]]
  }

  /** The last component of `dir/name` is `name`. */
  lemma {:induction false} LastComponentOfJoin(dir: string, name: string)
    requires '/' !in name
    ensures LastComponent(Join(dir, name)) == name
  {
    if name != [] {
      var init := name[..|name| - 1];
      assert Join(dir, name)[..|Join(dir, name)| - 1] == Join(dir, init);
      LastComponentOfJoin(dir, init);
      assert init + [name[|name| - 1]] == name;
    }
  }
}
