/**
 The two tables of schema.sql as values: `dir` maps an id to its row, `data` maps (dir_id,
 block_no) to a block of bytes, `serial` bounds the ids handed out by the BIGSERIAL sequence.
 The owner, permission bits and time stamps of an entry are not part of this model.
 */
module Tables {
  import opened FlatFile

  type Id = nat

  const ROOT: Id := 0
  const ROOT_NAME := "/"

  datatype Option<+T> = None | Some(value: T)

  datatype Kind = Directory | Regular | Symlink

  datatype Entry = Entry(parent: Id, name: string, size: nat, kind: Kind)

  type Dir = map<Id, Entry>

  datatype BlockKey = BlockKey(file: Id, no: nat)

  type Data = map<BlockKey, seq<byte>>

  datatype Tables = Tables(dir: Dir, data: Data, serial: Id)

  /** What schema.sql leaves behind: the self-parented root and nothing else. */
  const GENESIS := Tables(map[ROOT := Entry(ROOT, ROOT_NAME, 0, Directory)], map[], 1)

  /** The file-type bits of `st_mode` (S_IFDIR, S_IFREG, S_IFLNK). */
  function TypeBits(kind: Kind): nat {
    match kind
    case Directory => 16384
    case Regular => 32768
    case Symlink => 40960
  }

  /** S_ISDIR masks the four type bits; the `dir_remove` rule tests the single bit 16384. */
  predicate IsDirMode(mode: nat) { mode / 4096 % 16 == 4 }

  predicate RuleDirRemoveApplies(mode: nat) { mode / 16384 % 2 == 0 }

  /** A token of `strtok_r(path, "/")`: non-empty and without a slash. */
  predicate ValidName(name: string) {
    name != "" && '/' !in name
  }

  type Name = s: string | ValidName(s) witness "a"

  type Path = seq<Name>

  ghost predicate ValidPath(path: seq<string>) {
    forall i | 0 <= i < |path| :: ValidName(path[i])
  }

  /** dirname(3) and basename(3); the root path is its own parent and is called "/". */
  function Dirname(path: Path): Path {
    if path == [] then [] else path[..|path| - 1]
  }

  function Basename(path: Path): string {
    if path == [] then ROOT_NAME else path[|path| - 1]
  }

  // ----- values of errno

  const EPERM := 1
  const ENOENT := 2
  const EIO := 5
  const EBADF := 9
  const ENOMEM := 12
  const EEXIST := 17
  const ENOTDIR := 20
  const EISDIR := 21
  const EINVAL := 22
  const EROFS := 30
  const ENOTEMPTY := 39
}
