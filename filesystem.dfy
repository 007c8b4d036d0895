/** The part of the file system the handlers see: a map from path strings to
    nodes, and the one write the program ever performs. */
module FileSystem {
  import opened Wrappers

  /** What `metadata` reports for a path, with what a later read would return:
      the entries of a directory (as `read_dir` yields them, each the directory
      joined with a name) or the text of a regular file; `None` when that read
      fails. `Other` is anything that is neither a directory nor a file. */
  datatype Node =
    | Dir(entries: Option<seq<string>>)
    | File(content: Option<string>)
    | Other

  /** A path missing from the map is one whose `metadata` call fails. */
  type Files = map<string, Node>

  /** The file every accepted edit overwrites, whatever path was asked for. */
  const WRITE_TARGET: string := "./test.txt"

  /** Opening for writing with truncation, but without creation, succeeds only
      on an existing regular file. */
  predicate CanOpenForWrite(files: Files) {
    WRITE_TARGET in files && files[WRITE_TARGET].File?
  }

  /** The file system after `write_string_to_file_truncate`, or `None` when it
      fails: the target then holds exactly `content`, and every other path is
      as it was. */
  function Truncated(files: Files, content: string): (r: Option<Files>)
    ensures r.Some? <==> CanOpenForWrite(files)
    ensures r.Some? ==> r.value.Keys == files.Keys
    ensures r.Some? ==> r.value[WRITE_TARGET] == File(Some(content))
    ensures r.Some? ==> forall p :: p in files && p != WRITE_TARGET ==> r.value[p] == files[p]
  {
    if CanOpenForWrite(files) then Some(files[WRITE_TARGET := File(Some(content))]) else None
  }

  /** The host file system, which the edit handler changes in place. */
  class Disk {
    var files: Files

    constructor (files: Files)
      ensures this.files == files
    {
      this.files := files;
    }

    /** Truncates `./test.txt` and writes `content` to it; `fpath` is accepted
        and ignored. Returns whether the write went through. */
    method WriteStringToFileTruncate(fpath: string, content: string) returns (ok: bool)
      modifies this
      ensures ok <==> CanOpenForWrite(old(files))
      ensures ok ==> files == Truncated(old(files), content).value
      ensures !ok ==> files == old(files)
    {
      ok := CanOpenForWrite(files);
      if ok {
        files := files[WRITE_TARGET := File(Some(content))];
      }
    }
  }
}
