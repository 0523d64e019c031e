/** The part of the file system the snapshot harness touches, as the set of
    paths that name existing regular files. */
module Disk {

  class FileSet {
    var files: set<string>

    constructor (existing: set<string>)
      ensures files == existing
    {
      files := existing;
    }

    /** `FileExists`: the path exists and is a regular file. */
    predicate FileExists(path: string)
      reads this
    {
      path in files
    }

    /** raylib's `TakeScreenshot`: writes (or overwrites) an image file. */
    method TakeScreenshot(path: string)
      modifies this
      ensures files == old(files) + {path}
    {
      files := files + {path};
    }

    /** `RemoveFile`: `std::filesystem::remove`, which does nothing when the
        path does not exist. */
    method RemoveFile(path: string)
      modifies this
      ensures files == old(files) - {path}
    {
      files := files - {path};
    }
  }
}
