/** The files the registrar worker leaves in its output directory, as the
    file system holds them: a saved hive, or the JSON of a file's metadata. */
module FileSystem {
  import opened PEMetadata

  datatype HostFile =
    /** A hive saved from a key: the paths of the keys in it, relative to that key. */
    | HiveFile(keys: set<seq<string>>)
    /** `fileinfo.json`: the serialised `FileInformation`. */
    | JsonFile(info: Metadata)

  class Files {
    var files: map<string, HostFile>

    constructor(files: map<string, HostFile>)
      ensures this.files == files
    {
      this.files := files;
    }

    /** `File.Delete`: a missing file is not an error. */
    method Delete(path: string)
      modifies this
      ensures files == old(files) - {path}
    {
      files := files - {path};
    }

    /** A write that creates or replaces the file, or fails leaving it as it was. */
    method Write(path: string, content: HostFile, fails: bool) returns (ok: bool)
      modifies this
      ensures ok == !fails
      ensures files == if ok then old(files)[path := content] else old(files)
    {
      if fails {
        return false;
      }
      files := files[path := content];
      ok := true;
    }
  }
}
