/**
 * The backing files of tables, measured in whole records. A DbFile is an open
 * file handle (FILE *): every handle opened on a name since that name was last
 * written with Write is the same object, so a write through one of them is seen
 * by the next `stat` on that name. Write installs a new file object, so a
 * handle opened before it keeps the old records.
 */
module Files {
  import opened Users

  class DbFile {
    /** The records stored in the file, in file order. */
    var records: seq<User>

    constructor (records: seq<User>)
      ensures this.records == records
    {
      this.records := records;
    }
  }

  class FileSystem {
    /** The files that exist, by name. */
    var files: map<string, DbFile>

    constructor ()
      ensures files == map[]
    {
      files := map[];
    }

    /** The records in the file called `name`; a missing file reads as empty. */
    ghost function RecordsOf(name: string): (rs: seq<User>)
      reads this, files.Values
    {
      if name in files then files[name].records else []
    }

    /** Opens `name` for reading and appending, creating an empty file if it is missing. */
    method Open(name: string) returns (f: DbFile)
      modifies this
      ensures name in old(files) ==> f == old(files[name]) && files == old(files)
      ensures name !in old(files) ==> fresh(f) && f.records == [] && files == old(files)[name := f]
      ensures name in files && files[name] == f
    {
      if name in files {
        f := files[name];
      } else {
        f := new DbFile([]);
        files := files[name := f];
      }
    }

    /** Creates (or replaces) the file `name` holding exactly `records`. */
    method Write(name: string, records: seq<User>) returns (f: DbFile)
      modifies this
      ensures fresh(f) && f.records == records && files == old(files)[name := f]
    {
      f := new DbFile(records);
      files := files[name := f];
    }
  }
}
