/**
  The file system the scraper reads from and writes to.  Pathnames are plain strings (no two
  spellings of one file are identified); `faults` names the paths whose operations raise an
  `IOException`, with the message that exception carries.
*/
module Disks {
  import opened Wrappers
  import opened Base64

  datatype Disk = Disk(files: map<string, seq<Byte>>, dirs: set<string>, faults: map<string, string>)

  /** The reasons the JVM appends to the path in the message of a `FileNotFoundException`. */
  const IsADirectory: string := " (Is a directory)"
  const NotADirectory: string := " (Not a directory)"
  const NoSuchFile: string := " (No such file or directory)"

  /** `new File(dir).mkdirs()`: creates the directory unless it cannot be created, which is
      the case for a faulty path and for one that names an existing regular file.  The
      boolean it returns is ignored by the caller, so a failure here says nothing; it shows
      only later, when a file in the directory cannot be opened. */
  function Mkdirs(d: Disk, dir: string): (r: Disk)
    ensures r.files == d.files && r.faults == d.faults
    ensures r.dirs == if dir in d.faults || dir in d.files then d.dirs else d.dirs + {dir}
  {
    if dir in d.faults || dir in d.files || dir in d.dirs then d else d.(dirs := d.dirs + {dir})
  }

  /** `Files.readAllBytes(path)`: a faulty path raises its message, a directory raises
      "Is a directory", and a missing file a `NoSuchFileException` whose message is the path. */
  function Read(d: Disk, path: string): (r: Result<seq<Byte>, string>)
    ensures r.Success? <==> path !in d.faults && path !in d.dirs && path in d.files
    ensures r.Success? ==> r.value == d.files[path]
  {
    if path in d.faults then Failure(d.faults[path])
    else if path in d.dirs then Failure("Is a directory")
    else if path in d.files then Success(d.files[path])
    else Failure(path)
  }

  /** Why opening `path` in directory `dir` for writing fails (`FileNotFoundException`), if it
      does: the path is faulty, names a directory, or `dir` is not a directory, being a
      regular file or not existing at all. */
  function WriteError(d: Disk, dir: string, path: string): Option<string>
  {
    if path in d.faults then Some(d.faults[path])
    else if path in d.dirs then Some(path + IsADirectory)
    else if dir !in d.dirs then
      if dir in d.files then Some(path + NotADirectory)
      else Some(path + NoSuchFile)
    else None
  }

  /** `new FileWriter(path)` followed by writing `data` and closing: the file is created or
      overwritten with exactly `data`, and nothing else changes. */
  function Write(d: Disk, dir: string, path: string, data: seq<Byte>): (r: Result<Disk, string>)
    ensures r.Failure? <==> WriteError(d, dir, path).Some?
    ensures r.Failure? ==> r.error == WriteError(d, dir, path).value
    ensures r.Success? ==> r.value.files == d.files[path := data]
    ensures r.Success? ==> r.value.dirs == d.dirs && r.value.faults == d.faults
  {
    match WriteError(d, dir, path)
    case Some(msg) => Failure(msg)
    case None => Success(d.(files := d.files[path := data]))
  }

  /** Creating a directory twice is the same as creating it once. */
  lemma MkdirsIdempotent(d: Disk, dir: string)
    ensures Mkdirs(Mkdirs(d, dir), dir) == Mkdirs(d, dir)
  {
  }

  /** After creating the output directory, a write into it fails only for a faulty path, a
      path that is itself a directory, and when `dir` is a regular file. */
  lemma WriteAfterMkdirs(d: Disk, dir: string, path: string)
    requires dir !in d.faults
    ensures WriteError(Mkdirs(d, dir), dir, path).Some?
        <==> path in d.faults || path in d.dirs || path == dir || (dir in d.files && dir !in d.dirs)
  {
  }

  /** When the output directory names a regular file, `mkdirs` changes nothing and every
      write into it fails with "Not a directory", unless its path is faulty or a directory. */
  lemma MkdirsOverFile(d: Disk, dir: string, path: string)
    requires dir in d.files && dir !in d.dirs
    requires path !in d.faults && path !in d.dirs
    ensures Mkdirs(d, dir) == d
    ensures WriteError(Mkdirs(d, dir), dir, path) == Some(path + NotADirectory)
  {
  }

  /** Whether a write fails depends only on the directories, the faults and whether `dir`
      itself is a file, not on which other files exist. */
  lemma WriteErrorIgnoresFiles(d: Disk, e: Disk, dir: string, path: string)
    requires d.dirs == e.dirs && d.faults == e.faults && (dir in d.files <==> dir in e.files)
    ensures WriteError(d, dir, path) == WriteError(e, dir, path)
  {
  }

  /** The host file system, changed in place by the scraper. */
  class FileSystem {
    var files: map<string, seq<Byte>>
    var dirs: set<string>
    const faults: map<string, string>

    constructor (files0: map<string, seq<Byte>>, dirs0: set<string>, faults0: map<string, string>)
      ensures State() == Disk(files0, dirs0, faults0)
    {
      files, dirs, faults := files0, dirs0, faults0;
    }

    /** The current contents, as a value. */
    function State(): Disk
      reads this
    {
      Disk(files, dirs, faults)
    }

    /** `new File(dir).mkdirs()`. */
    method MakeDirs(dir: string)
      modifies this
      ensures State() == Mkdirs(old(State()), dir)
    {
      if dir !in faults && dir !in files && dir !in dirs {
        dirs := dirs + {dir};
      }
    }

    method ReadAllBytes(path: string) returns (r: Result<seq<Byte>, string>)
      ensures r == Read(State(), path)
    {
      if path in faults {
        r := Failure(faults[path]);
      } else if path in dirs {
        r := Failure("Is a directory");
      } else if path in files {
        r := Success(files[path]);
      } else {
        r := Failure(path);
      }
    }

    /** Writes `data` to `path` in `dir`, or reports the `IOException` message. */
    method WriteFile(dir: string, path: string, data: seq<Byte>) returns (error: Option<string>)
      modifies this
      ensures error == WriteError(old(State()), dir, path)
      ensures State() == if error.Some? then old(State())
                         else Write(old(State()), dir, path, data).value
    {
      error := WriteError(State(), dir, path);
      if error.None? {
        files := files[path := data];
      }
    }
  }
}
