/**
 * The disk the backup engine works on: full paths mapped to file records,
 * plus the set of directories that exist. `FileSystem` is the mutable disk
 * with the `System.IO` calls the engine makes; `FsSnapshot` is its value at
 * one moment, on which the engine's operations are specified.
 */
module Files {
  import opened Wrappers
  import opened Strings
  import opened DateTimes

  newtype byte = x: int | 0 <= x < 256

  datatype FileRecord = FileRecord(content: seq<byte>, lastWriteTime: DateTime)

  datatype FsSnapshot = FsSnapshot(files: map<string, FileRecord>, dirs: set<string>)

  /** Every file sits in a directory that exists and carries a time in range. */
  predicate WellFormed(s: FsSnapshot) {
    forall p :: p in s.files ==> DirectoryName(p) in s.dirs && s.files[p].lastWriteTime.Valid()
  }

  /** `File.GetLastWriteTime(path)`: the file's time, or 1601-01-01 when the
      file does not exist (the call does not throw). */
  function LastWriteTime(s: FsSnapshot, path: string): (t: DateTime)
    ensures WellFormed(s) ==> t.Valid()
  {
    if path in s.files then s.files[path].lastWriteTime else MissingFileTime
  }

  /** The exceptions `File.Replace` raises. */
  datatype IoError =
    | SourceNotFound        // FileNotFoundException for the replacement file
    | DestinationNotFound   // FileNotFoundException for the file being replaced
    | DirectoryNotFound     // DirectoryNotFoundException for the backup's directory

  /** `File.Replace(source, destination, destinationBackup)` as one atomic
      step: the destination's record moves to `destinationBackup` (replacing
      whatever was there) and the source's record moves to `destination`. */
  function FileReplace(s: FsSnapshot, source: string, destination: string, destinationBackup: string)
    : (r: Result<FsSnapshot, IoError>)
    requires source != destination && source != destinationBackup && destination != destinationBackup
    ensures r.Failure? <==>
      source !in s.files || destination !in s.files || DirectoryName(destinationBackup) !in s.dirs
    ensures r.Success? ==>
      r.value.dirs == s.dirs && r.value.files.Keys == s.files.Keys - {source} + {destinationBackup}
  {
    if source !in s.files then Failure(SourceNotFound)
    else if destination !in s.files then Failure(DestinationNotFound)
    else if DirectoryName(destinationBackup) !in s.dirs then Failure(DirectoryNotFound)
    else
      var moved := (s.files - {source})[destination := s.files[source]];
      Success(s.(files := moved[destinationBackup := s.files[destination]]))
  }

  /** After a successful replace the destination holds the source's record,
      the backup name holds the destination's old record, the source name is
      gone, and every other file and every directory is as it was. */
  lemma FileReplaceMoves(s: FsSnapshot, source: string, destination: string, destinationBackup: string, p: string)
    requires source != destination && source != destinationBackup && destination != destinationBackup
    requires FileReplace(s, source, destination, destinationBackup).Success?
    ensures var r := FileReplace(s, source, destination, destinationBackup).value;
      && r.files[destination] == s.files[source]
      && r.files[destinationBackup] == s.files[destination]
      && source !in r.files
      && r.dirs == s.dirs
      && (p != source && p != destination && p != destinationBackup ==>
            (p in r.files <==> p in s.files) && (p in s.files ==> r.files[p] == s.files[p]))
  {
  }

  /** A successful replace keeps every file in an existing directory with a
      time in range. */
  lemma FileReplacePreservesWellFormed(s: FsSnapshot, source: string, destination: string, destinationBackup: string)
    requires source != destination && source != destinationBackup && destination != destinationBackup
    requires WellFormed(s)
    requires FileReplace(s, source, destination, destinationBackup).Success?
    ensures WellFormed(FileReplace(s, source, destination, destinationBackup).value)
  {
    var r := FileReplace(s, source, destination, destinationBackup).value;
    forall p | p in r.files
      ensures DirectoryName(p) in r.dirs && r.files[p].lastWriteTime.Valid()
    {
      FileReplaceMoves(s, source, destination, destinationBackup, p);
    }
  }

  /** The disk, updated in place by the `System.IO` calls. */
  class FileSystem {
    var files: map<string, FileRecord>
    var dirs: set<string>

    function State(): FsSnapshot
      reads this
    {
      FsSnapshot(files, dirs)
    }

    constructor (initial: FsSnapshot)
      ensures State() == initial
    {
      files := initial.files;
      dirs := initial.dirs;
    }

    /** `File.Exists(path)`. */
    method FileExists(path: string) returns (b: bool)
      ensures b <==> path in files
    {
      b := path in files;
    }

    /** `Directory.Exists(path)`. */
    method DirectoryExists(path: string) returns (b: bool)
      ensures b <==> path in dirs
    {
      b := path in dirs;
    }

    /** `File.GetLastWriteTime(path)`. */
    method GetLastWriteTime(path: string) returns (t: DateTime)
      ensures t == LastWriteTime(State(), path)
    {
      t := if path in files then files[path].lastWriteTime else MissingFileTime;
    }

    /** `Directory.CreateDirectory(path)`. */
    method CreateDirectory(path: string)
      modifies this
      ensures files == old(files) && dirs == old(dirs) + {path}
    {
      dirs := dirs + {path};
    }

    /** `File.Copy(source, destination)`: the copy starts with the source's
        bytes and time; the call throws if the destination exists or its
        directory does not, which callers rule out. */
    method Copy(source: string, destination: string)
      requires source in files && destination !in files && DirectoryName(destination) in dirs
      modifies this
      ensures files == old(files)[destination := old(files)[source]] && dirs == old(dirs)
    {
      files := files[destination := files[source]];
    }

    /** `File.SetLastWriteTime(path, time)`. */
    method SetLastWriteTime(path: string, time: DateTime)
      requires path in files
      modifies this
      ensures files == old(files)[path := old(files)[path].(lastWriteTime := time)]
      ensures dirs == old(dirs)
    {
      files := files[path := files[path].(lastWriteTime := time)];
    }

    /** `File.Replace(source, destination, destinationBackup)`: on an
        exception nothing changes. */
    method Replace(source: string, destination: string, destinationBackup: string)
      returns (r: Outcome<IoError>)
      requires source != destination && source != destinationBackup && destination != destinationBackup
      modifies this
      ensures match FileReplace(old(State()), source, destination, destinationBackup)
        case Success(next) => r == Pass && State() == next
        case Failure(e) => r == Fail(e) && State() == old(State())
    {
      var result := FileReplace(State(), source, destination, destinationBackup);
      match result
      case Success(next) =>
        files, dirs := next.files, next.dirs;
        r := Pass;
      case Failure(e) =>
        r := Fail(e);
    }
  }
}
