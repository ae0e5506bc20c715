/**
 Whole-file replacement through a temporary file (cmd/showmesh-fpp-plugin/jsonfile.go).

 `FileSystem` is a directory tree in which every single system call is an observable point: `trace`
 records the contents after each of them, including every partial write, so a claim about all of
 `trace` is a claim about a process killed anywhere.
 */
module Files {
  import opened Sequences

  type Bytes = seq<bv8>
  type Path = string
  type Contents = map<Path, Bytes>

  /** What a reader of one typed file can find. */
  datatype File<+T> = Absent | Unreadable | Holds(value: T)

  /** What one read of a file gives: an error other than "does not exist" hides an intact file. */
  function Seen<T>(file: File<T>, fault: bool): File<T> {
    if fault then Unreadable else file
  }

  /** Which system calls fail; `written` is how many bytes land before a write error, if fewer than
      asked for. */
  datatype Faults = Faults(create: bool, written: nat, close: bool, chmod: bool, rename: bool, remove: bool)

  /** Apart from the temporary name, `now` is `before`. */
  ghost predicate Untouched(before: Contents, now: Contents, tmp: Path) {
    now - {tmp} == before - {tmp}
  }

  /** Apart from the temporary name, `now` is `before` with `path` replaced by all of `data`. */
  ghost predicate Replaced(before: Contents, now: Contents, tmp: Path, path: Path, data: Bytes) {
    now - {tmp} == before[path := data] - {tmp}
  }

  /** The points of `trace` from `start` on: a replacement that succeeds changes the target at its
      last point and nowhere before, and one that fails changes it nowhere. */
  ghost predicate SwitchesAtTheEnd(trace: seq<Contents>, start: nat, before: Contents, tmp: Path, path: Path,
                                   data: Bytes, ok: bool)
    requires start <= |trace|
  {
    && (ok ==> start < |trace| && Replaced(before, trace[|trace| - 1], tmp, path, data))
    && forall i :: start <= i < (if ok then |trace| - 1 else |trace|) ==> Untouched(before, trace[i], tmp)
  }

  class FileSystem {
    var files: Contents
    ghost var trace: seq<Contents>

    /** Creates an empty file under a name that must not exist yet (O_EXCL). */
    method CreateTemp(name: Path, fails: bool) returns (ok: bool)
      modifies this
      ensures ok == (!fails && name !in old(files))
      ensures files == if ok then old(files)[name := []] else old(files)
      ensures trace == old(trace) + [files]
    {
      ok := !fails && name !in files;
      if ok {
        files := files[name := []];
      }
      trace := trace + [files];
    }

    /** Writes `data` to the empty file `name`, one observable byte at a time. */
    method Write(name: Path, data: Bytes, written: nat) returns (ok: bool)
      requires name in files && files[name] == []
      modifies this
      ensures ok == (|data| <= written)
      ensures name in files && files == old(files)[name := files[name]]
      ensures files[name] <= data && (ok ==> files[name] == data)
      ensures old(trace) <= trace
      ensures forall i :: |old(trace)| <= i < |trace| ==> Untouched(old(files), trace[i], name)
    {
      var n := if |data| <= written then |data| else written;
      var k := 0;
      while k < n
        invariant 0 <= k <= n
        invariant name in files && files == old(files)[name := data[..k]]
        invariant old(trace) <= trace
        invariant forall i :: |old(trace)| <= i < |trace| ==> Untouched(old(files), trace[i], name)
      {
        k := k + 1;
        files := files[name := data[..k]];
        trace := trace + [files];
      }
      ok := |data| <= written;
    }

    method Rename(from: Path, to: Path, fails: bool) returns (ok: bool)
      requires from in files
      modifies this
      ensures ok == !fails
      ensures files == if ok then (old(files) - {from})[to := old(files)[from]] else old(files)
      ensures trace == old(trace) + [files]
    {
      ok := !fails;
      if ok {
        files := (files - {from})[to := files[from]];
      }
      trace := trace + [files];
    }

    method Remove(name: Path, fails: bool)
      modifies this
      ensures files == if fails then old(files) else old(files) - {name}
      ensures trace == old(trace) + [files]
    {
      if !fails {
        files := files - {name};
      }
      trace := trace + [files];
    }
  }

  /** Puts `data` into a new temporary file, or leaves none behind: the part of a replacement that
      comes before the rename. `abandon` is any reason besides a failed call to give up. */
  method Stage(fs: FileSystem, tmp: Path, data: Bytes, abandon: bool, faults: Faults) returns (staged: bool)
    modifies fs
    ensures old(fs.trace) <= fs.trace
    ensures forall i :: |old(fs.trace)| <= i < |fs.trace| ==> Untouched(old(fs.files), fs.trace[i], tmp)
    ensures staged == (!faults.create && tmp !in old(fs.files) && |data| <= faults.written && !faults.close && !abandon)
    ensures staged ==> fs.files == old(fs.files)[tmp := data]
    ensures !staged ==> Untouched(old(fs.files), fs.files, tmp)
    ensures !staged && !faults.remove && tmp !in old(fs.files) ==> fs.files == old(fs.files)
  {
    var created := fs.CreateTemp(tmp, faults.create);
    if !created {
      return false;
    }
    var wrote := fs.Write(tmp, data, faults.written);
    // close changes no contents
    staged := wrote && !faults.close && !abandon;
    if !staged {
      fs.Remove(tmp, faults.remove);
    }
  }

  /** Renames the staged file over the target, in one step, or removes it. */
  method Commit(fs: FileSystem, tmp: Path, path: Path, faults: Faults) returns (ok: bool)
    requires tmp != path && tmp in fs.files
    modifies fs
    ensures fs.trace == old(fs.trace) + if ok then [fs.files] else [old(fs.files), fs.files]
    ensures ok == !faults.rename
    ensures ok ==> fs.files == (old(fs.files) - {tmp})[path := old(fs.files)[tmp]]
    ensures !ok ==> fs.files == if faults.remove then old(fs.files) else old(fs.files) - {tmp}
  {
    ok := fs.Rename(tmp, path, faults.rename);
    if !ok {
      fs.Remove(tmp, faults.remove);
    }
  }

  /** The call sequence of writeJSONFile. A process killed at any point of it leaves the target
      either exactly as it was or holding all of the new bytes, and never disturbs another file.
      `tmp` is the name CreateTemp picks: ".tmp-" and a random number, so never the target's. */
  method WriteJsonFile(fs: FileSystem, path: Path, data: Bytes, tmp: Path, faults: Faults) returns (ok: bool)
    requires tmp != path
    modifies fs
    ensures old(fs.trace) <= fs.trace
    ensures SwitchesAtTheEnd(fs.trace, |old(fs.trace)|, old(fs.files), tmp, path, data, ok)
    ensures ok ==> fs.files == old(fs.files)[path := data]
    ensures !ok ==> Untouched(old(fs.files), fs.files, tmp)
    ensures !ok && !faults.remove && tmp !in old(fs.files) ==> fs.files == old(fs.files)
    ensures ok == (!faults.create && tmp !in old(fs.files) && |data| <= faults.written
                   && !faults.close && !faults.chmod && !faults.rename)
  {
    ghost var before := fs.files;
    ok := Stage(fs, tmp, data, faults.chmod, faults);
    if ok {
      StagedTwice(before, tmp, path, data);
      ok := Commit(fs, tmp, path, faults);
    }
  }

  /** Seen without the temporary name, a staged tree is the tree before it. */
  lemma StagedTwice(before: Contents, tmp: Path, path: Path, data: Bytes)
    requires tmp != path && tmp !in before
    ensures var staged := before[tmp := data];
      && staged - {tmp} == before - {tmp} == before
      && (staged - {tmp})[path := data] == before[path := data]
      && staged[path := data] - {tmp} == before[path := data] - {tmp}
  {
  }

  /** What readJSONFile reports for a path: a missing file is not an error, a file that does not
      decode is. */
  function ReadJsonFile<T>(files: Contents, path: Path, decode: Bytes -> Option<T>): File<T> {
    if path !in files then Absent
    else match decode(files[path])
      case None => Unreadable
      case Some(v) => Holds(v)
  }

  /** Two trees that differ in the temporary name alone read the same everywhere else. */
  lemma UntouchedReadsSame<T>(before: Contents, now: Contents, tmp: Path, path: Path, decode: Bytes -> Option<T>)
    requires Untouched(before, now, tmp) && path != tmp
    ensures ReadJsonFile(now, path, decode) == ReadJsonFile(before, path, decode)
  {
    assert (path in now - {tmp} <==> path in now) && (path in before - {tmp} <==> path in before);
    assert path in now ==> (now - {tmp})[path] == now[path] && (before - {tmp})[path] == before[path];
  }

  /** Seen through the decoder, the points of a save read as the old value before the target changes
      and as the whole new one after it, and every other file, of whatever type, as before. */
  lemma SaveReadsOldOrNew<T, U>(before: Contents, now: Contents, tmp: Path, path: Path, v: T,
                                encode: T -> Bytes, decode: Bytes -> Option<T>,
                                other: Path, decodeOther: Bytes -> Option<U>)
    requires tmp != path && decode(encode(v)) == Some(v)
    requires other != path && other != tmp
    ensures Untouched(before, now, tmp) ==> ReadJsonFile(now, path, decode) == ReadJsonFile(before, path, decode)
    ensures Replaced(before, now, tmp, path, encode(v)) ==> ReadJsonFile(now, path, decode) == Holds(v)
    ensures Untouched(before, now, tmp) || Replaced(before, now, tmp, path, encode(v)) ==>
      ReadJsonFile(now, other, decodeOther) == ReadJsonFile(before, other, decodeOther)
  {
    if Untouched(before, now, tmp) {
      UntouchedReadsSame(before, now, tmp, path, decode);
      UntouchedReadsSame(before, now, tmp, other, decodeOther);
    }
    if Replaced(before, now, tmp, path, encode(v)) {
      var after := before[path := encode(v)];
      UntouchedReadsSame(after, now, tmp, path, decode);
      UntouchedReadsSame(after, now, tmp, other, decodeOther);
    }
  }
}
