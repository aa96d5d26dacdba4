/** The registry of temporary files handed to the calendar application, over
    a file system seen as the set of names that exist on it. */
module TempFileRegistry {
  import opened Wrappers

  /** The file system: the names of the files that exist, and the names whose
      removal it refuses (no permission, a read-only directory). */
  class Disk {
    var names: set<string>
    const undeletable: set<string>

    constructor(names: set<string>, undeletable: set<string>)
      ensures this.names == names && this.undeletable == undeletable
    {
      this.names := names;
      this.undeletable := undeletable;
    }

    /** `ioutil.TempFile`: creates a new file. `candidate` is what the call
        could do: None when the file system refuses (no space, no permission),
        Some(name) for the name it picked; creation is exclusive, so it fails
        when that name already exists. On failure the handle is nil. */
    method CreateTemp(pattern: string, candidate: Option<string>) returns (file: Option<File>, err: bool)
      modifies this
      ensures err <==> candidate.None? || candidate.value in old(names)
      ensures file == (if err then None else Some(File(candidate.value)))
      ensures names == old(names) + Names([file])
    {
      if candidate.Some? && candidate.value !in names {
        file, err := Some(File(candidate.value)), false;
        names := names + {candidate.value};
      } else {
        file, err := None, true;
      }
    }

    /** `os.Remove(name)`: the file is gone afterwards unless the file system
        refuses; the error reports a refusal or that there was nothing to
        remove. */
    method Remove(name: string) returns (err: bool)
      modifies this
      ensures names == if name in undeletable then old(names) else old(names) - {name}
      ensures err <==> name !in old(names) || name in undeletable
    {
      err := name !in names || name in undeletable;
      if name !in undeletable {
        names := names - {name};
      }
    }
  }

  /** An open `*os.File`, known by its name. */
  datatype File = File(name: string)

  /** The names of the non-nil handles in `files`. */
  function Names(files: seq<Option<File>>): set<string>
  {
    if files == [] then {}
    else Names(files[..|files| - 1]) + (if files[|files| - 1].Some? then {files[|files| - 1].value.name} else {})
  }

  /** The names of a single entry: its name, or none for a nil handle. */
  lemma NamesOne(f: Option<File>)
    ensures Names([f]) == if f.Some? then {f.value.name} else {}
  {
    assert [f][..0] == [];
  }

  /** A name is registered exactly when some non-nil entry carries it. */
  lemma {:induction false} NamesSpec(files: seq<Option<File>>, name: string)
    ensures name in Names(files) <==> exists i :: 0 <= i < |files| && files[i] == Some(File(name))
  {
    if files != [] {
      var init := files[..|files| - 1];
      NamesSpec(init, name);
      if name in Names(init) {
        var i :| 0 <= i < |init| && init[i] == Some(File(name));
        assert files[i] == Some(File(name));
      }
      if exists i :: 0 <= i < |files| && files[i] == Some(File(name)) {
        var i :| 0 <= i < |files| && files[i] == Some(File(name));
        if i < |init| {
          assert init[i] == Some(File(name));
        }
      }
    }
  }

  lemma {:induction false} NamesAppend(a: seq<Option<File>>, b: seq<Option<File>>)
    ensures Names(a + b) == Names(a) + Names(b)
    decreases |b|
  {
    if b != [] {
      var b' := b[..|b| - 1];
      assert (a + b)[..|a + b| - 1] == a + b';
      NamesAppend(a, b');
    } else {
      assert a + b == a;
    }
  }

  /** No entry is a nil handle. */
  predicate NoNilEntries(files: seq<Option<File>>) {
    forall i :: 0 <= i < |files| ==> files[i].Some?
  }

  /** `TempFiles`: files to be removed on some slow schedule. */
  class TempFiles {
    var fileNameFormat: string
    var files: seq<Option<File>>

    constructor(fileNameFormat: string)
      ensures this.fileNameFormat == fileNameFormat && files == []
    {
      this.fileNameFormat := fileNameFormat;
      files := [];
    }

    method Append(file: Option<File>)
      modifies this
      ensures files == old(files) + [file]
      ensures fileNameFormat == old(fileNameFormat)
    {
      files := files + [file];
    }

    /** `fs.CleanUp()`: tries to remove the file of every entry, ignoring
        removal errors, and empties the registry, so a file the file system
        refused to remove is forgotten. `f.Name()` faults on a nil entry. */
    method CleanUp(disk: Disk)
      requires NoNilEntries(files)
      modifies this, disk
      ensures files == []
      ensures disk.names == old(disk.names) - (Names(old(files)) - disk.undeletable)
      ensures fileNameFormat == old(fileNameFormat)
    {
      var registered := files;
      var i := 0;
      while i < |registered|
        invariant 0 <= i <= |registered|
        invariant disk.names == old(disk.names) - (Names(registered[..i]) - disk.undeletable)
        invariant files == registered && fileNameFormat == old(fileNameFormat)
      {
        var _ := disk.Remove(registered[i].value.name);
        assert registered[..i + 1] == registered[..i] + [registered[i]];
        NamesAppend(registered[..i], [registered[i]]);
        i := i + 1;
      }
      assert registered[..i] == registered;
      files := [];
    }

    /** `fs.New()`: creates a temporary file named after `fileNameFormat` and
        registers its handle, even when creation failed and the handle is nil. */
    method New(disk: Disk, candidate: Option<string>) returns (file: Option<File>, err: bool)
      modifies this, disk
      ensures err <==> candidate.None? || candidate.value in old(disk.names)
      ensures file == (if err then None else Some(File(candidate.value)))
      ensures files == old(files) + [file]
      ensures disk.names == old(disk.names) + Names([file])
      ensures fileNameFormat == old(fileNameFormat)
    {
      file, err := disk.CreateTemp(fileNameFormat, candidate);
      Append(file);
    }
  }

  /** A file handed out by `New` is gone after the next `CleanUp` unless the
      file system refuses to remove it, and a second `CleanUp` straight after
      deletes nothing more. */
  method NewThenCleanUp(registry: TempFiles, disk: Disk, candidate: Option<string>)
    returns (file: Option<File>)
    requires NoNilEntries(registry.files) && candidate.Some? && candidate.value !in disk.names
    modifies registry, disk
    ensures file == Some(File(candidate.value))
    ensures file.value.name in disk.names <==> file.value.name in disk.undeletable
    ensures registry.files == []
    ensures disk.names == (old(disk.names) + {candidate.value})
                          - (Names(old(registry.files)) + {candidate.value} - disk.undeletable)
  {
    var err;
    file, err := registry.New(disk, candidate);
    assert NoNilEntries(registry.files);
    registry.CleanUp(disk);
    NamesAppend(old(registry.files), [file]);
    var before := disk.names;
    registry.CleanUp(disk);
    assert disk.names == before;
  }

  /** After a failed `New` the registry holds a nil entry, so the next
      `CleanUp` would fault. */
  method FailedNewLeavesNil(registry: TempFiles, disk: Disk)
    modifies registry, disk
    ensures !NoNilEntries(registry.files)
    ensures registry.files == old(registry.files) + [None]
    ensures disk.names == old(disk.names)
  {
    var file, err := registry.New(disk, None);
    assert registry.files[|registry.files| - 1].None?;
  }
}
