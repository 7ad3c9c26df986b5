/** An abstract filesystem: the part of java.io.File that the hook installer
    relies on. Paths are plain strings; a path names a file (holding its text),
    a directory, or nothing. Each operation is a function from one filesystem
    value to the next; the class in FileStore performs the same operations in
    place. */
module FsModel {

  /** Why an operation failed; each stands for an IOException the task can meet. */
  datatype Error =
    | ResolutionError(message: string)  // thrown by the two directory resolvers
    | ReadFailed(path: string)          // readText on a missing path or a directory
    | NoSuchFile(path: string)          // copyTo from a missing original
    | FileAlreadyExists(path: string)   // copyTo onto an existing target (overwrite = false)
    | CreateFailed(path: string)        // createNewFile under a parent that is not a directory

  datatype Result<+T> = Ok(value: T) | Err(error: Error)

  /** How a step of the installer ended: it went through, or it threw. */
  datatype Outcome = Completed | Aborted(error: Error)

  /** The filesystem after a step, with how the step ended. A step that throws
      keeps whatever it had changed before the throw. */
  datatype Step = Step(fs: Fs, outcome: Outcome)

  /** `files` maps each file to its text, `dirs` holds the directories and
      `exec` the files that are executable by owner, group and others. */
  datatype Fs = Fs(files: map<string, string>, dirs: set<string>, exec: set<string>) {

    /** No path is both a file and a directory, and only files are executable. */
    ghost predicate Valid() {
      files.Keys !! dirs && exec <= files.Keys
    }

    /** `File.exists`: something is at `p` exactly when it can be read as
        a file or it is a directory. */
    predicate Exists(p: string): (r: bool)
      ensures r <==> ReadText(p).Ok? || IsDirectory(p)
    {
      p in files || p in dirs
    }

    /** `File.isDirectory`: a directory exists, and in a well-formed
        filesystem it cannot be read as a file. */
    predicate IsDirectory(p: string): (r: bool)
      ensures r ==> p !in files || !Valid()
    {
      p in dirs
    }

    /** `File.readText`: throws on a directory or a missing path. */
    function ReadText(p: string): (r: Result<string>)
      ensures r.Ok? <==> p in files
      ensures r.Ok? ==> r.value == files[p]
      ensures Valid() && r.Ok? ==> !IsDirectory(p)
    {
      if p in files then Ok(files[p]) else Err(ReadFailed(p))
    }

    /** Whether `File.mkdir` creates `p`: only when nothing is there and the
        system grants it (`granted` stands for permissions, disk space and
        whatever else the model does not see). */
    predicate MkdirSucceeds(p: string, granted: bool): (r: bool)
      ensures r ==> granted
      ensures Exists(p) ==> !r
      ensures granted && ReadText(p).Err? && !IsDirectory(p) ==> r
    {
      granted && !Exists(p)
    }

    function Mkdir(p: string, granted: bool): (r: Fs)
      ensures Valid() ==> r.Valid()
      ensures r.files == files && r.exec == exec
      ensures r.dirs == if MkdirSucceeds(p, granted) then dirs + {p} else dirs
    {
      if MkdirSucceeds(p, granted) then this.(dirs := dirs + {p}) else this
    }

    /** `File.createNewFile` for `p` inside `parent`: does nothing when `p`
        exists, throws when `parent` is not a directory, else creates an empty,
        non-executable file. */
    function CreateNewFile(parent: string, p: string): (r: Result<Fs>)
      ensures r.Err? <==> !Exists(p) && !IsDirectory(parent)
      ensures r.Ok? && !Exists(p) ==> r.value == this.(files := files[p := ""])
      ensures r.Ok? && Exists(p) ==> r.value == this
      ensures Valid() && r.Ok? ==> r.value.Valid()
    {
      if Exists(p) then Ok(this)
      else if !IsDirectory(parent) then Err(CreateFailed(p))
      else Ok(this.(files := files[p := ""]))
    }

    /** Kotlin's `File.copyTo(target)` with its default `overwrite = false`:
        throws when the original is missing or when anything is at the target;
        the copy is not executable, and a directory is copied as an empty
        directory. */
    function CopyTo(src: string, dst: string): (r: Result<Fs>)
      ensures r.Ok? <==> Exists(src) && !Exists(dst)
      ensures r.Ok? && src in files ==> r.value.files == files[dst := files[src]] && r.value.dirs == dirs
      ensures r.Ok? ==> r.value.exec == exec
      ensures Valid() && r.Ok? ==> r.value.Valid()
    {
      if !Exists(src) then Err(NoSuchFile(src))
      else if Exists(dst) then Err(FileAlreadyExists(dst))
      else if src in files then Ok(this.(files := files[dst := files[src]]))
      else Ok(this.(dirs := dirs + {dst}))
    }

    /** `File.delete` on a file: removes it with its executable flag. The
        task ignores the returned flag, so the model has no failure. */
    function Delete(p: string): (r: Fs)
      ensures p !in r.files && p !in r.exec && r.dirs == dirs
      ensures forall q :: q != p ==> (q in r.files <==> q in files) && (q in r.exec <==> q in exec)
      ensures forall q :: q != p && q in files ==> r.files[q] == files[q]
      ensures Valid() ==> r.Valid()
    {
      this.(files := files - {p}, exec := exec - {p})
    }

    /** `File.writeText`: replaces the text, creating the file if needed; the
        executable flag is left as it was. */
    function WriteText(p: string, text: string): (r: Fs)
      ensures p in r.files && r.files[p] == text
      ensures r.dirs == dirs && r.exec == exec && r.files.Keys == files.Keys + {p}
      ensures forall q :: q != p && q in files ==> r.files[q] == files[q]
      ensures Valid() && !IsDirectory(p) ==> r.Valid()
    {
      this.(files := files[p := text])
    }

    /** `File.appendText`. */
    function AppendText(p: string, text: string): (r: Fs)
      ensures p in r.files && r.files[p] == (if p in files then files[p] else "") + text
      ensures r.dirs == dirs && r.exec == exec && r.files.Keys == files.Keys + {p}
      ensures forall q :: q != p && q in files ==> r.files[q] == files[q]
      ensures Valid() && !IsDirectory(p) ==> r.Valid()
    {
      this.(files := files[p := (if p in files then files[p] else "") + text])
    }

    /** `File.setExecutable(true, false)`: executable for every user, not only
        the owner. Its returned flag is ignored by the task. */
    function SetExecutable(p: string): (r: Fs)
      ensures r.files == files && r.dirs == dirs
      ensures r.exec == if p in files then exec + {p} else exec
      ensures Valid() ==> r.Valid()
    {
      if p in files then this.(exec := exec + {p}) else this
    }
  }

  /** A step built from an operation that may throw: the new filesystem on
      success, the old one and the error otherwise. */
  function Commit(s: Fs, r: Result<Fs>): Step {
    match r
    case Ok(t) => Step(t, Completed)
    case Err(e) => Step(s, Aborted(e))
  }

  /** Path `q` is the same in `s` and `t`: same presence, text and flag. */
  ghost predicate Unchanged(s: Fs, t: Fs, q: string) {
    && (q in s.files <==> q in t.files)
    && (q in s.files ==> s.files[q] == t.files[q])
    && (q in s.exec <==> q in t.exec)
  }

  /** Every file outside `touched` is the same in `s` and `t`. */
  ghost predicate AgreeOutside(s: Fs, t: Fs, touched: set<string>) {
    forall q :: q !in touched ==> Unchanged(s, t, q)
  }

  lemma AgreeOutsideTrans(s: Fs, t: Fs, u: Fs, a: set<string>, b: set<string>)
    requires AgreeOutside(s, t, a) && AgreeOutside(t, u, b)
    ensures AgreeOutside(s, u, a + b)
  {
    forall q | q !in a + b
      ensures Unchanged(s, u, q)
    {
      assert Unchanged(s, t, q);
      assert Unchanged(t, u, q);
    }
  }
}
