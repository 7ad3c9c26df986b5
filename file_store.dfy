/** The filesystem the installer works on, changed in place one call at a
    time as the task's java.io.File calls change the disk. Every method is
    specified by the FsModel operation of the same name. */
module FileStore {
  import opened FsModel

  class FileSystem {
    var files: map<string, string>
    var dirs: set<string>
    var exec: set<string>

    constructor (files: map<string, string>, dirs: set<string>, exec: set<string>)
      ensures State() == Fs(files, dirs, exec)
    {
      this.files := files;
      this.dirs := dirs;
      this.exec := exec;
    }

    /** The current contents as a value. */
    function State(): Fs
      reads this
    {
      Fs(files, dirs, exec)
    }

    predicate Exists(p: string): (r: bool)
      reads this
      ensures r <==> p in files || p in dirs
    {
      State().Exists(p)
    }

    predicate IsDirectory(p: string): (r: bool)
      reads this
      ensures r <==> p in dirs
    {
      State().IsDirectory(p)
    }

    function ReadText(p: string): (r: Result<string>)
      reads this
      ensures r.Ok? <==> p in files
      ensures r.Ok? ==> r.value == files[p]
    {
      State().ReadText(p)
    }

    method Mkdir(p: string, granted: bool) returns (created: bool)
      modifies this
      ensures created == old(State()).MkdirSucceeds(p, granted)
      ensures State() == old(State()).Mkdir(p, granted)
    {
      created := granted && !(p in files || p in dirs);
      if created {
        dirs := dirs + {p};
      }
    }

    method CreateNewFile(parent: string, p: string) returns (outcome: Outcome)
      modifies this
      ensures Step(State(), outcome) == Commit(old(State()), old(State()).CreateNewFile(parent, p))
    {
      if p in files || p in dirs {
        return Completed;
      }
      if parent !in dirs {
        return Aborted(CreateFailed(p));
      }
      files := files[p := ""];
      outcome := Completed;
    }

    method CopyTo(src: string, dst: string) returns (outcome: Outcome)
      modifies this
      ensures Step(State(), outcome) == Commit(old(State()), old(State()).CopyTo(src, dst))
    {
      if !(src in files || src in dirs) {
        return Aborted(NoSuchFile(src));
      }
      if dst in files || dst in dirs {
        return Aborted(FileAlreadyExists(dst));
      }
      if src in files {
        files := files[dst := files[src]];
      } else {
        dirs := dirs + {dst};
      }
      outcome := Completed;
    }

    method Delete(p: string)
      modifies this
      ensures State() == old(State()).Delete(p)
    {
      files := files - {p};
      exec := exec - {p};
    }

    method WriteText(p: string, text: string)
      modifies this
      ensures State() == old(State()).WriteText(p, text)
    {
      files := files[p := text];
    }

    method AppendText(p: string, text: string)
      modifies this
      ensures State() == old(State()).AppendText(p, text)
    {
      var before := if p in files then files[p] else "";
      files := files[p := before + text];
    }

    method SetExecutable(p: string)
      modifies this
      ensures State() == old(State()).SetExecutable(p)
    {
      if p in files {
        exec := exec + {p};
      }
    }
  }
}
