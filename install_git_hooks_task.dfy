/** The Gradle task `InstallGitHooksTask`, performed in place on a
    FileSystem object one java.io.File call at a time, in the order the Kotlin code makes them.
    Each method is proved to leave the filesystem, and to end, exactly as the
    HookSpec function of the same name says; what those functions promise is
    proved in HookProperties and RunProperties. */
module InstallGitHooksTask {
  import opened FsModel
  import opened FileStore
  import HookSpec

  /** `resolveGitHooksDirectory`. */
  method ResolveGitHooksDirectory(fs: FileSystem, granted: bool) returns (dir: Result<string>)
    modifies fs
    ensures HookSpec.Resolution(fs.State(), dir) == HookSpec.ResolveGitHooksDirectory(old(fs.State()), granted)
  {
    if !fs.IsDirectory(HookSpec.GIT_DIRECTORY) {
      return Err(ResolutionError(HookSpec.GIT_DIRECTORY_MISSING));
    }
    if !fs.Exists(HookSpec.GIT_HOOKS_DIRECTORY) {
      var created := fs.Mkdir(HookSpec.GIT_HOOKS_DIRECTORY, granted);
      if !created {
        return Err(ResolutionError(HookSpec.HOOKS_DIRECTORY_NOT_CREATED));
      }
    }
    dir := Ok(HookSpec.GIT_HOOKS_DIRECTORY);
  }

  /** `resolveProjectHooksDirectory`. */
  method ResolveProjectHooksDirectory(fs: FileSystem, granted: bool) returns (dir: Result<string>)
    modifies fs
    ensures HookSpec.Resolution(fs.State(), dir) == HookSpec.ResolveProjectHooksDirectory(old(fs.State()), granted)
  {
    if !fs.IsDirectory(HookSpec.PROJECT_HOOKS_DIRECTORY) {
      var created := fs.Mkdir(HookSpec.PROJECT_HOOKS_DIRECTORY, granted);
      if !created {
        return Err(ResolutionError(HookSpec.PROJECT_DIRECTORY_NOT_CREATED));
      }
    }
    dir := Ok(HookSpec.PROJECT_HOOKS_DIRECTORY);
  }

  /** `File.handleExisting`: back up a user hook, delete a generated one. */
  method HandleExisting(fs: FileSystem, p: string) returns (outcome: Outcome)
    modifies fs
    ensures Step(fs.State(), outcome) == HookSpec.HandleExisting(old(fs.State()), p, HookSpec.UPDATEABLE_IDENTIFIER)
  {
    var user := HookSpec.IsUserGeneratedHook(fs.State(), p, HookSpec.UPDATEABLE_IDENTIFIER);
    match user
    case Err(e) =>
      outcome := Aborted(e);
    case Ok(true) =>
      outcome := fs.CopyTo(p, HookSpec.Backup(p));
    case Ok(false) =>
      fs.Delete(p);
      outcome := Completed;
  }

  /** `installHook` for `<hooksDir>/<name>`, with the hook content read from
      `template` once the file has been prepared. */
  method InstallHook(fs: FileSystem, hooksDir: string, name: string, template: string) returns (outcome: Outcome)
    modifies fs
    ensures Step(fs.State(), outcome)
              == HookSpec.InstallHook(old(fs.State()), hooksDir, name, template, HookSpec.UPDATEABLE_IDENTIFIER)
  {
    var p := HookSpec.Join(hooksDir, name);
    if fs.Exists(p) {
      outcome := HandleExisting(fs, p);
    } else {
      outcome := fs.CreateNewFile(hooksDir, p);
    }
    if outcome.Aborted? {
      return;
    }
    var content := fs.ReadText(template);
    match content
    case Err(e) =>
      outcome := Aborted(e);
    case Ok(text) =>
      fs.WriteText(p, text);
      fs.AppendText(p, HookSpec.UPDATEABLE_IDENTIFIER);
      fs.SetExecutable(p);
  }

  /** The `HOOK_FILES.forEach` loop of `installGitHooks`: install each name
      in order; the first hook that throws ends the loop and the run. */
  method InstallAll(fs: FileSystem, hooksDir: string, names: seq<string>, template: string) returns (outcome: Outcome)
    modifies fs
    ensures Step(fs.State(), outcome)
              == HookSpec.InstallAll(old(fs.State()), hooksDir, names, template, HookSpec.UPDATEABLE_IDENTIFIER)
  {
    ghost var loop := HookSpec.InstallAll(fs.State(), hooksDir, names, template, HookSpec.UPDATEABLE_IDENTIFIER);
    var i := 0;
    outcome := Completed;
    while i < |names|
      invariant 0 <= i <= |names|
      invariant loop == HookSpec.InstallAll(fs.State(), hooksDir, names[i..], template, HookSpec.UPDATEABLE_IDENTIFIER)
      invariant outcome == Completed
      decreases |names| - i
    {
      assert names[i..][0] == names[i] && names[i..][1..] == names[i + 1..];
      outcome := InstallHook(fs, hooksDir, names[i], template);
      if outcome.Aborted? {
        return;
      }
      i := i + 1;
    }
  }

  /** `installGitHooks`: resolve both directories, then install every hook of
      the list in order, stopping at the first that throws. */
  method InstallGitHooks(fs: FileSystem, hooksGranted: bool, projectGranted: bool) returns (outcome: Outcome)
    modifies fs
    ensures Step(fs.State(), outcome) == HookSpec.InstallGitHooks(old(fs.State()), hooksGranted, projectGranted)
  {
    var hooksDir := ResolveGitHooksDirectory(fs, hooksGranted);
    if hooksDir.Err? {
      return Aborted(hooksDir.error);
    }
    var projectDir := ResolveProjectHooksDirectory(fs, projectGranted);
    if projectDir.Err? {
      return Aborted(projectDir.error);
    }
    outcome := InstallAll(fs, hooksDir.value, HookSpec.HOOK_FILES, HookSpec.TemplatePath(projectDir.value));
  }
}
