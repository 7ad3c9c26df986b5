/** What the Gradle task `InstallGitHooksTask` does, as functions from one
    filesystem value to the next: the constants of its companion object, the
    marker test, the two directory resolvers, the per-hook install and the
    whole run. The methods of InstallGitHooksTask perform the same steps in
    place and are proved equal to these functions. */
module HookSpec {
  import opened FsModel

  const PROJECT_HOOKS_DIRECTORY: string := ".git-hooks"
  const TEMPLATE_FILE: string := "hook-run-all-template.sh"
  /** The marker that identifies a hook file this installer wrote. */
  const UPDATEABLE_IDENTIFIER: string := "### Auto-generated by template-kotlin-jvm-library ###"

  /** The hooks installed, in the order they are processed. */
  const HOOK_FILES: seq<string> := [
    "applypatch-msg",
    "pre-applypatch",
    "post-applypatch",
    "pre-commit",
    "prepare-commit-msg",
    "commit-msg",
    "post-commit",
    "pre-rebase",
    "post-checkout",
    "post-merge",
    "pre-push",
    "pre-receive",
    "update",
    "post-receive",
    "post-update",
    "push-to-checkout",
    "pre-auto-gc",
    "post-rewrite",
    "sendemail-validate",
    "fsmonitor-watchman",
    "p4-pre-submit",
    "post-index-change"
  ]

  const GIT_DIRECTORY: string := ".git"
  const GIT_HOOKS_DIRECTORY: string := Join(GIT_DIRECTORY, "hooks")

  const GIT_DIRECTORY_MISSING: string :=
    "Couldn't find .git directory. Please make sure you are in the project root directory."
  const HOOKS_DIRECTORY_NOT_CREATED: string := "Failed to create .git/hooks directory."
  const PROJECT_DIRECTORY_NOT_CREATED: string := "Failed to find or create .git-hooks directory."

  /** `File(dir, name)`: a path strictly inside `dir`, from which `name`
      can be read back. */
  function Join(dir: string, name: string): (r: string)
    ensures dir + "/" <= r && |r| == |dir| + 1 + |name|
    ensures r[|dir| + 1..] == name
  {
    dir + "/" + name
  }

  /** Where a user-authored hook at `p` is copied before it is replaced: a
      longer path that starts with `p`, so never `p` itself. */
  function Backup(p: string): (r: string)
    ensures p <= r && |r| == |p| + 7
    ensures r[|p|..] == ".backup"
  {
    p + ".backup"
  }

  /** The template every hook is generated from, inside the project hooks
      directory. */
  function TemplatePath(projectDir: string): (r: string)
    ensures projectDir + "/" <= r
    ensures r[|projectDir| + 1..] == TEMPLATE_FILE
  {
    Join(projectDir, TEMPLATE_FILE)
  }

  // ---------------------------------------------------------------------------
  // The marker test: String.indexOf and the containment it decides.

  predicate OccursAt(text: string, marker: string, i: nat) {
    i + |marker| <= |text| && text[i..i + |marker|] == marker
  }

  /** `text.indexOf(marker, from)`: the first position at or after `from`
      where `marker` occurs, or -1. */
  function IndexOfFrom(text: string, marker: string, from: nat): (r: int)
    requires from <= |text|
    ensures r == -1 || (from <= r <= |text| && OccursAt(text, marker, r))
    ensures r == -1 ==> forall i: nat :: from <= i ==> !OccursAt(text, marker, i)
    ensures r != -1 ==> forall i: nat :: from <= i < r ==> !OccursAt(text, marker, i)
    decreases |text| - from
  {
    if OccursAt(text, marker, from) then from
    else if from == |text| then -1
    else IndexOfFrom(text, marker, from + 1)
  }

  function IndexOf(text: string, marker: string): (r: int)
    ensures r == -1 <==> forall i: nat :: !OccursAt(text, marker, i)
    ensures r != -1 ==> 0 <= r && OccursAt(text, marker, r)
    ensures r != -1 ==> forall i: nat :: i < r ==> !OccursAt(text, marker, i)
  {
    IndexOfFrom(text, marker, 0)
  }

  /** Plain substring containment, decided the way the Kotlin code does it. */
  function Contains(text: string, marker: string): (r: bool)
    ensures r <==> exists i: nat :: OccursAt(text, marker, i)
  {
    IndexOf(text, marker) != -1
  }

  // The functions below take the marker as a parameter `marker`; the run
  // passes UPDATEABLE_IDENTIFIER, and the lemmas about them hold whatever
  // the marker's spelling.

  /** `File.isUserGeneratedHook`: a missing path is not a user hook; an
      existing one is read (which throws for a directory) and is a user hook
      exactly when the marker occurs nowhere in its text. */
  function IsUserGeneratedHook(s: Fs, p: string, marker: string): (r: Result<bool>)
    ensures r.Err? <==> p in s.dirs && p !in s.files
    ensures r == Ok(true) <==> p in s.files && forall i: nat :: !OccursAt(s.files[p], marker, i)
  {
    if !s.Exists(p) then Ok(false)
    else
      match s.ReadText(p)
      case Err(e) => Err(e)
      case Ok(text) => Ok(IndexOf(text, marker) == -1)
  }

  // ---------------------------------------------------------------------------
  // Directory resolution.

  /** The filesystem after resolving a directory, with the directory found or
      the error thrown. */
  datatype Resolution = Resolution(fs: Fs, dir: Result<string>)

  /** `resolveGitHooksDirectory`: `.git` must be a directory; `.git/hooks` is
      created only when nothing at all is there, so a plain file at that path
      is accepted as it is. */
  function ResolveGitHooksDirectory(s: Fs, granted: bool): (r: Resolution)
    ensures !s.IsDirectory(GIT_DIRECTORY) ==> r == Resolution(s, Err(ResolutionError(GIT_DIRECTORY_MISSING)))
    ensures r.dir.Ok? <==> s.IsDirectory(GIT_DIRECTORY) && (s.Exists(GIT_HOOKS_DIRECTORY) || granted)
    ensures r.dir.Ok? ==> r.dir.value == GIT_HOOKS_DIRECTORY && r.fs.Exists(GIT_HOOKS_DIRECTORY)
    ensures r.dir.Err? ==> r.fs == s
    ensures r.fs.files == s.files && r.fs.exec == s.exec
    ensures r.fs.dirs == s.dirs || (r.fs.dirs == s.dirs + {GIT_HOOKS_DIRECTORY} && !s.Exists(GIT_HOOKS_DIRECTORY))
  {
    if !s.IsDirectory(GIT_DIRECTORY) then
      Resolution(s, Err(ResolutionError(GIT_DIRECTORY_MISSING)))
    else if !s.Exists(GIT_HOOKS_DIRECTORY) && !s.MkdirSucceeds(GIT_HOOKS_DIRECTORY, granted) then
      Resolution(s, Err(ResolutionError(HOOKS_DIRECTORY_NOT_CREATED)))
    else
      Resolution(
        if s.Exists(GIT_HOOKS_DIRECTORY) then s else s.Mkdir(GIT_HOOKS_DIRECTORY, granted),
        Ok(GIT_HOOKS_DIRECTORY))
  }

  /** `resolveProjectHooksDirectory`: `.git-hooks` must be a directory or be
      creatable; a plain file there makes the mkdir fail. */
  function ResolveProjectHooksDirectory(s: Fs, granted: bool): (r: Resolution)
    ensures r.dir.Ok? <==> s.IsDirectory(PROJECT_HOOKS_DIRECTORY) || (granted && !s.Exists(PROJECT_HOOKS_DIRECTORY))
    ensures r.dir.Ok? ==> r.dir.value == PROJECT_HOOKS_DIRECTORY && r.fs.IsDirectory(PROJECT_HOOKS_DIRECTORY)
    ensures r.dir.Err? ==> r == Resolution(s, Err(ResolutionError(PROJECT_DIRECTORY_NOT_CREATED)))
    ensures r.fs.files == s.files && r.fs.exec == s.exec
    ensures r.fs.dirs == s.dirs || (r.fs.dirs == s.dirs + {PROJECT_HOOKS_DIRECTORY} && !s.Exists(PROJECT_HOOKS_DIRECTORY))
  {
    if !s.IsDirectory(PROJECT_HOOKS_DIRECTORY) && !s.MkdirSucceeds(PROJECT_HOOKS_DIRECTORY, granted) then
      Resolution(s, Err(ResolutionError(PROJECT_DIRECTORY_NOT_CREATED)))
    else
      Resolution(
        if s.IsDirectory(PROJECT_HOOKS_DIRECTORY) then s else s.Mkdir(PROJECT_HOOKS_DIRECTORY, granted),
        Ok(PROJECT_HOOKS_DIRECTORY))
  }

  // ---------------------------------------------------------------------------
  // Installing one hook.

  /** `File.handleExisting`: a user hook is copied to its backup path (which
      throws when anything is already there); a generated one is deleted. */
  function HandleExisting(s: Fs, p: string, marker: string): (r: Step)
    ensures AgreeOutside(s, r.fs, {p, Backup(p)}) && r.fs.dirs == s.dirs
    ensures s.Valid() ==> r.fs.Valid()
  {
    match IsUserGeneratedHook(s, p, marker)
    case Err(e) => Step(s, Aborted(e))
    case Ok(true) => Commit(s, s.CopyTo(p, Backup(p)))
    case Ok(false) => Step(s.Delete(p), Completed)
  }

  /** `installHook` for `<hooksDir>/<name>`: deal with what is there (or
      create an empty file), then read the template at `template` (the
      task passes a closure that reads it), write it, append the marker
      and make the file executable. */
  function InstallHook(s: Fs, hooksDir: string, name: string, template: string, marker: string): (r: Step)
    ensures AgreeOutside(s, r.fs, {Join(hooksDir, name), Backup(Join(hooksDir, name))})
    ensures r.fs.dirs == s.dirs
    ensures s.Valid() ==> r.fs.Valid()
  {
    var p := Join(hooksDir, name);
    var prepared :=
      if s.Exists(p) then HandleExisting(s, p, marker) else Commit(s, s.CreateNewFile(hooksDir, p));
    if prepared.outcome.Aborted? then prepared
    else
      match prepared.fs.ReadText(template)
      case Err(e) => Step(prepared.fs, Aborted(e))
      case Ok(text) =>
        Step(prepared.fs.WriteText(p, text).AppendText(p, marker).SetExecutable(p), Completed)
  }

  // ---------------------------------------------------------------------------
  // The whole run.

  /** The hook paths and backup paths that installing `names` may change. */
  function Touched(hooksDir: string, names: seq<string>): (r: set<string>)
    ensures forall q :: q in r ==> hooksDir + "/" <= q
    ensures forall q :: q in r ==> |q| > |hooksDir|
    ensures forall n :: n in names ==> Join(hooksDir, n) in r && Backup(Join(hooksDir, n)) in r
  {
    if names == [] then {}
    else {Join(hooksDir, names[0]), Backup(Join(hooksDir, names[0]))} + Touched(hooksDir, names[1..])
  }

  /** The `HOOK_FILES.forEach` loop: install each name in order and stop at
      the first one that throws. */
  function InstallAll(s: Fs, hooksDir: string, names: seq<string>, template: string, marker: string): (r: Step)
    ensures AgreeOutside(s, r.fs, Touched(hooksDir, names)) && r.fs.dirs == s.dirs
    ensures s.Valid() ==> r.fs.Valid()
    decreases |names|
  {
    if names == [] then Step(s, Completed)
    else
      var first := InstallHook(s, hooksDir, names[0], template, marker);
      if first.outcome.Aborted? then first
      else
        var rest := InstallAll(first.fs, hooksDir, names[1..], template, marker);
        AgreeOutsideTrans(s, first.fs, rest.fs,
          {Join(hooksDir, names[0]), Backup(Join(hooksDir, names[0]))}, Touched(hooksDir, names[1..]));
        rest
  }

  /** `installGitHooks`: resolve both directories, then install every hook.
      `hooksGranted` and `projectGranted` say whether the system would let
      each mkdir succeed. */
  function InstallGitHooks(s: Fs, hooksGranted: bool, projectGranted: bool): (r: Step)
    ensures !s.IsDirectory(GIT_DIRECTORY) ==> r == Step(s, Aborted(ResolutionError(GIT_DIRECTORY_MISSING)))
    ensures s.Valid() ==> r.fs.Valid()
  {
    var git := ResolveGitHooksDirectory(s, hooksGranted);
    match git.dir
    case Err(e) => Step(git.fs, Aborted(e))
    case Ok(hooksDir) =>
      var project := ResolveProjectHooksDirectory(git.fs, projectGranted);
      match project.dir
      case Err(e) => Step(project.fs, Aborted(e))
      case Ok(projectDir) =>
        InstallAll(project.fs, hooksDir, HOOK_FILES, TemplatePath(projectDir), UPDATEABLE_IDENTIFIER)
  }
}
