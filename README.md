# Git hook installer, modelled in Dafny

This project models the Gradle task `InstallGitHooksTask` of the
template-kotlin-jvm-library build. The task installs one generated git hook
for each of 22 fixed hook names into `.git/hooks`. Each hook file holds the
text of the shared template `.git-hooks/hook-run-all-template.sh` followed by
the marker `### Auto-generated by template-kotlin-jvm-library ###`.

Before each hook is written, whatever already sits at its path is dealt with:

- a file without the marker counts as user-authored and is copied to
  `<path>.backup`;
- a file with the marker counts as generated earlier and is deleted.

Then the template is read and written. The marker is appended, and the file
is made executable.

The model is layered as follows.

- **FsModel** (`fs_model.dfy`): an abstract filesystem value `Fs`, with
  - `files`, mapping each path to its text;
  - `dirs`, the directories;
  - `exec`, the executable files.

  The `java.io.File` calls the task makes are functions on `Fs`.
  Exceptions become an `Error` inside `Result` or `Outcome`. A `Step` pairs the
  filesystem as a throw leaves it with how the step ended.
- **FileStore** (`file_store.dfy`): a `FileSystem` class holding the same
  three fields. Its methods change them in place, each proved equal to the
  `Fs` operation of the same name.
- **HookSpec** (`hook_spec.dfy`): the companion constants, the marker test,
  and one function per operation of the task, in the Kotlin code's order of side
  effects.
- **InstallGitHooksTask** (`install_git_hooks_task.dfy`): the task itself, as
  methods over a `FileSystem`. `InstallAll` carries the `forEach` loop over
  the hook names, with its invariant. Each method ensures that the new state
  and the outcome are those of the HookSpec function.
- **HookProperties** (`hook_properties.dfy`) and **RunProperties**
  (`run_properties.dfy`): what the task promises, proved about the HookSpec
  functions. This covers:
  - the content of an installed hook;
  - the backup of user hooks;
  - the order in which failures leave state behind;
  - which paths a run may change;
  - processing in list order;
  - that a second run changes nothing.

The per-hook functions take the template path and the marker as parameters.
The lemmas about them hold for any template and marker. RunProperties
applies them to the task's own constants.

Two details of the Kotlin code decide what happens around existing files:

- `copyTo(backupFile)` keeps Kotlin's default `overwrite = false`. An
  existing `.backup` therefore makes the copy throw; the hook is left
  unwritten and the run ends (`FsModel.Fs.CopyTo`,
  `HookProperties.InstallHookBacksUpUserHook`).
- `setExecutable(true, false)` grants execute permission to every user; the
  single `exec` flag of the model stands for that.

## Model

Source paths are relative to the repository root.

| member | source | states |
|---|---|---|
| FsModel.Fs.ReadText | buildSrc/src/main/kotlin/com/lordcodes/templatekotlinjvmlibrary/hooks/InstallGitHooksTask.kt:29 | `readText` returns a file's text and throws for a directory or a missing path |
| FsModel.Fs.Exists | buildSrc/src/main/kotlin/com/lordcodes/templatekotlinjvmlibrary/hooks/InstallGitHooksTask.kt:58 | `exists` holds exactly when the path can be read as a file or is a directory |
| FsModel.Fs.IsDirectory | buildSrc/src/main/kotlin/com/lordcodes/templatekotlinjvmlibrary/hooks/InstallGitHooksTask.kt:37 | `isDirectory` holds only for a path that, in a well-formed filesystem, cannot be read as a file |
| FsModel.Fs.MkdirSucceeds | buildSrc/src/main/kotlin/com/lordcodes/templatekotlinjvmlibrary/hooks/InstallGitHooksTask.kt:42 | the flag `mkdir` returns is true only when the system grants it, false whenever something is at the path, and true for a granted free path |
| FsModel.Fs.Mkdir | buildSrc/src/main/kotlin/com/lordcodes/templatekotlinjvmlibrary/hooks/InstallGitHooksTask.kt:42 | `mkdir` adds the directory only when nothing is at the path and the system grants it; files and flags are untouched; the filesystem stays well formed |
| FsModel.Fs.CreateNewFile | buildSrc/src/main/kotlin/com/lordcodes/templatekotlinjvmlibrary/hooks/InstallGitHooksTask.kt:61 | `createNewFile` fails exactly when the path is free and the parent is not a directory; otherwise it adds an empty file, or changes nothing when something is there |
| FsModel.Fs.CopyTo | buildSrc/src/main/kotlin/com/lordcodes/templatekotlinjvmlibrary/hooks/InstallGitHooksTask.kt:70-71 | `copyTo` without overwrite succeeds exactly when the source exists and nothing is at the target; a copied file keeps its text, and no flag changes |
| FsModel.Fs.Delete | buildSrc/src/main/kotlin/com/lordcodes/templatekotlinjvmlibrary/hooks/InstallGitHooksTask.kt:73 | `delete` removes the file and its flag, and every other path keeps its text and flag |
| FsModel.Fs.WriteText | buildSrc/src/main/kotlin/com/lordcodes/templatekotlinjvmlibrary/hooks/InstallGitHooksTask.kt:63 | `writeText` leaves exactly the given text at the path, creating it if needed; every other file keeps its text, no path is added or removed, and no flag or directory changes |
| FsModel.Fs.AppendText | buildSrc/src/main/kotlin/com/lordcodes/templatekotlinjvmlibrary/hooks/InstallGitHooksTask.kt:64 | `appendText` leaves the old text (empty if none) followed by the given text; every other file keeps its text, and no flag or directory changes |
| FsModel.Fs.SetExecutable | buildSrc/src/main/kotlin/com/lordcodes/templatekotlinjvmlibrary/hooks/InstallGitHooksTask.kt:65 | `setExecutable(true, false)` flags an existing file for all users and changes no text |
| FsModel.AgreeOutsideTrans | buildSrc/src/main/kotlin/com/lordcodes/templatekotlinjvmlibrary/hooks/InstallGitHooksTask.kt:26-31 | two steps that each change only their own paths together change only the union of those paths |
| FileStore.FileSystem.Mkdir | buildSrc/src/main/kotlin/com/lordcodes/templatekotlinjvmlibrary/hooks/InstallGitHooksTask.kt:42 | reports whether `mkdir` succeeded, and leaves the state `Fs.Mkdir` gives |
| FileStore.FileSystem.Exists | buildSrc/src/main/kotlin/com/lordcodes/templatekotlinjvmlibrary/hooks/InstallGitHooksTask.kt:58 | `exists` on the in-place filesystem holds exactly when the path is a file or a directory there |
| FileStore.FileSystem.IsDirectory | buildSrc/src/main/kotlin/com/lordcodes/templatekotlinjvmlibrary/hooks/InstallGitHooksTask.kt:51 | `isDirectory` on the in-place filesystem holds exactly when the path is one of its directories |
| FileStore.FileSystem.ReadText | buildSrc/src/main/kotlin/com/lordcodes/templatekotlinjvmlibrary/hooks/InstallGitHooksTask.kt:29 | `readText` on the in-place filesystem succeeds exactly for a file and returns that file's text |
| FileStore.FileSystem.constructor | buildSrc/src/main/kotlin/com/lordcodes/templatekotlinjvmlibrary/hooks/InstallGitHooksTask.kt:12-32 | the filesystem the task runs on starts with exactly the given files, directories and flags |
| FileStore.FileSystem.CreateNewFile | buildSrc/src/main/kotlin/com/lordcodes/templatekotlinjvmlibrary/hooks/InstallGitHooksTask.kt:61 | the in-place `createNewFile` ends and leaves the state as `Fs.CreateNewFile` says, or unchanged when it throws |
| FileStore.FileSystem.CopyTo | buildSrc/src/main/kotlin/com/lordcodes/templatekotlinjvmlibrary/hooks/InstallGitHooksTask.kt:71 | the in-place `copyTo` ends and leaves the state as `Fs.CopyTo` says, or unchanged when it throws |
| FileStore.FileSystem.Delete | buildSrc/src/main/kotlin/com/lordcodes/templatekotlinjvmlibrary/hooks/InstallGitHooksTask.kt:73 | the in-place `delete` leaves the state `Fs.Delete` gives |
| FileStore.FileSystem.WriteText | buildSrc/src/main/kotlin/com/lordcodes/templatekotlinjvmlibrary/hooks/InstallGitHooksTask.kt:63 | the in-place `writeText` leaves the state `Fs.WriteText` gives |
| FileStore.FileSystem.AppendText | buildSrc/src/main/kotlin/com/lordcodes/templatekotlinjvmlibrary/hooks/InstallGitHooksTask.kt:64 | the in-place `appendText` leaves the state `Fs.AppendText` gives |
| FileStore.FileSystem.SetExecutable | buildSrc/src/main/kotlin/com/lordcodes/templatekotlinjvmlibrary/hooks/InstallGitHooksTask.kt:65 | the in-place `setExecutable` leaves the state `Fs.SetExecutable` gives |
| HookSpec.IndexOfFrom | buildSrc/src/main/kotlin/com/lordcodes/templatekotlinjvmlibrary/hooks/InstallGitHooksTask.kt:81 | the result is -1 when the marker occurs nowhere at or after the start, and otherwise the first position at or after the start where it occurs |
| HookSpec.IndexOf | buildSrc/src/main/kotlin/com/lordcodes/templatekotlinjvmlibrary/hooks/InstallGitHooksTask.kt:81 | `indexOf` is -1 exactly when the marker occurs nowhere; otherwise it is the first position where it occurs |
| HookSpec.Contains | buildSrc/src/main/kotlin/com/lordcodes/templatekotlinjvmlibrary/hooks/InstallGitHooksTask.kt:81 | the `indexOf != -1` test holds exactly when the marker occurs somewhere in the text |
| HookSpec.Join | buildSrc/src/main/kotlin/com/lordcodes/templatekotlinjvmlibrary/hooks/InstallGitHooksTask.kt:27 | `File(dir, name)` is a path that starts with `dir/` and ends with exactly `name`, so the name can be read back from it |
| HookSpec.Backup | buildSrc/src/main/kotlin/com/lordcodes/templatekotlinjvmlibrary/hooks/InstallGitHooksTask.kt:70 | `"${absolutePath}.backup"` is a path longer than the hook path, starting with it and ending in `.backup`, so it is never the hook path itself |
| HookSpec.TemplatePath | buildSrc/src/main/kotlin/com/lordcodes/templatekotlinjvmlibrary/hooks/InstallGitHooksTask.kt:29 | `File(projectHooksDirectory, TEMPLATE_FILE)` lies inside the project hooks directory and ends with exactly the template file name |
| HookSpec.IsUserGeneratedHook | buildSrc/src/main/kotlin/com/lordcodes/templatekotlinjvmlibrary/hooks/InstallGitHooksTask.kt:77-82 | it throws exactly for a directory; it answers true exactly for a file whose text has the marker nowhere, so a missing path is never a user hook |
| HookSpec.ResolveGitHooksDirectory | buildSrc/src/main/kotlin/com/lordcodes/templatekotlinjvmlibrary/hooks/InstallGitHooksTask.kt:35-46 | without a `.git` directory it throws that message and changes nothing; it succeeds exactly when `.git` is a directory and something is at `.git/hooks` or mkdir is granted; the directory is created only when nothing was there; no file changes |
| HookSpec.ResolveProjectHooksDirectory | buildSrc/src/main/kotlin/com/lordcodes/templatekotlinjvmlibrary/hooks/InstallGitHooksTask.kt:49-55 | it succeeds exactly when `.git-hooks` is a directory, or nothing is there and mkdir is granted; it then returns a directory; on failure it throws that message and changes nothing |
| HookSpec.HandleExisting | buildSrc/src/main/kotlin/com/lordcodes/templatekotlinjvmlibrary/hooks/InstallGitHooksTask.kt:68-75 | only the hook path and its backup path can change, no directory changes, and the filesystem stays well formed |
| HookSpec.InstallHook | buildSrc/src/main/kotlin/com/lordcodes/templatekotlinjvmlibrary/hooks/InstallGitHooksTask.kt:57-66 | only the hook path and its backup path can change, no directory changes, and the filesystem stays well formed |
| HookSpec.Touched | buildSrc/src/main/kotlin/com/lordcodes/templatekotlinjvmlibrary/hooks/InstallGitHooksTask.kt:27 | every name's hook path and backup path are among the paths a hook loop may change, and every such path starts with `<hooksDir>/`; `HookProperties.TouchedOnlyHookPaths` gives the converse |
| HookSpec.InstallAll | buildSrc/src/main/kotlin/com/lordcodes/templatekotlinjvmlibrary/hooks/InstallGitHooksTask.kt:26-31 | the loop changes only the hook paths and backups of its names, no directory, and keeps the filesystem well formed |
| HookSpec.InstallGitHooks | buildSrc/src/main/kotlin/com/lordcodes/templatekotlinjvmlibrary/hooks/InstallGitHooksTask.kt:12-32 | without a `.git` directory the run throws that message and changes nothing; the filesystem stays well formed |
| InstallGitHooksTask.ResolveGitHooksDirectory | buildSrc/src/main/kotlin/com/lordcodes/templatekotlinjvmlibrary/hooks/InstallGitHooksTask.kt:35-46 | the in-place resolver returns the directory or error, and leaves the state, that `HookSpec.ResolveGitHooksDirectory` gives |
| InstallGitHooksTask.ResolveProjectHooksDirectory | buildSrc/src/main/kotlin/com/lordcodes/templatekotlinjvmlibrary/hooks/InstallGitHooksTask.kt:49-55 | the in-place resolver returns the directory or error, and leaves the state, that `HookSpec.ResolveProjectHooksDirectory` gives |
| InstallGitHooksTask.HandleExisting | buildSrc/src/main/kotlin/com/lordcodes/templatekotlinjvmlibrary/hooks/InstallGitHooksTask.kt:68-75 | the in-place backup or delete ends and leaves the state as `HookSpec.HandleExisting` says |
| InstallGitHooksTask.InstallHook | buildSrc/src/main/kotlin/com/lordcodes/templatekotlinjvmlibrary/hooks/InstallGitHooksTask.kt:57-66 | the in-place sequence (handle or create, read, write, append, set executable) ends and leaves the state as `HookSpec.InstallHook` says |
| InstallGitHooksTask.InstallAll | buildSrc/src/main/kotlin/com/lordcodes/templatekotlinjvmlibrary/hooks/InstallGitHooksTask.kt:26-31 | the `forEach` loop ends and leaves the state as `HookSpec.InstallAll` says; its invariant is that the rest of the loop completes the whole run's result |
| InstallGitHooksTask.InstallGitHooks | buildSrc/src/main/kotlin/com/lordcodes/templatekotlinjvmlibrary/hooks/InstallGitHooksTask.kt:12-32 | the in-place task ends and leaves the state as `HookSpec.InstallGitHooks` says |
| HookProperties.MarkerFoundAfterTemplate | buildSrc/src/main/kotlin/com/lordcodes/templatekotlinjvmlibrary/hooks/InstallGitHooksTask.kt:63-64 | any text followed by the marker contains the marker |
| HookProperties.UserHookIffNoMarker | buildSrc/src/main/kotlin/com/lordcodes/templatekotlinjvmlibrary/hooks/InstallGitHooksTask.kt:77-82 | for a path that is not a directory, it is a user hook exactly when it is a file without the marker |
| HookProperties.GeneratedHookIsNotUserHook | buildSrc/src/main/kotlin/com/lordcodes/templatekotlinjvmlibrary/hooks/InstallGitHooksTask.kt:81 | a file holding any text followed by the marker is never classified as a user hook |
| HookProperties.InstallHookCompletes | buildSrc/src/main/kotlin/com/lordcodes/templatekotlinjvmlibrary/hooks/InstallGitHooksTask.kt:57-66 | a hook install goes through exactly when the template is a file and the existing path can be handled (a generated hook, a user hook with a free backup path, or nothing with a hooks directory); then the hook holds the template text followed by the marker and is executable |
| HookProperties.InstallHookBacksUpUserHook | buildSrc/src/main/kotlin/com/lordcodes/templatekotlinjvmlibrary/hooks/InstallGitHooksTask.kt:68-71 | a user hook is copied unchanged to `<path>.backup`; when anything is already there, the install throws `FileAlreadyExists` with nothing changed |
| HookProperties.InstallHookRegeneratesGeneratedHook | buildSrc/src/main/kotlin/com/lordcodes/templatekotlinjvmlibrary/hooks/InstallGitHooksTask.kt:72-74 | for a hook with the marker, the backup path is left exactly as it was, and the install goes through exactly when the template is a file |
| HookProperties.InstallHookHandlesExistingBeforeTemplate | buildSrc/src/main/kotlin/com/lordcodes/templatekotlinjvmlibrary/hooks/InstallGitHooksTask.kt:58-63 | with no template the install throws a read error, after it has already backed up a user hook, deleted a generated hook, or created an empty file |
| HookProperties.InstallHookFixpoint | buildSrc/src/main/kotlin/com/lordcodes/templatekotlinjvmlibrary/hooks/InstallGitHooksTask.kt:57-75 | installing a hook that already holds the template text followed by the marker, and is executable, goes through and changes nothing |
| HookProperties.HookPathDistinct | buildSrc/src/main/kotlin/com/lordcodes/templatekotlinjvmlibrary/hooks/InstallGitHooksTask.kt:27 | two different names, neither the other's backup, give different hook paths, and neither path is the other's backup |
| HookProperties.TouchedOnlyHookPaths | buildSrc/src/main/kotlin/com/lordcodes/templatekotlinjvmlibrary/hooks/InstallGitHooksTask.kt:26-31 | every path a hook loop may change is the hook path or the backup path of one of its names, so no other path can change |
| HookProperties.BackupPathDistinct | buildSrc/src/main/kotlin/com/lordcodes/templatekotlinjvmlibrary/hooks/InstallGitHooksTask.kt:70 | the backup path of a name is neither the hook path nor the backup path of a different name that is not its own backup |
| HookProperties.BackupOutsideTouched | buildSrc/src/main/kotlin/com/lordcodes/templatekotlinjvmlibrary/hooks/InstallGitHooksTask.kt:26-31 | installing other names, none of them the name itself or its backup, never touches the name's backup path |
| HookProperties.OutsideTouched | buildSrc/src/main/kotlin/com/lordcodes/templatekotlinjvmlibrary/hooks/InstallGitHooksTask.kt:26-31 | installing other names, none of them the name itself or its backup, never touches the name's own hook path |
| HookProperties.TemplateNotTouched | buildSrc/src/main/kotlin/com/lordcodes/templatekotlinjvmlibrary/hooks/InstallGitHooksTask.kt:26-31 | a template apart from every hook path and backup is never among the paths a loop changes |
| HookProperties.InstalledKept | buildSrc/src/main/kotlin/com/lordcodes/templatekotlinjvmlibrary/hooks/InstallGitHooksTask.kt:26-31 | an installed hook stays installed through any change that leaves its path and the template alone |
| HookProperties.InstalledAfterRest | buildSrc/src/main/kotlin/com/lordcodes/templatekotlinjvmlibrary/hooks/InstallGitHooksTask.kt:26-31 | the first hook installed, followed by the rest of the list installed, leaves every hook of the list installed |
| HookProperties.InstallAllInstallsEvery | buildSrc/src/main/kotlin/com/lordcodes/templatekotlinjvmlibrary/hooks/InstallGitHooksTask.kt:26-31 | after a loop that went through, every name of a well laid-out list is installed |
| HookProperties.InstallAllFixpoint | buildSrc/src/main/kotlin/com/lordcodes/templatekotlinjvmlibrary/hooks/InstallGitHooksTask.kt:26-31 | a loop over names that are all installed goes through and changes nothing |
| HookProperties.DistinctTail | buildSrc/src/main/kotlin/com/lordcodes/templatekotlinjvmlibrary/hooks/InstallGitHooksTask.kt:89-112 | the rest of a list without repeats has none, and does not contain the first name |
| HookProperties.InstallAllBacksUpUserHook | buildSrc/src/main/kotlin/com/lordcodes/templatekotlinjvmlibrary/hooks/InstallGitHooksTask.kt:68-71 | after a loop over a list without repeats that went through, the backup of each name that was a user hook holds that hook's original text, whatever the other names did |
| HookProperties.InstallAllKeepsGeneratedBackup | buildSrc/src/main/kotlin/com/lordcodes/templatekotlinjvmlibrary/hooks/InstallGitHooksTask.kt:72-74 | a loop over a list without repeats, whether it goes through or not, leaves the backup path of each name that was a generated hook exactly as it was |
| HookProperties.InstallAllSplit | buildSrc/src/main/kotlin/com/lordcodes/templatekotlinjvmlibrary/hooks/InstallGitHooksTask.kt:26-31 | names are processed once each, in list order: a loop is the loop over any prefix, then, unless that threw, the loop over the rest |
| HookProperties.InstallAllStopsAtFirstWithoutTemplate | buildSrc/src/main/kotlin/com/lordcodes/templatekotlinjvmlibrary/hooks/InstallGitHooksTask.kt:26-31 | with no template the loop throws at its first name, having changed only that hook and its backup |
| HookProperties.CompanionConstants | buildSrc/src/main/kotlin/com/lordcodes/templatekotlinjvmlibrary/hooks/InstallGitHooksTask.kt:84-112 | the companion constants as the task uses them: 22 hook names; the hooks directory is `.git/hooks`; the template is `.git-hooks/hook-run-all-template.sh` |
| HookProperties.HookFilesDistinct | buildSrc/src/main/kotlin/com/lordcodes/templatekotlinjvmlibrary/hooks/InstallGitHooksTask.kt:89-112 | no hook name is listed twice, so each hook is installed once per run |
| HookProperties.HookNamesEndWell | buildSrc/src/main/kotlin/com/lordcodes/templatekotlinjvmlibrary/hooks/InstallGitHooksTask.kt:89-112 | no hook name is empty or ends in `p`, so no name is another's `.backup` |
| HookProperties.TemplateOutsideHooksDirectory | buildSrc/src/main/kotlin/com/lordcodes/templatekotlinjvmlibrary/hooks/InstallGitHooksTask.kt:85-86 | the template in `.git-hooks` is never a hook path or backup path under `.git/hooks` |
| HookProperties.HookFilesWellLaidOut | buildSrc/src/main/kotlin/com/lordcodes/templatekotlinjvmlibrary/hooks/InstallGitHooksTask.kt:84-112 | the 22 names, the hooks directory and the template never collide |
| RunProperties.RunIsHookLoop | buildSrc/src/main/kotlin/com/lordcodes/templatekotlinjvmlibrary/hooks/InstallGitHooksTask.kt:12-32 | once both directories resolve, the run is the hook loop over the 22 names in `.git/hooks`, with the template in `.git-hooks` and the task's marker |
| RunProperties.ReadyState | buildSrc/src/main/kotlin/com/lordcodes/templatekotlinjvmlibrary/hooks/InstallGitHooksTask.kt:35-55 | the resolvers change no file, create at most the two directories and remove none; they change nothing when both directories are already there |
| RunProperties.RunFailsWithoutHooksDirectory | buildSrc/src/main/kotlin/com/lordcodes/templatekotlinjvmlibrary/hooks/InstallGitHooksTask.kt:41-44 | with `.git/hooks` absent and mkdir refused, the run throws that message and changes nothing |
| RunProperties.RunFailsWithoutProjectDirectory | buildSrc/src/main/kotlin/com/lordcodes/templatekotlinjvmlibrary/hooks/InstallGitHooksTask.kt:19-24 | when `.git-hooks` cannot be found or made, the run throws that message, keeping only what the first resolver did |
| RunProperties.RunResolves | buildSrc/src/main/kotlin/com/lordcodes/templatekotlinjvmlibrary/hooks/InstallGitHooksTask.kt:13-24 | unless both resolvers' conditions hold, the run ends in a resolution error |
| RunProperties.LoopFrame | buildSrc/src/main/kotlin/com/lordcodes/templatekotlinjvmlibrary/hooks/InstallGitHooksTask.kt:26-31 | a loop started after the resolvers changes, compared to the state before them, only its hook and backup paths |
| RunProperties.LoopInstallsEvery | buildSrc/src/main/kotlin/com/lordcodes/templatekotlinjvmlibrary/hooks/InstallGitHooksTask.kt:26-31 | after a loop over a non-empty list that went through, the template was a file before and is unchanged, and every name is installed |
| RunProperties.RunFrame | buildSrc/src/main/kotlin/com/lordcodes/templatekotlinjvmlibrary/hooks/InstallGitHooksTask.kt:12-32 | a run changes no file outside the 22 hook paths and their backups; it creates no directory other than `.git/hooks` and `.git-hooks`, and removes none |
| RunProperties.FailedRunFrame | buildSrc/src/main/kotlin/com/lordcodes/templatekotlinjvmlibrary/hooks/InstallGitHooksTask.kt:13-24 | a run that fails in a resolver changes no file and creates at most `.git/hooks` |
| RunProperties.RunInstallsEveryHook | buildSrc/src/main/kotlin/com/lordcodes/templatekotlinjvmlibrary/hooks/InstallGitHooksTask.kt:26-31 | after a run that went through, each of the 22 hooks holds the unchanged template's text followed by the marker and is executable |
| RunProperties.RunIsIdempotent | buildSrc/src/main/kotlin/com/lordcodes/templatekotlinjvmlibrary/hooks/InstallGitHooksTask.kt:12-32 | a second run after one that went through goes through and changes nothing, whatever mkdir would now do |
| RunProperties.RunBacksUpUserHook | buildSrc/src/main/kotlin/com/lordcodes/templatekotlinjvmlibrary/hooks/InstallGitHooksTask.kt:12-32 | after a run that went through, the `.backup` of each of the 22 hooks that was a user hook holds that hook's original text |
| RunProperties.RunKeepsGeneratedBackup | buildSrc/src/main/kotlin/com/lordcodes/templatekotlinjvmlibrary/hooks/InstallGitHooksTask.kt:12-32 | a run, whether it goes through or not, leaves the `.backup` path of each of the 22 hooks that was generated exactly as it was, so no backup is made of it |
| RunProperties.RunStopsAtFirstHookWithoutTemplate | buildSrc/src/main/kotlin/com/lordcodes/templatekotlinjvmlibrary/hooks/InstallGitHooksTask.kt:26-31 | with the directories resolved but no template, the run throws, having changed only `applypatch-msg` and its backup |

## Left out

- Gradle plumbing (`DefaultTask`, `@TaskAction`) is not modelled: it has no behaviour of its own.
- Printing the error and calling `exitProcess(1)` (lines 16-17 and 22-23) become an `Aborted` outcome carrying the message. An `IOException` thrown inside the hook loop is not caught by the task, and it likewise becomes an `Aborted` outcome that ends the run.
- Absolute paths are not modelled. Paths are plain strings joined with `/`, and `absolutePath + ".backup"` is the hook path followed by `.backup`.
- Why `mkdir` fails (permissions, disk, races) is not modelled. The system's answer is the parameter `granted`; mkdir also fails when anything is already at the path.
- Permission bits are reduced to one executable flag per file.
- `readText`, `copyTo` and `createNewFile` fail in the model only in the structural cases. These are a missing path, a directory, an occupied target, and a parent that is not a directory. An `IOException` from an unreadable hook or template (lines 29 and 81), a copy that fails part-way (line 71), or a `createNewFile` refused by permissions (line 61) is not modelled.
- Text encoding is not modelled. `readText`, `writeText` and `appendText` decode and encode with UTF-8, while `copyTo` copies raw bytes. Texts are strings of characters here, so for a template that is not valid UTF-8 the model's "template text followed by the marker" is not the bytes the task writes. A backup does hold the original bytes in both.
- Failures of `writeText`, `appendText`, `setExecutable` and `delete` on a file are not modelled. The Kotlin code ignores the flags that `setExecutable` and `delete` return.
- The filesystem is a flat map of paths. Parent directories are checked only where the task's calls depend on them, so `createNewFile` under a non-directory fails.
- Concurrent runs and races with other processes are not modelled; the task is single-threaded and unsynchronised.
- The template's content is an opaque string.
- HookSpec.InstallGitHooks: the frame, the created directories, the result of a completed run and idempotence are not stated on the function itself. They are lemmas in RunProperties (`RunFrame`, `RunInstallsEveryHook`, `RunIsIdempotent`), which state them in full.
- HookSpec.Touched: the function's own contract states only that every name's hook and backup path is in the set. The converse, that the set holds nothing else, is the lemma `HookProperties.TouchedOnlyHookPaths`. Stated on the function, it would be assumed at every use of the loop and makes those proofs too costly.
- HookSpec.HandleExisting: only its frame is stated on the function. What it does to the hook and its backup is stated in the `InstallHook*` lemmas of HookProperties.
- HookSpec.InstallHook: only its frame is stated on the function. The hook's content, the backup and the order of failures are stated in the `InstallHook*` lemmas of HookProperties.
