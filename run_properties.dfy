/** What a whole run of the task promises, with the task's own directory
    names, template file, marker and hook list: which paths it may change,
    which directories it may create, that a run that goes through leaves every
    hook installed, and that running it again changes nothing. */
module RunProperties {
  import opened FsModel
  import opened HookSpec
  import opened HookProperties

  /** The template every hook of a run is generated from. */
  function RunTemplate(): string {
    TemplatePath(PROJECT_HOOKS_DIRECTORY)
  }

  /** The filesystem a run hands to the hook loop: `.git/hooks` resolved,
      then `.git-hooks` resolved. */
  function Ready(s: Fs, hooksGranted: bool, projectGranted: bool): Fs {
    ResolveProjectHooksDirectory(ResolveGitHooksDirectory(s, hooksGranted).fs, projectGranted).fs
  }

  /** When both directories resolve, the run is the hook loop over the task's
      list, from `.git/hooks`, with the template in `.git-hooks`. */
  lemma RunIsHookLoop(s: Fs, hooksGranted: bool, projectGranted: bool)
    requires s.IsDirectory(GIT_DIRECTORY)
    requires s.Exists(GIT_HOOKS_DIRECTORY) || hooksGranted
    requires s.IsDirectory(PROJECT_HOOKS_DIRECTORY) || (projectGranted && !s.Exists(PROJECT_HOOKS_DIRECTORY))
    ensures InstallGitHooks(s, hooksGranted, projectGranted)
              == InstallAll(Ready(s, hooksGranted, projectGranted), GIT_HOOKS_DIRECTORY, HOOK_FILES,
                            RunTemplate(), UPDATEABLE_IDENTIFIER)
  {
    assert GIT_HOOKS_DIRECTORY[4] != PROJECT_HOOKS_DIRECTORY[4];
  }

  /** The two resolvers change no file, and create at most the two directories. */
  lemma ReadyState(s: Fs, hooksGranted: bool, projectGranted: bool)
    requires s.IsDirectory(GIT_DIRECTORY)
    requires s.Exists(GIT_HOOKS_DIRECTORY) || hooksGranted
    requires s.IsDirectory(PROJECT_HOOKS_DIRECTORY) || (projectGranted && !s.Exists(PROJECT_HOOKS_DIRECTORY))
    ensures
      var ready := Ready(s, hooksGranted, projectGranted);
      && ready.files == s.files && ready.exec == s.exec
      && ready.Exists(GIT_HOOKS_DIRECTORY) && ready.IsDirectory(PROJECT_HOOKS_DIRECTORY)
      && s.dirs <= ready.dirs <= s.dirs + {GIT_HOOKS_DIRECTORY, PROJECT_HOOKS_DIRECTORY}
      && (s.Exists(GIT_HOOKS_DIRECTORY) && s.IsDirectory(PROJECT_HOOKS_DIRECTORY) ==> ready == s)
  {
    assert GIT_HOOKS_DIRECTORY[4] != PROJECT_HOOKS_DIRECTORY[4];
  }

  /** `.git/hooks` missing and not creatable: the run throws before touching anything. */
  lemma RunFailsWithoutHooksDirectory(s: Fs, hooksGranted: bool, projectGranted: bool)
    requires s.IsDirectory(GIT_DIRECTORY) && !s.Exists(GIT_HOOKS_DIRECTORY) && !hooksGranted
    ensures InstallGitHooks(s, hooksGranted, projectGranted)
              == Step(s, Aborted(ResolutionError(HOOKS_DIRECTORY_NOT_CREATED)))
  {
  }

  /** `.git-hooks` neither a directory nor creatable: the run throws after
      the first resolver, having at most created `.git/hooks`. */
  lemma RunFailsWithoutProjectDirectory(s: Fs, hooksGranted: bool, projectGranted: bool)
    requires s.IsDirectory(GIT_DIRECTORY) && (s.Exists(GIT_HOOKS_DIRECTORY) || hooksGranted)
    requires !s.IsDirectory(PROJECT_HOOKS_DIRECTORY) && (s.Exists(PROJECT_HOOKS_DIRECTORY) || !projectGranted)
    ensures
      var r := InstallGitHooks(s, hooksGranted, projectGranted);
      && r.outcome == Aborted(ResolutionError(PROJECT_DIRECTORY_NOT_CREATED))
      && r.fs == ResolveGitHooksDirectory(s, hooksGranted).fs
  {
    assert GIT_HOOKS_DIRECTORY[4] != PROJECT_HOOKS_DIRECTORY[4];
  }

  /** Unless these hold, the run ends in a resolution error before any hook is installed. */
  lemma RunResolves(s: Fs, hooksGranted: bool, projectGranted: bool)
    ensures
      var r := InstallGitHooks(s, hooksGranted, projectGranted);
      !(&& s.IsDirectory(GIT_DIRECTORY)
        && (s.Exists(GIT_HOOKS_DIRECTORY) || hooksGranted)
        && (s.IsDirectory(PROJECT_HOOKS_DIRECTORY) || (projectGranted && !s.Exists(PROJECT_HOOKS_DIRECTORY))))
      ==> r.outcome.Aborted? && r.outcome.error.ResolutionError?
  {
    assert GIT_HOOKS_DIRECTORY[4] != PROJECT_HOOKS_DIRECTORY[4];
  }

  /** The hook loop started from a state with the same files as `s` leaves
      every path outside the ones it touches as it is in `s`. */
  lemma LoopFrame(s: Fs, ready: Fs, hooksDir: string, names: seq<string>, template: string, marker: string)
    requires ready.files == s.files && ready.exec == s.exec
    ensures
      var r := InstallAll(ready, hooksDir, names, template, marker);
      AgreeOutside(s, r.fs, Touched(hooksDir, names)) && r.fs.dirs == ready.dirs
  {
    var r := InstallAll(ready, hooksDir, names, template, marker);
    forall q | q !in Touched(hooksDir, names)
      ensures Unchanged(s, r.fs, q)
    {
      assert Unchanged(ready, r.fs, q);
    }
  }

  /** After a loop over a non-empty list that went through, every name is
      installed and the template's text is still the one in `s`. */
  lemma LoopInstallsEvery(s: Fs, ready: Fs, hooksDir: string, names: seq<string>, template: string, marker: string)
    requires ready.files == s.files && ready.exec == s.exec
    requires names != [] && WellLaidOut(hooksDir, names, template)
    ensures
      var r := InstallAll(ready, hooksDir, names, template, marker);
      r.outcome == Completed ==>
        && template in s.files && template in r.fs.files
        && r.fs.files[template] == s.files[template]
        && forall n :: n in names ==> Installed(r.fs, hooksDir, n, template, marker)
  {
    var r := InstallAll(ready, hooksDir, names, template, marker);
    if r.outcome == Completed {
      assert names[0] in names;
      InstallHookCompletes(ready, hooksDir, names[0], template, marker);
      InstallAllInstallsEvery(ready, hooksDir, names, template, marker);
      TemplateNotTouched(hooksDir, names, template);
      assert Unchanged(ready, r.fs, template);
    }
  }

  /** A run changes no file but the 22 hook paths and their backups, creates
      no directory but `.git/hooks` and `.git-hooks`, and removes none. */
  lemma RunFrame(s: Fs, hooksGranted: bool, projectGranted: bool)
    ensures
      var r := InstallGitHooks(s, hooksGranted, projectGranted);
      && AgreeOutside(s, r.fs, Touched(GIT_HOOKS_DIRECTORY, HOOK_FILES))
      && s.dirs <= r.fs.dirs <= s.dirs + {GIT_HOOKS_DIRECTORY, PROJECT_HOOKS_DIRECTORY}
  {
    if && s.IsDirectory(GIT_DIRECTORY)
       && (s.Exists(GIT_HOOKS_DIRECTORY) || hooksGranted)
       && (s.IsDirectory(PROJECT_HOOKS_DIRECTORY) || (projectGranted && !s.Exists(PROJECT_HOOKS_DIRECTORY)))
    {
      RunIsHookLoop(s, hooksGranted, projectGranted);
      ReadyState(s, hooksGranted, projectGranted);
      LoopFrame(s, Ready(s, hooksGranted, projectGranted), GIT_HOOKS_DIRECTORY, HOOK_FILES, RunTemplate(), UPDATEABLE_IDENTIFIER);
    } else {
      FailedRunFrame(s, hooksGranted, projectGranted);
      SameFilesAgree(s, InstallGitHooks(s, hooksGranted, projectGranted).fs, Touched(GIT_HOOKS_DIRECTORY, HOOK_FILES));
    }
  }

  /** A step that keeps every file's text and flag changes nothing outside
      any set of paths; stated apart so that the run's literal set of touched
      paths is never unfolded. */
  lemma SameFilesAgree(s: Fs, t: Fs, touched: set<string>)
    requires t.files == s.files && t.exec == s.exec
    ensures AgreeOutside(s, t, touched)
  {
  }

  /** A run that fails in a resolver has changed no file and created at most `.git/hooks`. */
  lemma FailedRunFrame(s: Fs, hooksGranted: bool, projectGranted: bool)
    requires !(&& s.IsDirectory(GIT_DIRECTORY)
               && (s.Exists(GIT_HOOKS_DIRECTORY) || hooksGranted)
               && (s.IsDirectory(PROJECT_HOOKS_DIRECTORY) || (projectGranted && !s.Exists(PROJECT_HOOKS_DIRECTORY))))
    ensures
      var r := InstallGitHooks(s, hooksGranted, projectGranted);
      && r.fs.files == s.files && r.fs.exec == s.exec
      && (r.fs.dirs == s.dirs || r.fs.dirs == s.dirs + {GIT_HOOKS_DIRECTORY})
  {
    if !s.IsDirectory(GIT_DIRECTORY) {
    } else if !(s.Exists(GIT_HOOKS_DIRECTORY) || hooksGranted) {
      RunFailsWithoutHooksDirectory(s, hooksGranted, projectGranted);
    } else {
      RunFailsWithoutProjectDirectory(s, hooksGranted, projectGranted);
    }
  }

  /** After a run that went through, every hook of the list is installed:
      its file holds the template's text (unchanged by the run) followed by
      the marker, and it is executable. */
  lemma RunInstallsEveryHook(s: Fs, hooksGranted: bool, projectGranted: bool)
    ensures
      var r := InstallGitHooks(s, hooksGranted, projectGranted);
      r.outcome == Completed ==>
        && RunTemplate() in s.files && RunTemplate() in r.fs.files
        && r.fs.files[RunTemplate()] == s.files[RunTemplate()]
        && forall n :: n in HOOK_FILES ==> Installed(r.fs, GIT_HOOKS_DIRECTORY, n, RunTemplate(), UPDATEABLE_IDENTIFIER)
  {
    RunResolves(s, hooksGranted, projectGranted);
    if && s.IsDirectory(GIT_DIRECTORY)
       && (s.Exists(GIT_HOOKS_DIRECTORY) || hooksGranted)
       && (s.IsDirectory(PROJECT_HOOKS_DIRECTORY) || (projectGranted && !s.Exists(PROJECT_HOOKS_DIRECTORY)))
    {
      RunIsHookLoop(s, hooksGranted, projectGranted);
      ReadyState(s, hooksGranted, projectGranted);
      HookFilesWellLaidOut();
      LoopInstallsEvery(s, Ready(s, hooksGranted, projectGranted), GIT_HOOKS_DIRECTORY, HOOK_FILES, RunTemplate(), UPDATEABLE_IDENTIFIER);
    }
  }

  /** Running the task again after a run that went through changes nothing
      and goes through, whatever the system would now grant. */
  lemma RunIsIdempotent(s: Fs, hooksGranted: bool, projectGranted: bool, hooksGranted2: bool, projectGranted2: bool)
    ensures
      var r := InstallGitHooks(s, hooksGranted, projectGranted);
      r.outcome == Completed ==> InstallGitHooks(r.fs, hooksGranted2, projectGranted2) == Step(r.fs, Completed)
  {
    var r := InstallGitHooks(s, hooksGranted, projectGranted);
    RunResolves(s, hooksGranted, projectGranted);
    if r.outcome == Completed {
      RunIsHookLoop(s, hooksGranted, projectGranted);
      ReadyState(s, hooksGranted, projectGranted);
      RunInstallsEveryHook(s, hooksGranted, projectGranted);
      var ready := Ready(s, hooksGranted, projectGranted);
      assert GIT_HOOKS_DIRECTORY !in Touched(GIT_HOOKS_DIRECTORY, HOOK_FILES);
      assert Unchanged(ready, r.fs, GIT_HOOKS_DIRECTORY);
      assert r.fs.Exists(GIT_HOOKS_DIRECTORY);
      ReadyState(r.fs, hooksGranted2, projectGranted2);
      RunIsHookLoop(r.fs, hooksGranted2, projectGranted2);
      HookFilesWellLaidOut();
      InstallAllFixpoint(r.fs, GIT_HOOKS_DIRECTORY, HOOK_FILES, RunTemplate(), UPDATEABLE_IDENTIFIER);
    }
  }

  /** After a run that went through, the backup of every hook of the list
      that was a user hook (a file without the marker) holds that hook's
      original text. */
  lemma RunBacksUpUserHook(s: Fs, hooksGranted: bool, projectGranted: bool, n: string)
    requires n in HOOK_FILES
    requires Join(GIT_HOOKS_DIRECTORY, n) in s.files
    requires !Contains(s.files[Join(GIT_HOOKS_DIRECTORY, n)], UPDATEABLE_IDENTIFIER)
    ensures
      var r := InstallGitHooks(s, hooksGranted, projectGranted);
      var p := Join(GIT_HOOKS_DIRECTORY, n);
      r.outcome == Completed ==> Backup(p) in r.fs.files && r.fs.files[Backup(p)] == s.files[p]
  {
    RunResolves(s, hooksGranted, projectGranted);
    if && s.IsDirectory(GIT_DIRECTORY)
       && (s.Exists(GIT_HOOKS_DIRECTORY) || hooksGranted)
       && (s.IsDirectory(PROJECT_HOOKS_DIRECTORY) || (projectGranted && !s.Exists(PROJECT_HOOKS_DIRECTORY)))
    {
      RunIsHookLoop(s, hooksGranted, projectGranted);
      ReadyState(s, hooksGranted, projectGranted);
      HookFilesWellLaidOut();
      HookFilesDistinct();
      InstallAllBacksUpUserHook(Ready(s, hooksGranted, projectGranted), GIT_HOOKS_DIRECTORY, HOOK_FILES,
                                RunTemplate(), UPDATEABLE_IDENTIFIER, n);
    }
  }

  /** A run, whether it goes through or not, leaves the backup path of every
      hook of the list that was generated (a file with the marker) exactly
      as it was: no backup is made of it. */
  lemma RunKeepsGeneratedBackup(s: Fs, hooksGranted: bool, projectGranted: bool, n: string)
    requires n in HOOK_FILES
    requires Join(GIT_HOOKS_DIRECTORY, n) in s.files
    requires Contains(s.files[Join(GIT_HOOKS_DIRECTORY, n)], UPDATEABLE_IDENTIFIER)
    ensures Unchanged(s, InstallGitHooks(s, hooksGranted, projectGranted).fs, Backup(Join(GIT_HOOKS_DIRECTORY, n)))
  {
    if && s.IsDirectory(GIT_DIRECTORY)
       && (s.Exists(GIT_HOOKS_DIRECTORY) || hooksGranted)
       && (s.IsDirectory(PROJECT_HOOKS_DIRECTORY) || (projectGranted && !s.Exists(PROJECT_HOOKS_DIRECTORY)))
    {
      RunIsHookLoop(s, hooksGranted, projectGranted);
      ReadyState(s, hooksGranted, projectGranted);
      HookFilesWellLaidOut();
      HookFilesDistinct();
      InstallAllKeepsGeneratedBackup(Ready(s, hooksGranted, projectGranted), GIT_HOOKS_DIRECTORY, HOOK_FILES,
                                     RunTemplate(), UPDATEABLE_IDENTIFIER, n);
    } else {
      FailedRunFrame(s, hooksGranted, projectGranted);
    }
  }

  /** Without a readable template the run throws at the first hook of the
      list, having changed nothing but that hook and its backup. */
  lemma RunStopsAtFirstHookWithoutTemplate(s: Fs, hooksGranted: bool, projectGranted: bool)
    requires s.IsDirectory(GIT_DIRECTORY) && (s.Exists(GIT_HOOKS_DIRECTORY) || hooksGranted)
    requires s.IsDirectory(PROJECT_HOOKS_DIRECTORY) || (projectGranted && !s.Exists(PROJECT_HOOKS_DIRECTORY))
    requires RunTemplate() !in s.files
    ensures
      var r := InstallGitHooks(s, hooksGranted, projectGranted);
      var first := Join(GIT_HOOKS_DIRECTORY, HOOK_FILES[0]);
      && r.outcome.Aborted?
      && AgreeOutside(s, r.fs, {first, Backup(first)})
  {
    RunIsHookLoop(s, hooksGranted, projectGranted);
    ReadyState(s, hooksGranted, projectGranted);
    TemplateOutsideHooksDirectory(HOOK_FILES[0]);
    LoopStopsAtFirst(s, Ready(s, hooksGranted, projectGranted), GIT_HOOKS_DIRECTORY, HOOK_FILES, RunTemplate(), UPDATEABLE_IDENTIFIER);
  }

  /** The loop, from a state with the files of `s` and without the template,
      throws at its first name having changed only that hook and its backup. */
  lemma LoopStopsAtFirst(s: Fs, ready: Fs, hooksDir: string, names: seq<string>, template: string, marker: string)
    requires ready.files == s.files && ready.exec == s.exec
    requires names != [] && Apart(hooksDir, names[0], template) && template !in s.files
    ensures
      var r := InstallAll(ready, hooksDir, names, template, marker);
      var first := Join(hooksDir, names[0]);
      && r.outcome.Aborted?
      && AgreeOutside(s, r.fs, {first, Backup(first)})
  {
    var r := InstallAll(ready, hooksDir, names, template, marker);
    var first := Join(hooksDir, names[0]);
    InstallAllStopsAtFirstWithoutTemplate(ready, hooksDir, names, template, marker);
    forall q | q !in {first, Backup(first)}
      ensures Unchanged(s, r.fs, q)
    {
      assert Unchanged(ready, r.fs, q);
    }
  }
}
