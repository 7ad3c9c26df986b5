/** What the installer promises, proved about the functions of HookSpec:
    the content of a hook it writes, what becomes of a hook that was already
    there, the order of its side effects, which paths it may change, and that
    a second run changes nothing. The lemmas about one hook and about a list
    of hooks hold for any hooks directory, template path and marker; the last
    section applies them to the task's own constants. */
module HookProperties {
  import opened FsModel
  import opened HookSpec

  /** Hook `name` is installed in `s`: its file holds the template's text
      followed by the marker, and it is executable. */
  ghost predicate Installed(s: Fs, hooksDir: string, name: string, template: string, marker: string) {
    var p := Join(hooksDir, name);
    p in s.files && template in s.files && s.files[p] == s.files[template] + marker && p in s.exec
  }

  /** The template is neither the hook file of `name` nor its backup. */
  ghost predicate Apart(hooksDir: string, name: string, template: string) {
    template != Join(hooksDir, name) && template != Backup(Join(hooksDir, name))
  }

  /** The paths a run over `names` writes do not overlap by accident: the
      template is apart from every hook, and no name is another's backup. */
  ghost predicate WellLaidOut(hooksDir: string, names: seq<string>, template: string) {
    && (forall n :: n in names ==> Apart(hooksDir, n, template))
    && (forall n, m :: n in names && m in names ==> n != Backup(m))
  }

  /** No name occurs twice in `names`. */
  ghost predicate Distinct(names: seq<string>) {
    forall i, j :: 0 <= i < j < |names| ==> names[i] != names[j]
  }

  // ---------------------------------------------------------------------------
  // The marker test.

  /** A generated file always carries the marker, whatever the template says. */
  lemma MarkerFoundAfterTemplate(text: string, marker: string)
    ensures Contains(text + marker, marker)
  {
    var generated := text + marker;
    assert generated[|text|..|text| + |marker|] == marker;
    assert OccursAt(generated, marker, |text|);
  }

  /** A missing path is never a user hook; an existing file is one exactly
      when the marker is absent from its text. */
  lemma UserHookIffNoMarker(s: Fs, p: string, marker: string)
    requires p !in s.dirs
    ensures IsUserGeneratedHook(s, p, marker) == Ok(p in s.files && !Contains(s.files[p], marker))
  {
  }

  /** A file this installer wrote is classified as generated, never as a user hook. */
  lemma GeneratedHookIsNotUserHook(s: Fs, p: string, text: string, marker: string)
    requires p in s.files && s.files[p] == text + marker
    ensures IsUserGeneratedHook(s, p, marker) == Ok(false)
  {
    MarkerFoundAfterTemplate(text, marker);
  }

  // ---------------------------------------------------------------------------
  // One hook.

  /** A hook is installed exactly when the template can be read and what was
      at the hook path could be dealt with; the file then holds the template
      followed by the marker and is executable. */
  lemma InstallHookCompletes(s: Fs, hooksDir: string, name: string, template: string, marker: string)
    requires Apart(hooksDir, name, template)
    ensures
      var p := Join(hooksDir, name);
      var r := InstallHook(s, hooksDir, name, template, marker);
      && (r.outcome == Completed <==>
            && template in s.files
            && (if p in s.files then Contains(s.files[p], marker) || !s.Exists(Backup(p))
                else p !in s.dirs && s.IsDirectory(hooksDir)))
      && (r.outcome == Completed ==>
            && Installed(r.fs, hooksDir, name, template, marker)
            && r.fs.files[p] == s.files[template] + marker)
  {
    var p := Join(hooksDir, name);
    var prepared := if s.Exists(p) then HandleExisting(s, p, marker) else Commit(s, s.CreateNewFile(hooksDir, p));
    assert Unchanged(s, prepared.fs, template);
  }

  /** A user hook (no marker) is copied unchanged to `<path>.backup` before
      anything else happens to it. When anything is already at the backup
      path the copy throws and nothing at all has changed. */
  lemma InstallHookBacksUpUserHook(s: Fs, hooksDir: string, name: string, template: string, marker: string)
    requires Join(hooksDir, name) in s.files
    requires !Contains(s.files[Join(hooksDir, name)], marker)
    ensures
      var p := Join(hooksDir, name);
      var r := InstallHook(s, hooksDir, name, template, marker);
      && (s.Exists(Backup(p)) ==> r == Step(s, Aborted(FileAlreadyExists(Backup(p)))))
      && (!s.Exists(Backup(p)) ==> Backup(p) in r.fs.files && r.fs.files[Backup(p)] == s.files[p])
  {
    var p := Join(hooksDir, name);
    assert p != Backup(p) by { assert |Backup(p)| > |p|; }
  }

  /** A generated hook (marker present) is deleted and written again, and its
      backup path is left exactly as it was. */
  lemma InstallHookRegeneratesGeneratedHook(s: Fs, hooksDir: string, name: string, template: string, marker: string)
    requires Apart(hooksDir, name, template)
    requires Join(hooksDir, name) in s.files
    requires Contains(s.files[Join(hooksDir, name)], marker)
    ensures
      var p := Join(hooksDir, name);
      var r := InstallHook(s, hooksDir, name, template, marker);
      && Unchanged(s, r.fs, Backup(p))
      && (r.outcome == Completed <==> template in s.files)
  {
    var p := Join(hooksDir, name);
    assert p != Backup(p) by { assert |Backup(p)| > |p|; }
  }

  /** The existing file is dealt with, or an empty one created, before the
      template is read: when the template is missing the hook fails, but a
      user hook has already been backed up, a generated one already deleted
      and an absent one already created empty. */
  lemma InstallHookHandlesExistingBeforeTemplate(s: Fs, hooksDir: string, name: string, template: string, marker: string)
    requires Apart(hooksDir, name, template)
    requires template !in s.files
    ensures
      var p := Join(hooksDir, name);
      var b := Backup(p);
      var failed := Aborted(ReadFailed(template));
      var r := InstallHook(s, hooksDir, name, template, marker);
      && r.outcome.Aborted?
      && (p in s.files && !Contains(s.files[p], marker) && !s.Exists(b) ==>
            r == Step(s.(files := s.files[b := s.files[p]]), failed))
      && (p in s.files && Contains(s.files[p], marker) ==>
            r == Step(s.Delete(p), failed))
      && (!s.Exists(p) && s.IsDirectory(hooksDir) ==>
            r == Step(s.(files := s.files[p := ""]), failed))
  {
    var p := Join(hooksDir, name);
    var prepared := if s.Exists(p) then HandleExisting(s, p, marker) else Commit(s, s.CreateNewFile(hooksDir, p));
    assert Unchanged(s, prepared.fs, template);
  }

  /** Installing a hook that is already installed changes nothing. */
  lemma InstallHookFixpoint(s: Fs, hooksDir: string, name: string, template: string, marker: string)
    requires Apart(hooksDir, name, template)
    requires Installed(s, hooksDir, name, template, marker)
    ensures InstallHook(s, hooksDir, name, template, marker) == Step(s, Completed)
  {
    var p := Join(hooksDir, name);
    var text := s.files[template];
    GeneratedHookIsNotUserHook(s, p, text, marker);
    var written := s.Delete(p).WriteText(p, text).AppendText(p, marker).SetExecutable(p);
    assert written.files == s.files;
    assert written.exec == s.exec;
  }

  // ---------------------------------------------------------------------------
  // Several hooks in order.

  /** The hook path of `n` is never written by installing a different name. */
  lemma HookPathDistinct(hooksDir: string, n: string, m: string)
    requires n != m && n != Backup(m)
    ensures Join(hooksDir, n) != Join(hooksDir, m) && Join(hooksDir, n) != Backup(Join(hooksDir, m))
  {
    var k := |hooksDir| + 1;
    assert Join(hooksDir, n)[k..] == n;
    assert Join(hooksDir, m)[k..] == m;
    assert Backup(Join(hooksDir, m))[k..] == Backup(m);
  }

  /** The hook path of `name` is not among the paths that installing other
      names may change. */
  lemma {:induction false} OutsideTouched(hooksDir: string, names: seq<string>, name: string)
    requires forall m :: m in names ==> m != name && name != Backup(m)
    ensures Join(hooksDir, name) !in Touched(hooksDir, names)
    decreases |names|
  {
    if names != [] {
      assert names[0] in names;
      assert forall m :: m in names[1..] ==> m in names;
      HookPathDistinct(hooksDir, name, names[0]);
      OutsideTouched(hooksDir, names[1..], name);
    }
  }

  /** Touched holds nothing but the hook paths and backup paths of its
      names, so a frame stated with it lets no other path change. */
  lemma {:induction false} TouchedOnlyHookPaths(hooksDir: string, names: seq<string>)
    ensures forall q :: q in Touched(hooksDir, names) ==>
              exists n :: n in names && (q == Join(hooksDir, n) || q == Backup(Join(hooksDir, n)))
    decreases |names|
  {
    if names != [] {
      TouchedOnlyHookPaths(hooksDir, names[1..]);
      forall q | q in Touched(hooksDir, names)
        ensures exists n :: n in names && (q == Join(hooksDir, n) || q == Backup(Join(hooksDir, n)))
      {
        if q in Touched(hooksDir, names[1..]) {
          var n :| n in names[1..] && (q == Join(hooksDir, n) || q == Backup(Join(hooksDir, n)));
          assert n in names;
        } else {
          assert names[0] in names;
        }
      }
    }
  }

  /** The backup path of `n` is never written by installing a different
      name that is not `n`'s own backup. */
  lemma BackupPathDistinct(hooksDir: string, n: string, m: string)
    requires n != m && m != Backup(n)
    ensures Backup(Join(hooksDir, n)) != Join(hooksDir, m)
    ensures Backup(Join(hooksDir, n)) != Backup(Join(hooksDir, m))
  {
    var k := |hooksDir| + 1;
    assert Backup(Join(hooksDir, n))[k..] == Backup(n);
    assert Join(hooksDir, m)[k..] == m;
    assert Backup(Join(hooksDir, m))[k..] == Backup(m);
  }

  /** The backup path of `name` is not among the paths that installing other
      names may change. */
  lemma {:induction false} BackupOutsideTouched(hooksDir: string, names: seq<string>, name: string)
    requires forall m :: m in names ==> m != name && m != Backup(name)
    ensures Backup(Join(hooksDir, name)) !in Touched(hooksDir, names)
    decreases |names|
  {
    if names != [] {
      assert names[0] in names;
      assert forall m :: m in names[1..] ==> m in names;
      BackupPathDistinct(hooksDir, name, names[0]);
      BackupOutsideTouched(hooksDir, names[1..], name);
    }
  }

  /** A template that no hook path and no backup path of `names` coincides
      with is never among the paths a run over `names` changes. */
  lemma {:induction false} TemplateNotTouched(hooksDir: string, names: seq<string>, template: string)
    requires forall n :: n in names ==> Apart(hooksDir, n, template)
    ensures template !in Touched(hooksDir, names)
    decreases |names|
  {
    if names != [] {
      assert names[0] in names;
      assert forall n :: n in names[1..] ==> n in names;
      TemplateNotTouched(hooksDir, names[1..], template);
    }
  }

  /** A change that keeps the hook file and the template keeps the hook installed. */
  lemma InstalledKept(s: Fs, t: Fs, hooksDir: string, name: string, template: string, marker: string, touched: set<string>)
    requires Installed(s, hooksDir, name, template, marker) && AgreeOutside(s, t, touched)
    requires Join(hooksDir, name) !in touched && template !in touched
    ensures Installed(t, hooksDir, name, template, marker)
  {
    assert Unchanged(s, t, Join(hooksDir, name));
    assert Unchanged(s, t, template);
  }

  /** The inductive step of InstallAllInstallsEvery, apart from the run itself. */
  lemma InstalledAfterRest(first: Fs, last: Fs, hooksDir: string, names: seq<string>, template: string, marker: string)
    requires names != [] && WellLaidOut(hooksDir, names, template)
    requires Installed(first, hooksDir, names[0], template, marker)
    requires AgreeOutside(first, last, Touched(hooksDir, names[1..]))
    requires forall n :: n in names[1..] ==> Installed(last, hooksDir, n, template, marker)
    ensures forall n :: n in names ==> Installed(last, hooksDir, n, template, marker)
  {
    var n0, rest := names[0], names[1..];
    assert forall n :: n in rest ==> n in names;
    assert n0 in names;
    if n0 !in rest {
      forall m | m in rest
        ensures m != n0 && n0 != Backup(m)
      {
        assert m in names;
      }
      OutsideTouched(hooksDir, rest, n0);
      TemplateNotTouched(hooksDir, rest, template);
      InstalledKept(first, last, hooksDir, n0, template, marker, Touched(hooksDir, rest));
    }
    forall n | n in names
      ensures Installed(last, hooksDir, n, template, marker)
    {
      if n != n0 {
        assert n in rest;
      }
    }
  }

  /** After a run over `names` that went through, every name is installed. */
  lemma {:induction false} InstallAllInstallsEvery(s: Fs, hooksDir: string, names: seq<string>, template: string, marker: string)
    requires WellLaidOut(hooksDir, names, template)
    ensures
      var r := InstallAll(s, hooksDir, names, template, marker);
      r.outcome == Completed ==> forall n :: n in names ==> Installed(r.fs, hooksDir, n, template, marker)
    decreases |names|
  {
    var r := InstallAll(s, hooksDir, names, template, marker);
    if names != [] && r.outcome == Completed {
      assert forall n :: n in names[1..] ==> n in names;
      assert names[0] in names;
      var first := InstallHook(s, hooksDir, names[0], template, marker);
      InstallHookCompletes(s, hooksDir, names[0], template, marker);
      InstallAllInstallsEvery(first.fs, hooksDir, names[1..], template, marker);
      InstalledAfterRest(first.fs, r.fs, hooksDir, names, template, marker);
    }
  }

  /** A run over names that are all installed already changes nothing. */
  lemma {:induction false} InstallAllFixpoint(s: Fs, hooksDir: string, names: seq<string>, template: string, marker: string)
    requires forall n :: n in names ==> Apart(hooksDir, n, template) && Installed(s, hooksDir, n, template, marker)
    ensures InstallAll(s, hooksDir, names, template, marker) == Step(s, Completed)
    decreases |names|
  {
    if names != [] {
      assert names[0] in names;
      assert forall n :: n in names[1..] ==> n in names;
      InstallHookFixpoint(s, hooksDir, names[0], template, marker);
      InstallAllFixpoint(s, hooksDir, names[1..], template, marker);
    }
  }

  /** The tail of a list without repeats has none, and lacks the head. */
  lemma DistinctTail(names: seq<string>)
    requires names != [] && Distinct(names)
    ensures Distinct(names[1..]) && names[0] !in names[1..]
  {
    forall j | 0 <= j < |names| - 1
      ensures names[1..][j] != names[0]
    {
      assert names[1..][j] == names[j + 1];
    }
  }

  /** Every name of a well laid-out list in a sublist keeps the list well laid out. */
  lemma WellLaidOutTail(hooksDir: string, names: seq<string>, template: string)
    requires names != [] && WellLaidOut(hooksDir, names, template)
    ensures WellLaidOut(hooksDir, names[1..], template)
  {
    assert forall n :: n in names[1..] ==> n in names;
  }

  /** After a run over a list without repeats that went through, the backup
      of every user hook (a file without the marker) holds that hook's
      original text, whichever hooks were installed before or after it. */
  lemma {:induction false} InstallAllBacksUpUserHook(s: Fs, hooksDir: string, names: seq<string>, template: string, marker: string, n: string)
    requires WellLaidOut(hooksDir, names, template) && Distinct(names) && n in names
    requires Join(hooksDir, n) in s.files && !Contains(s.files[Join(hooksDir, n)], marker)
    ensures
      var b := Backup(Join(hooksDir, n));
      var r := InstallAll(s, hooksDir, names, template, marker);
      r.outcome == Completed ==> b in r.fs.files && r.fs.files[b] == s.files[Join(hooksDir, n)]
    decreases |names|
  {
    var p := Join(hooksDir, n);
    var r := InstallAll(s, hooksDir, names, template, marker);
    var first := InstallHook(s, hooksDir, names[0], template, marker);
    var rest := names[1..];
    assert names[0] in names;
    DistinctTail(names);
    WellLaidOutTail(hooksDir, names, template);
    if r.outcome == Completed {
      if names[0] == n {
        InstallHookBacksUpUserHook(s, hooksDir, n, template, marker);
        forall m | m in rest
          ensures m != n && m != Backup(n)
        {
          assert m in names;
        }
        BackupOutsideTouched(hooksDir, rest, n);
        assert Unchanged(first.fs, r.fs, Backup(p));
      } else {
        HookPathDistinct(hooksDir, n, names[0]);
        assert Unchanged(s, first.fs, p);
        InstallAllBacksUpUserHook(first.fs, hooksDir, rest, template, marker, n);
      }
    }
  }

  /** A run over a list without repeats leaves the backup path of every
      generated hook (a file with the marker) exactly as it was, whether the
      run goes through or not: no backup is made of a hook this installer
      wrote. */
  lemma {:induction false} InstallAllKeepsGeneratedBackup(s: Fs, hooksDir: string, names: seq<string>, template: string, marker: string, n: string)
    requires WellLaidOut(hooksDir, names, template) && Distinct(names) && n in names
    requires Join(hooksDir, n) in s.files && Contains(s.files[Join(hooksDir, n)], marker)
    ensures Unchanged(s, InstallAll(s, hooksDir, names, template, marker).fs, Backup(Join(hooksDir, n)))
    decreases |names|
  {
    var p := Join(hooksDir, n);
    var r := InstallAll(s, hooksDir, names, template, marker);
    var first := InstallHook(s, hooksDir, names[0], template, marker);
    var rest := names[1..];
    assert names[0] in names;
    DistinctTail(names);
    WellLaidOutTail(hooksDir, names, template);
    if names[0] == n {
      InstallHookRegeneratesGeneratedHook(s, hooksDir, n, template, marker);
      if first.outcome.Completed? {
        forall m | m in rest
          ensures m != n && m != Backup(n)
        {
          assert m in names;
        }
        BackupOutsideTouched(hooksDir, rest, n);
        assert Unchanged(first.fs, r.fs, Backup(p));
      }
    } else {
      HookPathDistinct(hooksDir, n, names[0]);
      BackupPathDistinct(hooksDir, n, names[0]);
      assert Unchanged(s, first.fs, p);
      assert Unchanged(s, first.fs, Backup(p));
      if first.outcome.Completed? {
        InstallAllKeepsGeneratedBackup(first.fs, hooksDir, rest, template, marker, n);
      }
    }
  }

  /** Installing `names` in order is installing a prefix, then (if that went
      through) the rest: every name is processed once, in list order, and a
      failure stops the run there. */
  lemma {:induction false} InstallAllSplit(s: Fs, hooksDir: string, names: seq<string>, template: string, marker: string, k: nat)
    requires k <= |names|
    ensures
      var head := InstallAll(s, hooksDir, names[..k], template, marker);
      InstallAll(s, hooksDir, names, template, marker)
        == if head.outcome.Aborted? then head else InstallAll(head.fs, hooksDir, names[k..], template, marker)
    decreases k
  {
    if k == 0 {
      assert names[..0] == [];
      assert names[0..] == names;
    } else {
      assert names[..k][0] == names[0];
      assert names[..k][1..] == names[1..][..k - 1];
      assert names[k..] == names[1..][k - 1..];
      var first := InstallHook(s, hooksDir, names[0], template, marker);
      if first.outcome.Completed? {
        InstallAllSplit(first.fs, hooksDir, names[1..], template, marker, k - 1);
      }
    }
  }

  /** Without a readable template the run stops at the first name, having
      changed nothing but that hook and its backup. */
  lemma InstallAllStopsAtFirstWithoutTemplate(s: Fs, hooksDir: string, names: seq<string>, template: string, marker: string)
    requires names != [] && Apart(hooksDir, names[0], template) && template !in s.files
    ensures
      var r := InstallAll(s, hooksDir, names, template, marker);
      && r == InstallHook(s, hooksDir, names[0], template, marker)
      && r.outcome.Aborted?
      && AgreeOutside(s, r.fs, {Join(hooksDir, names[0]), Backup(Join(hooksDir, names[0]))})
  {
    var p := Join(hooksDir, names[0]);
    var prepared := if s.Exists(p) then HandleExisting(s, p, marker) else Commit(s, s.CreateNewFile(hooksDir, p));
    assert Unchanged(s, prepared.fs, template);
  }

  // ---------------------------------------------------------------------------
  // The whole run, with the task's own constants.

  /** The companion constants: the hooks directory under `.git`, the
      template inside `.git-hooks`, and 22 hook names. */
  lemma CompanionConstants()
    ensures |HOOK_FILES| == 22
    ensures GIT_HOOKS_DIRECTORY == ".git/hooks"
    ensures TemplatePath(PROJECT_HOOKS_DIRECTORY) == ".git-hooks/hook-run-all-template.sh"
  {
  }

  /** No hook name is listed twice, so each is installed once per run. */
  lemma HookFilesDistinct()
    ensures forall i, j :: 0 <= i < j < |HOOK_FILES| ==> HOOK_FILES[i] != HOOK_FILES[j]
  {
  }

  /** No hook name of the list ends in `p`, so none is another's backup. */
  lemma HookNamesEndWell()
    ensures forall n :: n in HOOK_FILES ==> n != [] && n[|n| - 1] != 'p'
  {
  }

  /** The template in `.git-hooks` is apart from every path under `.git/hooks`. */
  lemma TemplateOutsideHooksDirectory(name: string)
    ensures Apart(GIT_HOOKS_DIRECTORY, name, TemplatePath(PROJECT_HOOKS_DIRECTORY))
  {
    var t := TemplatePath(PROJECT_HOOKS_DIRECTORY);
    var p := Join(GIT_HOOKS_DIRECTORY, name);
    assert t[4] == '-';
    assert p[4] == '/';
    assert Backup(p)[4] == '/';
  }

  lemma HookFilesWellLaidOut()
    ensures WellLaidOut(GIT_HOOKS_DIRECTORY, HOOK_FILES, TemplatePath(PROJECT_HOOKS_DIRECTORY))
  {
    HookNamesEndWell();
    forall n | n in HOOK_FILES
      ensures Apart(GIT_HOOKS_DIRECTORY, n, TemplatePath(PROJECT_HOOKS_DIRECTORY))
    {
      TemplateOutsideHooksDirectory(n);
    }
    forall n, m | n in HOOK_FILES && m in HOOK_FILES
      ensures n != Backup(m)
    {
      assert Backup(m)[|Backup(m)| - 1] == 'p';
    }
  }
}
