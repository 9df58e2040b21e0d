/**
  `generator::run`: materialise a template into the working directory.

  A File template is one file copied line by line through the substitutor
  into `cwd / substitute(root)`. A Folder template creates the top-level
  folder `substitute(cwd / root)` and then visits the entries of the
  template folder in the order the directory iterator yields them: each
  entry is mirrored under the working directory, its whole destination path
  substituted. An existing directory or file on the way is skipped with a
  warning; a template file that cannot be opened is skipped silently; a
  failed creation or an entry that is neither a directory nor a regular
  file ends the run, and what was created before stays in place.

  The filesystem is the `Fs` map, the working directory a string, and the
  entries of the directory iterator an input sequence. Warnings go to a log.
 */
module Generator {
  import opened Common
  import opened Substitutor
  import opened Paths

  datatype Kind = FileKind | FolderKind | UnknownKind

  /** A loaded template: its kind, the folder holding it and the name of its root file or folder. */
  datatype Template = Template(kind: Kind, location: string, root: string)

  /** Why `generateFile` gave up (its fourth code, `Unknown`, is never produced). */
  datatype FileError = UnableToOpenTemplate | AlreadyExisting | UnableToCreate

  datatype Status = Done | Failed(message: string)

  /** The filesystem after the run, the warnings printed on the way, and the result. */
  datatype Outcome = Outcome(fs: Fs, log: seq<string>, status: Status)

  const UnexpectedType: string := "Unexpected template type received"
  const TemplateFileMissing: string := "The template file provided does not exist"
  const CannotOpenTemplate: string := "Couldn't open the template file provided"
  const TemplateFolderMissing: string := "The template folder does not exist"
  const UnrecognizedEntry: string := "Unrecognized or invalid file type provided on template"

  function FileExists(name: string): string {
    "The file '" + name + "' already exists"
  }

  function CannotCreateFile(name: string): string {
    "Couldn't create the file '" + name + "'"
  }

  function FolderExists(path: string): string {
    "The folder '" + path + "' already exists"
  }

  function CannotCreateFolder(path: string): string {
    "Unable to create folder '" + path + "'"
  }

  function CannotCreateDirectory(path: string): string {
    "Error, Couldn't create the directory '" + path + "'"
  }

  function DirectoryExistsWarning(path: string): string {
    "The directory '" + path + "' already exists, omitting its creation"
  }

  function FileExistsWarning(path: string): string {
    "The file '" + path + "' already exists, omitting its creation"
  }

  /** `fs2` keeps every path of `fs` with what it named: nothing is removed or overwritten. */
  ghost predicate Extends(fs: Fs, fs2: Fs) {
    forall p :: p in fs ==> p in fs2 && fs2[p] == fs[p]
  }

  /** An input stream on `p` opens: `p` is a regular file that can be read. */
  predicate Opens(fs: Fs, p: string) {
    p in fs && fs[p].File? && fs[p].readable
  }

  /**
    The `generateFile` lambda: open the template, refuse an existing
    destination, create the destination next to existing directories only,
    then write the substituted lines. The checks happen in that order, so an
    unreadable template is reported even when the destination exists.
   */
  function GenerateFile(fs: Fs, vars: Vars, templateFile: string, newFile: string): (r: Result<Fs, FileError>)
    ensures r == Failure(UnableToOpenTemplate) <==> !Opens(fs, templateFile)
    ensures r == Failure(AlreadyExisting) <==> Opens(fs, templateFile) && newFile in fs
    ensures r == Failure(UnableToCreate) <==> Opens(fs, templateFile) && newFile !in fs && !CanCreate(fs, newFile)
    ensures r.Success? ==>
              && newFile !in fs
              && Extends(fs, r.value)
              && r.value.Keys == fs.Keys + {newFile}
              && r.value[newFile] == File(CopyText(fs[templateFile].content, vars), true)
  {
    if !Opens(fs, templateFile) then Failure(UnableToOpenTemplate)
    else if newFile in fs then Failure(AlreadyExisting)
    else if !CanCreate(fs, newFile) then Failure(UnableToCreate)
    else Success(fs[newFile := File(CopyText(fs[templateFile].content, vars), true)])
  }

  /**
    Where a Folder entry goes: the first `|base|` characters of the entry's
    parent path are replaced by the working directory, `/` and the entry's
    file name are appended, and the whole string is substituted.
   */
  function DestPath(base: string, cwd: string, entry: string, vars: Vars): string {
    Substitute(ReplacePrefix(ParentPath(entry), |base|, cwd) + "/" + Filename(entry), vars)
  }

  /** The destinations of a sequence of entries. */
  function Dests(base: string, cwd: string, vars: Vars, entries: seq<string>): set<string> {
    set e | e in entries :: DestPath(base, cwd, e, vars)
  }

  /** How the entry loop reacts to the result of `generateFile` for `dest`. */
  function FileOutcome(o: Outcome, g: Result<Fs, FileError>, dest: string): Outcome {
    match g
    case Success(fs2) => o.(fs := fs2)
    case Failure(AlreadyExisting) => o.(log := o.log + [FileExistsWarning(dest)])
    case Failure(UnableToCreate) => o.(status := Failed(CannotCreateFile(dest)))
    case Failure(UnableToOpenTemplate) => o
  }

  /** One pass of the entry loop of the Folder branch, for an entry whose destination is `dest`. */
  function VisitAt(o: Outcome, vars: Vars, entry: string, dest: string): (o2: Outcome)
    requires o.status.Done?
    ensures Extends(o.fs, o2.fs)
    ensures o2.fs.Keys <= o.fs.Keys + {dest}
    ensures o2.status.Failed? <==>
              (entry !in o.fs || o.fs[entry].Other?
               || (!(dest in o.fs) && !CanCreate(o.fs, dest)
                   && (o.fs[entry].Dir? || Opens(o.fs, entry))))
    ensures o2.status.Done? ==> entry in o.fs && (o.fs[entry].Dir? || o.fs[entry].File?)
    ensures o2.status.Done? && (o.fs[entry].Dir? || Opens(o.fs, entry)) ==> dest in o2.fs
    ensures o2.log == o.log || o2.log == o.log + [DirectoryExistsWarning(dest)]
            || o2.log == o.log + [FileExistsWarning(dest)]
  {
    if entry in o.fs && o.fs[entry].Dir? then
      if dest in o.fs then o.(log := o.log + [DirectoryExistsWarning(dest)])
      else if CanCreate(o.fs, dest) then o.(fs := o.fs[dest := Dir])
      else o.(status := Failed(CannotCreateDirectory(dest)))
    else if entry in o.fs && o.fs[entry].File? then
      FileOutcome(o, GenerateFile(o.fs, vars, entry, dest), dest)
    else
      o.(status := Failed(UnrecognizedEntry))
  }

  /** One pass of the entry loop of the Folder branch. */
  function VisitEntry(o: Outcome, base: string, cwd: string, vars: Vars, entry: string): (o2: Outcome)
    requires o.status.Done?
    ensures Extends(o.fs, o2.fs)
    ensures o2.fs.Keys <= o.fs.Keys + {DestPath(base, cwd, entry, vars)}
    ensures o2.status.Failed? <==>
              (entry !in o.fs || o.fs[entry].Other?
               || (!(DestPath(base, cwd, entry, vars) in o.fs) && !CanCreate(o.fs, DestPath(base, cwd, entry, vars))
                   && (o.fs[entry].Dir? || Opens(o.fs, entry))))
    ensures o2.status.Done? ==> entry in o.fs && (o.fs[entry].Dir? || o.fs[entry].File?)
    ensures o2.status.Done? && (o.fs[entry].Dir? || Opens(o.fs, entry)) ==> DestPath(base, cwd, entry, vars) in o2.fs
    ensures o2.log == o.log || o2.log == o.log + [DirectoryExistsWarning(DestPath(base, cwd, entry, vars))]
            || o2.log == o.log + [FileExistsWarning(DestPath(base, cwd, entry, vars))]
  {
    VisitAt(o, vars, entry, DestPath(base, cwd, entry, vars))
  }

  /**
    A directory entry: an existing destination is skipped with the directory
    warning, otherwise the destination is created as a directory, or the run
    stops when it cannot be.
   */
  lemma VisitDirectory(o: Outcome, base: string, cwd: string, vars: Vars, entry: string)
    requires o.status.Done? && entry in o.fs && o.fs[entry].Dir?
    ensures var dest := DestPath(base, cwd, entry, vars);
            dest in o.fs ==> VisitEntry(o, base, cwd, vars, entry) == o.(log := o.log + [DirectoryExistsWarning(dest)])
    ensures var dest := DestPath(base, cwd, entry, vars);
            dest !in o.fs && CanCreate(o.fs, dest) ==> VisitEntry(o, base, cwd, vars, entry) == o.(fs := o.fs[dest := Dir])
    ensures var dest := DestPath(base, cwd, entry, vars);
            dest !in o.fs && !CanCreate(o.fs, dest) ==>
              VisitEntry(o, base, cwd, vars, entry) == o.(status := Failed(CannotCreateDirectory(dest)))
  {
  }

  /** A template file that opens, whose destination exists, is skipped with the file warning. */
  lemma VisitFileExisting(o: Outcome, base: string, cwd: string, vars: Vars, entry: string)
    requires o.status.Done? && Opens(o.fs, entry)
    requires DestPath(base, cwd, entry, vars) in o.fs
    ensures VisitEntry(o, base, cwd, vars, entry)
            == o.(log := o.log + [FileExistsWarning(DestPath(base, cwd, entry, vars))])
  {
    FileAtExisting(o, vars, entry, DestPath(base, cwd, entry, vars));
  }

  /** `VisitFileExisting` for any destination. */
  lemma FileAtExisting(o: Outcome, vars: Vars, entry: string, dest: string)
    requires o.status.Done? && Opens(o.fs, entry) && dest in o.fs
    ensures VisitAt(o, vars, entry, dest) == o.(log := o.log + [FileExistsWarning(dest)])
  {
    assert !o.fs[entry].Dir? && o.fs[entry].File?;
    assert GenerateFile(o.fs, vars, entry, dest) == Failure(AlreadyExisting);
  }

  /** A template file that opens, whose destination is new, is copied there through the substitutor. */
  lemma VisitFileCreated(o: Outcome, base: string, cwd: string, vars: Vars, entry: string)
    requires o.status.Done? && Opens(o.fs, entry)
    requires DestPath(base, cwd, entry, vars) !in o.fs && CanCreate(o.fs, DestPath(base, cwd, entry, vars))
    ensures VisitEntry(o, base, cwd, vars, entry)
            == o.(fs := o.fs[DestPath(base, cwd, entry, vars) := File(CopyText(o.fs[entry].content, vars), true)])
  {
    FileAtCreated(o, vars, entry, DestPath(base, cwd, entry, vars));
  }

  /** `VisitFileCreated` for any destination. */
  lemma FileAtCreated(o: Outcome, vars: Vars, entry: string, dest: string)
    requires o.status.Done? && Opens(o.fs, entry) && dest !in o.fs && CanCreate(o.fs, dest)
    ensures VisitAt(o, vars, entry, dest) == o.(fs := o.fs[dest := File(CopyText(o.fs[entry].content, vars), true)])
  {
    var fs2 := o.fs[dest := File(CopyText(o.fs[entry].content, vars), true)];
    assert !o.fs[entry].Dir? && o.fs[entry].File?;
    assert GenerateFile(o.fs, vars, entry, dest) == Success(fs2);
  }

  /** A template file that opens, whose destination can neither be found nor created, stops the run. */
  lemma VisitFileUncreatable(o: Outcome, base: string, cwd: string, vars: Vars, entry: string)
    requires o.status.Done? && Opens(o.fs, entry)
    requires DestPath(base, cwd, entry, vars) !in o.fs && !CanCreate(o.fs, DestPath(base, cwd, entry, vars))
    ensures VisitEntry(o, base, cwd, vars, entry)
            == o.(status := Failed(CannotCreateFile(DestPath(base, cwd, entry, vars))))
  {
    FileAtUncreatable(o, vars, entry, DestPath(base, cwd, entry, vars));
  }

  /** `VisitFileUncreatable` for any destination. */
  lemma FileAtUncreatable(o: Outcome, vars: Vars, entry: string, dest: string)
    requires o.status.Done? && Opens(o.fs, entry) && dest !in o.fs && !CanCreate(o.fs, dest)
    ensures VisitAt(o, vars, entry, dest) == o.(status := Failed(CannotCreateFile(dest)))
  {
    assert !o.fs[entry].Dir? && o.fs[entry].File?;
    assert GenerateFile(o.fs, vars, entry, dest) == Failure(UnableToCreate);
  }

  /** A template file that cannot be opened is skipped without a warning. */
  lemma VisitUnreadableFile(o: Outcome, base: string, cwd: string, vars: Vars, entry: string)
    requires o.status.Done? && entry in o.fs && o.fs[entry].File? && !o.fs[entry].readable
    ensures VisitEntry(o, base, cwd, vars, entry) == o
  {
  }

  /** An entry that is neither a directory nor a regular file stops the run. */
  lemma VisitUnsupported(o: Outcome, base: string, cwd: string, vars: Vars, entry: string)
    requires o.status.Done? && (entry !in o.fs || o.fs[entry].Other?)
    ensures VisitEntry(o, base, cwd, vars, entry) == o.(status := Failed(UnrecognizedEntry))
  {
  }

  /** The entry loop: visit the entries in order and stop at the first failure. */
  function Walk(o: Outcome, base: string, cwd: string, vars: Vars, entries: seq<string>): (o2: Outcome)
    ensures Extends(o.fs, o2.fs)
    ensures o.status.Failed? ==> o2 == o
    decreases |entries|
  {
    if |entries| == 0 || o.status.Failed? then o
    else Walk(VisitEntry(o, base, cwd, vars, entries[0]), base, cwd, vars, entries[1..])
  }

  /** A walk creates nothing but destinations of its entries. */
  lemma {:induction false} WalkCreatesOnlyDests(o: Outcome, base: string, cwd: string, vars: Vars, entries: seq<string>)
    ensures Walk(o, base, cwd, vars, entries).fs.Keys <= o.fs.Keys + Dests(base, cwd, vars, entries)
    decreases |entries|
  {
    if |entries| > 0 && o.status.Done? {
      var o1 := VisitEntry(o, base, cwd, vars, entries[0]);
      WalkCreatesOnlyDests(o1, base, cwd, vars, entries[1..]);
      assert Dests(base, cwd, vars, entries[1..]) <= Dests(base, cwd, vars, entries) by {
        forall e | e in entries[1..] ensures e in entries { }
      }
      assert DestPath(base, cwd, entries[0], vars) in Dests(base, cwd, vars, entries);
    }
  }

  /** `l2` extends `l` by at most `n` messages. */
  predicate LogExtends(l: seq<string>, l2: seq<string>, n: nat) {
    |l| <= |l2| <= |l| + n && l2[..|l|] == l
  }

  lemma LogExtendsTrans(l0: seq<string>, l1: seq<string>, l2: seq<string>, m: nat, n: nat)
    requires LogExtends(l0, l1, m) && LogExtends(l1, l2, n)
    ensures LogExtends(l0, l2, m + n)
  {
    assert l2[..|l0|] == l2[..|l1|][..|l0|];
  }

  /** Keeping the log or adding one warning extends it by at most one message. */
  lemma LogExtendsByWarning(l: seq<string>, l2: seq<string>, w1: string, w2: string)
    requires l2 == l || l2 == l + [w1] || l2 == l + [w2]
    ensures LogExtends(l, l2, 1)
  {
    assert l[..|l|] == l;
    assert (l + [w1])[..|l|] == l && (l + [w2])[..|l|] == l;
  }

  /** The first pass of the entry loop, as far as the log is concerned. */
  lemma WalkFirstStep(o: Outcome, base: string, cwd: string, vars: Vars, entries: seq<string>) returns (o1: Outcome)
    requires |entries| > 0 && o.status.Done?
    ensures Walk(o, base, cwd, vars, entries) == Walk(o1, base, cwd, vars, entries[1..])
    ensures LogExtends(o.log, o1.log, 1)
  {
    o1 := VisitEntry(o, base, cwd, vars, entries[0]);
    var dest := DestPath(base, cwd, entries[0], vars);
    LogExtendsByWarning(o.log, o1.log, DirectoryExistsWarning(dest), FileExistsWarning(dest));
  }

  /** A walk only appends to the log, one warning at most per entry. */
  lemma {:induction false} WalkLogGrows(o: Outcome, base: string, cwd: string, vars: Vars, entries: seq<string>)
    ensures LogExtends(o.log, Walk(o, base, cwd, vars, entries).log, |entries|)
    decreases |entries|
  {
    if |entries| > 0 && o.status.Done? {
      var o1 := WalkFirstStep(o, base, cwd, vars, entries);
      WalkLogGrows(o1, base, cwd, vars, entries[1..]);
      LogExtendsTrans(o.log, o1.log, Walk(o1, base, cwd, vars, entries[1..]).log, 1, |entries| - 1);
    } else {
      assert o.log[..|o.log|] == o.log;
    }
  }

  /** Walking two stretches of entries is walking them one after the other. */
  lemma {:induction false} WalkAppend(o: Outcome, base: string, cwd: string, vars: Vars, a: seq<string>, b: seq<string>)
    ensures Walk(o, base, cwd, vars, a + b) == Walk(Walk(o, base, cwd, vars, a), base, cwd, vars, b)
    decreases |a|
  {
    if |a| > 0 && o.status.Done? {
      assert (a + b)[0] == a[0];
      assert (a + b)[1..] == a[1..] + b;
      WalkAppend(VisitEntry(o, base, cwd, vars, a[0]), base, cwd, vars, a[1..], b);
    } else if |a| == 0 {
      assert a + b == b;
    }
  }

  /**
    A walk that ends well met only directories and regular files, and every
    directory and every readable file among them has its destination in
    place afterwards (created now or found existing).
   */
  lemma {:induction false} WalkDoneCovers(o: Outcome, base: string, cwd: string, vars: Vars, entries: seq<string>)
    requires o.status.Done?
    requires Walk(o, base, cwd, vars, entries).status.Done?
    ensures forall e :: e in entries ==>
              var fs2 := Walk(o, base, cwd, vars, entries).fs;
              && e in fs2 && (fs2[e].Dir? || fs2[e].File?)
              && ((fs2[e].Dir? || Opens(fs2, e)) ==> DestPath(base, cwd, e, vars) in fs2)
    decreases |entries|
  {
    if |entries| > 0 {
      var o1 := VisitEntry(o, base, cwd, vars, entries[0]);
      var fs2 := Walk(o, base, cwd, vars, entries).fs;
      assert Walk(o1, base, cwd, vars, entries[1..]) == Walk(o, base, cwd, vars, entries);
      WalkDoneCovers(o1, base, cwd, vars, entries[1..]);
      forall e | e in entries
        ensures e in fs2 && (fs2[e].Dir? || fs2[e].File?)
        ensures (fs2[e].Dir? || Opens(fs2, e)) ==> DestPath(base, cwd, e, vars) in fs2
      {
        if e !in entries[1..] {
          assert e == entries[0];
        }
      }
    }
  }

  /** Walking over output that is already complete changes nothing on disk and ends well. */
  lemma {:induction false} WalkOverExistingOutput(o: Outcome, base: string, cwd: string, vars: Vars, entries: seq<string>)
    requires o.status.Done?
    requires forall e :: e in entries ==> e in o.fs && (o.fs[e].Dir? || o.fs[e].File?)
    requires forall e :: e in entries ==> DestPath(base, cwd, e, vars) in o.fs
    ensures Walk(o, base, cwd, vars, entries).fs == o.fs
    ensures Walk(o, base, cwd, vars, entries).status.Done?
    decreases |entries|
  {
    if |entries| > 0 {
      var o1 := VisitEntry(o, base, cwd, vars, entries[0]);
      VisitOverExisting(o, base, cwd, vars, entries[0]);
      WalkOverExistingOutput(o1, base, cwd, vars, entries[1..]);
    }
  }

  /** Visiting a directory or file whose destination already exists changes nothing on disk and ends well. */
  lemma VisitOverExisting(o: Outcome, base: string, cwd: string, vars: Vars, entry: string)
    requires o.status.Done? && entry in o.fs && (o.fs[entry].Dir? || o.fs[entry].File?)
    requires DestPath(base, cwd, entry, vars) in o.fs
    ensures VisitEntry(o, base, cwd, vars, entry).fs == o.fs
    ensures VisitEntry(o, base, cwd, vars, entry).status.Done?
  {
    if o.fs[entry].Dir? {
      VisitDirectory(o, base, cwd, vars, entry);
    } else if Opens(o.fs, entry) {
      VisitFileExisting(o, base, cwd, vars, entry);
    } else {
      VisitUnreadableFile(o, base, cwd, vars, entry);
    }
  }

  /** The File branch: the destination is the working directory joined with the substituted root name only. */
  function RunFile(fs: Fs, cwd: string, vars: Vars, location: string, root: string): (o: Outcome)
    ensures Extends(fs, o.fs) && o.log == []
    ensures o.fs.Keys <= fs.Keys + {Join(cwd, Substitute(root, vars))}
    ensures Join(location, root) !in fs ==> o == Outcome(fs, [], Failed(TemplateFileMissing))
    ensures Join(location, root) in fs && !Opens(fs, Join(location, root)) ==> o == Outcome(fs, [], Failed(CannotOpenTemplate))
    ensures Opens(fs, Join(location, root)) && Join(cwd, Substitute(root, vars)) in fs ==>
              o == Outcome(fs, [], Failed(FileExists(Filename(Join(cwd, Substitute(root, vars))))))
    ensures o.status.Done? <==>
              Opens(fs, Join(location, root)) && Join(cwd, Substitute(root, vars)) !in fs
              && CanCreate(fs, Join(cwd, Substitute(root, vars)))
    ensures Opens(fs, Join(location, root)) && Join(cwd, Substitute(root, vars)) !in fs
            && !CanCreate(fs, Join(cwd, Substitute(root, vars))) ==>
              o == Outcome(fs, [], Failed(CannotCreateFile(Filename(Join(cwd, Substitute(root, vars))))))
    ensures o.status.Done? ==>
              o == Outcome(fs[Join(cwd, Substitute(root, vars)) := File(CopyText(fs[Join(location, root)].content, vars), true)], [], Done)
  {
    var templateFile := Join(location, root);
    var newFile := Join(cwd, Substitute(root, vars));
    if templateFile !in fs then Outcome(fs, [], Failed(TemplateFileMissing))
    else match GenerateFile(fs, vars, templateFile, newFile)
      case Success(fs2) => Outcome(fs2, [], Done)
      case Failure(AlreadyExisting) => Outcome(fs, [], Failed(FileExists(Filename(newFile))))
      case Failure(UnableToCreate) => Outcome(fs, [], Failed(CannotCreateFile(Filename(newFile))))
      case Failure(UnableToOpenTemplate) => Outcome(fs, [], Failed(CannotOpenTemplate))
  }

  /** The top-level folder of a Folder run: the whole path, working directory included, is substituted. */
  function TopFolder(cwd: string, root: string, vars: Vars): string {
    Substitute(Join(cwd, root), vars)
  }

  /** The Folder branch. */
  function RunFolder(fs: Fs, cwd: string, vars: Vars, location: string, root: string, entries: seq<string>): (o: Outcome)
    ensures Extends(fs, o.fs)
    ensures Join(location, root) !in fs ==> o == Outcome(fs, [], Failed(TemplateFolderMissing))
    ensures Join(location, root) in fs && (TopFolder(cwd, root, vars) == "" || TopFolder(cwd, root, vars) in fs) ==>
              o == Outcome(fs, [], Failed(FolderExists(TopFolder(cwd, root, vars))))
    ensures o.status.Done? ==> TopFolder(cwd, root, vars) !in fs
                               && TopFolder(cwd, root, vars) in o.fs && o.fs[TopFolder(cwd, root, vars)] == Dir
    ensures Join(location, root) in fs && TopFolder(cwd, root, vars) != "" && TopFolder(cwd, root, vars) !in fs ==>
              if CanCreate(fs, TopFolder(cwd, root, vars))
              then o == Walk(Outcome(fs[TopFolder(cwd, root, vars) := Dir], [], Done), location, cwd, vars, entries)
              else o == Outcome(fs, [], Failed(CannotCreateFolder(TopFolder(cwd, root, vars))))
  {
    if Join(location, root) !in fs then Outcome(fs, [], Failed(TemplateFolderMissing))
    else
      var top := TopFolder(cwd, root, vars);
      if top == "" || top in fs then Outcome(fs, [], Failed(FolderExists(top)))
      else if !CanCreate(fs, top) then Outcome(fs, [], Failed(CannotCreateFolder(top)))
      else
        var o0 := Outcome(fs[top := Dir], [], Done);
        var o := Walk(o0, location, cwd, vars, entries);
        assert Extends(fs, o0.fs);
        o
  }

  /** `generator::run`: dispatch once on the template kind. */
  function Run(fs: Fs, cwd: string, vars: Vars, t: Template, entries: seq<string>): (o: Outcome)
    ensures Extends(fs, o.fs)
    ensures t.kind.UnknownKind? ==> o == Outcome(fs, [], Failed(UnexpectedType))
    ensures t.kind.FileKind? ==> o.fs.Keys <= fs.Keys + {Join(cwd, Substitute(t.root, vars))}
  {
    match t.kind
    case UnknownKind => Outcome(fs, [], Failed(UnexpectedType))
    case FileKind => RunFile(fs, cwd, vars, t.location, t.root)
    case FolderKind => RunFolder(fs, cwd, vars, t.location, t.root, entries)
  }

  /** A Folder run creates nothing but the top-level folder and destinations of entries. */
  lemma FolderRunCreatesOnly(fs: Fs, cwd: string, vars: Vars, t: Template, entries: seq<string>)
    requires t.kind.FolderKind?
    ensures Run(fs, cwd, vars, t, entries).fs.Keys
            <= fs.Keys + {TopFolder(cwd, t.root, vars)} + Dests(t.location, cwd, vars, entries)
  {
    var top := TopFolder(cwd, t.root, vars);
    if Join(t.location, t.root) in fs && top != "" && top !in fs && CanCreate(fs, top) {
      WalkCreatesOnlyDests(Outcome(fs[top := Dir], [], Done), t.location, cwd, vars, entries);
    }
  }

  /** Running a File template a second time fails because the file exists, and leaves it alone. */
  lemma RerunFileFails(fs: Fs, cwd: string, vars: Vars, t: Template, entries: seq<string>)
    requires t.kind.FileKind?
    requires Run(fs, cwd, vars, t, entries).status.Done?
    ensures var fs2 := Run(fs, cwd, vars, t, entries).fs;
            Run(fs2, cwd, vars, t, entries)
            == Outcome(fs2, [], Failed(FileExists(Filename(Join(cwd, Substitute(t.root, vars))))))
  {
  }

  /** Running a Folder template a second time stops at the existing top-level folder, before any entry. */
  lemma RerunFolderFails(fs: Fs, cwd: string, vars: Vars, t: Template, entries: seq<string>)
    requires t.kind.FolderKind?
    requires Run(fs, cwd, vars, t, entries).status.Done?
    ensures var fs2 := Run(fs, cwd, vars, t, entries).fs;
            Run(fs2, cwd, vars, t, entries)
            == Outcome(fs2, [], Failed(FolderExists(TopFolder(cwd, t.root, vars))))
  {
  }

  /**
    An entry `base + mid + "/" + name` lands at `cwd + mid + "/" + name`,
    substituted as a whole: the template folder's location is swapped for
    the working directory and everything below it is mirrored.
   */
  lemma DestPathMirrors(base: string, cwd: string, mid: string, name: string, vars: Vars)
    requires |base + mid| > 0 && (base + mid)[|base + mid| - 1] != '/'
    requires '/' !in name
    ensures DestPath(base, cwd, base + mid + "/" + name, vars) == Substitute(cwd + mid + "/" + name, vars)
  {
    assert base + mid + "/" + name == (base + mid) + "/" + name;
    ParentFilenameOfJoin(base + mid, name);
    ReplacePrefixOfPrefixed(base, mid, cwd);
  }

  /**
    With a working directory free of `{`, the Folder branch's top-level
    folder is the working directory joined with the substituted root, which
    is where the File branch would put its file unless the substituted root
    starts with `/`.
   */
  lemma TopFolderLiteralCwd(cwd: string, root: string, vars: Vars)
    requires '{' !in cwd && |cwd| > 0 && cwd[|cwd| - 1] != '/'
    requires |root| > 0 && root[0] != '/'
    ensures TopFolder(cwd, root, vars) == cwd + "/" + Substitute(root, vars)
    ensures |Substitute(root, vars)| == 0 || Substitute(root, vars)[0] != '/' ==>
              TopFolder(cwd, root, vars) == Join(cwd, Substitute(root, vars))
  {
    assert Join(cwd, root) == (cwd + "/") + root;
    SubstituteLiteralPrefix(cwd + "/", root, vars);
  }

  /**
    The two branches disagree when the working directory itself contains a
    token: with the working directory `/{{ x }}` and a literal root `r`, the
    File branch writes `/{{ x }}/r` but the Folder branch creates `/<x>/r`.
   */
  lemma CwdTokenAsymmetry(t: string, name: string, r: string, vars: Vars)
    requires IsPlaceholder(t, name) && '{' !in r && |r| > 0 && r[0] != '/'
    ensures Join("/" + t, Substitute(r, vars)) == "/" + t + "/" + r
    ensures TopFolder("/" + t, r, vars) == "/" + Lookup(vars, name) + "/" + r
  {
    PlaceholderBraces(t, name);
    FileRootLiteral("/" + t, r, vars);
    FolderRootAfterToken(t, name, r, vars);
  }

  /** The File branch joins the working directory as it is to a literal root. */
  lemma FileRootLiteral(cwd: string, r: string, vars: Vars)
    requires |cwd| > 0 && cwd[|cwd| - 1] != '/'
    requires '{' !in r && |r| > 0 && r[0] != '/'
    ensures Join(cwd, Substitute(r, vars)) == cwd + "/" + r
  {
    SubstituteLiteral(r, vars);
  }

  /** The Folder branch substitutes a token in the working directory too. */
  lemma FolderRootAfterToken(t: string, name: string, r: string, vars: Vars)
    requires IsPlaceholder(t, name) && '{' !in r && |r| > 0 && r[0] != '/'
    ensures TopFolder("/" + t, r, vars) == "/" + Lookup(vars, name) + "/" + r
  {
    var cwd := "/" + t;
    PlaceholderBraces(t, name);
    assert cwd[|cwd| - 1] == '}';
    assert Join(cwd, r) == "/" + t + ("/" + r);
    assert '{' !in "/" + r;
    SubstituteOneToken("/", t, name, "/" + r, vars);
  }

  /** A one-line template without a final newline is copied with the line substituted and a newline added. */
  lemma SingleLineCopy(line: string, vars: Vars)
    requires |line| > 0 && '\n' !in line
    ensures CopyText(line, vars) == Substitute(line, vars) + "\n"
  {
    LineEndExact(line, 0, |line|);
    assert GetLines(line) == [line];
    assert SubstituteLines([line], vars) == [Substitute(line, vars)];
  }

  /** A one-line template of literal text then one token copies to the text, the token's value and a newline. */
  lemma TextThenTokenCopy(text: string, name: string, vars: Vars)
    requires '{' !in text && '\n' !in text
    requires ValidName(name)
    ensures CopyText(text + Placeholder(name, 0, 0), vars) == text + Lookup(vars, name) + "\n"
  {
    var p := Placeholder(name, 0, 0);
    assert Spaces(0) == "";
    assert p == "{{" + name + "}}";
    assert '\n' !in p;
    SingleLineCopy(text + p, vars);
    assert text + p == text + (p + "");
    SubstituteLiteralPrefix(text, p + "", vars);
    SubstitutePlaceholder(name, 0, 0, "", vars);
  }

  /** A File template `Hello {{name}}` produces `Hello <name>` and a newline. */
  lemma HelloTemplate(vars: Vars)
    requires "name" in vars
    ensures CopyText("Hello {{name}}", vars) == "Hello " + vars["name"] + "\n"
  {
    assert ValidName("name") by {
      assert forall i :: 1 <= i < 4 ==> IsNameChar("name"[i]);
    }
    assert "Hello {{name}}" == "Hello " + Placeholder("name", 0, 0) by {
      assert Spaces(0) == "";
    }
    TextThenTokenCopy("Hello ", "name", vars);
  }

  /**
    An entry that is neither a directory nor a regular file ends the walk
    with an error: nothing after it is visited, and what came before stays.
   */
  lemma UnsupportedEntryStops(o: Outcome, base: string, cwd: string, vars: Vars,
                              a: seq<string>, e: string, b: seq<string>)
    requires e in o.fs && o.fs[e].Other?
    ensures Walk(o, base, cwd, vars, a).status.Done? ==>
              Walk(o, base, cwd, vars, a + [e] + b)
              == Walk(o, base, cwd, vars, a).(status := Failed(UnrecognizedEntry))
    ensures Walk(o, base, cwd, vars, a).status.Failed? ==>
              Walk(o, base, cwd, vars, a + [e] + b) == Walk(o, base, cwd, vars, a)
  {
    var w := Walk(o, base, cwd, vars, a);
    assert a + [e] + b == a + ([e] + b);
    WalkAppend(o, base, cwd, vars, a, [e] + b);
    if w.status.Done? {
      WalkStopsAtUnsupported(w, base, cwd, vars, e, b);
    }
  }

  /** The walk stops at once at an entry that is neither a directory nor a regular file. */
  lemma WalkStopsAtUnsupported(w: Outcome, base: string, cwd: string, vars: Vars, e: string, b: seq<string>)
    requires w.status.Done? && e in w.fs && w.fs[e].Other?
    ensures Walk(w, base, cwd, vars, [e] + b) == w.(status := Failed(UnrecognizedEntry))
  {
    assert ([e] + b)[0] == e && ([e] + b)[1..] == b;
    assert VisitEntry(w, base, cwd, vars, e) == w.(status := Failed(UnrecognizedEntry));
  }
}
