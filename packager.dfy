/**
 * `package_skill`: refuse a folder that is missing, not a directory, has no
 * SKILL.md or fails validation; otherwise write every regular file under it
 * into `<folder>.skill`, each under its path relative to the folder's
 * parent.
 *
 * Paths are sequences of segments (the resolved root directory is `[]`).
 * File-system lookups, the output of the recursive walk and whether each
 * archive write succeeds are inputs.
 */
module SkillPackager {
  import opened Strings
  import opened Frontmatter
  import opened SkillValidator

  type Path = seq<string>

  /** One path yielded by `skill_path.rglob('*')`: its segments below the
      skill folder, whether it is a regular file, and whether adding it to
      the archive succeeds (a failed read or write raises). */
  datatype WalkItem = WalkItem(below: Path, isFile: bool, writes: bool)

  /** What `package_skill` ends with; every case except `Packaged` is its
      `None` return (or, for `ValidationRaised`, an exception it lets
      through). */
  datatype Packaging =
    | FolderNotFound
    | NotADirectory
    | SkillMdMissing
    | ValidationFailed(message: string)
    | ValidationRaised(exception: string)
      // the archive file is left behind, holding the entries written so far
    | ArchiveFailed(archive: Path, written: seq<Path>)
    | Packaged(archive: Path, entries: seq<Path>)

  /** `Path.name`: the last segment, `""` for the root. */
  function FolderName(p: Path): (r: string)
    ensures p == [] ==> r == ""
    ensures p != [] ==> r in p && p == p[..|p| - 1] + [r]
  {
    if p == [] then "" else p[|p| - 1]
  }

  /** `Path.parent`: the root is its own parent. */
  function Parent(p: Path): (r: Path)
    ensures p != [] ==> r + [FolderName(p)] == p
  {
    if p == [] then [] else p[..|p| - 1]
  }

  /** `file_path.relative_to(skill_path.parent)` for the file `below`
      segments under the skill folder. */
  function ArcName(skillPath: Path, below: Path): (r: Path)
    ensures Parent(skillPath) + r == skillPath + below
  {
    if skillPath == [] then below else [FolderName(skillPath)] + below
  }

  /** Every archive entry of a folder other than the root starts with the
      folder's own name, followed by the file's path inside the folder. */
  lemma ArcNameUnderFolder(skillPath: Path, below: Path)
    requires skillPath != []
    ensures ArcName(skillPath, below) != []
    ensures ArcName(skillPath, below)[0] == FolderName(skillPath)
    ensures ArcName(skillPath, below)[1..] == below
  {
    var r := ArcName(skillPath, below);
    var parent := Parent(skillPath);
    assert parent + r == parent + [FolderName(skillPath)] + below;
    assert r == (parent + r)[|parent|..];
    assert [FolderName(skillPath)] + below == (parent + [FolderName(skillPath)] + below)[|parent|..];
  }

  /** `output_path / f"{skill_name}.skill"`, with `output_path` the resolved
      output directory when one is given (a non-empty argument) and the
      working directory otherwise. */
  function ArchivePath(skillPath: Path, outputDir: Option<Path>, cwd: Path): (r: Path)
    ensures FolderName(r) == FolderName(skillPath) + ".skill"
    ensures Parent(r) == if outputDir.Some? then outputDir.value else cwd
  {
    (if outputDir.Some? then outputDir.value else cwd) + [FolderName(skillPath) + ".skill"]
  }

  /** The entries the walk produces, in walk order: one per regular file. */
  function Entries(skillPath: Path, walk: seq<WalkItem>): (r: seq<Path>)
    ensures |r| <= |walk|
    ensures (forall i :: 0 <= i < |walk| ==> !walk[i].isFile) ==> r == []
  {
    if walk == [] then []
    else
      var last := walk[|walk| - 1];
      Entries(skillPath, walk[..|walk| - 1]) +
        (if last.isFile then [ArcName(skillPath, last.below)] else [])
  }

  /** The archive holds exactly the regular files of the walk, each under
      its path relative to the folder's parent; directories get no entry. */
  lemma EntriesExact(skillPath: Path, walk: seq<WalkItem>)
    ensures forall e :: e in Entries(skillPath, walk) <==>
      exists i :: 0 <= i < |walk| && walk[i].isFile && e == ArcName(skillPath, walk[i].below)
  {
    forall e ensures e in Entries(skillPath, walk) <==>
      exists i :: 0 <= i < |walk| && walk[i].isFile && e == ArcName(skillPath, walk[i].below)
    {
      if e in Entries(skillPath, walk) {
        EntriesSound(skillPath, walk, e);
      }
      if exists i :: 0 <= i < |walk| && walk[i].isFile && e == ArcName(skillPath, walk[i].below) {
        var i :| 0 <= i < |walk| && walk[i].isFile && e == ArcName(skillPath, walk[i].below);
        EntriesComplete(skillPath, walk, i);
      }
    }
  }

  /** Every entry comes from a regular file of the walk. */
  lemma {:induction false} EntriesSound(skillPath: Path, walk: seq<WalkItem>, e: Path)
    requires e in Entries(skillPath, walk)
    ensures exists i :: 0 <= i < |walk| && walk[i].isFile && e == ArcName(skillPath, walk[i].below)
  {
    var n := |walk| - 1;
    var front := walk[..n];
    if e in Entries(skillPath, front) {
      EntriesSound(skillPath, front, e);
      var i :| 0 <= i < |front| && front[i].isFile && e == ArcName(skillPath, front[i].below);
      assert walk[i] == front[i];
    } else {
      assert walk[n].isFile && e == ArcName(skillPath, walk[n].below);
    }
  }

  /** Every regular file of the walk has its entry. */
  lemma {:induction false} EntriesComplete(skillPath: Path, walk: seq<WalkItem>, i: nat)
    requires i < |walk| && walk[i].isFile
    ensures ArcName(skillPath, walk[i].below) in Entries(skillPath, walk)
  {
    var n := |walk| - 1;
    var front := walk[..n];
    if i < n {
      EntriesComplete(skillPath, front, i);
      assert front[i] == walk[i];
    }
  }

  /** The positions of the walk that hold a regular file. */
  function FilePositions(walk: seq<WalkItem>): set<nat> {
    set i: nat | i < |walk| && walk[i].isFile
  }

  /** Extending the walk by one item adds its position exactly when it is
      a regular file. */
  lemma FilePositionsSnoc(walk: seq<WalkItem>)
    requires walk != []
    ensures FilePositions(walk) ==
      FilePositions(walk[..|walk| - 1]) + (if walk[|walk| - 1].isFile then {|walk| - 1} else {})
  {
    var n := |walk| - 1;
    var front := walk[..n];
    forall i: nat ensures i in FilePositions(walk) <==>
      i in FilePositions(front) + (if walk[n].isFile then {n} else {})
    {
      if i < n { assert front[i] == walk[i]; }
    }
  }

  /** There is one entry per regular file of the walk. */
  lemma {:induction false} EntriesCount(skillPath: Path, walk: seq<WalkItem>)
    ensures |Entries(skillPath, walk)| == |FilePositions(walk)|
  {
    if walk == [] {
      assert FilePositions(walk) == {};
    } else {
      var n := |walk| - 1;
      EntriesCount(skillPath, walk[..n]);
      FilePositionsSnoc(walk);
      assert n !in FilePositions(walk[..n]);
    }
  }

  /** Every entry of a non-root folder's archive has the folder's name as
      its first segment. */
  lemma EntriesUnderFolder(skillPath: Path, walk: seq<WalkItem>)
    requires skillPath != []
    ensures forall e :: e in Entries(skillPath, walk) ==> e != [] && e[0] == FolderName(skillPath)
  {
    EntriesExact(skillPath, walk);
    forall e | e in Entries(skillPath, walk) ensures e != [] && e[0] == FolderName(skillPath) {
      var i :| 0 <= i < |walk| && walk[i].isFile && e == ArcName(skillPath, walk[i].below);
      ArcNameUnderFolder(skillPath, walk[i].below);
    }
  }

  /** No regular file of the walk fails to be written. */
  predicate AllWritable(walk: seq<WalkItem>) {
    forall i :: 0 <= i < |walk| ==> walk[i].isFile ==> walk[i].writes
  }

  /** The walk inside `with zipfile.ZipFile(...)`: each regular file is
      added under its arc name, in walk order, until one fails to be
      written; directories are passed over. */
  method WriteEntries(skillPath: Path, walk: seq<WalkItem>) returns (complete: bool, written: seq<Path>)
    ensures complete <==> AllWritable(walk)
    ensures complete ==> written == Entries(skillPath, walk)
    ensures complete && skillPath != [] ==>
      forall e :: e in written ==> e != [] && e[0] == FolderName(skillPath)
    ensures !complete ==>
      exists i :: 0 <= i < |walk| && walk[i].isFile && !walk[i].writes &&
        AllWritable(walk[..i]) && written == Entries(skillPath, walk[..i])
  {
    written := [];
    var i := 0;
    while i < |walk|
      invariant 0 <= i <= |walk|
      invariant written == Entries(skillPath, walk[..i])
      invariant AllWritable(walk[..i])
    {
      var item := walk[i];
      assert walk[..i + 1][..i] == walk[..i];
      if item.isFile {
        if !item.writes {
          return false, written;
        }
        written := written + [ArcName(skillPath, item.below)];
      }
      i := i + 1;
    }
    assert walk[..i] == walk;
    if skillPath != [] {
      EntriesUnderFolder(skillPath, walk);
    }
    return true, written;
  }

  /** `package_skill(skill_path, output_dir)`. */
  method PackageSkill(
    skillPath: Path, present: bool, isDir: bool, hasSkillMd: bool,
    content: string, parse: string -> Parsed,
    outputDir: Option<Path>, cwd: Path, walk: seq<WalkItem>)
    returns (r: Packaging)
    ensures r == FolderNotFound <==> !present
    ensures r == NotADirectory <==> present && !isDir
    ensures r == SkillMdMissing <==> present && isDir && !hasSkillMd
    // validation is a hard gate: no archive is started unless it passed
    ensures r.Packaged? || r.ArchiveFailed? ==>
      present && isDir && ValidateSkill(hasSkillMd, content, parse) == Returned(true, ValidMessage)
    ensures r.ValidationFailed? <==>
      present && isDir && hasSkillMd &&
      ValidateSkill(hasSkillMd, content, parse).Returned? && !ValidateSkill(hasSkillMd, content, parse).valid
    ensures r.ValidationFailed? ==> r.message == ValidateSkill(hasSkillMd, content, parse).message
    ensures r.ValidationRaised? <==>
      present && isDir && hasSkillMd && ValidateSkill(hasSkillMd, content, parse).Raised?
    ensures r.ValidationRaised? ==> r.exception == ValidateSkill(hasSkillMd, content, parse).exception
    ensures r.Packaged? <==>
      present && isDir && ValidateSkill(hasSkillMd, content, parse) == Returned(true, ValidMessage) &&
      AllWritable(walk)
    ensures r.Packaged? ==>
      r.archive == ArchivePath(skillPath, outputDir, cwd) && r.entries == Entries(skillPath, walk)
    ensures r.Packaged? && skillPath != [] ==>
      forall e :: e in r.entries ==> e != [] && e[0] == FolderName(skillPath)
    // a file that fails to be written ends the run, and the partial archive stays
    ensures r.ArchiveFailed? <==>
      present && isDir && ValidateSkill(hasSkillMd, content, parse) == Returned(true, ValidMessage) &&
      !AllWritable(walk)
    ensures r.ArchiveFailed? ==>
      r.archive == ArchivePath(skillPath, outputDir, cwd) &&
      exists i :: 0 <= i < |walk| && walk[i].isFile && !walk[i].writes &&
        AllWritable(walk[..i]) && r.written == Entries(skillPath, walk[..i])
  {
    if !present { return FolderNotFound; }
    if !isDir { return NotADirectory; }
    if !hasSkillMd { return SkillMdMissing; }

    var validation := ValidateSkill(hasSkillMd, content, parse);
    match validation {
      case Raised(e) => return ValidationRaised(e);
      case Returned(valid, message) =>
        if !valid { return ValidationFailed(message); }
    }

    var archive := ArchivePath(skillPath, outputDir, cwd);
    var complete, entries := WriteEntries(skillPath, walk);
    if !complete {
      return ArchiveFailed(archive, entries);
    }
    return Packaged(archive, entries);
  }
}
