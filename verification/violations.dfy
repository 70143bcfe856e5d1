/** The violation and fix types of src/audit.rs: the severity table, the
    violation-to-fix mapping, and the shell action each fix renders to. */
module Violations {
  import opened Wrappers
  import opened Fs
  import Search

  datatype Violation =
    | RootDirClutter(path: Path)
    | ModDirClutter(path: Path)
    | ModDirName(path: Path)
    | ModRequiredFileMissing(file: Name, moduleDir: Path)
    | DisallowedFile(path: Path)
    | EmptyModule(path: Path)
    | DuplicateModules(first: Path, second: Path)
    | TooManyFiles(moduleDir: Path, filecount: nat)
    | NoTags(path: Path)

  datatype Fix =
    | MoveFile(path: Path)
    | ModName(path: Path)
    | CreateFile(file: Name, moduleDir: Path)
    | Delete(path: Path)
    | EditFile(path: Path)
    | NoFix

  /** `Violation::level`: 1 is the most obviously wrong, 4 the least. */
  function Level(v: Violation): (r: nat)
    ensures 1 <= r <= 4
    ensures r == 1 <==> v.RootDirClutter? || v.ModDirClutter? || v.EmptyModule? || v.DuplicateModules?
    ensures r == 2 <==> v.ModDirName? || v.DisallowedFile?
    ensures r == 3 <==> v.ModRequiredFileMissing? || v.TooManyFiles?
    ensures r == 4 <==> v.NoTags?
  {
    match v
    case RootDirClutter(_) => 1
    case ModDirClutter(_) => 1
    case ModDirName(_) => 2
    case ModRequiredFileMissing(_, _) => 3
    case DisallowedFile(_) => 2
    case EmptyModule(_) => 1
    case DuplicateModules(_, _) => 1
    case TooManyFiles(_, _) => 3
    case NoTags(_) => 4
  }

  /** `Violation::fix`: each kind of fix arises from exactly the listed kinds
      of violation, and carries the violation's payload unchanged. */
  function FixOf(v: Violation): (r: Fix)
    ensures r.MoveFile? <==> v.RootDirClutter? || v.ModDirClutter?
    ensures r.ModName? <==> v.ModDirName?
    ensures r.CreateFile? <==> v.ModRequiredFileMissing?
    ensures r.Delete? <==> v.DisallowedFile? || v.EmptyModule?
    ensures r.EditFile? <==> v.NoTags?
    ensures r.NoFix? <==> v.DuplicateModules? || v.TooManyFiles?
    ensures r.MoveFile? || r.ModName? || r.Delete? || r.EditFile? ==> r.path == v.path
    ensures r.CreateFile? ==> r.file == v.file && r.moduleDir == v.moduleDir
  {
    match v
    case RootDirClutter(p) => MoveFile(p)
    case ModDirClutter(p) => MoveFile(p)
    case ModDirName(p) => ModName(p)
    case ModRequiredFileMissing(file, m) => CreateFile(file, m)
    case DisallowedFile(p) => Delete(p)
    case EmptyModule(p) => Delete(p)
    case NoTags(p) => EditFile(p)
    case _ => NoFix
  }

  /** A character of the class `[-, ,\.,A-Z]` of the module-name pattern: the
      commas written as separators are members of the class too. */
  predicate BadChar(c: char)
  {
    c == '-' || c == ',' || c == ' ' || c == '.' || ('A' <= c <= 'Z')
  }

  /** `re.is_match(name)`: some character of the name is in the class. */
  predicate BadName(name: Name)
  {
    exists i :: 0 <= i < |name| && BadChar(name[i])
  }

  /** One character of `replace(['-', ' ', '.'], "_").to_lowercase()`
      (lowercasing restricted to ASCII). */
  function RenameChar(c: char): char
  {
    if c == '-' || c == ' ' || c == '.' then '_'
    else if 'A' <= c <= 'Z' then (c as int + 32) as char
    else c
  }

  /** The new module name proposed for an invalid one: same length, every
      `-`, space and period replaced by `_`, upper-case letters lowered, commas
      kept where they were, and every character outside the class unchanged. */
  function Rename(name: Name): (r: Name)
    ensures |r| == |name|
    ensures forall i :: 0 <= i < |r| ==> !BadChar(r[i]) || r[i] == ','
    ensures forall i :: 0 <= i < |r| ==> (r[i] == ',' <==> name[i] == ',')
    ensures forall i :: 0 <= i < |r| && !BadChar(name[i]) ==> r[i] == name[i]
    ensures forall i :: 0 <= i < |r| && 'A' <= name[i] <= 'Z' ==> r[i] as int == name[i] as int + 32
    ensures forall i :: 0 <= i < |r| && name[i] in "- ." ==> r[i] == '_'
  {
    seq(|name|, i requires 0 <= i < |name| => RenameChar(name[i]))
  }

  /** The rename clears the name violation exactly when the name has no comma:
      the pattern flags commas but the rename does not rewrite them. */
  lemma RenameRepairsIffNoComma(name: Name)
    ensures BadName(Rename(name)) <==> ',' in name
  {
    var r := Rename(name);
    if ',' in name {
      var i :| 0 <= i < |name| && name[i] == ',';
      assert BadChar(r[i]);
    }
    if BadName(r) {
      var i :| 0 <= i < |r| && BadChar(r[i]);
      assert name[i] == ',';
    }
  }

  /** A valid name is left as it is, and renaming twice is renaming once. */
  lemma RenameIsIdempotent(name: Name)
    ensures !BadName(name) ==> Rename(name) == name
    ensures Rename(Rename(name)) == Rename(name)
  {
    var r := Rename(name);
    forall i | 0 <= i < |r|
      ensures Rename(r)[i] == r[i]
    {
      assert !BadChar(r[i]) || r[i] == ',';
    }
    if !BadName(name) {
      forall i | 0 <= i < |name|
        ensures r[i] == name[i]
      {
        assert !BadChar(name[i]);
      }
    }
  }

  /** The worked case: `My Project` becomes `my_project`. */
  lemma RenameExample()
    ensures Rename("My Project") == "my_project"
    ensures Rename("a,b") == "a,b" && BadName("a,b")
  {
    assert RenameChar('M') == 'm' && RenameChar('P') == 'p';
    assert "a,b"[1] == ',';
  }

  /** The shell action a fix is rendered to (`Display for Fix`). */
  datatype Command =
    | Move(source: Path, destination: Path)
    | Touch(path: Path)
    | Remove(path: Path, recursive: bool)
    | Edit(path: Path)

  /** The quarantine directory under the `projects` root. */
  const Quarantine: Name := "CLUTTER"

  /** The paths a fix takes `file_name()` of; the source unwraps that name. */
  predicate Renderable(f: Fix)
  {
    (f.MoveFile? || f.ModName?) ==> |f.path| > 0
  }

  /** `Display for Fix`, with `p.is_dir()` at rendering time as `isDir`:
      clutter moves into `projects/CLUTTER` under its own name; a bad module
      name is renamed in place; a missing file is created in its module;
      deletion is recursive exactly for directories; `NoFix` prints nothing. */
  function Render(f: Fix, home: Path, isDir: Path -> bool): (r: Option<Command>)
    requires Renderable(f)
    ensures r.None? <==> f.NoFix?
    ensures f.MoveFile? ==>
              && r.value.Move? && r.value.source == f.path
              && Search.ChildOf(r.value.destination, Search.FindRoot(home, "projects").value + [Quarantine])
              && r.value.destination[|r.value.destination| - 1] == f.path[|f.path| - 1]
    ensures f.ModName? ==>
              && r.value.Move? && r.value.source == f.path
              && Search.ChildOf(r.value.destination, f.path[..|f.path| - 1])
              && r.value.destination[|r.value.destination| - 1] == Rename(f.path[|f.path| - 1])
    ensures f.CreateFile? ==>
              r.value.Touch? && Search.ChildOf(r.value.path, f.moduleDir) && r.value.path[|r.value.path| - 1] == f.file
    ensures f.Delete? ==> r.value.Remove? && r.value.path == f.path && r.value.recursive == isDir(f.path)
    ensures f.EditFile? ==> r == Some(Edit(f.path))
  {
    match f
    case MoveFile(p) =>
      var projects := Search.FindRoot(home, "projects");
      assert projects == Some(home + ["projects"]);
      Some(Move(p, projects.value + [Quarantine, p[|p| - 1]]))
    case ModName(p) =>
      Some(Move(p, p[..|p| - 1] + [Rename(p[|p| - 1])]))
    case CreateFile(file, m) => Some(Touch(m + [file]))
    case Delete(p) => Some(Remove(p, isDir(p)))
    case EditFile(p) => Some(Edit(p))
    case NoFix => None
  }
}
