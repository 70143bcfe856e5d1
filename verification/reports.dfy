/** The two reports of src/audit.rs built on `get_violations`: `audit`, which
    shows the violations up to a severity level and counts all of them, and
    `propose_fixes`, which renders the fixes of the violations up to a level. */
module Reports {
  import opened Wrappers
  import opened Fs
  import opened Taxonomy
  import opened Violations
  import opened Rules

  /** What `audit` prints: the violations shown, then the total count. */
  datatype Report = Report(shown: seq<Violation>, total: nat)

  /** The violations at or below `level`, in order (`v.level() <= level`). */
  function Shown(vs: seq<Violation>, level: nat): (r: seq<Violation>)
    ensures forall v :: v in r <==> v in vs && Level(v) <= level
    ensures forall v :: multiset(r)[v] == if Level(v) <= level then multiset(vs)[v] else 0
    ensures |r| <= |vs|
  {
    if vs == [] then []
    else
      assert vs == [vs[0]] + vs[1..];
      var rest := Shown(vs[1..], level);
      if Level(vs[0]) <= level then [vs[0]] + rest else rest
  }

  /** Filtering keeps the order of what it keeps: level 4 and above show
      everything, level 0 nothing, and filtering at a lower level after a
      higher one is filtering at the lower one. */
  lemma ShownLevels(vs: seq<Violation>, low: nat, high: nat)
    requires low <= high
    ensures high >= 4 ==> Shown(vs, high) == vs
    ensures low == 0 ==> Shown(vs, low) == []
    ensures Shown(Shown(vs, high), low) == Shown(vs, low)
  {
    if high >= 4 {
      ShownEverything(vs, high);
    }
    if low == 0 && Shown(vs, low) != [] {
      assert Shown(vs, low)[0] in Shown(vs, low);
    }
    ShownTwice(vs, low, high);
  }

  lemma {:induction false} ShownEverything(vs: seq<Violation>, level: nat)
    requires level >= 4
    ensures Shown(vs, level) == vs
  {
    if vs != [] {
      ShownEverything(vs[1..], level);
      assert vs == [vs[0]] + vs[1..];
    }
  }

  lemma {:induction false} ShownTwice(vs: seq<Violation>, low: nat, high: nat)
    requires low <= high
    ensures Shown(Shown(vs, high), low) == Shown(vs, low)
  {
    if vs != [] {
      ShownTwice(vs[1..], low, high);
      var rest := Shown(vs[1..], high);
      if Level(vs[0]) <= high {
        assert Shown(vs, high) == [vs[0]] + rest;
        ConsParts(vs[0], rest);
      }
    }
  }

  lemma ConsParts(x: Violation, rest: seq<Violation>)
    ensures [x] + rest != [] && ([x] + rest)[0] == x && ([x] + rest)[1..] == rest
  {
  }

  /** `audit(level)`: fails where `get_violations` fails; otherwise shows the
      violations at or below `level`, each as often as it was found, and counts
      all of them, whatever the level. */
  function Audit(t: Tree, sim: (Name, Name) -> bool, level: nat): (r: Result<Report, Path>)
    ensures r.Err? <==> GetViolations(t, sim).Err?
    ensures r.Err? ==> r.error == GetViolations(t, sim).error
    ensures r.Ok? ==> r.value.total == |GetViolations(t, sim).value| && |r.value.shown| <= r.value.total
    ensures r.Ok? ==> forall v :: v in r.value.shown <==> v in GetViolations(t, sim).value && Level(v) <= level
    ensures r.Ok? ==> forall v :: multiset(r.value.shown)[v]
                                  == if Level(v) <= level then multiset(GetViolations(t, sim).value)[v] else 0
  {
    match GetViolations(t, sim)
    case Err(p) => Err(p)
    case Ok(vs) => Ok(Report(Shown(vs, level), |vs|))
  }

  /** The level-1 audit shows exactly the clutter, empty-module and
      duplicate-module violations. */
  lemma AuditLevelOne(t: Tree, sim: (Name, Name) -> bool, v: Violation)
    requires Audit(t, sim, 1).Ok?
    ensures v in Audit(t, sim, 1).value.shown <==>
              v in GetViolations(t, sim).value
              && (v.RootDirClutter? || v.ModDirClutter? || v.EmptyModule? || v.DuplicateModules?)
  {
  }

  /** The rendered fixes of a sequence of violations, in order; violations
      without a fix render nothing. */
  function Commands(vs: seq<Violation>, home: Path, isDir: Path -> bool): (r: seq<Command>)
    requires forall v :: v in vs ==> Renderable(FixOf(v))
    ensures forall c :: c in r <==> exists v :: v in vs && Render(FixOf(v), home, isDir) == Some(c)
    ensures |r| <= |vs|
    ensures (forall v :: v in vs ==> !FixOf(v).NoFix?) ==> |r| == |vs|
  {
    if vs == [] then []
    else
      assert forall v :: v in vs <==> v == vs[0] || v in vs[1..];
      var rest := Commands(vs[1..], home, isDir);
      match Render(FixOf(vs[0]), home, isDir)
      case None => rest
      case Some(c) => [c] + rest
  }

  /** Commands are printed in the order of their violations: the commands of
      two runs of violations are those of the first run, then those of the
      second. */
  lemma {:induction false} CommandsAppend(a: seq<Violation>, b: seq<Violation>, home: Path, isDir: Path -> bool)
    requires forall v :: v in a + b ==> Renderable(FixOf(v))
    ensures Commands(a + b, home, isDir) == Commands(a, home, isDir) + Commands(b, home, isDir)
  {
    if a == [] {
      assert a + b == b;
    } else {
      assert (a + b)[0] == a[0] && (a + b)[1..] == a[1..] + b;
      CommandsAppend(a[1..], b, home, isDir);
      var head := match Render(FixOf(a[0]), home, isDir) case None => [] case Some(c) => [c];
      assert Commands(a + b, home, isDir) == head + Commands(a[1..] + b, home, isDir);
      assert Commands(a, home, isDir) == head + Commands(a[1..], home, isDir);
      ConcatAssoc(head, Commands(a[1..], home, isDir), Commands(b, home, isDir));
    }
  }

  lemma ConcatAssoc(x: seq<Command>, y: seq<Command>, z: seq<Command>)
    ensures x + (y + z) == (x + y) + z
  {
  }

  /** One violation prints its own fix, once, or nothing when it has none. */
  lemma CommandsSingle(v: Violation, home: Path, isDir: Path -> bool)
    requires Renderable(FixOf(v))
    ensures Commands([v], home, isDir) == match Render(FixOf(v), home, isDir) case None => [] case Some(c) => [c]
  {
    assert [v][1..] == [];
  }

  /** `propose_fixes(level)`: fails where `get_violations` fails; otherwise
      renders the fix of every violation at or below `level`. */
  function ProposeFixes(t: Tree, sim: (Name, Name) -> bool, level: nat, isDir: Path -> bool): (r: Result<seq<Command>, Path>)
    ensures r.Err? <==> GetViolations(t, sim).Err?
    ensures r.Ok? ==> forall c :: c in r.value <==>
              exists v :: v in GetViolations(t, sim).value && Level(v) <= level
                          && Renderable(FixOf(v)) && Render(FixOf(v), HomePath(t), isDir) == Some(c)
  {
    if GetViolations(t, sim).Err? then Err(GetViolations(t, sim).error)
    else
      AllRenderable(t, sim);
      Ok(FixesUpTo(GetViolations(t, sim).value, level, HomePath(t), isDir))
  }

  lemma AllRenderable(t: Tree, sim: (Name, Name) -> bool)
    requires GetViolations(t, sim).Ok?
    ensures forall v :: v in GetViolations(t, sim).value ==> Renderable(FixOf(v))
  {
    forall v | v in GetViolations(t, sim).value
      ensures Renderable(FixOf(v))
    {
      ViolationsAreRenderable(t, sim, v);
    }
  }

  /** The fixes of the violations at or below `level`, in order. */
  function FixesUpTo(vs: seq<Violation>, level: nat, home: Path, isDir: Path -> bool): (r: seq<Command>)
    requires forall v :: v in vs ==> Renderable(FixOf(v))
    ensures forall c :: c in r <==> exists v :: v in vs && Level(v) <= level && Render(FixOf(v), home, isDir) == Some(c)
  {
    FixesOfShown(vs, level, home, isDir);
    Commands(Shown(vs, level), home, isDir)
  }

  /** The fixes of the violations shown at `level` are the fixes of the
      violations at or below `level`, and also the fixes of the shown
      violations other than the duplicate and oversized modules. */
  lemma FixesOfShown(vs: seq<Violation>, level: nat, home: Path, isDir: Path -> bool)
    requires forall v :: v in vs ==> Renderable(FixOf(v))
    ensures forall c :: c in Commands(Shown(vs, level), home, isDir) <==>
              exists v :: v in vs && Level(v) <= level && Render(FixOf(v), home, isDir) == Some(c)
    ensures forall c :: c in Commands(Shown(vs, level), home, isDir) <==>
              exists v :: v in Shown(vs, level) && !v.DuplicateModules? && !v.TooManyFiles?
                          && Render(FixOf(v), home, isDir) == Some(c)
  {
    var shown := Shown(vs, level);
    forall c
      ensures c in Commands(shown, home, isDir) <==>
                exists v :: v in vs && Level(v) <= level && Render(FixOf(v), home, isDir) == Some(c)
    {
      if c in Commands(shown, home, isDir) {
        var v :| v in shown && Render(FixOf(v), home, isDir) == Some(c);
        assert v in vs && Level(v) <= level;
      }
      if exists v :: v in vs && Level(v) <= level && Render(FixOf(v), home, isDir) == Some(c) {
        var v :| v in vs && Level(v) <= level && Render(FixOf(v), home, isDir) == Some(c);
        assert v in shown;
      }
    }
  }

  /** Fixes are proposed for exactly the violations the audit at the same
      level shows, except the duplicate and oversized modules, which have none. */
  lemma FixesFollowAudit(t: Tree, sim: (Name, Name) -> bool, level: nat, isDir: Path -> bool, c: Command)
    requires Audit(t, sim, level).Ok?
    ensures ProposeFixes(t, sim, level, isDir).Ok?
    ensures c in ProposeFixes(t, sim, level, isDir).value <==>
              exists v :: v in Audit(t, sim, level).value.shown && !v.DuplicateModules? && !v.TooManyFiles?
                          && Renderable(FixOf(v)) && Render(FixOf(v), HomePath(t), isDir) == Some(c)
  {
    var vs := GetViolations(t, sim).value;
    AllRenderable(t, sim);
    FixesOfShown(vs, level, HomePath(t), isDir);
    assert ProposeFixes(t, sim, level, isDir).value == Commands(Shown(vs, level), HomePath(t), isDir);
    assert Audit(t, sim, level).value.shown == Shown(vs, level);
  }
}
