/** The rule set of src/audit.rs (`get_violations`). `strsim::jaro(a, b) > 0.96`
    is the parameter `sim`. */
module Rules {
  import opened Wrappers
  import opened Fs
  import opened Taxonomy
  import opened Violations
  import Search

  const RequiredFiles: seq<Name> := ["README.md", "para.yaml"]

  const Denylist: seq<Name> :=
    [".git", ".svn", "package-lock.json", ".gitignore", "node_modules", "venv",
     "build", "target", ".mypy_cache", "__pycache__", "tmp"]

  /** A module may hold this many entries, itself included. */
  const MaxEntries: nat := 1000

  predicate Distinct(vs: seq<Violation>)
  {
    forall i, j :: 0 <= i < j < |vs| ==> vs[i] != vs[j]
  }

  // ---------------------------------------------------------------- check 1

  /** Root clutter: one violation per entry of home that is not a root. */
  function RootClutter(home: Path, cs: seq<Node>): (r: seq<Violation>)
    ensures forall v :: v in r ==> v.RootDirClutter? && Search.ChildOf(v.path, home) && v.path[|home|] !in RootNames
    ensures forall x :: x !in RootNames ==> multiset(r)[RootDirClutter(home + [x])] == multiset(Names(cs))[x]
  {
    if cs == [] then []
    else
      var rest := RootClutter(home, cs[1..]);
      var head := if cs[0].name in RootNames then [] else [RootDirClutter(home + [cs[0].name])];
      RootClutterStep(home, cs, head, rest);
      head + rest
  }

  lemma RootClutterStep(home: Path, cs: seq<Node>, head: seq<Violation>, rest: seq<Violation>)
    requires cs != [] && head == if cs[0].name in RootNames then [] else [RootDirClutter(home + [cs[0].name])]
    requires forall v :: v in rest ==> v.RootDirClutter? && Search.ChildOf(v.path, home) && v.path[|home|] !in RootNames
    requires forall x :: x !in RootNames ==> multiset(rest)[RootDirClutter(home + [x])] == multiset(Names(cs[1..]))[x]
    ensures forall v :: v in head + rest ==> v.RootDirClutter? && Search.ChildOf(v.path, home) && v.path[|home|] !in RootNames
    ensures forall x :: x !in RootNames ==> multiset(head + rest)[RootDirClutter(home + [x])] == multiset(Names(cs))[x]
  {
    assert Names(cs) == [cs[0].name] + Names(cs[1..]);
    OneLevelBelow(home, cs[0].name);
  }

  /** A path one level below `home` determines its last component. */
  lemma OneLevelBelow(home: Path, x: Name)
    ensures (home + [x])[|home|] == x && Search.ChildOf(home + [x], home)
    ensures forall y :: home + [y] == home + [x] ==> y == x
  {
    assert (home + [x])[..|home|] == home;
    forall y | home + [y] == home + [x]
      ensures y == x
    {
      assert (home + [y])[|home|] == y;
    }
  }

  // ---------------------------------------------------------------- check 2

  /** Module-dir clutter in one root: one violation per entry that is not a
      directory. Together with the root's modules it accounts for every entry
      exactly once. */
  function StrayFiles(root: Path, cs: seq<Node>): (r: seq<Violation>)
    ensures forall v :: v in r ==> v.ModDirClutter? && Search.ChildOf(v.path, root)
    ensures forall x :: ModDirClutter(root + [x]) in r <==> exists c :: c in cs && c.name == x && !IsDir(c)
    ensures |r| + |DirEntries(root, cs)| == |cs|
  {
    if cs == [] then []
    else
      var rest := StrayFiles(root, cs[1..]);
      assert forall c :: c in cs <==> c == cs[0] || c in cs[1..];
      assert forall x :: (root + [x])[..|root|] == root && (root + [x])[|root|] == x;
      if IsDir(cs[0]) then rest else [ModDirClutter(root + [cs[0].name])] + rest
  }

  /** The stray files of the four roots, root by root, from their listings. */
  function RootStrays(home: Path, listings: seq<seq<Node>>): (r: seq<Violation>)
    requires |listings| == 4
    ensures forall v :: v in r ==> v.ModDirClutter? && |v.path| == |home| + 2 && v.path[..|home|] == home
  {
    var r0 := StrayFiles(home + [RootNames[0]], listings[0]);
    var r1 := StrayFiles(home + [RootNames[1]], listings[1]);
    var r2 := StrayFiles(home + [RootNames[2]], listings[2]);
    var r3 := StrayFiles(home + [RootNames[3]], listings[3]);
    StraysUnderHome(home, RootNames[0], r0);
    StraysUnderHome(home, RootNames[1], r1);
    StraysUnderHome(home, RootNames[2], r2);
    StraysUnderHome(home, RootNames[3], r3);
    r0 + r1 + r2 + r3
  }

  /** The stray files of a root of home lie two levels below home. */
  lemma StraysUnderHome(home: Path, x: Name, vs: seq<Violation>)
    requires forall v :: v in vs ==> v.ModDirClutter? && Search.ChildOf(v.path, home + [x])
    ensures forall v :: v in vs ==> v.ModDirClutter? && |v.path| == |home| + 2 && v.path[..|home|] == home
  {
    forall v | v in vs
      ensures |v.path| == |home| + 2 && v.path[..|home|] == home
    {
      assert v.path[..|home|] == v.path[..|home| + 1][..|home|];
    }
  }

  /** The listings of the four roots, in root order. */
  function Listings(t: Tree): (r: seq<seq<Node>>)
    requires RootsReadable(t)
    ensures |r| == 4 && forall k :: 0 <= k < 4 ==> r[k] == RootListing(t, RootNames[k]).value
  {
    seq(4, k requires 0 <= k < 4 => RootListing(t, RootNames[k]).value)
  }

  // ---------------------------------------------------------------- check 3

  /** Module names: one violation per module whose name the pattern matches. */
  function NameCheck(ms: seq<Entry>): (r: seq<Violation>)
    ensures forall v :: v in r ==> v.ModDirName?
    ensures forall p :: ModDirName(p) in r <==> exists e :: e in ms && e.path == p && BadName(e.node.name)
    ensures |r| <= |ms|
    ensures DistinctPaths(ms) ==> Distinct(r)
  {
    if ms == [] then []
    else
      var rest := NameCheck(ms[1..]);
      assert forall e :: e in ms <==> e == ms[0] || e in ms[1..];
      assert DistinctPaths(ms) ==> DistinctPaths(ms[1..]) && forall e :: e in ms[1..] ==> e.path != ms[0].path by {
        if DistinctPaths(ms) {
          DistinctPathsTail(ms);
        }
      }
      if BadName(ms[0].node.name) then [ModDirName(ms[0].path)] + rest else rest
  }

  // -------------------------------------------------------------- checks 4-6

  /** The required files absent from a module's listing, one violation each. */
  function MissingFiles(required: seq<Name>, names: seq<Name>, m: Path): (r: seq<Violation>)
    requires forall i, j :: 0 <= i < j < |required| ==> required[i] != required[j]
    ensures forall v :: v in r ==> v.ModRequiredFileMissing? && v.moduleDir == m
    ensures forall f :: ModRequiredFileMissing(f, m) in r <==> f in required && f !in names
    ensures Distinct(r)
  {
    if required == [] then []
    else
      var rest := MissingFiles(required[1..], names, m);
      assert forall f :: f in required <==> f == required[0] || f in required[1..];
      assert required[0] !in required[1..];
      if required[0] in names then rest else [ModRequiredFileMissing(required[0], m)] + rest
  }

  /** The per-module checks, independent of each other and each reported at
      most once: an empty module, each missing required file, and a module
      without tags (reported at its `para.yaml`). */
  function ModuleChecks(e: Entry): (r: seq<Violation>)
    ensures forall v :: v in r ==> v == EmptyModule(e.path) || v == NoTags(e.path + [MetadataFile])
                                   || (v.ModRequiredFileMissing? && v.moduleDir == e.path)
    ensures EmptyModule(e.path) in r <==> |Contents(e.node)| == 0
    ensures forall f :: ModRequiredFileMissing(f, e.path) in r <==> f in RequiredFiles && f !in Names(Contents(e.node))
    ensures NoTags(e.path + [MetadataFile]) in r <==> |Search.ModuleTags(e.node)| == 0
    ensures Distinct(r)
  {
    var empty := if |Contents(e.node)| == 0 then [EmptyModule(e.path)] else [];
    var missing := MissingFiles(RequiredFiles, Names(Contents(e.node)), e.path);
    var untagged := if |Search.ModuleTags(e.node)| == 0 then [NoTags(e.path + [MetadataFile])] else [];
    DistinctThree(empty, missing, untagged);
    empty + missing + untagged
  }

  /** Three groups of at most one kind each, the middle one distinct, make a
      distinct whole. */
  lemma DistinctThree(a: seq<Violation>, b: seq<Violation>, c: seq<Violation>)
    requires |a| <= 1 && |c| <= 1 && Distinct(b)
    requires forall v :: v in a ==> v.EmptyModule?
    requires forall v :: v in b ==> v.ModRequiredFileMissing?
    requires forall v :: v in c ==> v.NoTags?
    ensures Distinct(a + b + c)
  {
    var r := a + b + c;
    forall i, j | 0 <= i < j < |r|
      ensures r[i] != r[j]
    {
      if i < |a| {
        assert r[i] in a;
        if j < |a| + |b| {
          assert r[j] == b[j - |a|] && b[j - |a|] in b;
        } else {
          assert r[j] == c[j - |a| - |b|] && c[j - |a| - |b|] in c;
        }
      } else if i < |a| + |b| {
        assert r[i] == b[i - |a|] && b[i - |a|] in b;
        if j < |a| + |b| {
          assert r[j] == b[j - |a|];
        } else {
          assert r[j] == c[j - |a| - |b|] && c[j - |a| - |b|] in c;
        }
      }
    }
  }

  /** The per-module checks of every module, module by module. */
  function ModulesChecks(ms: seq<Entry>): (r: seq<Violation>)
    ensures forall v :: v in r ==> v.EmptyModule? || v.ModRequiredFileMissing? || v.NoTags?
    ensures forall p :: EmptyModule(p) in r <==> exists e :: e in ms && e.path == p && |Contents(e.node)| == 0
    ensures forall f, p :: ModRequiredFileMissing(f, p) in r <==>
              f in RequiredFiles && exists e :: e in ms && e.path == p && f !in Names(Contents(e.node))
    ensures forall q :: NoTags(q) in r <==>
              exists e :: e in ms && q == e.path + [MetadataFile] && |Search.ModuleTags(e.node)| == 0
    ensures DistinctPaths(ms) ==> Distinct(r)
  {
    if ms == [] then []
    else
      var head := ModuleChecks(ms[0]);
      var rest := ModulesChecks(ms[1..]);
      ModulesChecksStep(ms, head, rest);
      assert DistinctPaths(ms) ==> Distinct(head + rest) by {
        if DistinctPaths(ms) {
          DistinctPathsTail(ms);
          ModulesChecksApart(ms, head, rest);
        }
      }
      head + rest
  }

  /** The checks of the first module and those of the modules at other paths
      report different violations, so the whole is distinct when the parts are. */
  lemma ModulesChecksApart(ms: seq<Entry>, head: seq<Violation>, rest: seq<Violation>)
    requires ms != [] && head == ModuleChecks(ms[0]) && Distinct(rest)
    requires forall e :: e in ms[1..] ==> e.path != ms[0].path
    requires forall p :: EmptyModule(p) in rest ==> exists e :: e in ms[1..] && e.path == p
    requires forall f, p :: ModRequiredFileMissing(f, p) in rest ==> exists e :: e in ms[1..] && e.path == p
    requires forall q :: NoTags(q) in rest ==> exists e :: e in ms[1..] && q == e.path + [MetadataFile]
    ensures Distinct(head + rest)
  {
    forall v | v in head
      ensures v !in rest
    {
      if v.NoTags? {
        NoTagsOwner(ms[0].path, v.path);
      }
    }
    DistinctJoin(head, rest);
  }

  /** A metadata path names its module. */
  lemma NoTagsOwner(m: Path, q: Path)
    ensures forall p :: q == m + [MetadataFile] && q == p + [MetadataFile] ==> p == m
  {
    forall p | q == m + [MetadataFile] && q == p + [MetadataFile]
      ensures p == m
    {
      assert p == q[..|q| - 1] == m;
    }
  }

  /** Two distinct sequences with no violation in common join into one. */
  lemma DistinctJoin(a: seq<Violation>, b: seq<Violation>)
    requires Distinct(a) && Distinct(b) && forall v :: v in a ==> v !in b
    ensures Distinct(a + b)
  {
    forall i, j | 0 <= i < j < |a + b|
      ensures (a + b)[i] != (a + b)[j]
    {
      if i < |a| && j >= |a| {
        assert (a + b)[i] == a[i] && (a + b)[j] == b[j - |a|] && a[i] in a;
      } else if i < |a| {
        assert (a + b)[i] == a[i] && (a + b)[j] == a[j];
      } else {
        assert (a + b)[i] == b[i - |a|] && (a + b)[j] == b[j - |a|];
      }
    }
  }

  lemma ModulesChecksStep(ms: seq<Entry>, head: seq<Violation>, rest: seq<Violation>)
    requires ms != [] && head == ModuleChecks(ms[0])
    requires forall v :: v in rest ==> v.EmptyModule? || v.ModRequiredFileMissing? || v.NoTags?
    requires forall p :: EmptyModule(p) in rest <==> exists e :: e in ms[1..] && e.path == p && |Contents(e.node)| == 0
    requires forall f, p :: ModRequiredFileMissing(f, p) in rest <==>
               f in RequiredFiles && exists e :: e in ms[1..] && e.path == p && f !in Names(Contents(e.node))
    requires forall q :: NoTags(q) in rest <==>
               exists e :: e in ms[1..] && q == e.path + [MetadataFile] && |Search.ModuleTags(e.node)| == 0
    ensures forall v :: v in head + rest ==> v.EmptyModule? || v.ModRequiredFileMissing? || v.NoTags?
    ensures forall p :: EmptyModule(p) in head + rest <==> exists e :: e in ms && e.path == p && |Contents(e.node)| == 0
    ensures forall f, p :: ModRequiredFileMissing(f, p) in head + rest <==>
              f in RequiredFiles && exists e :: e in ms && e.path == p && f !in Names(Contents(e.node))
    ensures forall q :: NoTags(q) in head + rest <==>
              exists e :: e in ms && q == e.path + [MetadataFile] && |Search.ModuleTags(e.node)| == 0
  {
    HeadOrRest(ms);
    EmptyStep(ms, head, rest);
    MissingStep(ms, head, rest);
    NoTagsStep(ms, head, rest);
  }

  lemma HeadOrRest(ms: seq<Entry>)
    requires ms != []
    ensures forall e :: e in ms <==> e == ms[0] || e in ms[1..]
  {
  }

  lemma EmptyStep(ms: seq<Entry>, head: seq<Violation>, rest: seq<Violation>)
    requires ms != [] && head == ModuleChecks(ms[0])
    requires forall e :: e in ms <==> e == ms[0] || e in ms[1..]
    requires forall p :: EmptyModule(p) in rest <==> exists e :: e in ms[1..] && e.path == p && |Contents(e.node)| == 0
    ensures forall p :: EmptyModule(p) in head + rest <==> exists e :: e in ms && e.path == p && |Contents(e.node)| == 0
  {
  }

  lemma MissingStep(ms: seq<Entry>, head: seq<Violation>, rest: seq<Violation>)
    requires ms != [] && head == ModuleChecks(ms[0])
    requires forall e :: e in ms <==> e == ms[0] || e in ms[1..]
    requires forall f, p :: ModRequiredFileMissing(f, p) in rest <==>
               f in RequiredFiles && exists e :: e in ms[1..] && e.path == p && f !in Names(Contents(e.node))
    ensures forall f, p :: ModRequiredFileMissing(f, p) in head + rest <==>
              f in RequiredFiles && exists e :: e in ms && e.path == p && f !in Names(Contents(e.node))
  {
  }

  lemma NoTagsStep(ms: seq<Entry>, head: seq<Violation>, rest: seq<Violation>)
    requires ms != [] && head == ModuleChecks(ms[0])
    requires forall e :: e in ms <==> e == ms[0] || e in ms[1..]
    requires forall q :: NoTags(q) in rest <==>
               exists e :: e in ms[1..] && q == e.path + [MetadataFile] && |Search.ModuleTags(e.node)| == 0
    ensures forall q :: NoTags(q) in head + rest <==>
              exists e :: e in ms && q == e.path + [MetadataFile] && |Search.ModuleTags(e.node)| == 0
  {
  }

  // ---------------------------------------------------------------- check 7

  /** Disallowed artefacts: one violation per visited entry whose name is in
      the denylist. */
  function Disallowed(vs: seq<Entry>): (r: seq<Violation>)
    ensures forall v :: v in r ==> v.DisallowedFile?
    ensures forall q :: DisallowedFile(q) in r <==> exists e :: e in vs && e.path == q && e.node.name in Denylist
    ensures DistinctPaths(vs) ==> Distinct(r)
  {
    if vs == [] then []
    else
      var rest := Disallowed(vs[1..]);
      assert forall e :: e in vs <==> e == vs[0] || e in vs[1..];
      assert DistinctPaths(vs) ==> DistinctPaths(vs[1..]) && forall e :: e in vs[1..] ==> e.path != vs[0].path by {
        if DistinctPaths(vs) {
          DistinctPathsTail(vs);
        }
      }
      if vs[0].node.name in Denylist then [DisallowedFile(vs[0].path)] + rest else rest
  }

  lemma DistinctPathsTail(vs: seq<Entry>)
    requires vs != [] && DistinctPaths(vs)
    ensures DistinctPaths(vs[1..])
    ensures forall e :: e in vs[1..] ==> e.path != vs[0].path
  {
    forall e | e in vs[1..]
      ensures e.path != vs[0].path
    {
      var k :| 0 <= k < |vs[1..]| && vs[1..][k] == e;
      assert vs[k + 1] == e;
    }
  }

  // ---------------------------------------------------------------- check 8

  /** The pairs of `a` with each of `bs` that is a different path and whose
      name is similar to `a`'s. */
  function PairsWith(a: Entry, bs: seq<Entry>, sim: (Name, Name) -> bool): (r: seq<Violation>)
    ensures forall v :: v in r <==>
              exists j :: 0 <= j < |bs| && v == DuplicateModules(a.path, bs[j].path)
                          && a.path != bs[j].path && sim(a.node.name, bs[j].node.name)
  {
    if bs == [] then []
    else
      var rest := PairsWith(a, bs[1..], sim);
      assert forall j :: 0 < j < |bs| ==> bs[j] == bs[1..][j - 1];
      if a.path != bs[0].path && sim(a.node.name, bs[0].node.name) then
        [DuplicateModules(a.path, bs[0].path)] + rest
      else rest
  }

  /** Two different module paths, the first listed before the second, whose
      names are similar. */
  ghost predicate SimilarPair(ms: seq<Entry>, sim: (Name, Name) -> bool, a: Path, b: Path)
  {
    exists i, j :: 0 <= i < j < |ms| && ms[i].path == a && ms[j].path == b && a != b
                   && sim(ms[i].node.name, ms[j].node.name)
  }

  /** Near-duplicate module names: every module against itself and every later
      module, skipping equal paths. */
  function Duplicates(ms: seq<Entry>, sim: (Name, Name) -> bool): (r: seq<Violation>)
    ensures forall v :: v in r ==> v.DuplicateModules? && v.first != v.second
    ensures forall a, b :: DuplicateModules(a, b) in r <==> SimilarPair(ms, sim, a, b)
  {
    if ms == [] then []
    else
      var rest := Duplicates(ms[1..], sim);
      var head := PairsWith(ms[0], ms, sim);
      forall a, b
        ensures DuplicateModules(a, b) in head + rest <==> SimilarPair(ms, sim, a, b)
      {
        DuplicatesStep(ms, sim, a, b, rest, head);
      }
      head + rest
  }

  lemma DuplicatesStep(ms: seq<Entry>, sim: (Name, Name) -> bool, a: Path, b: Path, rest: seq<Violation>, head: seq<Violation>)
    requires ms != []
    requires head == PairsWith(ms[0], ms, sim)
    requires DuplicateModules(a, b) in rest <==> SimilarPair(ms[1..], sim, a, b)
    ensures DuplicateModules(a, b) in head + rest <==> SimilarPair(ms, sim, a, b)
  {
    if SimilarPair(ms, sim, a, b) {
      SimilarPairFound(ms, sim, a, b, rest, head);
    }
    if DuplicateModules(a, b) in head + rest {
      FoundPairSimilar(ms, sim, a, b, rest, head);
    }
  }

  lemma SimilarPairFound(ms: seq<Entry>, sim: (Name, Name) -> bool, a: Path, b: Path, rest: seq<Violation>, head: seq<Violation>)
    requires ms != []
    requires head == PairsWith(ms[0], ms, sim)
    requires SimilarPair(ms[1..], sim, a, b) ==> DuplicateModules(a, b) in rest
    requires SimilarPair(ms, sim, a, b)
    ensures DuplicateModules(a, b) in head + rest
  {
    var i, j :| 0 <= i < j < |ms| && ms[i].path == a && ms[j].path == b && a != b
                && sim(ms[i].node.name, ms[j].node.name);
    if i == 0 {
      assert DuplicateModules(a, b) in head;
    } else {
      assert ms[1..][i - 1] == ms[i] && ms[1..][j - 1] == ms[j];
    }
  }

  lemma FoundPairSimilar(ms: seq<Entry>, sim: (Name, Name) -> bool, a: Path, b: Path, rest: seq<Violation>, head: seq<Violation>)
    requires ms != []
    requires head == PairsWith(ms[0], ms, sim)
    requires DuplicateModules(a, b) in rest ==> SimilarPair(ms[1..], sim, a, b)
    requires DuplicateModules(a, b) in head + rest
    ensures SimilarPair(ms, sim, a, b)
  {
    if DuplicateModules(a, b) in rest {
      var i, j :| 0 <= i < j < |ms[1..]| && ms[1..][i].path == a && ms[1..][j].path == b && a != b
                  && sim(ms[1..][i].node.name, ms[1..][j].node.name);
      assert ms[i + 1] == ms[1..][i] && ms[j + 1] == ms[1..][j];
    } else {
      var j :| 0 <= j < |ms| && DuplicateModules(a, b) == DuplicateModules(ms[0].path, ms[j].path)
               && ms[0].path != ms[j].path && sim(ms[0].node.name, ms[j].node.name);
      assert j != 0;
    }
  }

  // ---------------------------------------------------------------- check 9

  /** Oversized modules: the walker's count from the module, which includes the
      module itself, above `MaxEntries`. */
  function TooMany(ms: seq<Entry>): (r: seq<Violation>)
    ensures forall v :: v in r ==> v.TooManyFiles?
    ensures forall q, c: nat :: TooManyFiles(q, c) in r <==>
              exists e :: e in ms && e.path == q && c == |Walk(e.path, e.node)| && c > MaxEntries
    ensures DistinctPaths(ms) ==> Distinct(r)
  {
    if ms == [] then []
    else
      var rest := TooMany(ms[1..]);
      assert forall e :: e in ms <==> e == ms[0] || e in ms[1..];
      var count := |Walk(ms[0].path, ms[0].node)|;
      var head := if count > MaxEntries then [TooManyFiles(ms[0].path, count)] else [];
      assert DistinctPaths(ms) ==> Distinct(head + rest) by {
        if DistinctPaths(ms) {
          DistinctPathsTail(ms);
          TooManyApart(ms, head, rest);
        }
      }
      head + rest
  }

  /** The first module's report and those of the modules at other paths
      differ, so the whole is distinct when the rest is. */
  lemma TooManyApart(ms: seq<Entry>, head: seq<Violation>, rest: seq<Violation>)
    requires ms != [] && Distinct(rest) && |head| <= 1
    requires forall v :: v in head ==> v.TooManyFiles? && v.moduleDir == ms[0].path
    requires forall e :: e in ms[1..] ==> e.path != ms[0].path
    requires forall q, c: nat :: TooManyFiles(q, c) in rest ==> exists e :: e in ms[1..] && e.path == q
    ensures Distinct(head + rest)
  {
    DistinctJoin(head, rest);
  }

  /** The count includes the module itself, so a module is oversized exactly
      when it is a real directory with at least `MaxEntries` entries beneath
      it; a module reached through a symbolic link counts one and never is. */
  lemma OversizedMeansAtLeastMaxEntriesBelow(e: Entry)
    ensures |Walk(e.path, e.node)| > MaxEntries <==> e.node.Dir? && |WalkAll(e.path, e.node.children)| >= MaxEntries
  {
  }

  // ----------------------------------------------------------- the rule set

  /** What `get_violations` reads from the file system: the listing of home,
      the listings of the four roots, the modules, and the walk from home. */
  datatype Scan = Scan(home: Path, top: seq<Node>, listings: seq<seq<Node>>, modules: seq<Entry>, walk: seq<Entry>)

  /** The scan of a tree whose home and roots can all be listed. */
  function ScanOf(t: Tree): (s: Scan)
    requires IsDir(t.home) && RootsReadable(t)
    ensures |s.listings| == 4 && ModulePaths(t) == Ok(s.modules)
  {
    ModulePathsAreRootDirectories(t, Entry([], t.home));
    Scan(HomePath(t), Contents(t.home), Listings(t), ModulePaths(t).value, Walk(HomePath(t), t.home))
  }

  /** The nine checks in the source's order. */
  function Checks(s: Scan, sim: (Name, Name) -> bool): seq<Violation>
    requires |s.listings| == 4
  {
    RootClutter(s.home, s.top)
    + RootStrays(s.home, s.listings)
    + NameCheck(s.modules)
    + ModulesChecks(s.modules)
    + Disallowed(s.walk)
    + Duplicates(s.modules, sim)
    + TooMany(s.modules)
  }

  /** `get_violations`. Listing home, then each root in order, is fatal when
      it fails (the source panics); nothing else is. */
  function GetViolations(t: Tree, sim: (Name, Name) -> bool): (r: Result<seq<Violation>, Path>)
    ensures r.Err? <==> !IsDir(t.home) || !RootsReadable(t)
    ensures !IsDir(t.home) ==> r == Err(HomePath(t))
    ensures IsDir(t.home) && !RootsReadable(t) ==> r == Err(HomePath(t) + [RootNames[FirstUnreadableRoot(t)]])
  {
    if !IsDir(t.home) then Err(HomePath(t))
    else if !RootsReadable(t) then Err(ModulePaths(t).error)
    else Ok(Checks(ScanOf(t), sim))
  }

  /** Every violation found can be rendered: the paths whose last component
      the fixes use are never empty. */
  lemma ViolationsAreRenderable(t: Tree, sim: (Name, Name) -> bool, v: Violation)
    requires GetViolations(t, sim).Ok? && v in GetViolations(t, sim).value
    ensures Renderable(FixOf(v))
  {
    var s := ScanOf(t);
    forall e | e in s.modules
      ensures |e.path| > 0
    {
      ModulesLieUnderRoots(t, e);
    }
    ChecksRenderable(s, sim, v);
  }

  /** The fixes of a scan's violations can be rendered when no module sits at
      the empty path. */
  lemma ChecksRenderable(s: Scan, sim: (Name, Name) -> bool, v: Violation)
    requires |s.listings| == 4 && v in Checks(s, sim)
    requires forall e :: e in s.modules ==> |e.path| > 0
    ensures Renderable(FixOf(v))
  {
    CountInGroups(RootClutter(s.home, s.top), RootStrays(s.home, s.listings), NameCheck(s.modules),
                  ModulesChecks(s.modules), Disallowed(s.walk), Duplicates(s.modules, sim), TooMany(s.modules), v);
    if v.RootDirClutter? {
      RootClutterNotElsewhere(s, sim, v);
    } else if v.ModDirClutter? {
      StrayNotElsewhere(s, sim, v);
    } else if v.ModDirName? {
      NameNotElsewhere(s, sim, v);
    }
  }

  // ------------------------------------------------- the rules, one by one

  lemma DistinctCountsOnce(vs: seq<Violation>, v: Violation)
    requires Distinct(vs)
    ensures multiset(vs)[v] <= 1
  {
    if vs != [] {
      assert vs == [vs[0]] + vs[1..];
      assert Distinct(vs[1..]) by {
        forall i, j | 0 <= i < j < |vs[1..]|
          ensures vs[1..][i] != vs[1..][j]
        {
          assert vs[1..][i] == vs[i + 1] && vs[1..][j] == vs[j + 1];
        }
      }
      DistinctCountsOnce(vs[1..], v);
      if vs[0] == v {
        assert v !in vs[1..] by {
          forall k | 0 <= k < |vs[1..]|
            ensures vs[1..][k] != v
          {
            assert vs[1..][k] == vs[k + 1];
          }
        }
      }
    }
  }

  // Each group reports violations of its own kinds only.

  lemma OutsideRootClutter(home: Path, cs: seq<Node>, v: Violation)
    requires !v.RootDirClutter?
    ensures v !in RootClutter(home, cs)
  {
  }

  lemma OutsideRootStrays(home: Path, listings: seq<seq<Node>>, v: Violation)
    requires |listings| == 4 && !v.ModDirClutter?
    ensures v !in RootStrays(home, listings)
  {
  }

  lemma OutsideNameCheck(ms: seq<Entry>, v: Violation)
    requires !v.ModDirName?
    ensures v !in NameCheck(ms)
  {
  }

  lemma OutsideModulesChecks(ms: seq<Entry>, v: Violation)
    requires !v.EmptyModule? && !v.ModRequiredFileMissing? && !v.NoTags?
    ensures v !in ModulesChecks(ms)
  {
  }

  lemma OutsideDisallowed(vs: seq<Entry>, v: Violation)
    requires !v.DisallowedFile?
    ensures v !in Disallowed(vs)
  {
  }

  lemma OutsideDuplicates(ms: seq<Entry>, sim: (Name, Name) -> bool, v: Violation)
    requires !v.DuplicateModules?
    ensures v !in Duplicates(ms, sim)
  {
  }

  lemma OutsideTooMany(ms: seq<Entry>, v: Violation)
    requires !v.TooManyFiles?
    ensures v !in TooMany(ms)
  {
  }

  /** A violation occurs in a concatenation of seven groups as often as it
      occurs in the groups together. */
  lemma CountInGroups(a: seq<Violation>, b: seq<Violation>, c: seq<Violation>, d: seq<Violation>,
                      e: seq<Violation>, f: seq<Violation>, g: seq<Violation>, v: Violation)
    ensures multiset(a + b + c + d + e + f + g)[v]
            == multiset(a)[v] + multiset(b)[v] + multiset(c)[v] + multiset(d)[v]
               + multiset(e)[v] + multiset(f)[v] + multiset(g)[v]
    ensures v in a + b + c + d + e + f + g <==> v in a || v in b || v in c || v in d || v in e || v in f || v in g
    ensures v !in a + b + c + d ==> multiset(a)[v] + multiset(b)[v] + multiset(c)[v] + multiset(d)[v] == 0
    ensures v !in f + g ==> multiset(f)[v] + multiset(g)[v] == 0
  {
  }

  /** Root clutter is reported by the first group only. */
  lemma RootClutterNotElsewhere(s: Scan, sim: (Name, Name) -> bool, v: Violation)
    requires |s.listings| == 4 && v.RootDirClutter?
    ensures v !in RootStrays(s.home, s.listings) && v !in NameCheck(s.modules) && v !in ModulesChecks(s.modules)
    ensures v !in Disallowed(s.walk) && v !in Duplicates(s.modules, sim) && v !in TooMany(s.modules)
  {
    OutsideRootStrays(s.home, s.listings, v);
    OutsideNameCheck(s.modules, v);
    OutsideModulesChecks(s.modules, v);
    OutsideDisallowed(s.walk, v);
    OutsideDuplicates(s.modules, sim, v);
    OutsideTooMany(s.modules, v);
  }

  /** Only the first group reports root clutter. */
  lemma RootClutterOnlyFirst(s: Scan, sim: (Name, Name) -> bool, v: Violation)
    requires |s.listings| == 4 && v.RootDirClutter?
    ensures multiset(Checks(s, sim))[v] == multiset(RootClutter(s.home, s.top))[v]
  {
    RootClutterNotElsewhere(s, sim, v);
    CountInGroups(RootClutter(s.home, s.top), RootStrays(s.home, s.listings), NameCheck(s.modules),
                  ModulesChecks(s.modules), Disallowed(s.walk), Duplicates(s.modules, sim), TooMany(s.modules), v);
  }

  /** Root clutter: each entry of home that is not one of the four roots is
      reported once per occurrence. */
  lemma RootClutterRule(s: Scan, sim: (Name, Name) -> bool, x: Name)
    requires |s.listings| == 4
    ensures x !in RootNames ==> multiset(Checks(s, sim))[RootDirClutter(s.home + [x])] == multiset(Names(s.top))[x]
  {
    RootClutterOnlyFirst(s, sim, RootDirClutter(s.home + [x]));
  }

  /** Nothing but the entries of home other than the roots is reported as
      root clutter. */
  lemma RootClutterShape(s: Scan, sim: (Name, Name) -> bool, q: Path)
    requires |s.listings| == 4
    ensures RootDirClutter(q) in Checks(s, sim) ==> Search.ChildOf(q, s.home) && q[|s.home|] !in RootNames
  {
    RootClutterOnlyFirst(s, sim, RootDirClutter(q));
  }

  /** Stray files of different roots have different paths. */
  lemma StraysOfOtherRoot(root: Path, other: Path, cs: seq<Node>, x: Name)
    requires |root| == |other| && root != other
    ensures ModDirClutter(root + [x]) !in StrayFiles(other, cs)
  {
  }

  /** Within the stray files of the four roots, a path under root `k` can
      only come from root `k`. */
  lemma StrayInOwnListing(home: Path, listings: seq<seq<Node>>, k: nat, x: Name)
    requires |listings| == 4 && k < 4
    ensures ModDirClutter(home + [RootNames[k], x]) in RootStrays(home, listings) <==>
              ModDirClutter(home + [RootNames[k]] + [x]) in StrayFiles(home + [RootNames[k]], listings[k])
  {
    var root := home + [RootNames[k]];
    var v := ModDirClutter(root + [x]);
    assert root + [x] == home + [RootNames[k], x];
    forall j | 0 <= j < 4 && j != k
      ensures v !in StrayFiles(home + [RootNames[j]], listings[j])
    {
      assert (home + [RootNames[j]])[|home|] != root[|home|];
      StraysOfOtherRoot(root, home + [RootNames[j]], listings[j], x);
    }
  }

  /** Module-dir clutter is reported by the second group only. */
  lemma StrayNotElsewhere(s: Scan, sim: (Name, Name) -> bool, v: Violation)
    requires |s.listings| == 4 && v.ModDirClutter?
    ensures v !in RootClutter(s.home, s.top) && v !in NameCheck(s.modules) && v !in ModulesChecks(s.modules)
    ensures v !in Disallowed(s.walk) && v !in Duplicates(s.modules, sim) && v !in TooMany(s.modules)
  {
    OutsideRootClutter(s.home, s.top, v);
    OutsideNameCheck(s.modules, v);
    OutsideModulesChecks(s.modules, v);
    OutsideDisallowed(s.walk, v);
    OutsideDuplicates(s.modules, sim, v);
    OutsideTooMany(s.modules, v);
  }

  /** A module-dir clutter path under root `k` can only come from root `k`. */
  lemma StrayInOwnRoot(s: Scan, sim: (Name, Name) -> bool, k: nat, x: Name)
    requires |s.listings| == 4 && k < 4
    ensures ModDirClutter(s.home + [RootNames[k], x]) in Checks(s, sim) <==>
              ModDirClutter(s.home + [RootNames[k]] + [x]) in StrayFiles(s.home + [RootNames[k]], s.listings[k])
  {
    var v := ModDirClutter(s.home + [RootNames[k], x]);
    StrayInOwnListing(s.home, s.listings, k, x);
    StrayNotElsewhere(s, sim, v);
    CountInGroups(RootClutter(s.home, s.top), RootStrays(s.home, s.listings), NameCheck(s.modules),
                  ModulesChecks(s.modules), Disallowed(s.walk), Duplicates(s.modules, sim), TooMany(s.modules), v);
  }

  /** Module-dir clutter: in a root whose entries have distinct names, an entry
      is reported as clutter exactly when it is not a directory. */
  lemma StrayRule(s: Scan, sim: (Name, Name) -> bool, k: nat, c: Node)
    requires |s.listings| == 4 && k < 4
    requires UniqueNames(s.listings[k]) && c in s.listings[k]
    ensures ModDirClutter(s.home + [RootNames[k], c.name]) in Checks(s, sim) <==> !IsDir(c)
  {
    StrayInOwnRoot(s, sim, k, c.name);
    StrayFilesRule(s.home + [RootNames[k]], s.listings[k], c);
  }

  /** In a listing with distinct names, an entry is a stray file exactly when
      it is not a directory. */
  lemma StrayFilesRule(root: Path, cs: seq<Node>, c: Node)
    requires UniqueNames(cs) && c in cs
    ensures ModDirClutter(root + [c.name]) in StrayFiles(root, cs) <==> !IsDir(c)
  {
    if ModDirClutter(root + [c.name]) in StrayFiles(root, cs) {
      var d :| d in cs && d.name == c.name && !IsDir(d);
      var i :| 0 <= i < |cs| && cs[i] == c;
      var j :| 0 <= j < |cs| && cs[j] == d;
      assert i == j;
    }
  }

  /** An entry of root `k`'s listing is a module exactly when it is a
      directory. */
  lemma ModuleIsDirectoryEntry(t: Tree, k: nat, c: Node)
    requires RootsReadable(t) && k < 4
    requires c in RootListing(t, RootNames[k]).value
    ensures ModulePaths(t).Ok?
    ensures Entry(HomePath(t) + [RootNames[k], c.name], c) in ModulePaths(t).value <==> IsDir(c)
  {
    var home := HomePath(t);
    var root := home + [RootNames[k]];
    var cs := RootListing(t, RootNames[k]).value;
    var e := Entry(root + [c.name], c);
    assert root + [c.name] == home + [RootNames[k], c.name];
    var i :| 0 <= i < |cs| && cs[i] == c;
    assert Children(root, cs)[i] == e;
    ModulePathsAreRootDirectories(t, e);
  }

  /** An entry of root `k`'s listing is reported as clutter exactly when it is
      not a directory. */
  lemma ClutterIsNonDirectory(t: Tree, sim: (Name, Name) -> bool, k: nat, c: Node)
    requires GetViolations(t, sim).Ok? && k < 4
    requires UniqueNames(RootListing(t, RootNames[k]).value)
    requires c in RootListing(t, RootNames[k]).value
    ensures ModDirClutter(HomePath(t) + [RootNames[k], c.name]) in GetViolations(t, sim).value <==> !IsDir(c)
  {
    var s := ScanOf(t);
    assert GetViolations(t, sim).value == Checks(s, sim);
    assert s.listings[k] == RootListing(t, RootNames[k]).value;
    StrayRule(s, sim, k, c);
  }

  /** Every entry of a root whose entries have distinct names is either a
      module (a directory) or reported as clutter, never both and never
      neither. */
  lemma ModuleOrClutterRule(t: Tree, sim: (Name, Name) -> bool, k: nat, c: Node)
    requires GetViolations(t, sim).Ok? && k < 4
    requires UniqueNames(RootListing(t, RootNames[k]).value)
    requires c in RootListing(t, RootNames[k]).value
    ensures ModulePaths(t).Ok?
    ensures (Entry(HomePath(t) + [RootNames[k], c.name], c) in ModulePaths(t).value)
            <==> (ModDirClutter(HomePath(t) + [RootNames[k], c.name]) !in GetViolations(t, sim).value)
  {
    ModuleIsDirectoryEntry(t, k, c);
    ClutterIsNonDirectory(t, sim, k, c);
  }

  /** Module names: a module is reported for its name exactly when its name
      matches the pattern. */
  lemma NameRule(s: Scan, sim: (Name, Name) -> bool, p: Path)
    requires |s.listings| == 4
    ensures ModDirName(p) in Checks(s, sim) <==> exists e :: e in s.modules && e.path == p && BadName(e.node.name)
  {
    var v := ModDirName(p);
    NameNotElsewhere(s, sim, v);
    CountInGroups(RootClutter(s.home, s.top), RootStrays(s.home, s.listings), NameCheck(s.modules),
                  ModulesChecks(s.modules), Disallowed(s.walk), Duplicates(s.modules, sim), TooMany(s.modules), v);
  }

  /** When the modules lie at distinct paths, each module with a bad name is
      reported once. */
  lemma NameOnceInScan(s: Scan, sim: (Name, Name) -> bool, p: Path)
    requires |s.listings| == 4 && DistinctPaths(s.modules)
    ensures multiset(Checks(s, sim))[ModDirName(p)] <= 1
  {
    var v := ModDirName(p);
    NameNotElsewhere(s, sim, v);
    CountInGroups(RootClutter(s.home, s.top), RootStrays(s.home, s.listings), NameCheck(s.modules),
                  ModulesChecks(s.modules), Disallowed(s.walk), Duplicates(s.modules, sim), TooMany(s.modules), v);
    DistinctCountsOnce(NameCheck(s.modules), v);
  }

  /** Module-name violations are reported by the third group only. */
  lemma NameNotElsewhere(s: Scan, sim: (Name, Name) -> bool, v: Violation)
    requires |s.listings| == 4 && v.ModDirName?
    ensures v !in RootClutter(s.home, s.top) && v !in RootStrays(s.home, s.listings) && v !in ModulesChecks(s.modules)
    ensures v !in Disallowed(s.walk) && v !in Duplicates(s.modules, sim) && v !in TooMany(s.modules)
  {
    OutsideRootClutter(s.home, s.top, v);
    OutsideRootStrays(s.home, s.listings, v);
    OutsideModulesChecks(s.modules, v);
    OutsideDisallowed(s.walk, v);
    OutsideDuplicates(s.modules, sim, v);
    OutsideTooMany(s.modules, v);
  }

  /** The per-module violations are reported by the fourth group only. */
  lemma ModuleContentNotElsewhere(s: Scan, sim: (Name, Name) -> bool, v: Violation)
    requires |s.listings| == 4 && (v.EmptyModule? || v.ModRequiredFileMissing? || v.NoTags?)
    ensures v !in RootClutter(s.home, s.top) && v !in RootStrays(s.home, s.listings) && v !in NameCheck(s.modules)
    ensures v !in Disallowed(s.walk) && v !in Duplicates(s.modules, sim) && v !in TooMany(s.modules)
  {
    OutsideRootClutter(s.home, s.top, v);
    OutsideRootStrays(s.home, s.listings, v);
    OutsideNameCheck(s.modules, v);
    OutsideDisallowed(s.walk, v);
    OutsideDuplicates(s.modules, sim, v);
    OutsideTooMany(s.modules, v);
  }

  /** A per-module violation is in the rule set exactly when the per-module
      checks report it. */
  lemma ModuleContentOnlyFourth(s: Scan, sim: (Name, Name) -> bool, v: Violation)
    requires |s.listings| == 4 && (v.EmptyModule? || v.ModRequiredFileMissing? || v.NoTags?)
    ensures v in Checks(s, sim) <==> v in ModulesChecks(s.modules)
  {
    ModuleContentNotElsewhere(s, sim, v);
    CountInGroups(RootClutter(s.home, s.top), RootStrays(s.home, s.listings), NameCheck(s.modules),
                  ModulesChecks(s.modules), Disallowed(s.walk), Duplicates(s.modules, sim), TooMany(s.modules), v);
  }

  /** The per-module rules: an empty module, a missing required file and a
      module without tags are each reported exactly for the modules they
      describe. */
  lemma ModuleContentRules(s: Scan, sim: (Name, Name) -> bool, f: Name, p: Path)
    requires |s.listings| == 4
    ensures EmptyModule(p) in Checks(s, sim) <==> exists e :: e in s.modules && e.path == p && |Contents(e.node)| == 0
    ensures ModRequiredFileMissing(f, p) in Checks(s, sim) <==>
              f in RequiredFiles && exists e :: e in s.modules && e.path == p && f !in Names(Contents(e.node))
    ensures NoTags(p) in Checks(s, sim) <==>
              exists e :: e in s.modules && p == e.path + [MetadataFile] && |Search.ModuleTags(e.node)| == 0
  {
    ModuleContentOnlyFourth(s, sim, EmptyModule(p));
    ModuleContentOnlyFourth(s, sim, ModRequiredFileMissing(f, p));
    ModuleContentOnlyFourth(s, sim, NoTags(p));
  }

  /** When the modules lie at distinct paths, each per-module violation is
      reported once: one empty module, one missing file of each kind and one
      missing tag list per module at most. */
  lemma ModuleContentOnceInScan(s: Scan, sim: (Name, Name) -> bool, v: Violation)
    requires |s.listings| == 4 && DistinctPaths(s.modules)
    requires v.EmptyModule? || v.ModRequiredFileMissing? || v.NoTags?
    ensures multiset(Checks(s, sim))[v] <= 1
  {
    ModuleContentNotElsewhere(s, sim, v);
    CountInGroups(RootClutter(s.home, s.top), RootStrays(s.home, s.listings), NameCheck(s.modules),
                  ModulesChecks(s.modules), Disallowed(s.walk), Duplicates(s.modules, sim), TooMany(s.modules), v);
    DistinctCountsOnce(ModulesChecks(s.modules), v);
  }

  /** Disallowed artefacts are reported by the fifth group only. */
  lemma DisallowedNotElsewhere(s: Scan, sim: (Name, Name) -> bool, v: Violation)
    requires |s.listings| == 4 && v.DisallowedFile?
    ensures v !in RootClutter(s.home, s.top) && v !in RootStrays(s.home, s.listings) && v !in NameCheck(s.modules)
    ensures v !in ModulesChecks(s.modules) && v !in Duplicates(s.modules, sim) && v !in TooMany(s.modules)
  {
    OutsideRootClutter(s.home, s.top, v);
    OutsideRootStrays(s.home, s.listings, v);
    OutsideNameCheck(s.modules, v);
    OutsideModulesChecks(s.modules, v);
    OutsideDuplicates(s.modules, sim, v);
    OutsideTooMany(s.modules, v);
  }

  /** Disallowed artefacts: exactly the visited entries named on the denylist
      are reported. */
  lemma DisallowedInScan(s: Scan, sim: (Name, Name) -> bool, q: Path)
    requires |s.listings| == 4
    ensures DisallowedFile(q) in Checks(s, sim) <==> exists e :: e in s.walk && e.path == q && e.node.name in Denylist
  {
    var v := DisallowedFile(q);
    DisallowedNotElsewhere(s, sim, v);
    CountInGroups(RootClutter(s.home, s.top), RootStrays(s.home, s.listings), NameCheck(s.modules),
                  ModulesChecks(s.modules), Disallowed(s.walk), Duplicates(s.modules, sim), TooMany(s.modules), v);
  }

  /** Each disallowed artefact is reported once when the walk visits each
      path once. */
  lemma DisallowedOnceInScan(s: Scan, sim: (Name, Name) -> bool, q: Path)
    requires |s.listings| == 4 && DistinctPaths(s.walk)
    ensures multiset(Checks(s, sim))[DisallowedFile(q)] <= 1
  {
    var v := DisallowedFile(q);
    DisallowedNotElsewhere(s, sim, v);
    var before := RootClutter(s.home, s.top) + RootStrays(s.home, s.listings) + NameCheck(s.modules) + ModulesChecks(s.modules);
    var after := Duplicates(s.modules, sim) + TooMany(s.modules);
    CountInGroups(RootClutter(s.home, s.top), RootStrays(s.home, s.listings), NameCheck(s.modules),
                  ModulesChecks(s.modules), Disallowed(s.walk), Duplicates(s.modules, sim), TooMany(s.modules), v);
    assert v !in before && v !in after;
    DistinctCountsOnce(Disallowed(s.walk), v);
  }

  /** Disallowed artefacts in the tree: a path is reported exactly when it lies
      under home and leads to an entry whose name is on the denylist; when the
      directories' entries have distinct names, each is reported once. */
  lemma DisallowedRule(t: Tree, sim: (Name, Name) -> bool, q: Path)
    requires GetViolations(t, sim).Ok?
    ensures DisallowedFile(q) in GetViolations(t, sim).value <==>
              HomePath(t) <= q && exists m :: Reaches(t.home, q[|HomePath(t)|..], m) && m.name in Denylist
    ensures WellFormed(t.home) ==> multiset(GetViolations(t, sim).value)[DisallowedFile(q)] <= 1
  {
    var home := HomePath(t);
    var s := ScanOf(t);
    DisallowedInScan(s, sim, q);
    if exists e :: e in s.walk && e.path == q && e.node.name in Denylist {
      var e :| e in s.walk && e.path == q && e.node.name in Denylist;
      WalkVisitsExactlyTheSubtree(home, t.home, q, e.node);
    }
    if home <= q && exists m :: Reaches(t.home, q[|home|..], m) && m.name in Denylist {
      var m :| Reaches(t.home, q[|home|..], m) && m.name in Denylist;
      WalkVisitsExactlyTheSubtree(home, t.home, q, m);
      assert Entry(q, m) in s.walk;
    }
    if WellFormed(t.home) {
      WalkVisitsEachPathOnce(home, t.home);
      DisallowedOnceInScan(s, sim, q);
    }
  }

  /** Near-duplicate pairs are reported by the sixth group only. */
  lemma DuplicateNotElsewhere(s: Scan, sim: (Name, Name) -> bool, v: Violation)
    requires |s.listings| == 4 && v.DuplicateModules?
    ensures v !in RootClutter(s.home, s.top) && v !in RootStrays(s.home, s.listings) && v !in NameCheck(s.modules)
    ensures v !in ModulesChecks(s.modules) && v !in Disallowed(s.walk) && v !in TooMany(s.modules)
  {
    OutsideRootClutter(s.home, s.top, v);
    OutsideRootStrays(s.home, s.listings, v);
    OutsideNameCheck(s.modules, v);
    OutsideModulesChecks(s.modules, v);
    OutsideDisallowed(s.walk, v);
    OutsideTooMany(s.modules, v);
  }

  /** Near-duplicate names: a pair is reported exactly for two different
      modules, the first listed before the second, whose names are similar. */
  lemma DuplicateRule(s: Scan, sim: (Name, Name) -> bool, a: Path, b: Path)
    requires |s.listings| == 4
    ensures DuplicateModules(a, b) in Checks(s, sim) <==> SimilarPair(s.modules, sim, a, b)
  {
    var v := DuplicateModules(a, b);
    DuplicateNotElsewhere(s, sim, v);
    CountInGroups(RootClutter(s.home, s.top), RootStrays(s.home, s.listings), NameCheck(s.modules),
                  ModulesChecks(s.modules), Disallowed(s.walk), Duplicates(s.modules, sim), TooMany(s.modules), v);
  }

  /** Oversized modules are reported by the last group only. */
  lemma TooManyNotElsewhere(s: Scan, sim: (Name, Name) -> bool, v: Violation)
    requires |s.listings| == 4 && v.TooManyFiles?
    ensures v !in RootClutter(s.home, s.top) && v !in RootStrays(s.home, s.listings) && v !in NameCheck(s.modules)
    ensures v !in ModulesChecks(s.modules) && v !in Disallowed(s.walk) && v !in Duplicates(s.modules, sim)
  {
    OutsideRootClutter(s.home, s.top, v);
    OutsideRootStrays(s.home, s.listings, v);
    OutsideNameCheck(s.modules, v);
    OutsideModulesChecks(s.modules, v);
    OutsideDisallowed(s.walk, v);
    OutsideDuplicates(s.modules, sim, v);
  }

  /** Oversized modules: a module is reported, with its count, exactly when the
      walk from it visits more than `MaxEntries` entries, itself included. */
  lemma TooManyRule(s: Scan, sim: (Name, Name) -> bool, q: Path, c: nat)
    requires |s.listings| == 4
    ensures TooManyFiles(q, c) in Checks(s, sim) <==>
              exists e :: e in s.modules && e.path == q && c == |Walk(e.path, e.node)| && c > MaxEntries
  {
    var v := TooManyFiles(q, c);
    TooManyNotElsewhere(s, sim, v);
    CountInGroups(RootClutter(s.home, s.top), RootStrays(s.home, s.listings), NameCheck(s.modules),
                  ModulesChecks(s.modules), Disallowed(s.walk), Duplicates(s.modules, sim), TooMany(s.modules), v);
  }

  /** When the modules lie at distinct paths, each oversized module is
      reported once. */
  lemma TooManyOnceInScan(s: Scan, sim: (Name, Name) -> bool, q: Path, c: nat)
    requires |s.listings| == 4 && DistinctPaths(s.modules)
    ensures multiset(Checks(s, sim))[TooManyFiles(q, c)] <= 1
  {
    var v := TooManyFiles(q, c);
    TooManyNotElsewhere(s, sim, v);
    CountInGroups(RootClutter(s.home, s.top), RootStrays(s.home, s.listings), NameCheck(s.modules),
                  ModulesChecks(s.modules), Disallowed(s.walk), Duplicates(s.modules, sim), TooMany(s.modules), v);
    DistinctCountsOnce(TooMany(s.modules), v);
  }

  /** In a tree whose roots list no name twice, every violation about one
      module (its name, its emptiness, each missing file, its tags, its size)
      is reported at most once. */
  lemma OncePerModule(t: Tree, sim: (Name, Name) -> bool, v: Violation)
    requires GetViolations(t, sim).Ok?
    requires forall k :: 0 <= k < 4 ==> UniqueNames(RootListing(t, RootNames[k]).value)
    requires v.ModDirName? || v.EmptyModule? || v.ModRequiredFileMissing? || v.NoTags? || v.TooManyFiles?
    ensures multiset(GetViolations(t, sim).value)[v] <= 1
  {
    var s := ScanOf(t);
    ModulesAtDistinctPaths(t);
    assert GetViolations(t, sim).value == Checks(s, sim);
    if v.ModDirName? {
      NameOnceInScan(s, sim, v.path);
    } else if v.TooManyFiles? {
      TooManyOnceInScan(s, sim, v.moduleDir, v.filecount);
    } else {
      ModuleContentOnceInScan(s, sim, v);
    }
  }
}
