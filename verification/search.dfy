/** The lookup and tag helpers of src/search.rs: pure filters over the module
    enumeration. `strsim::jaro(name, s) > precision` is the parameter `near`. */
module Search {
  import opened Wrappers
  import opened Fs
  import opened Taxonomy
  import Tally

  /** Why a lookup gave up: a name that is not a root (`Err("invalid root")`),
      or a root that could not be listed (a panic in the source). */
  datatype Failure = InvalidRoot(name: Name) | Unreadable(path: Path)

  function Paths(es: seq<Entry>): seq<Path>
  {
    seq(|es|, i requires 0 <= i < |es| => es[i].path)
  }

  /** `filter_map(|x| x.as_str())` over a YAML sequence. */
  function Strings(items: seq<Value>): (r: seq<string>)
    ensures forall s :: multiset(r)[s] == multiset(items)[Str(s)]
    ensures |r| <= |items|
  {
    if items == [] then []
    else
      assert items == [items[0]] + items[1..];
      match items[0]
      case Str(s) => [s] + Strings(items[1..])
      case NonStr => Strings(items[1..])
  }

  /** The strings keep their order: filtering distributes over concatenation. */
  lemma {:induction false} StringsAppend(a: seq<Value>, b: seq<Value>)
    ensures Strings(a + b) == Strings(a) + Strings(b)
  {
    if a == [] {
      assert a + b == b;
    } else {
      StringsAppend(a[1..], b);
      ConsAppend(a, b);
    }
  }

  /** Taking the first item off a concatenation takes it off its left part. */
  lemma ConsAppend(a: seq<Value>, b: seq<Value>)
    requires a != []
    ensures (a + b)[0] == a[0] && (a + b)[1..] == a[1..] + b
  {
  }

  /** `get_module_tags`: the string items of the `tags` sequence of the module's
      metadata, in order; empty when there is no parsable metadata or no
      `tags` sequence. */
  function ModuleTags(m: Node): (r: seq<string>)
    ensures ReadYaml(m).None? ==> r == []
    ensures ReadYaml(m).Some? && ReadYaml(m).value.tags.None? ==> r == []
    ensures ReadYaml(m).Some? && ReadYaml(m).value.tags.Some? ==>
              forall s :: multiset(r)[s] == multiset(ReadYaml(m).value.tags.value)[Str(s)]
  {
    match ReadYaml(m)
    case Some(Doc(Some(items))) => Strings(items)
    case _ => []
  }

  /** The first entry named `s`. */
  function FirstNamed(es: seq<Entry>, s: Name): (r: Option<Entry>)
    ensures r.None? <==> forall e :: e in es ==> e.node.name != s
    ensures r.Some? ==> exists i :: 0 <= i < |es| && es[i] == r.value && es[i].node.name == s
                                    && forall j :: 0 <= j < i ==> es[j].node.name != s
  {
    if es == [] then None
    else if es[0].node.name == s then Some(es[0])
    else
      var r := FirstNamed(es[1..], s);
      assert forall e :: e in es <==> e == es[0] || e in es[1..];
      if r.Some? then
        ghost var i :| 0 <= i < |es[1..]| && es[1..][i] == r.value && es[1..][i].node.name == s
                       && forall j :: 0 <= j < i ==> es[1..][j].node.name != s;
        assert forall j :: 0 < j <= i ==> es[j] == es[1..][j - 1];
        r
      else r
  }

  /** `find_module(s)`: the first module, in enumeration order, whose name is
      exactly `s`. */
  function FindModule(t: Tree, s: Name): (r: Result<Option<Path>, Path>)
    ensures r.Err? <==> ModulePaths(t).Err?
    ensures r.Ok? ==> (r.value.None? <==> forall e :: e in ModulePaths(t).value ==> e.node.name != s)
    ensures r.Ok? && r.value.Some? ==>
              var ms := ModulePaths(t).value;
              exists i :: 0 <= i < |ms| && ms[i].path == r.value.value && ms[i].node.name == s
                          && forall j :: 0 <= j < i ==> ms[j].node.name != s
  {
    match ModulePaths(t)
    case Err(p) => Err(p)
    case Ok(ms) =>
      match FirstNamed(ms, s)
      case None => Ok(None)
      case Some(e) => Ok(Some(e.path))
  }

  /** The last component of `p` is `s`. */
  predicate EndsIn(p: Path, s: Name)
  {
    |p| > 0 && p[|p| - 1] == s
  }

  /** The position of the first of `ps` whose last component is `s`, or `|ps|`
      when there is none. */
  function FirstEndingAt(ps: seq<Path>, s: Name): (k: nat)
    ensures k <= |ps| && (k < |ps| ==> EndsIn(ps[k], s))
    ensures forall j :: 0 <= j < k ==> !EndsIn(ps[j], s)
  {
    if ps == [] then 0
    else if EndsIn(ps[0], s) then 0
    else
      var k := FirstEndingAt(ps[1..], s);
      assert forall j :: 0 < j < k + 1 ==> ps[j] == ps[1..][j - 1];
      k + 1
  }

  /** The first of `ps` whose last component is `s` (`iter().find`). */
  function FirstEndingIn(ps: seq<Path>, s: Name): (r: Option<Path>)
    ensures r.None? <==> forall p :: p in ps ==> !EndsIn(p, s)
    ensures r.Some? ==> exists i :: 0 <= i < |ps| && ps[i] == r.value && EndsIn(ps[i], s)
                                   && forall j :: 0 <= j < i ==> !EndsIn(ps[j], s)
  {
    var k := FirstEndingAt(ps, s);
    if k == |ps| then None else Some(ps[k])
  }

  /** `find_root(s)`: the root path named `s`, if `s` names a root. */
  function FindRoot(home: Path, s: Name): (r: Option<Path>)
    ensures r.Some? <==> s in RootNames
    ensures r.Some? ==> r.value == home + [s]
  {
    var ps := RootPaths(home);
    assert ps == [home + [RootNames[0]], home + [RootNames[1]], home + [RootNames[2]], home + [RootNames[3]]];
    var r := FirstEndingIn(ps, s);
    assert s in RootNames ==> home + [s] in ps;
    r
  }

  /** `p.ancestors().nth(1) == Some(dir)`: `dir` is the parent of `p`. */
  predicate ChildOf(p: Path, dir: Path)
  {
    |p| > 0 && p[..|p| - 1] == dir
  }

  /** The paths of the entries whose parent is `dir`
      (`filter(|p| p.ancestors().nth(1).unwrap() == root_path)`). */
  function Under(es: seq<Entry>, dir: Path): (r: seq<Path>)
    ensures forall p :: p in r <==> p in Paths(es) && ChildOf(p, dir)
  {
    if es == [] then []
    else
      var rest := Under(es[1..], dir);
      assert Paths(es) == [es[0].path] + Paths(es[1..]);
      if ChildOf(es[0].path, dir) then [es[0].path] + rest else rest
  }

  lemma {:induction false} UnderAppend(a: seq<Entry>, b: seq<Entry>, dir: Path)
    ensures Under(a + b, dir) == Under(a, dir) + Under(b, dir)
  {
    if a != [] {
      assert (a + b)[0] == a[0] && (a + b)[1..] == a[1..] + b;
      UnderAppend(a[1..], b, dir);
      if ChildOf(a[0].path, dir) {
        assert Under(a + b, dir) == [a[0].path] + Under(a[1..] + b, dir);
        assert Under(a, dir) == [a[0].path] + Under(a[1..], dir);
      } else {
        assert Under(a + b, dir) == Under(a[1..] + b, dir);
        assert Under(a, dir) == Under(a[1..], dir);
      }
    } else {
      assert a + b == b;
    }
  }

  /** `list_rooted_modules(root)`: an error for a name that is not a root,
      otherwise the modules whose parent is that root, in enumeration order. */
  function ListRootedModules(t: Tree, root: Name): (r: Result<seq<Path>, Failure>)
    ensures r == Err(InvalidRoot(root)) <==> root !in RootNames
    ensures root in RootNames ==> (r.Err? <==> ModulePaths(t).Err?)
    ensures r.Ok? ==> forall p :: p in r.value <==> p in Paths(ModulePaths(t).value) && ChildOf(p, HomePath(t) + [root])
  {
    if root !in RootNames then Err(InvalidRoot(root))
    else
      match ModulePaths(t)
      case Err(p) => Err(Unreadable(p))
      case Ok(ms) =>
        Ok(Under(ms, HomePath(t) + [root]))
  }

  /** The entries of one listing that are all children of `dir` are all kept
      by `Under(_, dir)` and all dropped by `Under(_, other)`. */
  lemma {:induction false} UnderDirEntries(p: Path, cs: seq<Node>, dir: Path)
    ensures Under(DirEntries(p, cs), dir) == if dir == p then Paths(DirEntries(p, cs)) else []
  {
    if cs != [] {
      UnderDirEntries(p, cs[1..], dir);
      var rest := DirEntries(p, cs[1..]);
      if IsDir(cs[0]) {
        var e := Entry(p + [cs[0].name], cs[0]);
        ChildOfExtension(p, cs[0].name, dir);
        UnderCons(e, rest, dir);
      }
    }
  }

  lemma ChildOfExtension(p: Path, x: Name, dir: Path)
    ensures ChildOf(p + [x], dir) <==> dir == p
  {
    assert (p + [x])[..|p|] == p;
  }

  /** `Under` and `Paths` of an entry followed by others. */
  lemma UnderCons(e: Entry, rest: seq<Entry>, dir: Path)
    ensures Under([e] + rest, dir) == (if ChildOf(e.path, dir) then [e.path] else []) + Under(rest, dir)
    ensures Paths([e] + rest) == [e.path] + Paths(rest)
  {
    assert ([e] + rest)[0] == e && ([e] + rest)[1..] == rest;
  }

  lemma UnderRoot(t: Tree, j: nat, k: nat)
    requires j < 4 && k < 4 && RootsReadable(t)
    ensures Under(RootModules(t, j), HomePath(t) + [RootNames[k]]) == if j == k then Paths(RootModules(t, k)) else []
  {
    var home := HomePath(t);
    UnderDirEntries(home + [RootNames[j]], RootListing(t, RootNames[j]).value, home + [RootNames[k]]);
    if j != k {
      assert (home + [RootNames[j]])[|home|] != (home + [RootNames[k]])[|home|];
    }
  }

  /** Listing a root gives exactly that root's module directories, in listing
      order: the filter on the parent path keeps one root's block of the
      enumeration and drops the other three. */
  lemma ListRootedModulesIsOneRoot(t: Tree, k: nat)
    requires k < 4 && RootsReadable(t)
    ensures ListRootedModules(t, RootNames[k]) == Ok(Paths(RootModules(t, k)))
  {
    var dir := HomePath(t) + [RootNames[k]];
    var r0, r1, r2, r3 := RootModules(t, 0), RootModules(t, 1), RootModules(t, 2), RootModules(t, 3);
    assert ModulePaths(t) == Ok(r0 + r1 + r2 + r3);
    UnderFour(r0, r1, r2, r3, dir);
    UnderRoot(t, 0, k);
    UnderRoot(t, 1, k);
    UnderRoot(t, 2, k);
    UnderRoot(t, 3, k);
    OnlyOneOfFour(Under(r0, dir), Under(r1, dir), Under(r2, dir), Under(r3, dir), k, Paths(RootModules(t, k)));
    assert RootNames[k] in RootNames;
    assert ListRootedModules(t, RootNames[k]) == Ok(Under(r0 + r1 + r2 + r3, dir));
  }

  lemma OnlyOneOfFour(a: seq<Path>, b: seq<Path>, c: seq<Path>, d: seq<Path>, k: nat, p: seq<Path>)
    requires k < 4
    requires a == (if 0 == k then p else []) && b == (if 1 == k then p else [])
    requires c == (if 2 == k then p else []) && d == (if 3 == k then p else [])
    ensures a + b + c + d == p
  {
    if k == 0 {
      assert a + b + c + d == p + [] + [] + [];
    } else if k == 1 {
      assert a + b + c + d == [] + p + [] + [];
    } else if k == 2 {
      assert a + b + c + d == [] + [] + p + [];
    } else {
      assert a + b + c + d == [] + [] + [] + p;
    }
  }

  lemma UnderFour(r0: seq<Entry>, r1: seq<Entry>, r2: seq<Entry>, r3: seq<Entry>, dir: Path)
    ensures Under(r0 + r1 + r2 + r3, dir) == Under(r0, dir) + Under(r1, dir) + Under(r2, dir) + Under(r3, dir)
  {
    UnderAppend(r0 + r1 + r2, r3, dir);
    UnderAppend(r0 + r1, r2, dir);
    UnderAppend(r0, r1, dir);
  }

  /** The paths of the modules that `keep` accepts, in enumeration order. */
  function Keep(ms: seq<Entry>, keep: Entry -> bool): (r: seq<Path>)
    ensures forall p :: p in r <==> exists e :: e in ms && e.path == p && keep(e)
    ensures |r| <= |ms|
  {
    if ms == [] then []
    else
      var rest := Keep(ms[1..], keep);
      assert forall e :: e in ms <==> e == ms[0] || e in ms[1..];
      if keep(ms[0]) then [ms[0].path] + rest else rest
  }

  /** The filter keeps order: it distributes over concatenation. */
  lemma {:induction false} KeepAppend(a: seq<Entry>, b: seq<Entry>, keep: Entry -> bool)
    ensures Keep(a + b, keep) == Keep(a, keep) + Keep(b, keep)
  {
    if a != [] {
      assert (a + b)[0] == a[0] && (a + b)[1..] == a[1..] + b;
      KeepAppend(a[1..], b, keep);
      if keep(a[0]) {
        assert Keep(a + b, keep) == [a[0].path] + Keep(a[1..] + b, keep);
        assert Keep(a, keep) == [a[0].path] + Keep(a[1..], keep);
      } else {
        assert Keep(a + b, keep) == Keep(a[1..] + b, keep);
        assert Keep(a, keep) == Keep(a[1..], keep);
      }
    } else {
      assert a + b == b;
    }
  }

  /** The paths of the modules carrying `tag`, in enumeration order. */
  function Tagged(ms: seq<Entry>, tag: string): (r: seq<Path>)
    ensures forall p :: p in r <==> exists e :: e in ms && e.path == p && tag in ModuleTags(e.node)
    ensures |r| <= |ms|
  {
    Keep(ms, (e: Entry) => tag in ModuleTags(e.node))
  }

  /** The tag filter keeps order: it distributes over concatenation. */
  lemma TaggedAppend(a: seq<Entry>, b: seq<Entry>, tag: string)
    ensures Tagged(a + b, tag) == Tagged(a, tag) + Tagged(b, tag)
  {
    KeepAppend(a, b, (e: Entry) => tag in ModuleTags(e.node));
  }

  /** A single module is kept exactly when it carries the tag. */
  lemma TaggedSingle(e: Entry, tag: string)
    ensures Tagged([e], tag) == if tag in ModuleTags(e.node) then [e.path] else []
  {
    assert [e][1..] == [];
  }

  /** `search_by_tag(tag)`: the modules whose tag list holds `tag` verbatim. */
  function SearchByTag(t: Tree, tag: string): (r: Result<seq<Path>, Path>)
    ensures r.Err? <==> ModulePaths(t).Err?
    ensures r.Ok? ==> forall p :: p in r.value <==>
              exists e :: e in ModulePaths(t).value && e.path == p && tag in ModuleTags(e.node)
  {
    match ModulePaths(t)
    case Err(p) => Err(p)
    case Ok(ms) => Ok(Tagged(ms, tag))
  }

  /** On a tree whose roots can be listed, the tagged modules come root by root
      in root order, and within a root in listing order. */
  lemma SearchByTagInRootOrder(t: Tree, tag: string)
    requires RootsReadable(t)
    ensures SearchByTag(t, tag) == Ok(Tagged(RootModules(t, 0), tag) + Tagged(RootModules(t, 1), tag)
                                      + Tagged(RootModules(t, 2), tag) + Tagged(RootModules(t, 3), tag))
  {
    var r0, r1, r2, r3 := RootModules(t, 0), RootModules(t, 1), RootModules(t, 2), RootModules(t, 3);
    TaggedAppend(r0 + r1 + r2, r3, tag);
    TaggedAppend(r0 + r1, r2, tag);
    TaggedAppend(r0, r1, tag);
  }

  /** `str::contains`: `needle` occurs in `hay` at some position. */
  predicate Contains(hay: string, needle: string)
    decreases |hay|
  {
    needle <= hay || (|hay| > 0 && Contains(hay[1..], needle))
  }

  /** A module name matches a search string when it is close to it (`near`,
      standing for `jaro(name, s) > precision`) or contains it. */
  predicate NameMatches(name: Name, s: string, near: (Name, string) -> bool)
  {
    near(name, s) || Contains(name, s)
  }

  /** The name matches among `ms` that are not in `exclude`, in order. */
  function NameHits(ms: seq<Entry>, s: string, near: (Name, string) -> bool, exclude: seq<Path>): (r: seq<Path>)
    ensures forall p :: p in r <==> p !in exclude && exists e :: e in ms && e.path == p && NameMatches(e.node.name, s, near)
  {
    if ms == [] then []
    else
      var rest := NameHits(ms[1..], s, near, exclude);
      assert forall e :: e in ms <==> e == ms[0] || e in ms[1..];
      if NameMatches(ms[0].node.name, s, near) && ms[0].path !in exclude then [ms[0].path] + rest else rest
  }

  /** `search_modules(s, precision)`: the tag matches first, then the name
      matches that are not tag matches. */
  function SearchModules(t: Tree, s: string, near: (Name, string) -> bool): (r: Result<seq<Path>, Path>)
    ensures r.Err? <==> ModulePaths(t).Err?
    ensures r.Ok? ==>
              var tagged := Tagged(ModulePaths(t).value, s);
              && tagged <= r.value
              && (forall p :: p in r.value[|tagged|..] ==> p !in tagged)
              && forall p :: p in r.value <==>
                   exists e :: e in ModulePaths(t).value && e.path == p
                               && (s in ModuleTags(e.node) || NameMatches(e.node.name, s, near))
  {
    match ModulePaths(t)
    case Err(p) => Err(p)
    case Ok(ms) =>
      var tagged := Tagged(ms, s);
      Ok(tagged + NameHits(ms, s, near, tagged))
  }

  /** Every module's tag list, module by module. */
  function AllTags(ms: seq<Entry>): seq<string>
  {
    if ms == [] then [] else ModuleTags(ms[0].node) + AllTags(ms[1..])
  }

  /** How often `tag` occurs, summed over the modules' tag lists. */
  function Occurrences(ms: seq<Entry>, tag: string): nat
  {
    if ms == [] then 0 else multiset(ModuleTags(ms[0].node))[tag] + Occurrences(ms[1..], tag)
  }

  lemma {:induction false} AllTagsOccurrences(ms: seq<Entry>, tag: string)
    ensures multiset(AllTags(ms))[tag] == Occurrences(ms, tag)
  {
    if ms != [] {
      AllTagsOccurrences(ms[1..], tag);
    }
  }

  /** `get_all_tags`: one entry per tag that occurs anywhere, counting its
      occurrences over all modules' tag lists. It fails only where listing the
      modules does. */
  function GetAllTags(t: Tree): (r: Result<Tally.Counts, Path>)
    ensures r.Err? <==> ModulePaths(t).Err?
    ensures r.Ok? ==> Tally.DistinctKeys(r.value)
    ensures r.Ok? ==> forall x :: Tally.Get(r.value, x) == Occurrences(ModulePaths(t).value, x)
    ensures r.Ok? ==> forall x :: x in Tally.Keys(r.value) <==> Occurrences(ModulePaths(t).value, x) > 0
  {
    match ModulePaths(t)
    case Err(p) => Err(p)
    case Ok(ms) =>
      var r := Tally.Count(AllTags(ms));
      forall x
        ensures Tally.Get(r, x) == Occurrences(ms, x)
        ensures x in Tally.Keys(r) <==> Occurrences(ms, x) > 0
      {
        AllTagsOccurrences(ms, x);
        assert x in AllTags(ms) <==> x in multiset(AllTags(ms));
      }
      Ok(r)
  }
}
