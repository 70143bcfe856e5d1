/** `stats` of src/audit.rs: the number of entries under home, and a histogram
    of file extensions with the rare ones dropped, most frequent first. */
module Stats {
  import opened Wrappers
  import opened Fs
  import opened Taxonomy
  import Tally

  /** The histogram key of a file without an extension. */
  const NoExtension: string := "none"

  /** The position of the last period of a name, if any. */
  function LastDot(name: Name): (r: Option<nat>)
    ensures r.None? <==> '.' !in name
    ensures r.Some? ==> r.value < |name| && name[r.value] == '.' && '.' !in name[r.value + 1..]
  {
    if name == [] then None
    else if name[|name| - 1] == '.' then Some(|name| - 1)
    else
      var r := LastDot(name[..|name| - 1]);
      assert name == name[..|name| - 1] + [name[|name| - 1]];
      if r.Some? then
        assert name[r.value + 1..] == name[..|name| - 1][r.value + 1..] + [name[|name| - 1]];
        r
      else r
  }

  /** `Path::extension` of a file name: what follows the last period, unless
      there is no period, the only periods lead the name (a dot file), or the
      name is `..`. */
  function Extension(name: Name): (r: Option<string>)
    ensures r.Some? <==> name != ".." && exists i :: 0 < i < |name| && name[i] == '.'
    ensures r.Some? ==> '.' !in r.value && exists i :: 0 < i < |name| && name[i] == '.' && name[i + 1..] == r.value
  {
    if name == ".." then None
    else
      match LastDot(name)
      case None => None
      case Some(i) =>
        if i == 0 then
          assert forall j :: 0 < j < |name| ==> name[j] != '.' by {
            forall j | 0 < j < |name|
              ensures name[j] != '.'
            {
              assert name[j] == name[1..][j - 1];
            }
          }
          None
        else Some(name[i + 1..])
  }

  /** A stem that is not empty, a period, and an extension without periods
      give back that extension, except `..` itself. */
  lemma ExtensionOfJoin(stem: Name, ext: string)
    requires stem != [] && '.' !in ext && stem + "." + ext != ".."
    ensures Extension(stem + "." + ext) == Some(ext)
  {
    var name := stem + "." + ext;
    assert name[|stem|] == '.';
    assert name[|stem| + 1..] == ext;
  }

  /** Worked cases: the last extension of a double one, and a dot file. */
  lemma ExtensionExamples()
    ensures Extension("archive.tar.gz") == Some("gz")
    ensures Extension(".bashrc") == None
  {
    ExtensionOfJoin("archive.tar", "gz");
    assert "archive.tar" + "." + "gz" == "archive.tar.gz";
    assert forall j :: 0 < j < |".bashrc"| ==> ".bashrc"[j] != '.';
  }

  /** The histogram key of a file name. */
  function ExtensionKey(name: Name): string
  {
    match Extension(name)
    case Some(e) => e
    case None => NoExtension
  }

  /** `path.is_file()`, following symbolic links. */
  predicate IsFile(n: Node)
  {
    Resolve(n).Some? && Resolve(n).value.File?
  }

  /** The keys `key` gives the entries, in order; entries without a key are
      skipped. */
  function Collect(es: seq<Entry>, key: Entry -> Option<string>): (r: seq<string>)
    ensures |r| <= |es|
    ensures forall x :: x in r <==> exists e :: e in es && key(e) == Some(x)
  {
    if es == [] then []
    else
      var init := es[..|es| - 1];
      var last := es[|es| - 1];
      assert forall e :: e in es <==> e in init || e == last by {
        assert es == init + [last];
      }
      var rest := Collect(init, key);
      match key(last)
      case Some(k) => rest + [k]
      case None => rest
  }

  /** The positions of the entries whose key is `x`. */
  function Hits(es: seq<Entry>, key: Entry -> Option<string>, x: string): set<nat>
  {
    set i: nat | i < |es| && key(es[i]) == Some(x)
  }

  /** Each key is collected once per entry that has it. */
  lemma {:induction false} CollectCount(es: seq<Entry>, key: Entry -> Option<string>, x: string)
    ensures multiset(Collect(es, key))[x] == |Hits(es, key, x)|
  {
    if es != [] {
      CollectCount(es[..|es| - 1], key, x);
      CollectStep(es, key, x);
      HitsStep(es, key, x);
    }
  }

  /** Collecting one more entry adds one occurrence of its key. */
  lemma CollectStep(es: seq<Entry>, key: Entry -> Option<string>, x: string)
    requires es != []
    ensures multiset(Collect(es, key))[x]
            == multiset(Collect(es[..|es| - 1], key))[x] + if key(es[|es| - 1]) == Some(x) then 1 else 0
  {
    var rest := Collect(es[..|es| - 1], key);
    match key(es[|es| - 1])
    case Some(k) =>
      assert Collect(es, key) == rest + [k];
      assert multiset(rest + [k]) == multiset(rest) + multiset{k};
    case None =>
  }

  /** One more entry adds its own position when its key is `x`. */
  lemma HitsStep(es: seq<Entry>, key: Entry -> Option<string>, x: string)
    requires es != []
    ensures |Hits(es, key, x)| == |Hits(es[..|es| - 1], key, x)| + if key(es[|es| - 1]) == Some(x) then 1 else 0
  {
    var n := |es|;
    var init := es[..n - 1];
    var before := Hits(init, key, x);
    assert forall i :: 0 <= i < n - 1 ==> init[i] == es[i];
    assert n - 1 !in before;
    if key(es[n - 1]) == Some(x) {
      assert Hits(es, key, x) == before + {n - 1};
    } else {
      assert Hits(es, key, x) == before;
    }
  }

  /** The histogram key of a visited entry that is (or links to) a file. */
  function FileKey(e: Entry): Option<string>
  {
    if IsFile(e.node) then Some(ExtensionKey(e.node.name)) else None
  }

  /** The histogram keys of the files among the visited entries, in visiting
      order. */
  function FileKeys(es: seq<Entry>): (r: seq<string>)
    ensures |r| <= |es|
    ensures forall x :: x in r <==> exists e :: e in es && IsFile(e.node) && ExtensionKey(e.node.name) == x
  {
    Collect(es, FileKey)
  }

  /** The positions of the visited files whose histogram key is `x`. */
  function KeyedFiles(es: seq<Entry>, x: string): set<nat>
  {
    set i: nat | i < |es| && IsFile(es[i].node) && ExtensionKey(es[i].node.name) == x
  }

  /** Each key is collected once per visited file that has it. */
  lemma FileKeysCount(es: seq<Entry>, x: string)
    ensures multiset(FileKeys(es))[x] == |KeyedFiles(es, x)|
  {
    CollectCount(es, FileKey, x);
    assert Hits(es, FileKey, x) == KeyedFiles(es, x);
  }

  /** What `stats` prints: the number of entries, then the histogram rows. */
  datatype Summary = Summary(total: nat, rows: Tally.Counts)

  /** `stats(min_count)`: every entry under home (home included) counts towards
      the total; there is one row per extension, counting the visited files
      with that extension; rows below `min` are dropped, and the rest are
      ordered by descending count. */
  function Stats(t: Tree, min: nat): (r: Summary)
    ensures r.total == |Walk(HomePath(t), t.home)| && r.total > 0
    ensures Tally.Descending(r.rows)
    ensures Tally.DistinctKeys(r.rows)
    ensures forall row :: row in r.rows <==>
              var n := |KeyedFiles(Walk(HomePath(t), t.home), row.0)|;
              n > 0 && row.1 == n && row.1 >= min
  {
    var walk := Walk(HomePath(t), t.home);
    var keys := FileKeys(walk);
    var counts := Tally.Count(keys);
    var kept := Tally.AtLeast(counts, min);
    var rows := Tally.SortDescending(kept);
    Tally.DistinctKeysOfFewer(counts, rows);
    forall row
      ensures row in rows <==> var n := |KeyedFiles(walk, row.0)|; n > 0 && row.1 == n && row.1 >= min
    {
      Tally.SortedRows(kept, row);
      Tally.CountRows(keys, row);
      FileKeysCount(walk, row.0);
    }
    Summary(|walk|, rows)
  }
}
