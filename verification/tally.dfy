/** Occurrence counting as the source does it with a `HashMap` and
    `entry(k).and_modify(|c| *c += 1).or_insert(1)`, used for the tag counts of
    `get_all_tags` and the extension histogram of `stats`. The map is an
    association list; the source iterates a `HashMap` in no particular order, so
    nothing below depends on the order of its entries. */
module Tally {

  type Counts = seq<(string, nat)>

  function Keys(c: Counts): seq<string>
  {
    seq(|c|, i requires 0 <= i < |c| => c[i].0)
  }

  predicate DistinctKeys(c: Counts)
  {
    forall i, j :: 0 <= i < j < |c| ==> c[i].0 != c[j].0
  }

  /** The count recorded for `x`, zero when there is no entry for it. */
  function Get(c: Counts, x: string): nat
  {
    if c == [] then 0 else if c[0].0 == x then c[0].1 else Get(c[1..], x)
  }

  lemma GetDistinct(c: Counts, i: nat)
    requires DistinctKeys(c) && i < |c|
    ensures Get(c, c[i].0) == c[i].1
  {
    if i > 0 {
      assert c[1..][i - 1] == c[i];
      GetDistinct(c[1..], i - 1);
    }
  }

  /** One `entry(k).and_modify(|c| *c += 1).or_insert(1)`: the count of `k` goes
      up by one, every other count is unchanged, and keys stay distinct. */
  function Bump(c: Counts, k: string): (r: Counts)
    requires DistinctKeys(c)
    ensures DistinctKeys(r)
    ensures forall x :: x in Keys(r) <==> x in Keys(c) || x == k
    ensures forall x :: Get(r, x) == Get(c, x) + (if x == k then 1 else 0)
  {
    if c == [] then
      assert Keys([(k, 1)]) == [k];
      [(k, 1)]
    else if c[0].0 == k then
      assert k !in Keys(c[1..]);
      assert Keys(c) == [k] + Keys(c[1..]);
      assert Keys([(k, c[0].1 + 1)] + c[1..]) == [k] + Keys(c[1..]);
      [(k, c[0].1 + 1)] + c[1..]
    else
      var rest := Bump(c[1..], k);
      assert Keys(c) == [c[0].0] + Keys(c[1..]);
      var r := [c[0]] + rest;
      assert Keys(r) == [c[0].0] + Keys(rest);
      forall i, j | 0 <= i < j < |r|
        ensures r[i].0 != r[j].0
      {
        if i == 0 {
          assert r[j].0 == Keys(rest)[j - 1];
          assert c[0].0 !in Keys(c[1..]) by {
            forall m | 0 <= m < |c[1..]|
              ensures Keys(c[1..])[m] != c[0].0
            {
              assert c[1..][m] == c[m + 1];
            }
          }
        }
      }
      r
  }

  /** The count map of a sequence of keys: one entry per distinct key, and each
      entry's count is the key's number of occurrences. */
  function Count(ks: seq<string>): (r: Counts)
    ensures DistinctKeys(r)
    ensures forall x :: x in Keys(r) <==> x in ks
    ensures forall x :: Get(r, x) == multiset(ks)[x]
  {
    if ks == [] then []
    else
      var init := ks[..|ks| - 1];
      assert ks == init + [ks[|ks| - 1]];
      Bump(Count(init), ks[|ks| - 1])
  }

  /** Each entry of the count map carries exactly the number of occurrences of
      its key, and that number is positive. */
  lemma CountEntries(ks: seq<string>, i: nat)
    requires i < |Count(ks)|
    ensures Count(ks)[i].1 == multiset(ks)[Count(ks)[i].0] > 0
  {
    GetDistinct(Count(ks), i);
    var x := Count(ks)[i].0;
    assert Keys(Count(ks))[i] == x;
    assert x in ks;
    assert x in multiset(ks);
  }

  /** Every key that occurs has an entry carrying its number of occurrences;
      with `CountEntries`, an entry is in the count map exactly when it pairs
      an occurring key with its number of occurrences. */
  lemma CountHas(ks: seq<string>, x: string)
    requires x in ks
    ensures (x, multiset(ks)[x]) in Count(ks)
  {
    var c := Count(ks);
    var i :| 0 <= i < |Keys(c)| && Keys(c)[i] == x;
    GetDistinct(c, i);
  }

  /** An entry is in the count map exactly when it pairs an occurring key
      with its number of occurrences. */
  lemma CountRows(ks: seq<string>, row: (string, nat))
    ensures row in Count(ks) <==> row.0 in ks && row.1 == multiset(ks)[row.0]
  {
    var counts := Count(ks);
    if row in counts {
      var i :| 0 <= i < |counts| && counts[i] == row;
      CountEntries(ks, i);
      assert row.0 in multiset(ks);
    }
    if row.0 in ks && row.1 == multiset(ks)[row.0] {
      CountHas(ks, row.0);
    }
  }

  /** The entries whose count is at least `min`, in their original order
      (`filter(|(_, c)| c >= &min_count)`). */
  function AtLeast(c: Counts, min: nat): (r: Counts)
    ensures forall e :: e in r <==> e in c && e.1 >= min
    ensures multiset(r) <= multiset(c)
  {
    if c == [] then []
    else
      var rest := AtLeast(c[1..], min);
      assert c == [c[0]] + c[1..];
      if c[0].1 >= min then [c[0]] + rest else rest
  }

  /** With distinct keys, no entry occurs twice. */
  lemma {:induction false} DistinctKeysOnce(c: Counts, x: (string, nat))
    requires DistinctKeys(c)
    ensures multiset(c)[x] <= 1
  {
    if c != [] {
      var tail := c[1..];
      assert c == [c[0]] + tail;
      assert forall k :: 0 <= k < |tail| ==> tail[k] == c[k + 1];
      DistinctKeysOnce(tail, x);
      if x == c[0] {
        assert x !in tail;
      }
    }
  }

  /** An entry at two positions occurs at least twice. */
  lemma TwiceCounted(r: Counts, i: nat, j: nat)
    requires i < j < |r| && r[i] == r[j]
    ensures multiset(r)[r[i]] >= 2
  {
    assert r == r[..j] + r[j..];
    assert r[..j][i] == r[i] && r[j..][0] == r[i];
    assert r[i] in multiset(r[..j]) && r[i] in multiset(r[j..]);
  }

  /** Entries drawn from a map with distinct keys, none more often than there,
      have distinct keys too. */
  lemma DistinctKeysOfFewer(c: Counts, r: Counts)
    requires DistinctKeys(c) && multiset(r) <= multiset(c)
    ensures DistinctKeys(r)
  {
    forall i, j | 0 <= i < j < |r|
      ensures r[i].0 != r[j].0
    {
      assert r[i] in multiset(r) && r[j] in multiset(r);
      if r[i] != r[j] {
        var a :| 0 <= a < |c| && c[a] == r[i];
        var b :| 0 <= b < |c| && c[b] == r[j];
        assert a != b;
      } else {
        TwiceCounted(r, i, j);
        DistinctKeysOnce(c, r[i]);
        assert false;
      }
    }
  }

  predicate Descending(c: Counts)
  {
    forall i, j :: 0 <= i < j < |c| ==> c[i].1 >= c[j].1
  }

  /** Inserts an entry into a descending list before the first smaller count. */
  function Insert(e: (string, nat), c: Counts): (r: Counts)
    requires Descending(c)
    ensures Descending(r)
    ensures multiset(r) == multiset(c) + multiset{e}
  {
    if c == [] || c[0].1 <= e.1 then [e] + c
    else
      var rest := Insert(e, c[1..]);
      InsertBehindHead(e, c, rest);
      [c[0]] + rest
  }

  /** Keeping the head of a descending list in front of the insertion into its
      tail keeps the list descending and holds the same entries plus `e`. */
  lemma InsertBehindHead(e: (string, nat), c: Counts, rest: Counts)
    requires Descending(c) && c != [] && e.1 < c[0].1
    requires Descending(rest) && multiset(rest) == multiset(c[1..]) + multiset{e}
    ensures Descending([c[0]] + rest)
    ensures multiset([c[0]] + rest) == multiset(c) + multiset{e}
  {
    assert c == [c[0]] + c[1..];
    forall x | x in rest
      ensures x.1 <= c[0].1
    {
      assert x in multiset(rest);
      if x != e {
        assert x in multiset(c[1..]);
        var j :| 0 <= j < |c[1..]| && c[1..][j] == x;
        assert c[j + 1] == x;
      }
    }
    var r := [c[0]] + rest;
    forall i, j | 0 <= i < j < |r|
      ensures r[i].1 >= r[j].1
    {
      assert r[j] == rest[j - 1];
      if i > 0 {
        assert r[i] == rest[i - 1];
      }
    }
  }

  /** `sort_by(|a, b| b.1.partial_cmp(&a.1))`: the same entries, by descending
      count. */
  function SortDescending(c: Counts): (r: Counts)
    ensures Descending(r)
    ensures multiset(r) == multiset(c)
  {
    if c == [] then []
    else
      assert c == [c[0]] + c[1..];
      Insert(c[0], SortDescending(c[1..]))
  }

  /** Sorting keeps exactly the entries it was given. */
  lemma SortedRows(c: Counts, row: (string, nat))
    ensures row in SortDescending(c) <==> row in c
  {
    assert row in SortDescending(c) <==> row in multiset(SortDescending(c));
    assert row in c <==> row in multiset(c);
  }
}
