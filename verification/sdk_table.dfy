/** The `Dictionary<Version, string>` of SDK directories built at
    Signing/Commands/SignCommand.cs:203-211 and its descending ordering at line 213.
    The dictionary is an association list in insertion order; keys are unique. */
module SdkTable {
  import opened Versions

  datatype Entry = Entry(version: Version, dir: string)

  predicate DistinctKeys(t: seq<Entry>) {
    forall i, j :: 0 <= i < j < |t| ==> t[i].version != t[j].version
  }

  /** The indexer assignment `table[v] = dir`: replaces the value of an
      existing key in place, or appends a new entry. */
  function Put(t: seq<Entry>, v: Version, dir: string): (r: seq<Entry>)
    requires DistinctKeys(t)
    ensures DistinctKeys(r)
    ensures forall e :: e in r <==> (e in t && e.version != v) || e == Entry(v, dir)
    decreases |t|
  {
    if |t| == 0 then [Entry(v, dir)]
    else if t[0].version == v then
      assert forall e :: e in t[1..] ==> e.version != v;
      [Entry(v, dir)] + t[1..]
    else
      var rest := Put(t[1..], v, dir);
      assert forall e :: e in rest ==> e.version != t[0].version;
      [t[0]] + rest
  }

  /** Strictly descending by version: the order `OrderByDescending(x => x.Key)`
      produces over distinct keys. */
  predicate Descending(s: seq<Entry>) {
    forall i, j :: 0 <= i < j < |s| ==> Less(s[j].version, s[i].version)
  }

  function InsertDescending(e: Entry, s: seq<Entry>): (r: seq<Entry>)
    requires Descending(s)
    requires forall x :: x in s ==> x.version != e.version
    ensures multiset(r) == multiset(s) + multiset{e}
    ensures Descending(r)
    decreases |s|
  {
    if |s| == 0 then [e]
    else if Less(s[0].version, e.version) then
      DescendingHeadAbove(e, s);
      [e] + s
    else
      LessTotal(s[0].version, e.version);
      var rest := InsertDescending(e, s[1..]);
      assert s == [s[0]] + s[1..];
      HeadAboveInsert(s[0], e, s[1..], rest);
      [s[0]] + rest
  }

  lemma DescendingHeadAbove(e: Entry, s: seq<Entry>)
    requires |s| > 0 && Descending(s) && Less(s[0].version, e.version)
    ensures Descending([e] + s)
  {
    forall j | 0 < j < |s| ensures Less(s[j].version, e.version) {
      LessTransitive(s[j].version, s[0].version, e.version);
    }
  }

  lemma HeadAboveInsert(h: Entry, e: Entry, tail: seq<Entry>, rest: seq<Entry>)
    requires Descending([h] + tail) && Descending(rest)
    requires Less(e.version, h.version)
    requires multiset(rest) == multiset(tail) + multiset{e}
    ensures Descending([h] + rest)
  {
    var ht := [h] + tail;
    forall j | 0 <= j < |rest| ensures Less(rest[j].version, h.version) {
      var x := rest[j];
      assert x in multiset(rest);
      if x != e {
        assert x in multiset(tail);
        var k :| 0 <= k < |tail| && tail[k] == x;
        assert ht[k + 1] == x && ht[0] == h;
        assert Less(ht[k + 1].version, ht[0].version);
      }
    }
  }

  /** The tail of a table with distinct keys has distinct keys, and none of
      the keys of any permutation of it is the head's. */
  lemma TailKeys(t: seq<Entry>, rest: seq<Entry>)
    requires |t| > 0 && DistinctKeys(t)
    requires multiset(rest) == multiset(t[1..])
    ensures DistinctKeys(t[1..])
    ensures forall x :: x in rest ==> x.version != t[0].version
  {
    forall x | x in rest ensures x.version != t[0].version {
      assert x in multiset(t[1..]);
      var k :| 0 <= k < |t[1..]| && t[1..][k] == x;
      assert t[k + 1] == x;
    }
  }

  /** `OrderByDescending(x => x.Key)` over a dictionary: the same entries,
      highest version first. */
  function SortDescending(t: seq<Entry>): (r: seq<Entry>)
    requires DistinctKeys(t)
    ensures multiset(r) == multiset(t)
    ensures Descending(r)
    decreases |t|
  {
    if |t| == 0 then []
    else
      TailKeys(t, t[1..]);
      var rest := SortDescending(t[1..]);
      TailKeys(t, rest);
      assert t == [t[0]] + t[1..];
      InsertDescending(t[0], rest)
  }
}
