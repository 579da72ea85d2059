/**
 * Title-to-link records and the insertion-ordered Python dict that holds them.
 * A dict is a sequence of papers with distinct titles, in insertion order;
 * `Put` is the assignment `d[title] = link`, which overwrites an existing
 * title in place and appends a new one at the end.
 */
module Papers {

  /** One extracted record: the identity key is the exact title string. */
  datatype Paper = Paper(title: string, link: string)

  function Titles(d: seq<Paper>): (ts: seq<string>)
    ensures |ts| == |d| && forall i :: 0 <= i < |d| ==> ts[i] == d[i].title
  {
    if d == [] then [] else [d[0].title] + Titles(d[1..])
  }

  /** The dict invariant: no title appears twice. */
  predicate DistinctTitles(d: seq<Paper>) {
    forall i, j :: 0 <= i < j < |d| ==> d[i].title != d[j].title
  }

  /** The mapping a sequence of pairs denotes when assigned in order: later pairs win. */
  function ToMap(d: seq<Paper>): (m: map<string, string>)
    ensures forall t :: t in m <==> t in Titles(d)
  {
    if d == [] then map[]
    else
      map[d[0].title := d[0].link] + ToMap(d[1..])
  }

  /** The value stored for a title is the link of the LAST pair carrying that title. */
  lemma {:induction false} ToMapLastWins(d: seq<Paper>, k: nat)
    requires k < |d|
    requires forall j :: k < j < |d| ==> d[j].title != d[k].title
    ensures d[k].title in ToMap(d) && ToMap(d)[d[k].title] == d[k].link
  {
    if k == 0 {
      assert d[0].title !in Titles(d[1..]);
    } else {
      ToMapLastWins(d[1..], k - 1);
    }
  }

  /** In a dict, each entry is what the mapping returns for its title. */
  lemma DictLookup(d: seq<Paper>, k: nat)
    requires DistinctTitles(d) && k < |d|
    ensures d[k].title in ToMap(d) && ToMap(d)[d[k].title] == d[k].link
  {
    ToMapLastWins(d, k);
  }

  /** In a dict, a title maps to a link only through an entry holding both. */
  lemma DictEntry(d: seq<Paper>, t: string)
    requires DistinctTitles(d) && t in ToMap(d)
    ensures Paper(t, ToMap(d)[t]) in d
  {
    var k :| 0 <= k < |d| && Titles(d)[k] == t;
    DictLookup(d, k);
  }

  /** `d[p.title] = p.link` on an insertion-ordered dict: an existing title keeps its
      place, a new one goes to the end. */
  function Put(d: seq<Paper>, p: Paper): (r: seq<Paper>)
    ensures forall t :: t in Titles(r) <==> t in Titles(d) || t == p.title
    ensures p.title in Titles(d) ==> Titles(r) == Titles(d)
    ensures p.title !in Titles(d) ==> r == d + [p]
  {
    if d == [] then [p]
    else if d[0].title == p.title then
      TitlesCons(p, d[1..]);
      TitlesCons(d[0], d[1..]);
      assert d == [d[0]] + d[1..];
      [p] + d[1..]
    else
      var rest := Put(d[1..], p);
      TitlesCons(d[0], rest);
      TitlesCons(d[0], d[1..]);
      assert d == [d[0]] + d[1..];
      assert [d[0]] + (d[1..] + [p]) == d + [p];
      [d[0]] + rest
  }

  lemma TitlesCons(a: Paper, s: seq<Paper>)
    ensures Titles([a] + s) == [a.title] + Titles(s)
  {
    assert ([a] + s)[1..] == s;
  }

  lemma DistinctCons(a: Paper, s: seq<Paper>)
    ensures DistinctTitles([a] + s) <==> a.title !in Titles(s) && DistinctTitles(s)
  {
    var r := [a] + s;
    assert r[1..] == s;
    if a.title !in Titles(s) && DistinctTitles(s) {
      forall i, j | 0 <= i < j < |r| ensures r[i].title != r[j].title {
        if i == 0 {
          assert r[j].title == Titles(s)[j - 1];
        } else {
          assert r[i] == s[i - 1] && r[j] == s[j - 1];
        }
      }
    }
    if DistinctTitles(r) {
      forall k | 0 <= k < |s| ensures s[k].title != a.title {
        assert r[0] == a && r[k + 1] == s[k];
      }
      forall i, j | 0 <= i < j < |s| ensures s[i].title != s[j].title {
        assert r[i + 1] == s[i] && r[j + 1] == s[j];
      }
    }
  }

  lemma UpdateAfterUnion(a: string, x: string, m: map<string, string>, t: string, l: string)
    requires a != t
    ensures map[a := x] + m[t := l] == (map[a := x] + m)[t := l]
  {
  }

  lemma OverwriteFront(t: string, l0: string, l: string, m: map<string, string>)
    requires t !in m
    ensures map[t := l] + m == (map[t := l0] + m)[t := l]
  {
  }

  /** `Put` keeps titles distinct. */
  lemma {:induction false} PutDistinct(d: seq<Paper>, p: Paper)
    requires DistinctTitles(d)
    ensures DistinctTitles(Put(d, p))
  {
    if d != [] {
      var r := Put(d, p);
      var tail := d[1..];
      assert d == [d[0]] + tail;
      DistinctCons(d[0], tail);
      if d[0].title == p.title {
        assert r == [p] + tail;
        DistinctCons(p, tail);
      } else {
        PutDistinct(tail, p);
        assert r == [d[0]] + Put(tail, p);
        DistinctCons(d[0], Put(tail, p));
      }
    }
  }

  /** On a dict, `Put` changes the mapping at exactly the one title. */
  lemma {:induction false} PutUpdates(d: seq<Paper>, p: Paper)
    requires DistinctTitles(d)
    ensures ToMap(Put(d, p)) == ToMap(d)[p.title := p.link]
  {
    if d != [] {
      var r := Put(d, p);
      var tail := d[1..];
      assert d == [d[0]] + tail;
      DistinctCons(d[0], tail);
      assert d[0].title !in ToMap(tail);
      if d[0].title == p.title {
        assert r == [p] + tail;
        assert ToMap(r) == map[p.title := p.link] + ToMap(tail);
        assert ToMap(d) == map[p.title := d[0].link] + ToMap(tail);
        OverwriteFront(p.title, d[0].link, p.link, ToMap(tail));
      } else {
        PutUpdates(tail, p);
        assert r == [d[0]] + Put(tail, p);
        assert ToMap(r) == map[d[0].title := d[0].link] + ToMap(Put(tail, p));
        assert ToMap(d) == map[d[0].title := d[0].link] + ToMap(tail);
        UpdateAfterUnion(d[0].title, d[0].link, ToMap(tail), p.title, p.link);
      }
    }
  }

  /** Putting a pair that is already an entry of a dict changes nothing. */
  lemma {:induction false} PutPresent(d: seq<Paper>, p: Paper)
    requires DistinctTitles(d) && p in d
    ensures Put(d, p) == d
  {
    var tail := d[1..];
    assert d == [d[0]] + tail;
    DistinctCons(d[0], tail);
    if d[0].title != p.title {
      PutPresent(tail, p);
    }
  }

  /** The merge loop: `for k, v in records.items(): d[k] = v`. */
  function PutAll(d: seq<Paper>, ps: seq<Paper>): seq<Paper>
    decreases |ps|
  {
    if ps == [] then d else PutAll(Put(d, ps[0]), ps[1..])
  }

  /** The dict built by assigning the pairs in order to an empty dict. */
  function FromPairs(ps: seq<Paper>): seq<Paper>
  {
    PutAll([], ps)
  }

  /** Assigning one more pair at the end of the loop is one more `Put`. */
  lemma {:induction false} PutAllSnoc(d: seq<Paper>, ps: seq<Paper>, p: Paper)
    ensures PutAll(d, ps + [p]) == Put(PutAll(d, ps), p)
    decreases |ps|
  {
    if ps == [] {
      assert PutAll(d, [p]) == PutAll(Put(d, p), []);
    } else {
      assert (ps + [p])[0] == ps[0] && (ps + [p])[1..] == ps[1..] + [p];
      PutAllSnoc(Put(d, ps[0]), ps[1..], p);
    }
  }

  lemma UpdateThenUnion(m: map<string, string>, t: string, l: string, n: map<string, string>)
    ensures m[t := l] + n == m + (map[t := l] + n)
  {
  }

  /** Merging keeps the dict invariant; every merged pair is present afterwards and
      titles that were not merged keep their link: the new mapping is the old one
      overridden by the records. */
  lemma {:induction false} MergeContents(d: seq<Paper>, ps: seq<Paper>)
    requires DistinctTitles(d)
    ensures DistinctTitles(PutAll(d, ps))
    ensures ToMap(PutAll(d, ps)) == ToMap(d) + ToMap(ps)
    decreases |ps|
  {
    if ps != [] {
      var p := ps[0];
      PutDistinct(d, p);
      PutUpdates(d, p);
      MergeContents(Put(d, p), ps[1..]);
      assert ToMap(ps) == map[p.title := p.link] + ToMap(ps[1..]);
      UpdateThenUnion(ToMap(d), p.title, p.link, ToMap(ps[1..]));
    }
  }

  /** Merging never reorders existing titles: they stay in front, in their old order. */
  lemma {:induction false} MergeKeepsOrder(d: seq<Paper>, ps: seq<Paper>)
    ensures |d| <= |PutAll(d, ps)|
    ensures Titles(PutAll(d, ps))[..|d|] == Titles(d)
    decreases |ps|
  {
    if ps != [] {
      var d1 := Put(d, ps[0]);
      MergeKeepsOrder(d1, ps[1..]);
      assert Titles(d1)[..|d|] == Titles(d);
    }
  }

  /** The dict built from pairs holds, for each title, the link of its last pair. */
  lemma FromPairsLastWins(ps: seq<Paper>, k: nat)
    requires k < |ps|
    requires forall j :: k < j < |ps| ==> ps[j].title != ps[k].title
    ensures DistinctTitles(FromPairs(ps))
    ensures ps[k].title in ToMap(FromPairs(ps)) && ToMap(FromPairs(ps))[ps[k].title] == ps[k].link
  {
    MergeContents([], ps);
    ToMapLastWins(ps, k);
  }

  /** The dict built from pairs holds only pairs it was given, each title once. */
  lemma FromPairsEntries(ps: seq<Paper>)
    ensures DistinctTitles(FromPairs(ps))
    ensures forall p :: p in FromPairs(ps) ==> p in ps
  {
    MergeContents([], ps);
    PutAllFrom([], ps);
  }

  /** The keys of the dict built from pairs are exactly the titles among the pairs. */
  lemma FromPairsKeys(ps: seq<Paper>)
    ensures DistinctTitles(FromPairs(ps))
    ensures forall t :: t in ToMap(FromPairs(ps)) <==> t in Titles(ps)
  {
    MergeContents([], ps);
    forall t ensures t in ToMap(FromPairs(ps)) <==> t in Titles(ps) {
      assert t in ToMap(FromPairs(ps)) <==> t in ToMap([]) + ToMap(ps);
    }
  }

  lemma {:induction false} PutFrom(d: seq<Paper>, p: Paper)
    ensures forall q :: q in Put(d, p) ==> q in d || q == p
    decreases |d|
  {
    if d != [] && d[0].title != p.title {
      PutFrom(d[1..], p);
      assert Put(d, p) == [d[0]] + Put(d[1..], p);
    }
  }

  lemma {:induction false} PutAllFrom(d: seq<Paper>, ps: seq<Paper>)
    ensures forall q :: q in PutAll(d, ps) ==> q in d || q in ps
    decreases |ps|
  {
    if ps != [] {
      PutFrom(d, ps[0]);
      PutAllFrom(Put(d, ps[0]), ps[1..]);
    }
  }

  /** check_email.py:117-118: `ret[title] = link` for each pair in order, into a fresh dict. */
  method AssignPairs(ps: seq<Paper>) returns (ret: seq<Paper>)
    ensures ret == FromPairs(ps)
  {
    ret := [];
    assert ps[0..] == ps;
    for i := 0 to |ps|
      invariant PutAll(ret, ps[i..]) == FromPairs(ps)
    {
      assert ps[i..][0] == ps[i] && ps[i..][1..] == ps[i + 1..];
      ret := Put(ret, ps[i]);
    }
    assert ps[|ps|..] == [];
  }

  /** Assigning pairs whose titles are all new appends them in order. */
  lemma {:induction false} PutAllDistinct(a: seq<Paper>, b: seq<Paper>)
    requires DistinctTitles(a + b)
    ensures PutAll(a, b) == a + b
    decreases |b|
  {
    if b != [] {
      var ab := a + b;
      assert b[0].title !in Titles(a) by {
        forall i | 0 <= i < |a| ensures Titles(a)[i] != b[0].title {
          assert ab[i] == a[i] && ab[|a|] == b[0];
        }
      }
      var a1 := a + [b[0]];
      assert a1 + b[1..] == ab;
      PutAllDistinct(a1, b[1..]);
    }
  }

  /** Number of duplicates the merge loop counts: one per record whose title is
      already in the dict at the moment it is assigned. */
  function Doubles(d: seq<Paper>, ps: seq<Paper>): nat
    decreases |ps|
  {
    if ps == [] then 0
    else (if ps[0].title in Titles(d) then 1 else 0) + Doubles(Put(d, ps[0]), ps[1..])
  }

  /** Number of records whose title is in `d`. */
  function CountKnown(ps: seq<Paper>, d: seq<Paper>): (n: nat)
    ensures n <= |ps|
  {
    if ps == [] then 0
    else (if ps[0].title in Titles(d) then 1 else 0) + CountKnown(ps[1..], d)
  }

  lemma {:induction false} CountKnownSame(ps: seq<Paper>, d1: seq<Paper>, d2: seq<Paper>)
    requires forall i :: 0 <= i < |ps| ==> (ps[i].title in Titles(d1) <==> ps[i].title in Titles(d2))
    ensures CountKnown(ps, d1) == CountKnown(ps, d2)
  {
    if ps != [] {
      CountKnownSame(ps[1..], d1, d2);
    }
  }

  /** For records with distinct titles (a dict), the duplicate counter grows by exactly
      the number of records whose title was in the store BEFORE the merge. */
  lemma {:induction false} DoublesCountKnownTitles(d: seq<Paper>, ps: seq<Paper>)
    requires DistinctTitles(ps)
    ensures Doubles(d, ps) == CountKnown(ps, d)
    decreases |ps|
  {
    if ps != [] {
      var rest := ps[1..];
      DoublesCountKnownTitles(Put(d, ps[0]), rest);
      forall i | 0 <= i < |rest|
        ensures rest[i].title in Titles(Put(d, ps[0])) <==> rest[i].title in Titles(d)
      {
        assert rest[i] == ps[i + 1];
      }
      CountKnownSame(rest, Put(d, ps[0]), d);
    }
  }

  /** Merging records that are all entries already changes nothing and counts each one. */
  lemma {:induction false} MergePresent(d: seq<Paper>, ps: seq<Paper>)
    requires DistinctTitles(d)
    requires forall i :: 0 <= i < |ps| ==> ps[i] in d
    ensures PutAll(d, ps) == d
    ensures Doubles(d, ps) == |ps|
    decreases |ps|
  {
    if ps != [] {
      PutPresent(d, ps[0]);
      assert ps[0].title in Titles(d);
      MergePresent(d, ps[1..]);
    }
  }

  /** Merging the same records twice: the second merge leaves the dict unchanged
      and counts every record as a duplicate. */
  lemma MergeTwice(d: seq<Paper>, ps: seq<Paper>)
    requires DistinctTitles(d) && DistinctTitles(ps)
    ensures PutAll(PutAll(d, ps), ps) == PutAll(d, ps)
    ensures Doubles(PutAll(d, ps), ps) == |ps|
  {
    var merged := PutAll(d, ps);
    MergeContents(d, ps);
    forall i | 0 <= i < |ps| ensures ps[i] in merged {
      DictLookup(ps, i);
      DictEntry(merged, ps[i].title);
    }
    MergePresent(merged, ps);
  }
}
