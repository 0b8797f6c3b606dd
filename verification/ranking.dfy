/**
 The final ranking: the score table's entries in enumeration order, sorted
 by descending score with a stable sort (equal scores keep their order),
 each name then written as the line `"<rank>. <name>"` with 1-based ranks.
 */
module Ranking {
  import opened Wrappers
  import opened Items
  import opened Scores

  /** One `[name, score]` pair of the table's entry list. */
  datatype Entry = Entry(name: string, score: int)

  /**
   `Object.entries(scores)`: one entry per key of the table, in key insertion
   order, each carrying that key's score, and no key twice.
   */
  function Entries(t: ScoreTable): (es: seq<Entry>)
    requires Wf(t)
    ensures |es| == |t.order|
    ensures forall k :: 0 <= k < |es| ==> es[k].name == t.order[k]
    ensures forall k :: 0 <= k < |es| ==> es[k].name in t.value && es[k].score == t.value[es[k].name]
    ensures forall x :: x in t.value <==> exists k :: 0 <= k < |es| && es[k].name == x
    ensures forall a, b :: 0 <= a < b < |es| ==> es[a].name != es[b].name
  {
    var es := seq(|t.order|, k requires 0 <= k < |t.order| => Entry(t.order[k], t.value[t.order[k]]));
    assert forall x :: x in t.value ==> exists k :: 0 <= k < |es| && es[k].name == x by {
      forall x | x in t.value
        ensures exists k :: 0 <= k < |es| && es[k].name == x
      {
        var j :| 0 <= j < |t.order| && t.order[j] == x;
        assert es[j].name == x;
      }
    }
    es
  }

  /** Scores never increase along the list. */
  predicate SortedDesc(es: seq<Entry>)
  {
    forall a, b :: 0 <= a < b < |es| ==> es[a].score >= es[b].score
  }

  /** The entries with score `v`, in their order in `es`. */
  function WithScore(es: seq<Entry>, v: int): seq<Entry>
    decreases |es|
  {
    if es == [] then []
    else (if es[0].score == v then [es[0]] else []) + WithScore(es[1..], v)
  }

  /** Place `x` after every entry of the sorted list `ys` whose score is at least its own. */
  function Insert(x: Entry, ys: seq<Entry>): seq<Entry>
    decreases |ys|
  {
    if ys == [] then [x]
    else if ys[0].score >= x.score then [ys[0]] + Insert(x, ys[1..])
    else [x] + ys
  }

  /**
   Stable sort by descending score, as `sort((a, b) => b[1] - a[1])` does:
   the result is sorted, is a permutation of the input, and the entries
   sharing a score appear in the same relative order as in the input.
   */
  function SortDesc(es: seq<Entry>): (r: seq<Entry>)
    ensures SortedDesc(r)
    ensures multiset(r) == multiset(es)
    ensures forall v :: WithScore(r, v) == WithScore(es, v)
    decreases |es|
  {
    if es == [] then []
    else
      var init, last := es[..|es| - 1], es[|es| - 1];
      assert es == init + [last];
      InsertSorted(last, SortDesc(init));
      InsertStable(last, SortDesc(init));
      forall v
        ensures WithScore(Insert(last, SortDesc(init)), v) == WithScore(es, v)
      {
        WithScoreAppend(init, [last], v);
      }
      Insert(last, SortDesc(init))
  }

  lemma {:induction false} WithScoreAppend(a: seq<Entry>, b: seq<Entry>, v: int)
    ensures WithScore(a + b, v) == WithScore(a, v) + WithScore(b, v)
    decreases |a|
  {
    if a == [] {
      assert a + b == b;
    } else {
      var head := if a[0].score == v then [a[0]] else [];
      calc {
        WithScore(a + b, v);
      == { assert (a + b)[0] == a[0] && (a + b)[1..] == a[1..] + b; }
        head + WithScore(a[1..] + b, v);
      == { WithScoreAppend(a[1..], b, v); }
        head + (WithScore(a[1..], v) + WithScore(b, v));
      }
    }
  }

  /** No entry of `es` has score `v`. */
  lemma {:induction false} WithScoreNone(es: seq<Entry>, v: int)
    requires forall k :: 0 <= k < |es| ==> es[k].score != v
    ensures WithScore(es, v) == []
    decreases |es|
  {
    if es != [] {
      WithScoreNone(es[1..], v);
    }
  }

  /** A non-empty filter comes from an entry with that score. */
  lemma {:induction false} WithScoreSome(es: seq<Entry>, v: int)
    requires WithScore(es, v) != []
    ensures exists k :: 0 <= k < |es| && es[k].score == v
    decreases |es|
  {
    if es[0].score != v {
      WithScoreSome(es[1..], v);
      var k :| 0 <= k < |es[1..]| && es[1..][k].score == v;
      assert es[k + 1].score == v;
    }
  }

  /** Inserting adds exactly `x`. */
  lemma {:induction false} InsertPermutes(x: Entry, ys: seq<Entry>)
    ensures multiset(Insert(x, ys)) == multiset(ys) + multiset{x}
    decreases |ys|
  {
    if ys != [] {
      assert ys == [ys[0]] + ys[1..];
      if ys[0].score >= x.score {
        InsertPermutes(x, ys[1..]);
      }
    }
  }

  /** A bound on `x` and on every entry of `ys` bounds every entry after inserting. */
  lemma {:induction false} InsertBounded(x: Entry, ys: seq<Entry>, h: int)
    requires x.score <= h
    requires forall k :: 0 <= k < |ys| ==> ys[k].score <= h
    ensures forall k :: 0 <= k < |Insert(x, ys)| ==> Insert(x, ys)[k].score <= h
    decreases |ys|
  {
    if ys != [] && ys[0].score >= x.score {
      InsertBounded(x, ys[1..], h);
      var r := Insert(x, ys);
      assert r == [ys[0]] + Insert(x, ys[1..]);
    }
  }

  /** A sorted list headed by an entry at least as high as all of it is sorted. */
  lemma ConsSorted(e: Entry, rest: seq<Entry>)
    requires SortedDesc(rest)
    requires forall k :: 0 <= k < |rest| ==> rest[k].score <= e.score
    ensures SortedDesc([e] + rest)
  {
    var r := [e] + rest;
    forall a, b | 0 <= a < b < |r|
      ensures r[a].score >= r[b].score
    {
      assert r[b] == rest[b - 1];
      if a > 0 {
        assert r[a] == rest[a - 1];
      }
    }
  }

  /** Inserting into a sorted list keeps it sorted and adds exactly `x`. */
  lemma {:induction false} InsertSorted(x: Entry, ys: seq<Entry>)
    requires SortedDesc(ys)
    ensures SortedDesc(Insert(x, ys))
    ensures multiset(Insert(x, ys)) == multiset(ys) + multiset{x}
    decreases |ys|
  {
    InsertPermutes(x, ys);
    if ys != [] && ys[0].score >= x.score {
      InsertSorted(x, ys[1..]);
      InsertBounded(x, ys[1..], ys[0].score);
      ConsSorted(ys[0], Insert(x, ys[1..]));
    }
  }

  /** Inserting `x` places it after every entry already holding its score. */
  lemma {:induction false} InsertStable(x: Entry, ys: seq<Entry>)
    requires SortedDesc(ys)
    ensures forall v :: WithScore(Insert(x, ys), v) == WithScore(ys, v) + WithScore([x], v)
    decreases |ys|
  {
    if ys == [] {
      assert Insert(x, ys) == [x];
    } else if ys[0].score >= x.score {
      InsertStable(x, ys[1..]);
      var r := Insert(x, ys);
      assert r[0] == ys[0] && r[1..] == Insert(x, ys[1..]);
      forall v
        ensures WithScore(r, v) == WithScore(ys, v) + WithScore([x], v)
      {
        var head := if ys[0].score == v then [ys[0]] else [];
        assert WithScore(r, v) == head + WithScore(r[1..], v);
        assert WithScore(ys, v) == head + WithScore(ys[1..], v);
      }
    } else {
      InsertFrontStable(x, ys);
    }
  }

  /** An entry scoring above the whole sorted list is the only one with its score. */
  lemma InsertFrontStable(x: Entry, ys: seq<Entry>)
    requires SortedDesc(ys)
    requires ys != [] && ys[0].score < x.score
    ensures forall v :: WithScore([x] + ys, v) == WithScore(ys, v) + WithScore([x], v)
  {
    forall v
      ensures WithScore([x] + ys, v) == WithScore(ys, v) + WithScore([x], v)
    {
      assert ([x] + ys)[1..] == ys;
      assert WithScore([x], v) == (if x.score == v then [x] else []) + WithScore([], v);
      if x.score == v {
        WithScoreNone(ys, v);
      }
    }
  }

  /** The first entry shows up among the entries with its score. */
  lemma WithScoreHead(es: seq<Entry>)
    requires es != []
    ensures WithScore(es, es[0].score) != []
  {
  }

  /** Two tables sorted by descending score that agree on every score's entries are equal. */
  lemma {:induction false} StableSortUnique(a: seq<Entry>, b: seq<Entry>)
    requires SortedDesc(a) && SortedDesc(b)
    requires forall v :: WithScore(a, v) == WithScore(b, v)
    ensures a == b
    decreases |a| + |b|
  {
    if a == [] && b != [] {
      WithScoreHead(b);
    } else if a != [] && b == [] {
      WithScoreHead(a);
    } else if a != [] {
      var m, m' := a[0].score, b[0].score;
      assert WithScore(a, m)[0] == a[0];
      WithScoreSome(b, m);
      assert WithScore(b, m') != [];
      WithScoreSome(a, m');
      assert m == m';
      assert WithScore(b, m)[0] == b[0];
      assert a[0] == b[0];
      forall v
        ensures WithScore(a[1..], v) == WithScore(b[1..], v)
      {
        if a[0].score == v {
          assert WithScore(a[1..], v) == WithScore(a, v)[1..];
          assert WithScore(b[1..], v) == WithScore(b, v)[1..];
        } else {
          assert WithScore(a[1..], v) == WithScore(a, v);
          assert WithScore(b[1..], v) == WithScore(b, v);
        }
      }
      StableSortUnique(a[1..], b[1..]);
      assert a == [a[0]] + a[1..] && b == [b[0]] + b[1..];
    }
  }

  /**
   The sort is the only arrangement of the entries that is sorted by
   descending score and keeps equal scores in input order.
   */
  lemma SortDescIsTheStableSort(es: seq<Entry>, r: seq<Entry>)
    requires SortedDesc(r)
    requires forall v :: WithScore(r, v) == WithScore(es, v)
    ensures r == SortDesc(es)
  {
    StableSortUnique(r, SortDesc(es));
  }

  // ----- Writing a rank line -----

  predicate IsDigit(c: char)
  {
    '0' <= c <= '9'
  }

  function DigitChar(d: nat): (c: char)
    requires d < 10
    ensures IsDigit(c)
  {
    "0123456789"[d]
  }

  function DigitValue(c: char): nat
    requires IsDigit(c)
  {
    c as int - '0' as int
  }

  /** The decimal form of `n`, as template-literal interpolation writes it: no leading zero. */
  function Show(n: nat): (s: string)
    ensures |s| > 0
    ensures forall k :: 0 <= k < |s| ==> IsDigit(s[k])
    ensures n > 0 ==> s[0] != '0'
    decreases n
  {
    if n < 10 then [DigitChar(n)] else Show(n / 10) + [DigitChar(n % 10)]
  }

  /** The value of a string of decimal digits. */
  function ValueOf(ds: string): nat
    requires forall k :: 0 <= k < |ds| ==> IsDigit(ds[k])
    decreases |ds|
  {
    if ds == [] then 0 else ValueOf(ds[..|ds| - 1]) * 10 + DigitValue(ds[|ds| - 1])
  }

  /** The length of the run of digits `s` starts with. */
  function DigitPrefix(s: string): (d: nat)
    ensures d <= |s|
    decreases |s|
  {
    if s == [] || !IsDigit(s[0]) then 0 else 1 + DigitPrefix(s[1..])
  }

  /** One line of the result list: `${index + 1}. ${name}`. */
  function Line(rank: nat, name: string): string
  {
    Show(rank) + ". " + name
  }

  /** A parsed result line. */
  datatype RankedLine = RankedLine(rank: nat, name: string)

  /** Read a result line back: leading digits, then `". "`, then the name. */
  function ParseLine(line: string): Option<RankedLine>
  {
    var d := DigitPrefix(line);
    if d == 0 || |line| < d + 2 || line[d] != '.' || line[d + 1] != ' ' then None
    else
      assert forall k :: 0 <= k < d ==> IsDigit(line[..d][k]) by {
        DigitPrefixDigits(line);
      }
      Some(RankedLine(ValueOf(line[..d]), line[d + 2..]))
  }

  lemma {:induction false} DigitPrefixDigits(s: string)
    ensures forall k :: 0 <= k < DigitPrefix(s) ==> IsDigit(s[k])
    decreases |s|
  {
    if s != [] && IsDigit(s[0]) {
      DigitPrefixDigits(s[1..]);
      forall k | 0 < k < DigitPrefix(s)
        ensures IsDigit(s[k])
      {
        assert s[k] == s[1..][k - 1];
      }
    }
  }

  lemma {:induction false} DigitPrefixOf(ds: string, rest: string)
    requires forall k :: 0 <= k < |ds| ==> IsDigit(ds[k])
    requires rest != [] && !IsDigit(rest[0])
    ensures DigitPrefix(ds + rest) == |ds|
    decreases |ds|
  {
    if ds == [] {
      assert ds + rest == rest;
    } else {
      assert (ds + rest)[1..] == ds[1..] + rest;
      DigitPrefixOf(ds[1..], rest);
    }
  }

  lemma {:induction false} ValueOfShow(n: nat)
    ensures ValueOf(Show(n)) == n
    decreases n
  {
    if n >= 10 {
      ValueOfShow(n / 10);
      var s := Show(n);
      assert s[..|s| - 1] == Show(n / 10);
    }
  }

  /** Every result line reads back as the rank and the name it was written from. */
  lemma LineRoundTrip(rank: nat, name: string)
    ensures ParseLine(Line(rank, name)) == Some(RankedLine(rank, name))
  {
    var line := Line(rank, name);
    var ds := Show(rank);
    assert line == ds + (". " + name);
    DigitPrefixOf(ds, ". " + name);
    assert line[..|ds|] == ds;
    assert line[|ds| + 2..] == name;
    ValueOfShow(rank);
  }

  /** The result list of showResults: the sorted entries, numbered from 1. */
  function Results(t: ScoreTable): (lines: seq<string>)
    requires Wf(t)
    ensures |lines| == |t.order|
  {
    var sorted := Ranked(t);
    RankedLength(t);
    seq(|sorted|, k requires 0 <= k < |sorted| => Line(k + 1, sorted[k].name))
  }


  /** Two positions holding one value make it occur at least twice. */
  lemma TwoPositions<T>(s: seq<T>, a: nat, b: nat)
    requires a < b < |s| && s[a] == s[b]
    ensures multiset(s)[s[a]] >= 2
  {
    assert s == s[..b] + s[b..];
    assert s[a] in s[..b] && s[b] in s[b..];
  }

  /** A sequence without repeats holds each value at most once. */
  lemma {:induction false} DistinctOnce<T>(s: seq<T>, x: T)
    requires Distinct(s)
    ensures multiset(s)[x] <= 1
    decreases |s|
  {
    if s != [] {
      assert s == [s[0]] + s[1..];
      assert Distinct(s[1..]) by {
        forall a, b | 0 <= a < b < |s[1..]|
          ensures s[1..][a] != s[1..][b]
        {
          assert s[1..][a] == s[a + 1] && s[1..][b] == s[b + 1];
        }
      }
      DistinctOnce(s[1..], x);
    }
  }

  /** The table's entries in ranking order. */
  function Ranked(t: ScoreTable): seq<Entry>
    requires Wf(t)
  {
    SortDesc(Entries(t))
  }

  /** Entries of a well-formed table differ pairwise. */
  lemma EntriesDistinct(t: ScoreTable)
    requires Wf(t)
    ensures Distinct(Entries(t))
  {
    var es := Entries(t);
    forall a, b | 0 <= a < b < |es|
      ensures es[a] != es[b]
    {
      assert es[a].name == t.order[a] && es[b].name == t.order[b];
    }
  }

  /** The ranking has one entry per key. */
  lemma RankedLength(t: ScoreTable)
    requires Wf(t)
    ensures |Ranked(t)| == |t.order|
  {
    assert |multiset(Ranked(t))| == |multiset(Entries(t))|;
  }

  /** Every ranked entry is an entry of the table. */
  lemma RankedFromTable(t: ScoreTable)
    requires Wf(t)
    ensures forall k :: 0 <= k < |Ranked(t)| ==> Ranked(t)[k] in Entries(t)
  {
    var ranked := Ranked(t);
    forall k | 0 <= k < |ranked|
      ensures ranked[k] in Entries(t)
    {
      assert ranked[k] in multiset(ranked);
    }
  }

  /** Every key of the table is ranked. */
  lemma RankedCoversTable(t: ScoreTable)
    requires Wf(t)
    ensures forall x :: x in t.value ==> exists k :: 0 <= k < |Ranked(t)| && Ranked(t)[k].name == x
  {
    var es := Entries(t);
    var ranked := Ranked(t);
    forall x | x in t.value
      ensures exists k :: 0 <= k < |ranked| && ranked[k].name == x
    {
      var j :| 0 <= j < |es| && es[j].name == x;
      assert es[j] in multiset(es);
      assert es[j] in ranked;
    }
  }

  /** No key is ranked twice. */
  lemma RankedNamesDistinct(t: ScoreTable)
    requires Wf(t)
    ensures forall a, b :: 0 <= a < b < |Ranked(t)| ==> Ranked(t)[a].name != Ranked(t)[b].name
  {
    var es := Entries(t);
    var ranked := Ranked(t);
    RankedFromTable(t);
    EntriesDistinct(t);
    forall a, b | 0 <= a < b < |ranked|
      ensures ranked[a].name != ranked[b].name
    {
      if ranked[a].name == ranked[b].name {
        var i :| 0 <= i < |es| && es[i] == ranked[a];
        var j :| 0 <= j < |es| && es[j] == ranked[b];
        assert ranked[a] == ranked[b];
        TwoPositions(ranked, a, b);
        DistinctOnce(es, ranked[a]);
        assert false;
      }
    }
  }

  /** The ranking lists the table's entries: every key once, with its score. */
  lemma RankedIsTable(t: ScoreTable)
    requires Wf(t)
    ensures |Ranked(t)| == |t.order|
    ensures forall k :: 0 <= k < |Ranked(t)| ==> Ranked(t)[k].name in t.value && Ranked(t)[k].score == t.value[Ranked(t)[k].name]
    ensures forall x :: x in t.value ==> exists k :: 0 <= k < |Ranked(t)| && Ranked(t)[k].name == x
    ensures forall a, b :: 0 <= a < b < |Ranked(t)| ==> Ranked(t)[a].name != Ranked(t)[b].name
  {
    RankedLength(t);
    RankedFromTable(t);
    RankedCoversTable(t);
    RankedNamesDistinct(t);
  }


  /**
   What showResults displays: one line per key of the table, line `k`
   reading back as rank `k` and the `k`-th ranked name; the ranked names
   are exactly the table's keys, each once, with their scores; scores never
   increase down the list, so rank 1 holds the highest score; and, for
   each score, the names holding it keep the table's key order
   (script.js:96-99).
   */
  lemma ResultsSpec(t: ScoreTable)
    requires Wf(t)
    ensures |Results(t)| == |Ranked(t)| == |t.order|
    ensures forall k :: 0 <= k < |Ranked(t)| ==> ParseLine(Results(t)[k]) == Some(RankedLine(k + 1, Ranked(t)[k].name))
    ensures forall k :: 0 <= k < |Ranked(t)| ==> Ranked(t)[k].name in t.value && Ranked(t)[k].score == t.value[Ranked(t)[k].name]
    ensures forall x :: x in t.value ==> exists k :: 0 <= k < |Ranked(t)| && Ranked(t)[k].name == x
    ensures forall a, b :: 0 <= a < b < |Ranked(t)| ==> Ranked(t)[a].name != Ranked(t)[b].name
    ensures SortedDesc(Ranked(t))
    ensures Ranked(t) != [] ==> forall x :: x in t.value ==> Ranked(t)[0].score >= t.value[x]
    ensures forall v :: WithScore(Ranked(t), v) == WithScore(Entries(t), v)
  {
    RankedIsTable(t);
    var ranked := Ranked(t);
    forall k | 0 <= k < |ranked|
      ensures ParseLine(Results(t)[k]) == Some(RankedLine(k + 1, ranked[k].name))
    {
      LineRoundTrip(k + 1, ranked[k].name);
    }
    if ranked != [] {
      forall x | x in t.value
        ensures ranked[0].score >= t.value[x]
      {
        var k :| 0 <= k < |ranked| && ranked[k].name == x;
      }
    }
  }
}
