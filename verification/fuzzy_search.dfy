/**
  The id-mapping layer of `fuzzy_search.py`. The string scorer
  (rapidfuzz's `token_set_ratio`) is a parameter; `process.extract` with a
  score cutoff is modelled as what it does with the scores: keep the
  candidates scoring at least the cutoff, order them by score, highest
  first and ties in candidate order, and keep the first `limit`.
 */
module FuzzySearch {
  import opened Common
  import opened Text

  /** A similarity score of two strings: rapidfuzz returns a float from 0
      to 100, compared with the integer threshold as a number. */
  type Scorer = (string, string) -> real

  /** One tuple of `process.extract`: (choice, score, index). */
  datatype Match = Match(choice: string, score: real, index: nat)

  /** Ordered for the result: a higher score first, and on equal scores the
      earlier candidate first. */
  predicate Before(a: Match, b: Match) {
    a.score > b.score || (a.score == b.score && a.index < b.index)
  }

  predicate Ranked(ms: seq<Match>) {
    forall i, j :: 0 <= i < j < |ms| ==> Before(ms[i], ms[j])
  }

  /** The candidates at or above the cutoff with their scores, in candidate
      order. */
  function Scored(query: string, cands: seq<string>, scorer: Scorer, cutoff: real): (ms: seq<Match>)
    ensures forall m :: m in ms ==>
      m.index < |cands| && m.choice == cands[m.index] && m.score == scorer(query, cands[m.index]) && m.score >= cutoff
    ensures forall i :: 0 <= i < |cands| && scorer(query, cands[i]) >= cutoff ==>
      Match(cands[i], scorer(query, cands[i]), i) in ms
    ensures forall i, j :: 0 <= i < j < |ms| ==> ms[i].index < ms[j].index
    decreases |cands|
  {
    if |cands| == 0 then []
    else
      var n := |cands| - 1;
      var prev := Scored(query, cands[..n], scorer, cutoff);
      assert forall i :: 0 <= i < n ==> cands[..n][i] == cands[i];
      var s := scorer(query, cands[n]);
      if s >= cutoff then prev + [Match(cands[n], s, n)] else prev
  }

  /** A ranked list stays ranked with an entry in front that goes before
      all of it. */
  lemma RankedCons(a: Match, ms: seq<Match>)
    requires Ranked(ms)
    requires forall k :: 0 <= k < |ms| ==> Before(a, ms[k])
    ensures Ranked([a] + ms)
  {
    var r := [a] + ms;
    forall i, j | 0 <= i < j < |r| ensures Before(r[i], r[j]) {
      if i > 0 {
        assert r[i] == ms[i - 1] && r[j] == ms[j - 1];
      } else {
        assert r[j] == ms[j - 1];
      }
    }
  }

  /** One step of insertion sort: `m` goes before the first entry it
      ranks ahead of. */
  function Insert(m: Match, ms: seq<Match>): (r: seq<Match>)
    ensures multiset(r) == multiset(ms) + multiset{m}
    decreases |ms|
  {
    if |ms| == 0 then [m]
    else if Before(m, ms[0]) then [m] + ms
    else
      assert ms == [ms[0]] + ms[1..];
      [ms[0]] + Insert(m, ms[1..])
  }

  /** Inserting an entry of an earlier candidate keeps a list ranked. */
  lemma {:induction false} InsertRanked(m: Match, ms: seq<Match>)
    requires Ranked(ms)
    requires forall k :: 0 <= k < |ms| ==> m.index < ms[k].index
    ensures Ranked(Insert(m, ms))
    decreases |ms|
  {
    if |ms| == 0 {
    } else if Before(m, ms[0]) {
      RankedCons(m, ms);
    } else {
      var tail := ms[1..];
      assert Ranked(tail) by {
        forall i, j | 0 <= i < j < |tail| ensures Before(tail[i], tail[j]) {
          assert tail[i] == ms[i + 1] && tail[j] == ms[j + 1];
        }
      }
      InsertRanked(m, tail);
      var rest := Insert(m, tail);
      forall k | 0 <= k < |rest| ensures Before(ms[0], rest[k]) {
        assert rest[k] in multiset(tail) + multiset{m};
        if rest[k] != m {
          var j :| 0 <= j < |tail| && tail[j] == rest[k];
          assert ms[j + 1] == rest[k];
        }
      }
      RankedCons(ms[0], rest);
    }
  }

  /** The sort inside `process.extract`: by score, highest first, stable. */
  function Rank(ms: seq<Match>): (r: seq<Match>)
    ensures multiset(r) == multiset(ms)
    decreases |ms|
  {
    if |ms| == 0 then []
    else
      assert ms == [ms[0]] + ms[1..];
      Insert(ms[0], Rank(ms[1..]))
  }

  /** Sorting entries listed in candidate order ranks them. */
  lemma {:induction false} RankRanked(ms: seq<Match>)
    requires forall i, j :: 0 <= i < j < |ms| ==> ms[i].index < ms[j].index
    ensures Ranked(Rank(ms))
    decreases |ms|
  {
    if |ms| > 0 {
      var tail := ms[1..];
      assert forall i, j :: 0 <= i < j < |tail| ==> tail[i].index < tail[j].index by {
        forall i, j | 0 <= i < j < |tail| ensures tail[i].index < tail[j].index {
          assert tail[i] == ms[i + 1] && tail[j] == ms[j + 1];
        }
      }
      RankRanked(tail);
      var rest := Rank(tail);
      forall k | 0 <= k < |rest| ensures ms[0].index < rest[k].index {
        assert rest[k] in multiset(tail);
        var j :| 0 <= j < |tail| && tail[j] == rest[k];
        assert ms[j + 1] == rest[k];
      }
      InsertRanked(ms[0], rest);
    }
  }

  function Take<T>(s: seq<T>, n: nat): (r: seq<T>)
    ensures |r| <= n && |r| <= |s|
    ensures n >= |s| ==> r == s
    ensures forall i :: 0 <= i < |r| ==> r[i] == s[i]
  {
    if n >= |s| then s else s[..n]
  }

  /** `fuzzy_match`: nothing for an empty query or no candidates; otherwise
      the best `limit` candidates at or above the cutoff, best first. */
  function FuzzyMatch(query: string, cands: seq<string>, scorer: Scorer, cutoff: real, limit: nat)
    : (r: seq<Match>)
    ensures |query| == 0 || |cands| == 0 ==> r == []
    ensures |r| <= limit
    ensures Ranked(r)
    ensures forall m :: m in r ==>
      m.index < |cands| && m.choice == cands[m.index] && m.score == scorer(query, cands[m.index]) && m.score >= cutoff
  {
    if |query| == 0 || |cands| == 0 then []
    else
      var scored := Scored(query, cands, scorer, cutoff);
      RankRanked(scored);
      var ranked := Rank(scored);
      var r := Take(ranked, limit);
      TakeRanked(ranked, limit);
      TakeDrawsFrom(ranked, scored, limit);
      r
  }

  /** A prefix of a ranked list is ranked. */
  lemma TakeRanked(ms: seq<Match>, n: nat)
    requires Ranked(ms)
    ensures Ranked(Take(ms, n))
  {
    var r := Take(ms, n);
    forall i, j | 0 <= i < j < |r| ensures Before(r[i], r[j]) {
      assert r[i] == ms[i] && r[j] == ms[j];
    }
  }

  /** A prefix of a permutation of `scored` only holds entries of `scored`. */
  lemma TakeDrawsFrom(ms: seq<Match>, scored: seq<Match>, n: nat)
    requires multiset(ms) == multiset(scored)
    ensures forall m :: m in Take(ms, n) ==> m in scored
  {
    var r := Take(ms, n);
    forall m | m in r ensures m in scored {
      var k :| 0 <= k < |r| && r[k] == m;
      assert ms[k] == m;
      assert m in multiset(ms);
    }
  }

  /** With a limit of at least the number of candidates, every candidate at
      or above the cutoff is returned, each once. */
  lemma FuzzyMatchComplete(query: string, cands: seq<string>, scorer: Scorer, cutoff: real, limit: nat)
    requires |query| > 0 && limit >= |cands|
    ensures forall i :: 0 <= i < |cands| && scorer(query, cands[i]) >= cutoff ==>
      Match(cands[i], scorer(query, cands[i]), i) in FuzzyMatch(query, cands, scorer, cutoff, limit)
  {
    if |cands| > 0 {
      var scored := Scored(query, cands, scorer, cutoff);
      var ranked := Rank(scored);
      assert |ranked| == |scored| by {
        assert |multiset(ranked)| == |multiset(scored)|;
      }
      assert |scored| <= |cands| by {
        ScoredIsShort(query, cands, scorer, cutoff);
      }
      forall i | 0 <= i < |cands| && scorer(query, cands[i]) >= cutoff
        ensures Match(cands[i], scorer(query, cands[i]), i) in ranked
      {
        assert Match(cands[i], scorer(query, cands[i]), i) in multiset(scored);
      }
    }
  }

  /** No candidate is returned twice. */
  lemma MatchesAreDistinct(query: string, cands: seq<string>, scorer: Scorer, cutoff: real, limit: nat)
    ensures var r := FuzzyMatch(query, cands, scorer, cutoff, limit);
      forall a, b :: 0 <= a < b < |r| ==> r[a].index != r[b].index
  {
    var r := FuzzyMatch(query, cands, scorer, cutoff, limit);
    forall a, b | 0 <= a < b < |r| ensures r[a].index != r[b].index {
      assert r[a] in r && r[b] in r;
      assert Before(r[a], r[b]);
    }
  }

  lemma ScoredIsShort(query: string, cands: seq<string>, scorer: Scorer, cutoff: real)
    ensures |Scored(query, cands, scorer, cutoff)| <= |cands|
    decreases |cands|
  {
    if |cands| > 0 {
      ScoredIsShort(query, cands[..|cands| - 1], scorer, cutoff);
    }
  }

  // ---------------------------------------------------------------------
  // get_fuzzy_matches_for_ste
  // ---------------------------------------------------------------------

  /** The fields of an item the search looks at. */
  datatype SteEntry = SteEntry(id: int, name: Option<string>, modelName: Option<string>, manufacturer: Option<string>)

  /** The non-empty strings among `parts`, in order: `filter(None, parts)`. */
  function NonEmpty(parts: seq<string>): (r: seq<string>)
    ensures forall j :: 0 <= j < |r| ==> |r[j]| > 0
    ensures forall p :: p in r <==> p in parts && |p| > 0
    decreases |parts|
  {
    if |parts| == 0 then []
    else
      var rest := NonEmpty(parts[1..]);
      assert forall p :: p in parts <==> p == parts[0] || p in parts[1..];
      if |parts[0]| > 0 then [parts[0]] + rest else rest
  }

  /** Two strings with a space between them, or just the non-empty one. */
  function Glue(a: string, b: string): string {
    if |a| == 0 then b else if |b| == 0 then a else a + " " + b
  }

  /** The search string of an item: name, model and manufacturer, the
      missing or empty ones left out, joined by single spaces. */
  function Combined(e: SteEntry): (r: string)
    ensures r == Glue(e.name.GetOr(""), Glue(e.modelName.GetOr(""), e.manufacturer.GetOr("")))
  {
    var n, m, f := e.name.GetOr(""), e.modelName.GetOr(""), e.manufacturer.GetOr("");
    CombinedGlues(n, m, f);
    Join(NonEmpty([n, m, f]), ' ')
  }

  lemma CombinedGlues(n: string, m: string, f: string)
    ensures Join(NonEmpty([n, m, f]), ' ') == Glue(n, Glue(m, f))
  {
    var tail := NonEmpty([m, f]);
    assert Join(tail, ' ') == Glue(m, f) by {
      NonEmptyOne(f);
      assert [m, f][1..] == [f];
      if |m| > 0 && |f| > 0 {
        assert tail == [m, f] && tail[1..] == [f];
      }
    }
    assert [n, m, f][1..] == [m, f];
    if |n| > 0 && |tail| > 0 {
      assert ([n] + tail)[1..] == tail;
    }
  }

  lemma NonEmptyOne(f: string)
    ensures NonEmpty([f]) == if |f| > 0 then [f] else []
  {
    assert [f][1..] == [];
  }

  /** When no field holds a space, splitting the search string at spaces
      gives back exactly the non-empty fields, in order. */
  lemma CombinedSplits(e: SteEntry)
    requires ' ' !in e.name.GetOr("") && ' ' !in e.modelName.GetOr("") && ' ' !in e.manufacturer.GetOr("")
    ensures var fields := NonEmpty([e.name.GetOr(""), e.modelName.GetOr(""), e.manufacturer.GetOr("")]);
      Split(Combined(e), ' ') == (if |fields| == 0 then [""] else fields)
  {
    var parts := [e.name.GetOr(""), e.modelName.GetOr(""), e.manufacturer.GetOr("")];
    var fields := NonEmpty(parts);
    if |fields| == 0 {
      assert Combined(e) == "";
      assert Split("", ' ') == [""];
    } else {
      forall j | 0 <= j < |fields| ensures ' ' !in fields[j] {
        assert fields[j] in parts;
      }
      SplitJoin(fields, ' ');
    }
  }

  function SearchStrings(data: seq<SteEntry>): (ss: seq<string>)
    ensures |ss| == |data|
    ensures forall i :: 0 <= i < |data| ==> ss[i] == Combined(data[i])
  {
    seq(|data|, i requires 0 <= i < |data| => Combined(data[i]))
  }

  /** `get_fuzzy_matches_for_ste`: the ids of the matching items, best match
      first; nothing for an empty query or no items. */
  function FuzzyMatchesForSte(query: string, data: seq<SteEntry>, scorer: Scorer, cutoff: real): (ids: seq<int>)
    ensures |query| == 0 || |data| == 0 ==> ids == []
    ensures |ids| <= |data|
    ensures var ms := FuzzyMatch(query, SearchStrings(data), scorer, cutoff, |data|);
      && |ids| == |ms|
      && forall k :: 0 <= k < |ids| ==> ms[k].index < |data| && ids[k] == data[ms[k].index].id
  {
    if |query| == 0 || |data| == 0 then []
    else IdsOf(FuzzyMatch(query, SearchStrings(data), scorer, cutoff, |data|), data)
  }

  /** The ids of the items the matches point at, in the matches' order. */
  function IdsOf(ms: seq<Match>, data: seq<SteEntry>): (ids: seq<int>)
    requires forall m :: m in ms ==> m.index < |data|
    ensures |ids| == |ms|
    ensures forall k :: 0 <= k < |ids| ==> ms[k].index < |data| && ids[k] == data[ms[k].index].id
  {
    if |ms| == 0 then [] else [data[ms[0].index].id] + IdsOf(ms[1..], data)
  }

  /** The returned ids are those of distinct items whose search strings
      score at or above the cutoff, best score first. */
  lemma MatchedItemsAreRanked(query: string, data: seq<SteEntry>, scorer: Scorer, cutoff: real)
    ensures var ms := FuzzyMatch(query, SearchStrings(data), scorer, cutoff, |data|);
      && (forall k :: 0 <= k < |ms| ==>
            ms[k].index < |data| && scorer(query, Combined(data[ms[k].index])) >= cutoff)
      && (forall a, b :: 0 <= a < b < |ms| ==>
            scorer(query, Combined(data[ms[a].index])) >= scorer(query, Combined(data[ms[b].index])))
      && (forall a, b :: 0 <= a < b < |ms| ==> ms[a].index != ms[b].index)
  {
    var ss := SearchStrings(data);
    var ms := FuzzyMatch(query, ss, scorer, cutoff, |data|);
    MatchesAreDistinct(query, ss, scorer, cutoff, |data|);
    forall k | 0 <= k < |ms|
      ensures ms[k].index < |data| && scorer(query, Combined(data[ms[k].index])) >= cutoff
    {
      assert ms[k] in ms;
    }
    forall a, b | 0 <= a < b < |ms|
      ensures scorer(query, Combined(data[ms[a].index])) >= scorer(query, Combined(data[ms[b].index]))
    {
      assert ms[a] in ms && ms[b] in ms;
      assert Before(ms[a], ms[b]);
    }
  }

  /** Every item whose search string scores at or above the cutoff has its
      id among the results. */
  lemma EveryMatchingItemIsListed(query: string, data: seq<SteEntry>, scorer: Scorer, cutoff: real, i: nat)
    requires |query| > 0
    requires i < |data| && scorer(query, Combined(data[i])) >= cutoff
    ensures var ids := FuzzyMatchesForSte(query, data, scorer, cutoff);
      exists k :: 0 <= k < |ids| && ids[k] == data[i].id
  {
    var ss := SearchStrings(data);
    var ms := FuzzyMatch(query, ss, scorer, cutoff, |data|);
    var ids := FuzzyMatchesForSte(query, data, scorer, cutoff);
    FuzzyMatchComplete(query, ss, scorer, cutoff, |data|);
    var m := Match(ss[i], scorer(query, ss[i]), i);
    assert m in ms;
    var k :| 0 <= k < |ms| && ms[k] == m;
    assert ids[k] == data[i].id;
  }

  // ---------------------------------------------------------------------
  // calculate_similarity
  // ---------------------------------------------------------------------

  /** `calculate_similarity`: 0 when either string is empty, otherwise the
      score of the lower-cased strings. */
  function CalculateSimilarity(s1: string, s2: string, scorer: Scorer): (r: real)
    ensures |s1| == 0 || |s2| == 0 ==> r == 0.0
    ensures |s1| > 0 && |s2| > 0 ==> r == scorer(Lower(s1), Lower(s2))
  {
    if |s1| == 0 || |s2| == 0 then 0.0 else scorer(Lower(s1), Lower(s2))
  }

  lemma LowerTwice(s: string)
    ensures Lower(Lower(s)) == Lower(s)
  {
    assert forall i :: 0 <= i < |s| ==> LowerChar(LowerChar(s[i])) == LowerChar(s[i]);
  }

  /** The similarity does not see ASCII case: lower-casing either argument
      first changes nothing. */
  lemma SimilarityIgnoresCase(s1: string, s2: string, scorer: Scorer)
    ensures CalculateSimilarity(Lower(s1), s2, scorer) == CalculateSimilarity(s1, s2, scorer)
    ensures CalculateSimilarity(s1, Lower(s2), scorer) == CalculateSimilarity(s1, s2, scorer)
  {
    LowerTwice(s1);
    LowerTwice(s2);
  }
}
