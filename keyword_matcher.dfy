/** The keyword matcher: `keyword_match` scores every FAQ record against the
    lowercased query (2 points per keyword found in it), keeps the records that
    reach the minimum score and orders them by score, highest first, with
    records of equal score left in corpus order. */
module KeywordMatcher {
  import opened PyStr
  import opened FaqStore

  /** One `(score, item)` pair of the result. */
  datatype Match = Match(score: int, item: Faq)

  /** `kw and kw in ui`. */
  predicate Hits(kw: string, ui: string) {
    kw != [] && Contains(ui, kw)
  }

  /** The score of a keyword list against the lowercased query: 2 for each
      keyword that hits, a keyword listed twice counting twice. */
  function Score(kws: seq<string>, ui: string): (r: int)
    ensures 0 <= r <= 2 * |kws| && r % 2 == 0
    ensures r == 0 <==> forall i :: 0 <= i < |kws| ==> !Hits(kws[i], ui)
    ensures r == 2 * |kws| <==> forall i :: 0 <= i < |kws| ==> Hits(kws[i], ui)
  {
    if kws == [] then 0
    else
      var front := kws[..|kws| - 1];
      assert forall i :: 0 <= i < |front| ==> front[i] == kws[i];
      Score(front, ui) + (if Hits(kws[|kws| - 1], ui) then 2 else 0)
  }

  /** The score of a list is the sum of the scores of its parts. */
  lemma {:induction false} ScoreConcat(a: seq<string>, b: seq<string>, ui: string)
    ensures Score(a + b, ui) == Score(a, ui) + Score(b, ui)
    decreases |b|
  {
    if b == [] {
      assert a + b == a;
    } else {
      var b' := b[..|b| - 1];
      assert (a + b)[..|a + b| - 1] == a + b';
      ScoreConcat(a, b', ui);
    }
  }

  /** The records that reach `minScore`, with their scores, in corpus order. */
  function Scored(ui: string, items: seq<Faq>, minScore: int): (r: seq<Match>)
    ensures |r| <= |items|
    ensures forall m :: m in r ==> m.item in items && m.score == Score(m.item.k, ui) && m.score >= minScore
  {
    if items == [] then []
    else
      var front := items[..|items| - 1];
      var it := items[|items| - 1];
      var s := Score(it.k, ui);
      assert forall x :: x in front ==> x in items;
      Scored(ui, front, minScore) + (if s >= minScore then [Match(s, it)] else [])
  }

  /** Every record that reaches `minScore` is among the matches. */
  lemma {:induction false} ScoredComplete(ui: string, items: seq<Faq>, minScore: int, i: nat)
    requires i < |items| && Score(items[i].k, ui) >= minScore
    ensures Match(Score(items[i].k, ui), items[i]) in Scored(ui, items, minScore)
    decreases |items|
  {
    if i < |items| - 1 {
      var front := items[..|items| - 1];
      assert front[i] == items[i];
      ScoredComplete(ui, front, minScore, i);
    }
  }

  /** Each part of the corpus contributes its own matches, in order: so every
      qualifying record appears once per occurrence and nothing else does. */
  lemma {:induction false} ScoredConcat(ui: string, a: seq<Faq>, b: seq<Faq>, minScore: int)
    ensures Scored(ui, a + b, minScore) == Scored(ui, a, minScore) + Scored(ui, b, minScore)
    decreases |b|
  {
    if b == [] {
      assert a + b == a;
    } else {
      var b' := b[..|b| - 1];
      assert (a + b)[..|a + b| - 1] == a + b';
      ScoredConcat(ui, a, b', minScore);
    }
  }

  // ---------------------------------------------------------------- sorting

  /** Scores never increase along the list. */
  predicate SortedByScore(ms: seq<Match>) {
    forall i, j :: 0 <= i < j < |ms| ==> ms[i].score >= ms[j].score
  }

  /** The matches of score `s`, in list order. */
  function WithScore(ms: seq<Match>, s: int): (r: seq<Match>)
    ensures forall m :: m in r ==> m in ms && m.score == s
  {
    if ms == [] then []
    else (if ms[0].score == s then [ms[0]] else []) + WithScore(ms[1..], s)
  }

  lemma {:induction false} WithScoreConcat(a: seq<Match>, b: seq<Match>, s: int)
    ensures WithScore(a + b, s) == WithScore(a, s) + WithScore(b, s)
    decreases |a|
  {
    if a == [] {
      assert a + b == b;
    } else {
      assert (a + b)[1..] == a[1..] + b;
      WithScoreConcat(a[1..], b, s);
    }
  }

  lemma {:induction false} WithScoreNone(ms: seq<Match>, s: int)
    requires forall i :: 0 <= i < |ms| ==> ms[i].score != s
    ensures WithScore(ms, s) == []
    decreases |ms|
  {
    if ms != [] { WithScoreNone(ms[1..], s); }
  }

  /** Puts `m` after every element whose score is at least its own. */
  function Insert(sorted: seq<Match>, m: Match): (r: seq<Match>)
    ensures multiset(r) == multiset(sorted) + multiset{m}
  {
    if sorted == [] then [m]
    else if sorted[0].score >= m.score then
      assert sorted == [sorted[0]] + sorted[1..];
      [sorted[0]] + Insert(sorted[1..], m)
    else [m] + sorted
  }

  /** A bound on every score survives an insertion that respects it. */
  lemma {:induction false} InsertBounded(sorted: seq<Match>, m: Match, b: int)
    requires m.score <= b && forall i :: 0 <= i < |sorted| ==> sorted[i].score <= b
    ensures forall i :: 0 <= i < |Insert(sorted, m)| ==> Insert(sorted, m)[i].score <= b
    decreases |sorted|
  {
    if sorted != [] && sorted[0].score >= m.score {
      InsertBounded(sorted[1..], m, b);
    }
  }

  lemma {:induction false} InsertSorted(sorted: seq<Match>, m: Match)
    requires SortedByScore(sorted)
    ensures SortedByScore(Insert(sorted, m))
    decreases |sorted|
  {
    if sorted != [] && sorted[0].score >= m.score {
      var tail := sorted[1..];
      assert forall i :: 0 <= i < |tail| ==> tail[i] == sorted[i + 1];
      var rest := Insert(tail, m);
      InsertSorted(tail, m);
      InsertBounded(tail, m, sorted[0].score);
      var r := [sorted[0]] + rest;
      assert Insert(sorted, m) == r;
      forall i, j | 0 <= i < j < |r| ensures r[i].score >= r[j].score {
        assert r[j] == rest[j - 1];
        if i > 0 { assert r[i] == rest[i - 1]; }
      }
      assert SortedByScore(r);
    }
  }

  lemma WithScoreCons(x: Match, t: seq<Match>, s: int)
    ensures WithScore([x] + t, s) == WithScore([x], s) + WithScore(t, s)
  {
    assert ([x] + t)[1..] == t;
    assert [x][1..] == [];
  }

  lemma SortedTail(sorted: seq<Match>)
    requires sorted != [] && SortedByScore(sorted)
    ensures SortedByScore(sorted[1..])
    ensures forall i :: 0 <= i < |sorted[1..]| ==> sorted[1..][i].score <= sorted[0].score
  {
  }

  /** Inserting keeps the matches of every score in their order, with `m`
      after the ones already there. */
  lemma {:induction false} InsertStable(sorted: seq<Match>, m: Match, s: int)
    requires SortedByScore(sorted)
    ensures WithScore(Insert(sorted, m), s) == WithScore(sorted, s) + WithScore([m], s)
    decreases |sorted|, 1
  {
    if sorted == [] {
      assert [] + [m] == [m];
    } else if sorted[0].score >= m.score {
      InsertStableBehind(sorted, m, s);
    } else {
      InsertStableAhead(sorted, m, s);
    }
  }

  /** `m` goes behind the head: the head keeps its place in front. */
  lemma {:induction false} InsertStableBehind(sorted: seq<Match>, m: Match, s: int)
    requires SortedByScore(sorted) && sorted != [] && sorted[0].score >= m.score
    ensures WithScore(Insert(sorted, m), s) == WithScore(sorted, s) + WithScore([m], s)
    decreases |sorted|, 0
  {
    var h, tail := sorted[0], sorted[1..];
    SortedTail(sorted);
    InsertStable(tail, m, s);
    var ins := Insert(tail, m);
    assert Insert(sorted, m) == [h] + ins;
    WithScoreCons(h, ins, s);
    ConsHead(sorted);
    WithScoreCons(h, tail, s);
    AppendAssoc(WithScore([h], s), WithScore(tail, s), WithScore([m], s));
  }

  lemma AppendAssoc<T>(a: seq<T>, b: seq<T>, c: seq<T>)
    ensures a + (b + c) == (a + b) + c
  {
  }

  /** `m` goes ahead of everything: every score in the list is lower than its
      own, so no match of the list shares its score. */
  lemma InsertStableAhead(sorted: seq<Match>, m: Match, s: int)
    requires SortedByScore(sorted) && sorted != [] && sorted[0].score < m.score
    ensures WithScore(Insert(sorted, m), s) == WithScore(sorted, s) + WithScore([m], s)
  {
    assert Insert(sorted, m) == [m] + sorted;
    WithScoreCons(m, sorted, s);
    if m.score == s {
      WithScoreNone(sorted, s);
    }
  }

  /** `results.sort(key=lambda x: x[0], reverse=True)`: Python's sort is
      stable, so this orders by non-increasing score and leaves matches of
      equal score in the order they had. */
  function SortByScoreDesc(ms: seq<Match>): (r: seq<Match>)
    ensures multiset(r) == multiset(ms)
  {
    if ms == [] then []
    else
      assert ms == ms[..|ms| - 1] + [ms[|ms| - 1]];
      Insert(SortByScoreDesc(ms[..|ms| - 1]), ms[|ms| - 1])
  }

  /** The sorted list has non-increasing scores. */
  lemma {:induction false} SortByScoreDescSorted(ms: seq<Match>)
    ensures SortedByScore(SortByScoreDesc(ms))
    decreases |ms|
  {
    if ms != [] {
      SortByScoreDescSorted(ms[..|ms| - 1]);
      InsertSorted(SortByScoreDesc(ms[..|ms| - 1]), ms[|ms| - 1]);
    }
  }

  /** The sort is stable: for every score, the matches with that score come
      out in the order they went in. */
  lemma {:induction false} SortByScoreDescStable(ms: seq<Match>, s: int)
    ensures WithScore(SortByScoreDesc(ms), s) == WithScore(ms, s)
    decreases |ms|
  {
    if ms != [] {
      var front, last := ms[..|ms| - 1], ms[|ms| - 1];
      SortByScoreDescStable(front, s);
      SortByScoreDescStep(ms, s);
    }
  }

  /** The step of the stability proof: inserting the last match keeps the
      order per score that holds for the rest. */
  lemma SortByScoreDescStep(ms: seq<Match>, s: int)
    requires ms != []
    requires WithScore(SortByScoreDesc(ms[..|ms| - 1]), s) == WithScore(ms[..|ms| - 1], s)
    ensures WithScore(SortByScoreDesc(ms), s) == WithScore(ms, s)
  {
    var front, last := ms[..|ms| - 1], ms[|ms| - 1];
    SortByScoreDescSorted(front);
    InsertStable(SortByScoreDesc(front), last, s);
    FrontAndLast(ms);
    WithScoreConcat(front, [last], s);
  }

  // ---------------------------------------------------------------- matcher

  /** What `keyword_match` returns: the matches of the lowercased query,
      ordered by non-increasing score, with the matches of each score in
      corpus order. */
  function KeywordMatches(userInput: string, items: seq<Faq>, minScore: int): (r: seq<Match>)
    ensures SortedByScore(r)
    ensures multiset(r) == multiset(Scored(Lower(userInput), items, minScore))
    ensures forall s :: WithScore(r, s) == WithScore(Scored(Lower(userInput), items, minScore), s)
  {
    var scored := Scored(Lower(userInput), items, minScore);
    SortByScoreDescSorted(scored);
    assert forall s :: WithScore(SortByScoreDesc(scored), s) == WithScore(scored, s) by {
      forall s ensures WithScore(SortByScoreDesc(scored), s) == WithScore(scored, s) {
        SortByScoreDescStable(scored, s);
      }
    }
    SortByScoreDesc(scored)
  }

  /** `keyword_match(user_input, items, min_score)`. */
  method KeywordMatch(userInput: string, items: seq<Faq>, minScore: int) returns (results: seq<Match>)
    ensures results == KeywordMatches(userInput, items, minScore)
    ensures SortedByScore(results)
    ensures forall m :: m in results <==> m in Scored(Lower(userInput), items, minScore)
  {
    var ui := Lower(userInput);
    results := [];
    for n := 0 to |items|
      invariant results == Scored(ui, items[..n], minScore)
    {
      var item := items[n];
      var score := 0;
      for j := 0 to |item.k|
        invariant score == Score(item.k[..j], ui)
      {
        var kw := item.k[j];
        assert item.k[..j + 1][..j] == item.k[..j];
        if kw != [] && Contains(ui, kw) {
          score := score + 2;
        }
      }
      assert item.k[..|item.k|] == item.k;
      assert items[..n + 1][..n] == items[..n];
      if score >= minScore {
        results := results + [Match(score, item)];
      }
    }
    assert items[..|items|] == items;
    ghost var scored := results;
    results := SortByScoreDesc(results);
    SortByScoreDescSorted(scored);
    assert forall m :: m in results <==> m in multiset(scored);
  }
}
