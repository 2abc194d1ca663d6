/** Retrieval in RoomRAG: `find_relevant_chunks` scores every stored chunk
    against the query's non-stop words, keeps the chunks with a positive
    score, orders them by score (stably) and returns the best `top_k`. */
module RagRanking {
  import opened PyText

  const StopWords: set<string> := {
    "the", "a", "an", "and", "or", "but", "in", "on", "at", "to", "for", "of",
    "with", "by", "is", "are", "was", "were", "be", "been", "have", "has",
    "had", "do", "does", "did", "will", "would", "could", "should", "may",
    "might", "can", "this", "that", "these", "those", "what", "when", "where",
    "why", "how", "who", "which"
  }

  /** The distinct lower-cased words of the query that are not stop words. */
  function QueryWords(query: string): (q: set<string>)
    ensures forall w :: w in q ==> w !in StopWords && IsWord(w)
  {
    (set w | w in Split(Lower(query))) - StopWords
  }

  /** Query words that occur anywhere in the lower-cased chunk (`phrase_score`). */
  function PhraseHits(q: set<string>, lower: string): set<string>
  {
    set w | w in q && Contains(lower, w)
  }

  /** Query words whose first occurrence lies in the first 30% of the chunk
      (each adds 0.2 to `position_bonus`). */
  function EarlyHits(q: set<string>, lower: string, chunkLength: nat): set<string>
  {
    set w | w in q && Contains(lower, w) && (Find(lower, w) as real) < (chunkLength as real) * 0.3
  }

  function WordSet(s: string): set<string>
  {
    set w | w in Split(s)
  }

  /** `word_overlap_score`: the share of query words that are words of the chunk. */
  function Overlap(q: set<string>, lower: string): real
  {
    (|q * WordSet(lower)| as real) / ((if |q| > 1 then |q| else 1) as real)
  }

  /** `total_score` of one chunk, in exact rational arithmetic. */
  function Score(q: set<string>, chunk: string): (r: real)
    ensures r >= 0.0
  {
    var lower := Lower(chunk);
    Overlap(q, lower) * 0.6
    + (|PhraseHits(q, lower)| as real) * 0.3
    + 0.2 * (|EarlyHits(q, lower, |chunk|)| as real)
  }

  lemma {:induction false} OverlapBounds(q: set<string>, lower: string)
    ensures Overlap(q, lower) >= 0.0
    ensures q * WordSet(lower) == {} ==> Overlap(q, lower) == 0.0
  {
  }

  /** A chunk scores above zero exactly when some query word occurs in its
      lower-cased text. */
  lemma {:induction false} ScorePositiveIff(q: set<string>, chunk: string)
    ensures Score(q, chunk) > 0.0 <==> exists w :: w in q && Contains(Lower(chunk), w)
  {
    var lower := Lower(chunk);
    var phrase := PhraseHits(q, lower);
    var early := EarlyHits(q, lower, |chunk|);
    OverlapBounds(q, lower);
    assert Score(q, chunk) == Overlap(q, lower) * 0.6 + (|phrase| as real) * 0.3 + 0.2 * (|early| as real);
    if exists w :: w in q && Contains(lower, w) {
      var w :| w in q && Contains(lower, w);
      assert w in phrase;
      assert |phrase| >= 1;
    } else {
      assert phrase == {};
      assert early == {};
      SplitWordsOccur(lower);
      forall w | w in WordSet(lower) ensures Contains(lower, w) {
        var i :| 0 <= i < |Split(lower)| && Split(lower)[i] == w;
      }
      assert q * WordSet(lower) == {};
    }
  }

  /** One entry of `chunk_scores`: (total_score, chunk, i). */
  datatype Scored = Scored(score: real, chunk: string, index: nat)

  /** The entries a scoring loop collects from `chunks`: every chunk with a
      positive score, with that score and its position, in chunk order. */
  function Collect(chunks: seq<string>, score: string -> real): (r: seq<Scored>)
    ensures |r| <= |chunks|
  {
    if chunks == [] then []
    else
      var n := |chunks| - 1;
      var prev := Collect(chunks[..n], score);
      if score(chunks[n]) > 0.0 then prev + [Scored(score(chunks[n]), chunks[n], n)] else prev
  }

  /** Every collected entry is a positively scored chunk, with its score and
      its position. */
  predicate EntriesExact(cs: seq<Scored>, chunks: seq<string>, score: string -> real)
  {
    forall k :: 0 <= k < |cs| ==>
      cs[k].index < |chunks| && cs[k].chunk == chunks[cs[k].index]
      && cs[k].score == score(cs[k].chunk) && cs[k].score > 0.0
  }

  predicate IncreasingPositions(cs: seq<Scored>)
  {
    forall k, l :: 0 <= k < l < |cs| ==> cs[k].index < cs[l].index
  }

  /** Every positively scored chunk is collected. */
  predicate AllPositiveCollected(cs: seq<Scored>, chunks: seq<string>, score: string -> real)
  {
    forall i :: 0 <= i < |chunks| && score(chunks[i]) > 0.0 ==>
      exists k :: 0 <= k < |cs| && cs[k].index == i
  }

  /** The collected entries are exactly the positively scored chunks, each
      with its score and position, in increasing position. */
  lemma {:induction false} CollectExact(chunks: seq<string>, score: string -> real)
    ensures EntriesExact(Collect(chunks, score), chunks, score)
    ensures IncreasingPositions(Collect(chunks, score))
    ensures AllPositiveCollected(Collect(chunks, score), chunks, score)
  {
    if chunks != [] {
      var n := |chunks| - 1;
      var init := chunks[..n];
      CollectExact(init, score);
      var prev := Collect(init, score);
      var cs := Collect(chunks, score);
      if score(chunks[n]) > 0.0 {
        var e := Scored(score(chunks[n]), chunks[n], n);
        assert cs == prev + [e];
        forall k | 0 <= k < |cs|
          ensures cs[k].index < |chunks| && cs[k].chunk == chunks[cs[k].index]
          ensures cs[k].score == score(cs[k].chunk) && cs[k].score > 0.0
        {
          if k < |prev| {
            assert cs[k] == prev[k];
            assert init[prev[k].index] == chunks[prev[k].index];
          }
        }
        forall k, l | 0 <= k < l < |cs| ensures cs[k].index < cs[l].index {
          assert cs[k] == prev[k];
          if l < |prev| {
            assert cs[l] == prev[l];
          }
        }
        forall i | 0 <= i < |chunks| && score(chunks[i]) > 0.0
          ensures exists k :: 0 <= k < |cs| && cs[k].index == i
        {
          if i < n {
            assert init[i] == chunks[i];
            var k :| 0 <= k < |prev| && prev[k].index == i;
            assert cs[k] == prev[k];
          } else {
            assert cs[|prev|].index == i;
          }
        }
      } else {
        assert cs == prev;
        forall k | 0 <= k < |cs|
          ensures cs[k].index < |chunks| && cs[k].chunk == chunks[cs[k].index]
        {
          assert init[prev[k].index] == chunks[prev[k].index];
        }
        forall i | 0 <= i < |chunks| && score(chunks[i]) > 0.0
          ensures exists k :: 0 <= k < |cs| && cs[k].index == i
        {
          assert i < n && init[i] == chunks[i];
        }
      }
    }
  }

  /** `chunk_scores` for the query words `q`. */
  function Candidates(chunks: seq<string>, q: set<string>): seq<Scored>
  {
    Collect(chunks, c => Score(q, c))
  }

  /** `x` comes before `y` in `chunk_scores` after the stable descending sort. */
  predicate RanksBefore(x: Scored, y: Scored)
  {
    x.score > y.score || (x.score == y.score && x.index < y.index)
  }

  predicate Ranked(s: seq<Scored>)
  {
    forall k, l :: 0 <= k < l < |s| ==> RanksBefore(s[k], s[l])
  }

  /** Insert `x`, which precedes every entry of `t` in chunk order, after the
      entries with a strictly higher score. */
  function Insert(x: Scored, t: seq<Scored>): (r: seq<Scored>)
    ensures |r| == |t| + 1 && multiset(r) == multiset(t) + multiset{x}
  {
    if t == [] || t[0].score <= x.score then [x] + t
    else
      assert t == [t[0]] + t[1..];
      [t[0]] + Insert(x, t[1..])
  }

  /** chunk_scores.sort(key=score, reverse=True), which Python performs stably. */
  function SortByScore(s: seq<Scored>): (r: seq<Scored>)
    ensures |r| == |s| && multiset(r) == multiset(s)
  {
    if s == [] then []
    else
      assert s == [s[0]] + s[1..];
      Insert(s[0], SortByScore(s[1..]))
  }

  lemma {:induction false} InsertRanked(x: Scored, t: seq<Scored>)
    requires Ranked(t)
    requires forall k :: 0 <= k < |t| ==> x.index < t[k].index
    ensures Ranked(Insert(x, t))
  {
    if t == [] || t[0].score <= x.score {
      var r := [x] + t;
      forall k, l | 0 <= k < l < |r| ensures RanksBefore(r[k], r[l]) {
        if k == 0 && l > 1 {
          assert RanksBefore(t[0], t[l - 1]);
        }
      }
    } else {
      InsertRanked(x, t[1..]);
      var ins := Insert(x, t[1..]);
      var r := [t[0]] + ins;
      assert t == [t[0]] + t[1..];
      forall k, l | 0 <= k < l < |r| ensures RanksBefore(r[k], r[l]) {
        if k == 0 {
          var y := ins[l - 1];
          assert y in multiset(ins);
          if y != x {
            assert y in multiset(t[1..]);
            var m :| 0 <= m < |t[1..]| && t[1..][m] == y;
            assert RanksBefore(t[0], t[m + 1]);
          }
        }
      }
    }
  }

  /** The sort orders by descending score, keeps ties in chunk order, and
      only permutes the entries. */
  lemma {:induction false} SortByScoreRanked(s: seq<Scored>)
    requires forall k, l :: 0 <= k < l < |s| ==> s[k].index < s[l].index
    ensures Ranked(SortByScore(s))
  {
    if s != [] {
      SortByScoreRanked(s[1..]);
      var t := SortByScore(s[1..]);
      forall k | 0 <= k < |t| ensures s[0].index < t[k].index {
        assert t[k] in multiset(s[1..]);
        var m :| 0 <= m < |s[1..]| && s[1..][m] == t[k];
        assert s[m + 1] == t[k];
      }
      InsertRanked(s[0], t);
      assert s == [s[0]] + s[1..];
    }
  }

  function ChunksOf(es: seq<Scored>): (r: seq<string>)
    ensures |r| == |es| && forall k :: 0 <= k < |es| ==> r[k] == es[k].chunk
  {
    seq(|es|, k requires 0 <= k < |es| => es[k].chunk)
  }

  /** What find_relevant_chunks(query, top_k) returns for the stored chunks. */
  function RelevantChunks(textChunks: seq<string>, query: string, topK: int): (r: seq<string>)
    ensures |r| <= |textChunks|
  {
    var q := QueryWords(query);
    if q == {} then Take(textChunks, topK)
    else ChunksOf(Take(SortByScore(Candidates(textChunks, q)), topK))
  }

  /** find_relevant_chunks: the scoring loop over the stored chunks, then the sort. */
  method FindRelevantChunks(textChunks: seq<string>, query: string, topK: int) returns (r: seq<string>)
    ensures r == RelevantChunks(textChunks, query, topK)
  {
    var q := QueryWords(query);
    if q == {} {
      return Take(textChunks, topK);
    }
    var scores: seq<Scored> := [];
    for i := 0 to |textChunks|
      invariant scores == Candidates(textChunks[..i], q)
    {
      var chunk := textChunks[i];
      var total := Score(q, chunk);
      assert textChunks[..i + 1][..i] == textChunks[..i];
      if total > 0.0 {
        scores := scores + [Scored(total, chunk, i)];
      }
    }
    assert textChunks[..|textChunks|] == textChunks;
    var ranked := SortByScore(scores);
    r := ChunksOf(Take(ranked, topK));
  }

  // ---------------------------------------------------------------------
  // Properties of the result

  /** Reordering the entries keeps what is known about each of them. */
  lemma {:induction false} PermutedEntries(a: seq<Scored>, b: seq<Scored>, chunks: seq<string>, score: string -> real)
    requires multiset(a) == multiset(b)
    requires EntriesExact(a, chunks, score) && AllPositiveCollected(a, chunks, score)
    ensures EntriesExact(b, chunks, score) && AllPositiveCollected(b, chunks, score)
  {
    forall k | 0 <= k < |b|
      ensures b[k].index < |chunks| && b[k].chunk == chunks[b[k].index]
      ensures b[k].score == score(b[k].chunk) && b[k].score > 0.0
    {
      assert b[k] in multiset(a);
      var m :| 0 <= m < |a| && a[m] == b[k];
    }
    forall i | 0 <= i < |chunks| && score(chunks[i]) > 0.0
      ensures exists k :: 0 <= k < |b| && b[k].index == i
    {
      var m :| 0 <= m < |a| && a[m].index == i;
      assert a[m] in multiset(b);
      var k :| 0 <= k < |b| && b[k] == a[m];
    }
  }

  /** The ranking holds exactly the positively scored chunks, each with its
      score and position, ordered by non-increasing score with ties in
      stored order. */
  lemma {:induction false} RankingExact(textChunks: seq<string>, q: set<string>)
    ensures var ranked := SortByScore(Candidates(textChunks, q));
      Ranked(ranked)
      && EntriesExact(ranked, textChunks, c => Score(q, c))
      && AllPositiveCollected(ranked, textChunks, c => Score(q, c))
  {
    var cs := Candidates(textChunks, q);
    CollectExact(textChunks, c => Score(q, c));
    SortByScoreRanked(cs);
    PermutedEntries(cs, SortByScore(cs), textChunks, c => Score(q, c));
  }

  /** At most `top_k` chunks come back, each one a stored chunk; with no
      usable query word the result is exactly the first `top_k` stored chunks. */
  lemma {:induction false} RelevantChunksBounds(textChunks: seq<string>, query: string, topK: int)
    ensures var r := RelevantChunks(textChunks, query, topK);
      (topK >= 0 ==> |r| <= topK)
      && (forall c :: c in r ==> c in textChunks)
      && (QueryWords(query) == {} ==> r == Take(textChunks, topK))
  {
    var q := QueryWords(query);
    if q != {} {
      RankingExact(textChunks, q);
      TopEntriesStored(SortByScore(Candidates(textChunks, q)), textChunks, c => Score(q, c), topK);
    }
  }

  /** The chunks of a prefix of exactly known entries are stored chunks. */
  lemma {:induction false} TopEntriesStored(ranked: seq<Scored>, chunks: seq<string>, score: string -> real, topK: int)
    requires EntriesExact(ranked, chunks, score)
    ensures forall c :: c in ChunksOf(Take(ranked, topK)) ==> c in chunks
  {
    var top := Take(ranked, topK);
    var r := ChunksOf(top);
    forall c | c in r ensures c in chunks {
      var k :| 0 <= k < |r| && r[k] == c;
      assert top[k] == ranked[k];
    }
  }

  /** In the scoring branch the result is the first `top_k` entries of the
      ranking, and every returned chunk contains some query word as a
      substring of its lower-cased text. */
  lemma {:induction false} RelevantChunksMatch(textChunks: seq<string>, query: string, topK: int)
    requires QueryWords(query) != {}
    ensures var q := QueryWords(query);
      var r := RelevantChunks(textChunks, query, topK);
      r == ChunksOf(Take(SortByScore(Candidates(textChunks, q)), topK))
      && forall c :: c in r ==> exists w :: w in q && Contains(Lower(c), w)
  {
    var q := QueryWords(query);
    var ranked := SortByScore(Candidates(textChunks, q));
    RankingExact(textChunks, q);
    var r := RelevantChunks(textChunks, query, topK);
    var top := Take(ranked, topK);
    forall c | c in r ensures exists w :: w in q && Contains(Lower(c), w) {
      var k :| 0 <= k < |r| && r[k] == c;
      assert top[k] == ranked[k];
      ScorePositiveIff(q, c);
    }
  }
}
