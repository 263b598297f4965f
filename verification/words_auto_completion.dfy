/**
 * WordsAutoCompletion: the stored words that start with the typed text, ordered
 * by frequency (highest first) and then by word, cut to the completion limit.
 * The query reads the table and never changes it.
 */
module WordsAutoCompletion {
  import opened DataModel

  predicate StartsWith(w: string, prefix: string) {
    |prefix| <= |w| && w[..|prefix|] == prefix
  }

  // ---------------------------------------------------------------------------
  // The ordering: frequency descending, then word ascending (ordinal)
  // ---------------------------------------------------------------------------

  /** Ordinal (character by character) order on words: a comes no later than b. */
  predicate LexLe(a: string, b: string)
    decreases |a|
  {
    |a| == 0 || (|b| > 0 && (a[0] < b[0] || (a[0] == b[0] && LexLe(a[1..], b[1..]))))
  }

  lemma {:induction false} LexLeTotal(a: string, b: string)
    ensures LexLe(a, b) || LexLe(b, a)
    decreases |a|
  {
    if |a| > 0 && |b| > 0 && a[0] == b[0] {
      LexLeTotal(a[1..], b[1..]);
    }
  }

  lemma {:induction false} LexLeAntisymmetric(a: string, b: string)
    requires LexLe(a, b) && LexLe(b, a)
    ensures a == b
    decreases |a|
  {
    if |a| > 0 {
      LexLeAntisymmetric(a[1..], b[1..]);
      assert a == [a[0]] + a[1..] && b == [b[0]] + b[1..];
    }
  }

  lemma {:induction false} LexLeTransitive(a: string, b: string, c: string)
    requires LexLe(a, b) && LexLe(b, c)
    ensures LexLe(a, c)
    decreases |a|
  {
    if |a| > 0 && a[0] == b[0] && b[0] == c[0] {
      LexLeTransitive(a[1..], b[1..], c[1..]);
    }
  }

  /** a is listed no later than b by OrderByDescending(Frequent).ThenBy(Word). */
  predicate RanksBefore(a: FrequentWord, b: FrequentWord) {
    a.frequent > b.frequent || (a.frequent == b.frequent && LexLe(a.word, b.word))
  }

  /** The record the table holds for w. */
  function Entry(m: map<string, int>, w: string): FrequentWord
    requires w in m
  {
    FrequentWord(w, m[w])
  }

  /** w is the stored word ranked first. */
  predicate IsTop(m: map<string, int>, w: string) {
    w in m && forall v :: v in m ==> RanksBefore(Entry(m, w), Entry(m, v))
  }

  lemma RanksBeforeTransitive(a: FrequentWord, b: FrequentWord, c: FrequentWord)
    requires RanksBefore(a, b) && RanksBefore(b, c)
    ensures RanksBefore(a, c)
  {
    if a.frequent == b.frequent && b.frequent == c.frequent {
      LexLeTransitive(a.word, b.word, c.word);
    }
  }

  lemma RanksBeforeTotal(a: FrequentWord, b: FrequentWord)
    ensures RanksBefore(a, b) || RanksBefore(b, a)
  {
    LexLeTotal(a.word, b.word);
  }

  /** Every non-empty table has a word ranked first. */
  lemma {:induction false} TopExists(m: map<string, int>)
    requires m != map[]
    ensures exists w :: IsTop(m, w)
    decreases |m|
  {
    var k :| k in m;
    var rest := m - {k};
    assert forall v :: v in m && v != k ==> v in rest && Entry(rest, v) == Entry(m, v);
    if rest == map[] {
      RanksBeforeTotal(Entry(m, k), Entry(m, k));
      assert IsTop(m, k);
    } else {
      assert |rest| < |m| by {
        assert rest.Keys == m.Keys - {k};
      }
      TopExists(rest);
      var t :| IsTop(rest, t);
      RanksBeforeTotal(Entry(m, k), Entry(m, t));
      if RanksBefore(Entry(m, k), Entry(m, t)) {
        forall v | v in m ensures RanksBefore(Entry(m, k), Entry(m, v)) {
          if v != k {
            assert RanksBefore(Entry(rest, t), Entry(rest, v));
            RanksBeforeTransitive(Entry(m, k), Entry(m, t), Entry(m, v));
          } else {
            RanksBeforeTotal(Entry(m, k), Entry(m, k));
          }
        }
        assert IsTop(m, k);
      } else {
        forall v | v in m ensures RanksBefore(Entry(m, t), Entry(m, v)) {
          if v != k {
            assert RanksBefore(Entry(rest, t), Entry(rest, v));
          }
        }
        assert IsTop(m, t);
      }
    }
  }

  /** At most one word is ranked first. */
  lemma TopUnique(m: map<string, int>)
    ensures forall w1, w2 :: IsTop(m, w1) && IsTop(m, w2) ==> w1 == w2
  {
    forall w1, w2 | IsTop(m, w1) && IsTop(m, w2) ensures w1 == w2 {
      assert RanksBefore(Entry(m, w1), Entry(m, w2)) && RanksBefore(Entry(m, w2), Entry(m, w1));
      LexLeAntisymmetric(w1, w2);
    }
  }

  /** The word of a non-empty table that is ranked first. */
  function Top(m: map<string, int>): (w: string)
    requires m != map[]
    ensures w in m
    ensures forall v :: v in m ==> RanksBefore(Entry(m, w), Entry(m, v))
  {
    TopExists(m);
    TopUnique(m);
    var w :| IsTop(m, w);
    w
  }

  /** The records are in ranking order. */
  predicate Sorted(rows: seq<FrequentWord>) {
    forall i, j :: 0 <= i < j < |rows| ==> RanksBefore(rows[i], rows[j])
  }

  /** r lists every record of m exactly once, in ranking order. */
  ghost predicate IsRankingOf(r: seq<FrequentWord>, m: map<string, int>) {
    && |r| == |m|
    && (forall i :: 0 <= i < |r| ==> r[i].word in m && r[i] == Entry(m, r[i].word))
    && (forall w :: w in m ==> Entry(m, w) in r)
    && Sorted(r)
    && DistinctWords(r)
  }

  /** The top record followed by a ranking of the others is a ranking of the whole table. */
  lemma RankingCons(m: map<string, int>, w: string, tail: seq<FrequentWord>)
    requires w in m && forall v :: v in m ==> RanksBefore(Entry(m, w), Entry(m, v))
    requires IsRankingOf(tail, m - {w})
    ensures IsRankingOf([Entry(m, w)] + tail, m)
  {
    var rest := m - {w};
    assert rest.Keys == m.Keys - {w};
    assert forall v :: v in rest ==> v in m && v != w && Entry(rest, v) == Entry(m, v);
    var r := [Entry(m, w)] + tail;
    assert |r| == |m|;
    forall i | 0 <= i < |r| ensures r[i].word in m && r[i] == Entry(m, r[i].word) {
      if i > 0 {
        assert r[i] == tail[i - 1];
      }
    }
    forall v | v in m ensures Entry(m, v) in r {
      if v != w {
        assert v in rest && Entry(rest, v) in tail;
      }
    }
    forall j | 0 <= j < |tail| ensures RanksBefore(Entry(m, w), tail[j]) && tail[j].word != w {
      assert tail[j].word in rest;
    }
    SortedCons(Entry(m, w), tail);
    DistinctCons(Entry(m, w), tail);
  }

  lemma SortedCons(x: FrequentWord, tail: seq<FrequentWord>)
    requires Sorted(tail)
    requires forall j :: 0 <= j < |tail| ==> RanksBefore(x, tail[j])
    ensures Sorted([x] + tail)
  {
    var r := [x] + tail;
    forall i, j | 0 <= i < j < |r| ensures RanksBefore(r[i], r[j]) {
      assert r[j] == tail[j - 1];
      if i > 0 {
        assert r[i] == tail[i - 1];
      }
    }
  }

  lemma DistinctCons(x: FrequentWord, tail: seq<FrequentWord>)
    requires DistinctWords(tail)
    requires forall j :: 0 <= j < |tail| ==> tail[j].word != x.word
    ensures DistinctWords([x] + tail)
  {
    var r := [x] + tail;
    forall i, j | 0 <= i < j < |r| ensures r[i].word != r[j].word {
      assert r[j] == tail[j - 1];
      if i > 0 {
        assert r[i] == tail[i - 1];
      }
    }
  }

  /** All records of the table, each once, in ranking order. */
  function Ranked(m: map<string, int>): (r: seq<FrequentWord>)
    ensures IsRankingOf(r, m)
    decreases |m|
  {
    if m == map[] then []
    else
      var w := Top(m);
      var rest := m - {w};
      assert rest.Keys == m.Keys - {w};
      var tail := Ranked(rest);
      RankingCons(m, w, tail);
      [Entry(m, w)] + tail
  }

  /** The first n records of a ranking are in ranking order and come from the table. */
  lemma TakeKeepsRanking(ranked: seq<FrequentWord>, m: map<string, int>, n: nat)
    requires IsRankingOf(ranked, m) && n <= |ranked|
    ensures Sorted(ranked[..n]) && DistinctWords(ranked[..n])
    ensures forall fw :: fw in ranked[..n] ==> fw.word in m && fw == Entry(m, fw.word)
  {
    var r := ranked[..n];
    assert forall i :: 0 <= i < n ==> r[i] == ranked[i];
    forall fw | fw in r ensures fw.word in m && fw == Entry(m, fw.word) {
      var i :| 0 <= i < n && r[i] == fw;
    }
  }

  // ---------------------------------------------------------------------------
  // The query
  // ---------------------------------------------------------------------------

  /** The stored records whose word starts with the prefix. */
  function Matches(table: map<string, int>, prefix: string): (m: map<string, int>)
    ensures forall w :: w in m <==> w in table && StartsWith(w, prefix)
    ensures forall w :: w in m ==> m[w] == table[w]
  {
    map w | w in table && StartsWith(w, prefix) :: table[w]
  }

  /**
   * The completions of inputWordToCompletion: the stored records starting with
   * it, best ranked first, at most completionLimit of them.
   */
  function AutoCompleteWordFromFrequentWordsTable(inputWordToCompletion: string, table: map<string, int>, completionLimit: nat)
    : (r: seq<FrequentWord>)
    ensures |r| <= completionLimit
    ensures forall fw :: fw in r ==>
              StartsWith(fw.word, inputWordToCompletion) && fw.word in table && fw == Entry(table, fw.word)
    ensures Sorted(r)
    ensures DistinctWords(r)
  {
    var m := Matches(table, inputWordToCompletion);
    var ranked := Ranked(m);
    var n := if completionLimit < |ranked| then completionLimit else |ranked|;
    TakeKeepsRanking(ranked, m, n);
    ranked[..n]
  }

  /**
   * No match is left out in favour of a worse one: the result is the ranked
   * match list cut at its length, which is the limit or the number of matches,
   * and every match not returned ranks after every one returned.
   */
  lemma NoBetterMatchOmitted(input: string, table: map<string, int>, limit: nat)
    ensures var r := AutoCompleteWordFromFrequentWordsTable(input, table, limit);
            var m := Matches(table, input);
            r == Ranked(m)[..|r|] &&
            |r| == (if limit < |m| then limit else |m|) &&
            forall w :: w in table && StartsWith(w, input) && Entry(table, w) !in r ==>
              |r| == limit && forall fw :: fw in r ==> RanksBefore(fw, Entry(table, w))
  {
    var r := AutoCompleteWordFromFrequentWordsTable(input, table, limit);
    var m := Matches(table, input);
    var ranked := Ranked(m);
    forall w | w in table && StartsWith(w, input) && Entry(table, w) !in r
      ensures |r| == limit && forall fw :: fw in r ==> RanksBefore(fw, Entry(table, w))
    {
      assert Entry(m, w) == Entry(table, w);
      assert Entry(m, w) in ranked;
      var j :| 0 <= j < |ranked| && ranked[j] == Entry(table, w);
      assert j >= |r|;
      forall fw | fw in r ensures RanksBefore(fw, Entry(table, w)) {
        var i :| 0 <= i < |r| && r[i] == fw;
        assert ranked[i] == fw;
      }
    }
  }

  /** An empty table, or a prefix nothing starts with, gives an empty result. */
  lemma NoMatchGivesEmptyResult(input: string, table: map<string, int>, limit: nat)
    requires forall w :: w in table ==> !StartsWith(w, input)
    ensures AutoCompleteWordFromFrequentWordsTable(input, table, limit) == []
  {
    assert Matches(table, input) == map[];
  }

  /** The empty prefix matches every stored word. */
  lemma EmptyPrefixMatchesAll(table: map<string, int>)
    ensures Matches(table, "") == table
  {
  }
}
