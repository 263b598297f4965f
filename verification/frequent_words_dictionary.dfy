/**
 * FrequentWordsDictionary: picking the frequent words of a word list, merging
 * them into the FrequentWords table (an existing word is skipped, a new one is
 * added, the first failed insert stops the batch), clearing the table, and the
 * CREATE / UPDATE / CLEANUP command dispatcher.
 */
module FrequentWords {
  import opened DataModel
  import IOExtentions

  // ---------------------------------------------------------------------------
  // GetFrequentWords: GroupBy, Where, Select
  // ---------------------------------------------------------------------------

  /** Number of occurrences of w in words. */
  function Count(words: seq<string>, w: string): (n: nat)
    ensures n <= |words|
    ensures w !in words ==> n == 0
  {
    if |words| == 0 then 0
    else Count(words[..|words| - 1], w) + (if words[|words| - 1] == w then 1 else 0)
  }

  /** Count agrees with the multiplicity of w in the multiset of words. */
  lemma {:induction false} CountIsMultiplicity(words: seq<string>, w: string)
    ensures Count(words, w) == multiset(words)[w]
  {
    if |words| > 0 {
      var init := words[..|words| - 1];
      CountIsMultiplicity(init, w);
      assert words == init + [words[|words| - 1]];
    }
  }

  /** Index of the first occurrence of w in words. */
  function FirstIndex(words: seq<string>, w: string): (i: nat)
    requires w in words
    ensures i < |words| && words[i] == w
    ensures forall j :: 0 <= j < i ==> words[j] != w
  {
    if words[0] == w then 0 else 1 + FirstIndex(words[1..], w)
  }

  /** Both words occur, and a first occurs before b first occurs. */
  predicate OccursBefore(words: seq<string>, a: string, b: string) {
    a in words && b in words && FirstIndex(words, a) < FirstIndex(words, b)
  }

  /** The records' words occur in `order`, each first occurring before the next record's word. */
  predicate RowsInOrder(order: seq<string>, rows: seq<FrequentWord>) {
    forall i, j :: 0 <= i < j < |rows| ==> OccursBefore(order, rows[i].word, rows[j].word)
  }

  /** Appending a word does not move the first occurrence of a word already present. */
  lemma FirstIndexInPrefix(init: seq<string>, last: string, w: string)
    requires w in init
    ensures w in init + [last]
    ensures FirstIndex(init + [last], w) == FirstIndex(init, w)
  {
    var words := init + [last];
    var a, b := FirstIndex(words, w), FirstIndex(init, w);
    assert words[b] == w;
  }

  /** The group keys of GroupBy(x => x): the distinct words, in order of first occurrence. */
  function GroupKeys(words: seq<string>): (keys: seq<string>)
    ensures forall i, j :: 0 <= i < j < |keys| ==> keys[i] != keys[j]
    ensures forall w :: w in keys <==> w in words
    ensures forall i, j :: 0 <= i < j < |keys| ==> OccursBefore(words, keys[i], keys[j])
  {
    if |words| == 0 then []
    else
      var init := words[..|words| - 1];
      var last := words[|words| - 1];
      var keys := GroupKeys(init);
      assert words == init + [last];
      forall k | k in keys
        ensures k in words && FirstIndex(words, k) == FirstIndex(init, k)
      {
        FirstIndexInPrefix(init, last, k);
      }
      if last in keys then keys
      else
        assert FirstIndex(words, last) == |words| - 1;
        assert forall i :: 0 <= i < |keys| ==> keys[i] in keys;
        keys + [last]
  }

  /** The three Where filters: more than two occurrences, length from 3 to 15. */
  predicate PassesFilter(w: string, count: int) {
    count > 2 && |w| > 2 && |w| < 16
  }

  /** Where and Select over the groups whose keys are given, in the order of the keys. */
  function SelectFrequent(keys: seq<string>, words: seq<string>): (rows: seq<FrequentWord>)
    requires forall i, j :: 0 <= i < j < |keys| ==> keys[i] != keys[j]
    ensures forall fw :: fw in rows <==>
              fw.word in keys && fw.frequent == Count(words, fw.word) && PassesFilter(fw.word, fw.frequent)
    ensures DistinctWords(rows)
  {
    if |keys| == 0 then []
    else
      var w := keys[0];
      var rest := SelectFrequent(keys[1..], words);
      var n := Count(words, w);
      if PassesFilter(w, n) then
        assert forall j :: 0 <= j < |rest| ==> rest[j] in rest && rest[j].word in keys[1..];
        [FrequentWord(w, n)] + rest
      else rest
  }

  /** The selected records keep the order of their keys. */
  lemma {:induction false} SelectFrequentKeepsKeyOrder(keys: seq<string>, words: seq<string>)
    requires forall i, j :: 0 <= i < j < |keys| ==> keys[i] != keys[j]
    ensures RowsInOrder(keys, SelectFrequent(keys, words))
  {
    if |keys| > 0 {
      var w := keys[0];
      var rows := SelectFrequent(keys, words);
      var rest := SelectFrequent(keys[1..], words);
      SelectFrequentKeepsKeyOrder(keys[1..], words);
      OrderInTailLifts(keys, rest);
      if rows != rest {
        assert forall r :: r in rest ==> r.word in keys[1..];
        OrderCons(keys, FrequentWord(w, Count(words, w)), rest);
      }
    }
  }

  /** Records ordered by the tail of a list of distinct words are ordered by the whole list. */
  lemma OrderInTailLifts(keys: seq<string>, rows: seq<FrequentWord>)
    requires forall i, j :: 0 <= i < j < |keys| ==> keys[i] != keys[j]
    requires |keys| > 0 && RowsInOrder(keys[1..], rows)
    ensures RowsInOrder(keys, rows)
  {
    forall i, j | 0 <= i < j < |rows|
      ensures OccursBefore(keys, rows[i].word, rows[j].word)
    {
      assert OccursBefore(keys[1..], rows[i].word, rows[j].word);
      FirstIndexInTail(keys, rows[i].word);
      FirstIndexInTail(keys, rows[j].word);
    }
  }

  /** The record of the first key, put before records of later keys, keeps the order. */
  lemma OrderCons(keys: seq<string>, fw: FrequentWord, rows: seq<FrequentWord>)
    requires forall i, j :: 0 <= i < j < |keys| ==> keys[i] != keys[j]
    requires |keys| > 0 && fw.word == keys[0]
    requires forall r :: r in rows ==> r.word in keys[1..]
    requires RowsInOrder(keys, rows)
    ensures RowsInOrder(keys, [fw] + rows)
  {
    var all := [fw] + rows;
    assert FirstIndex(keys, fw.word) == 0;
    forall j | 0 <= j < |rows|
      ensures OccursBefore(keys, fw.word, rows[j].word)
    {
      assert rows[j] in rows;
      FirstIndexInTail(keys, rows[j].word);
    }
    forall i, j | 0 <= i < j < |all|
      ensures OccursBefore(keys, all[i].word, all[j].word)
    {
      if i > 0 {
        assert all[i] == rows[i - 1] && all[j] == rows[j - 1];
      } else {
        assert all[j] == rows[j - 1];
      }
    }
  }

  /** A word of the tail of a list of distinct words is found one place later in the whole list. */
  lemma FirstIndexInTail(keys: seq<string>, v: string)
    requires forall i, j :: 0 <= i < j < |keys| ==> keys[i] != keys[j]
    requires |keys| > 0 && v in keys[1..]
    ensures v in keys && FirstIndex(keys, v) == 1 + FirstIndex(keys[1..], v)
  {
    var k := FirstIndex(keys[1..], v);
    assert keys[k + 1] == v;
    assert keys[0] != v;
  }

  /**
   * The frequent words of a word list: each distinct word occurring more than
   * twice with 3 to 15 characters, paired with its number of occurrences, and
   * no other record.
   */
  function GetFrequentWords(words: seq<string>): (rows: seq<FrequentWord>)
    ensures forall fw :: fw in rows <==>
              fw.frequent == Count(words, fw.word) && PassesFilter(fw.word, fw.frequent)
    ensures forall fw :: fw in rows ==> fw.word in words
    ensures DistinctWords(rows)
  {
    SelectFrequent(GroupKeys(words), words)
  }

  /**
   * The frequent words come in the order in which their words first occur,
   * the order of GroupBy's groups; a failed insert is therefore reached only
   * after trying every candidate whose word first occurs earlier.
   */
  lemma FrequentWordsInFirstOccurrenceOrder(words: seq<string>)
    ensures RowsInOrder(words, GetFrequentWords(words))
  {
    var keys := GroupKeys(words);
    var rows := SelectFrequent(keys, words);
    SelectFrequentKeepsKeyOrder(keys, words);
    OrderThroughKeys(words, keys, rows);
  }

  /** Records in the order of keys that are in first-occurrence order are themselves in first-occurrence order. */
  lemma OrderThroughKeys(words: seq<string>, keys: seq<string>, rows: seq<FrequentWord>)
    requires forall i, j :: 0 <= i < j < |keys| ==> OccursBefore(words, keys[i], keys[j])
    requires RowsInOrder(keys, rows)
    ensures RowsInOrder(words, rows)
  {
    forall i, j | 0 <= i < j < |rows|
      ensures OccursBefore(words, rows[i].word, rows[j].word)
    {
      assert OccursBefore(keys, rows[i].word, rows[j].word);
      var p, q := FirstIndex(keys, rows[i].word), FirstIndex(keys, rows[j].word);
      assert OccursBefore(words, keys[p], keys[q]);
    }
  }

  /** Every frequent word is non-empty and fits the Word column, so the filter never yields a word the table refuses for length. */
  lemma FrequentWordsFitWordColumn(words: seq<string>)
    ensures forall fw :: fw in GetFrequentWords(words) ==> |fw.word| > 0 && FitsWordColumn(fw.word)
  {
  }

  /** The frequent words depend only on the multiset of words, not on their order. */
  lemma FrequentWordsIgnoreOrder(a: seq<string>, b: seq<string>)
    requires multiset(a) == multiset(b)
    ensures forall fw :: fw in GetFrequentWords(a) <==> fw in GetFrequentWords(b)
  {
    forall w: string ensures Count(a, w) == Count(b, w) {
      CountIsMultiplicity(a, w);
      CountIsMultiplicity(b, w);
    }
  }

  // ---------------------------------------------------------------------------
  // Ingestion: the loop shared by CREATE and UPDATE
  // ---------------------------------------------------------------------------

  datatype IngestOutcome =
    | AllProcessed
    | InsertFailed(word: string)   // the batch stopped at this word

  /**
   * Whether adding the record and saving succeeds: the word is not stored yet
   * (unique index), fits the Word column, and is not one the store rejects.
   */
  predicate InsertSucceeds(table: map<string, int>, fw: FrequentWord, rejected: set<string>) {
    fw.word !in table && FitsWordColumn(fw.word) && fw.word !in rejected
  }

  /**
   * The table and outcome after processing the candidates in order: a stored
   * word is skipped, an absent one is inserted, and a failed insert ends the batch.
   */
  function Ingest(table: map<string, int>, cands: seq<FrequentWord>, rejected: set<string>)
    : (r: (map<string, int>, IngestOutcome))
    ensures forall w :: w in table ==> w in r.0 && r.0[w] == table[w]
    ensures r.1.InsertFailed? ==> r.1.word !in r.0 && exists c :: c in cands && c.word == r.1.word
    decreases |cands|
  {
    if |cands| == 0 then (table, AllProcessed)
    else
      var c := cands[0];
      if c.word in table then Ingest(table, cands[1..], rejected)
      else if !InsertSucceeds(table, c, rejected) then (table, InsertFailed(c.word))
      else Ingest(table[c.word := c.frequent], cands[1..], rejected)
  }

  /**
   * Ingestion only adds: every stored word keeps its frequency, and every new
   * entry is one of the candidates; the column constraint is kept.
   */
  lemma {:induction false} IngestOnlyAdds(table: map<string, int>, cands: seq<FrequentWord>, rejected: set<string>)
    ensures var t := Ingest(table, cands, rejected).0;
            (forall w :: w in table ==> w in t && t[w] == table[w]) &&
            (forall w :: w in t && w !in table ==> FrequentWord(w, t[w]) in cands) &&
            (ValidTable(table) ==> ValidTable(t))
    decreases |cands|
  {
    if |cands| > 0 {
      var c := cands[0];
      if c.word in table {
        IngestOnlyAdds(table, cands[1..], rejected);
      } else if InsertSucceeds(table, c, rejected) {
        IngestOnlyAdds(table[c.word := c.frequent], cands[1..], rejected);
      }
    }
  }

  /** Processing a + b is processing a, then b from where a left off unless a stopped. */
  lemma {:induction false} IngestConcat(table: map<string, int>, a: seq<FrequentWord>, b: seq<FrequentWord>, rejected: set<string>)
    ensures Ingest(table, a + b, rejected) ==
            var (t, o) := Ingest(table, a, rejected);
            if o == AllProcessed then Ingest(t, b, rejected) else (t, o)
    decreases |a|
  {
    if |a| > 0 {
      assert (a + b)[0] == a[0] && (a + b)[1..] == a[1..] + b;
      var c := a[0];
      if c.word in table {
        IngestConcat(table, a[1..], b, rejected);
      } else if InsertSucceeds(table, c, rejected) {
        IngestConcat(table[c.word := c.frequent], a[1..], b, rejected);
      }
    } else {
      assert a + b == b;
    }
  }

  /**
   * A failed insert stops the batch: the table is the one left by the earlier
   * candidates, and no later candidate is attempted.
   */
  lemma FailedInsertStopsBatch(table: map<string, int>, cands: seq<FrequentWord>, rejected: set<string>, k: nat)
    requires k < |cands|
    requires Ingest(table, cands[..k], rejected).1 == AllProcessed
    requires var t := Ingest(table, cands[..k], rejected).0;
             cands[k].word !in t && !InsertSucceeds(t, cands[k], rejected)
    ensures Ingest(table, cands, rejected) ==
            (Ingest(table, cands[..k], rejected).0, InsertFailed(cands[k].word))
  {
    IngestConcat(table, cands[..k], cands[k..], rejected);
    assert cands[..k] + cands[k..] == cands;
    assert cands[k..][0] == cands[k];
  }

  /** After a complete batch every candidate word is stored. */
  lemma {:induction false} CompleteBatchStoresAll(table: map<string, int>, cands: seq<FrequentWord>, rejected: set<string>)
    requires Ingest(table, cands, rejected).1 == AllProcessed
    ensures forall c :: c in cands ==> c.word in Ingest(table, cands, rejected).0
    decreases |cands|
  {
    if |cands| > 0 {
      var c := cands[0];
      var t' := if c.word in table then table else table[c.word := c.frequent];
      CompleteBatchStoresAll(t', cands[1..], rejected);
      IngestOnlyAdds(t', cands[1..], rejected);
      assert forall d :: d in cands ==> d == c || d in cands[1..];
    }
  }

  /**
   * A batch of distinct words completes exactly when every candidate is stored
   * already or can be inserted; then the table gains exactly the absent
   * candidates, each with its batch frequency.
   */
  lemma {:induction false} CompleteBatchResult(table: map<string, int>, cands: seq<FrequentWord>, rejected: set<string>)
    requires DistinctWords(cands)
    ensures var (t, o) := Ingest(table, cands, rejected);
            (o == AllProcessed <==>
              forall c :: c in cands ==> c.word in table || (FitsWordColumn(c.word) && c.word !in rejected)) &&
            (o == AllProcessed ==>
              (forall w :: w in t && w !in table ==> FrequentWord(w, t[w]) in cands) &&
              (forall w :: w in table ==> w in t && t[w] == table[w]) &&
              (forall c :: c in cands ==> c.word in t && (c.word !in table ==> t[c.word] == c.frequent)))
    decreases |cands|
  {
    if |cands| > 0 {
      var c := cands[0];
      var rest := cands[1..];
      assert DistinctWords(rest);
      assert forall d :: d in cands ==> d == c || d in rest;
      assert forall d :: d in rest ==> d.word != c.word;
      IngestOnlyAdds(table, cands, rejected);
      if c.word in table {
        CompleteBatchResult(table, rest, rejected);
      } else if InsertSucceeds(table, c, rejected) {
        var t1 := table[c.word := c.frequent];
        CompleteBatchResult(t1, rest, rejected);
        IngestOnlyAdds(t1, rest, rejected);
      }
    }
  }

  /** A batch whose words are all stored changes nothing, whatever the store would reject. */
  lemma {:induction false} StoredWordsAreSkipped(table: map<string, int>, cands: seq<FrequentWord>, rejected: set<string>)
    requires forall c :: c in cands ==> c.word in table
    ensures Ingest(table, cands, rejected) == (table, AllProcessed)
    decreases |cands|
  {
    if |cands| > 0 {
      assert cands[0] in cands;
      assert forall c :: c in cands[1..] ==> c in cands;
      StoredWordsAreSkipped(table, cands[1..], rejected);
    }
  }

  /** Ingesting the same batch again leaves the table as the first ingestion left it. */
  lemma IngestTwiceIsIngestOnce(table: map<string, int>, cands: seq<FrequentWord>, rejected: set<string>, rejectedAgain: set<string>)
    requires Ingest(table, cands, rejected).1 == AllProcessed
    ensures var t := Ingest(table, cands, rejected).0;
            Ingest(t, cands, rejectedAgain) == (t, AllProcessed)
  {
    CompleteBatchStoresAll(table, cands, rejected);
    StoredWordsAreSkipped(Ingest(table, cands, rejected).0, cands, rejectedAgain);
  }

  /** The insert a batch stopped at was refused for the column length or by the store, not for a duplicate. */
  lemma {:induction false} IngestFailureIsRefused(table: map<string, int>, cands: seq<FrequentWord>, rejected: set<string>)
    ensures var o := Ingest(table, cands, rejected).1;
            o.InsertFailed? ==> !FitsWordColumn(o.word) || o.word in rejected
    decreases |cands|
  {
    if |cands| > 0 {
      var c := cands[0];
      if c.word in table {
        IngestFailureIsRefused(table, cands[1..], rejected);
      } else if InsertSucceeds(table, c, rejected) {
        IngestFailureIsRefused(table[c.word := c.frequent], cands[1..], rejected);
      }
    }
  }

  /**
   * Ingesting the same batch again into what it left, with the same store,
   * changes nothing and ends the same way, also when the first run stopped
   * at a failed insert.
   */
  lemma {:induction false} IngestTwiceSameStore(table: map<string, int>, cands: seq<FrequentWord>, rejected: set<string>)
    ensures var r := Ingest(table, cands, rejected);
            Ingest(r.0, cands, rejected) == r
    decreases |cands|
  {
    if |cands| > 0 {
      var c := cands[0];
      if c.word in table {
        IngestTwiceSameStore(table, cands[1..], rejected);
      } else if InsertSucceeds(table, c, rejected) {
        IngestTwiceSameStore(table[c.word := c.frequent], cands[1..], rejected);
      }
    }
  }

  // ---------------------------------------------------------------------------
  // Commands
  // ---------------------------------------------------------------------------

  /**
   * What the dictionary depends on outside itself: the files (path to decoded
   * text), the words whose insert the store rejects, and whether TRUNCATE fails.
   */
  datatype Environment = Environment(files: map<string, string>, rejected: set<string>, truncateFails: bool)

  datatype CommandOutcome =
    | DictionaryLoaded
    | Cleaned
    | CleanupFailed                   // reported and swallowed
    | UnsupportedCommand(keyword: string)
    | NotEnoughArguments
    | EmptyPath                       // exception escaping the dispatcher
    | FileNotFound(path: string)      // exception escaping the dispatcher
    | StoreError(word: string)        // exception escaping the dispatcher

  /** Upper-casing of one character, restricted to the ASCII letters. */
  function ToUpperChar(c: char): (u: char)
    ensures !('a' <= u <= 'z')
    ensures 'a' <= c <= 'z' ==> u as int == c as int - 32
    ensures !('a' <= c <= 'z') ==> u == c
  {
    if 'a' <= c <= 'z' then (c as int - 'a' as int + 'A' as int) as char else c
  }

  /** Upper-casing of the command keyword, character by character. */
  function ToUpper(s: string): (r: string)
    ensures |r| == |s|
    ensures forall i :: 0 <= i < |s| ==> r[i] == ToUpperChar(s[i])
    ensures forall i :: 0 <= i < |s| ==> !('a' <= r[i] <= 'z')
  {
    seq(|s|, i requires 0 <= i < |s| => ToUpperChar(s[i]))
  }

  /** The words of the file at path, or why they cannot be read. */
  function LoadWords(path: string, files: map<string, string>): (r: FileWords)
    ensures r.Read? <==> path != "" && path in files
    ensures r.Read? ==> r.words == IOExtentions.GetWords(files[path])
  {
    if path == "" then PathEmpty
    else if path !in files then PathMissing
    else Read(IOExtentions.GetWords(files[path]))
  }

  /** The words read from a file, or why the path was refused. */
  datatype FileWords = Read(words: seq<string>) | PathEmpty | PathMissing

  /** Table and outcome of CREATE or UPDATE with the given path. */
  function LoadIntoTable(table: map<string, int>, path: string, env: Environment): (r: (map<string, int>, CommandOutcome))
    ensures r.1 == EmptyPath <==> path == ""
    ensures r.1 == FileNotFound(path) <==> path != "" && path !in env.files
    ensures r.1 == EmptyPath || r.1.FileNotFound? ==> r.0 == table
    ensures r.1 == DictionaryLoaded || r.1.StoreError? <==> path != "" && path in env.files
    ensures forall w :: w in table ==> w in r.0 && r.0[w] == table[w]
  {
    match LoadWords(path, env.files)
    case PathEmpty => (table, EmptyPath)
    case PathMissing => (table, FileNotFound(path))
    case Read(words) =>
      var (t, o) := Ingest(table, GetFrequentWords(words), env.rejected);
      (t, if o == AllProcessed then DictionaryLoaded else StoreError(o.word))
  }

    /**
   * A completed load stores every frequent word of the file; a word that was
   * not stored before gets its count in the file, and nothing else is added.
   */
  lemma LoadedAddsFrequentWords(table: map<string, int>, path: string, env: Environment)
    requires LoadIntoTable(table, path, env).1 == DictionaryLoaded
    ensures path in env.files
    ensures var t := LoadIntoTable(table, path, env).0;
            var cands := GetFrequentWords(IOExtentions.GetWords(env.files[path]));
            (forall fw :: fw in cands ==> fw.word in t && (fw.word !in table ==> t[fw.word] == fw.frequent)) &&
            (forall w :: w in t && w !in table ==> FrequentWord(w, t[w]) in cands)
  {
    CompleteBatchResult(table, GetFrequentWords(IOExtentions.GetWords(env.files[path])), env.rejected);
  }

  /**
   * A load that stops at a failed insert has added only frequent words of the
   * file, each with its count in the file; the word it stopped at is one of
   * them, is not stored, and is one the store rejects (every frequent word
   * fits the Word column).
   */
  lemma LoadStoppedAddsOnlyFrequentWords(table: map<string, int>, path: string, env: Environment)
    requires LoadIntoTable(table, path, env).1.StoreError?
    ensures path in env.files
    ensures var (t, o) := LoadIntoTable(table, path, env);
            var cands := GetFrequentWords(IOExtentions.GetWords(env.files[path]));
            (forall w :: w in t && w !in table ==> FrequentWord(w, t[w]) in cands) &&
            o.word !in t && (exists c :: c in cands && c.word == o.word) &&
            o.word in env.rejected
  {
    var words := IOExtentions.GetWords(env.files[path]);
    var cands := GetFrequentWords(words);
    IngestOnlyAdds(table, cands, env.rejected);
    IngestFailureIsRefused(table, cands, env.rejected);
    FrequentWordsFitWordColumn(words);
  }

/** Table and outcome of CLEANUP: emptied, or left as it was when TRUNCATE fails. */
  function Cleanup(table: map<string, int>, env: Environment): (r: (map<string, int>, CommandOutcome))
    ensures r.1 == Cleaned <==> !env.truncateFails
    ensures r.1 == Cleaned ==> r.0 == map[]
    ensures r.1 != Cleaned ==> r.1 == CleanupFailed && r.0 == table
  {
    if env.truncateFails then (table, CleanupFailed) else (map[], Cleaned)
  }

  /** Table and outcome of a command line. */
  function RunCommand(table: map<string, int>, commands: seq<string>, env: Environment): (r: (map<string, int>, CommandOutcome))
    ensures !(r.1 == DictionaryLoaded || r.1 == Cleaned || r.1.StoreError?) ==> r.0 == table
    ensures r.1 == Cleaned ==> r.0 == map[]
    ensures r.1 == DictionaryLoaded || r.1.StoreError? ==> forall w :: w in table ==> w in r.0 && r.0[w] == table[w]
  {
    if |commands| == 0 then (table, NotEnoughArguments)
    else
      var keyword := ToUpper(commands[0]);
      if keyword == "CREATE" then
        if |commands| < 2 then (table, NotEnoughArguments) else LoadIntoTable(table, commands[1], env)
      else if keyword == "UPDATE" then
        if |commands| < 2 then (table, NotEnoughArguments) else LoadIntoTable(table, commands[1], env)
      else if keyword == "CLEANUP" then Cleanup(table, env)
      else (table, UnsupportedCommand(commands[0]))
  }

  /** CREATE and UPDATE have the same effect and outcome. */
  lemma CreateEqualsUpdate(table: map<string, int>, create: string, update: string, args: seq<string>, env: Environment)
    requires ToUpper(create) == "CREATE" && ToUpper(update) == "UPDATE"
    ensures RunCommand(table, [create] + args, env) == RunCommand(table, [update] + args, env)
  {
    assert ([create] + args)[0] == create && ([update] + args)[0] == update;
  }

  /** Keywords that differ only in letter case have the same effect on the table. */
  lemma KeywordIgnoresCase(table: map<string, int>, k1: string, k2: string, args: seq<string>, env: Environment)
    requires ToUpper(k1) == ToUpper(k2)
    ensures RunCommand(table, [k1] + args, env).0 == RunCommand(table, [k2] + args, env).0
  {
    assert ([k1] + args)[0] == k1 && ([k2] + args)[0] == k2;
    assert ([k1] + args)[1..] == args == ([k2] + args)[1..];
  }

  /** An unknown keyword or a missing path changes nothing. */
  lemma BadCommandChangesNothing(table: map<string, int>, commands: seq<string>, env: Environment)
    requires |commands| == 0 || ToUpper(commands[0]) !in {"CREATE", "UPDATE", "CLEANUP"} ||
             (ToUpper(commands[0]) in {"CREATE", "UPDATE"} && |commands| < 2)
    ensures RunCommand(table, commands, env).0 == table
    ensures RunCommand(table, commands, env).1 in {NotEnoughArguments, UnsupportedCommand(if |commands| == 0 then "" else commands[0])}
  {
  }

  /** A CLEANUP that succeeds leaves the table empty; one that fails leaves it as it was. */
  lemma CleanupIsAllOrNothing(table: map<string, int>, commands: seq<string>, env: Environment)
    requires |commands| > 0 && ToUpper(commands[0]) == "CLEANUP"
    ensures var (t, o) := RunCommand(table, commands, env);
            (o == Cleaned && t == map[]) || (o == CleanupFailed && t == table)
  {
  }

  /**
   * Every stored record was made by ingestion: a lowercase word without
   * delimiters, 3 to 15 characters long, with a frequency above 2.
   */
  ghost predicate IngestedTable(table: map<string, int>) {
    forall w :: w in table ==>
      PassesFilter(w, table[w]) && IOExtentions.IsLowercase(w) && IOExtentions.NoSplitter(w)
  }

  /** Every command keeps a table whose records were all made by ingestion. */
  lemma CommandsKeepIngestedTable(table: map<string, int>, commands: seq<string>, env: Environment)
    requires IngestedTable(table)
    ensures IngestedTable(RunCommand(table, commands, env).0)
  {
    var t := RunCommand(table, commands, env).0;
    if |commands| >= 2 && ToUpper(commands[0]) in {"CREATE", "UPDATE"} {
      var path := commands[1];
      if path != "" && path in env.files {
        var words := IOExtentions.GetWords(env.files[path]);
        var cands := GetFrequentWords(words);
        IngestOnlyAdds(table, cands, env.rejected);
        assert t == Ingest(table, cands, env.rejected).0;
        forall w | w in t
          ensures PassesFilter(w, t[w]) && IOExtentions.IsLowercase(w) && IOExtentions.NoSplitter(w)
        {
          if w !in table {
            assert FrequentWord(w, t[w]) in cands;
          }
        }
      }
    }
  }

  /** Running the same CREATE or UPDATE again after it completed changes nothing. */
  lemma ReloadingIsNoOp(table: map<string, int>, commands: seq<string>, env: Environment, envAgain: Environment)
    requires |commands| >= 2 && ToUpper(commands[0]) in {"CREATE", "UPDATE"}
    requires RunCommand(table, commands, env).1 == DictionaryLoaded
    requires envAgain.files == env.files
    ensures var t := RunCommand(table, commands, env).0;
            RunCommand(t, commands, envAgain) == (t, DictionaryLoaded)
  {
    var words := IOExtentions.GetWords(env.files[commands[1]]);
    IngestTwiceIsIngestOnce(table, GetFrequentWords(words), env.rejected, envAgain.rejected);
  }

  /** CREATE or UPDATE, in any letter case and with a path, runs the load of that path. */
  lemma LoadCommandRunsLoad(table: map<string, int>, commands: seq<string>, env: Environment)
    requires |commands| >= 2 && ToUpper(commands[0]) in {"CREATE", "UPDATE"}
    ensures RunCommand(table, commands, env) == LoadIntoTable(table, commands[1], env)
  {
  }

  /**
   * Running any command line a second time with the same environment changes
   * nothing and ends the same way, including a load that stopped at a failed
   * insert and a CLEANUP whose TRUNCATE failed.
   */
  lemma RepeatedCommandIsNoOp(table: map<string, int>, commands: seq<string>, env: Environment)
    ensures var r := RunCommand(table, commands, env);
            RunCommand(r.0, commands, env) == r
  {
    if |commands| >= 2 && ToUpper(commands[0]) in {"CREATE", "UPDATE"} {
      var path := commands[1];
      if path != "" && path in env.files {
        IngestTwiceSameStore(table, GetFrequentWords(IOExtentions.GetWords(env.files[path])), env.rejected);
      }
    }
  }

  // ---------------------------------------------------------------------------
  // The dictionary object over its table
  // ---------------------------------------------------------------------------

  class FrequentWordsDictionary {
    /** The FrequentWords table, word to frequency. */
    var table: map<string, int>

    ghost predicate Valid()
      reads this
    {
      ValidTable(table)
    }

    /** Attaches to the table as it is found. */
    constructor (existing: map<string, int>)
      requires ValidTable(existing)
      ensures Valid() && table == existing
    {
      table := existing;
    }

    /**
     * Attaches to the table and runs one command line on it. The model keeps
     * only the resulting table: an EmptyPath, FileNotFound or StoreError
     * outcome is, in the code, an exception that escapes the constructor.
     */
    constructor WithCommand(existing: map<string, int>, command: seq<string>, env: Environment)
      requires ValidTable(existing)
      ensures Valid() && table == RunCommand(existing, command, env).0
    {
      table := existing;
      new;
      var _ := GetInputCommand(command, env);
    }

    method IsWordContainsInFrequentWordsTable(searchWord: string) returns (found: bool)
      ensures found <==> searchWord in table
    {
      found := searchWord in table;
    }

    /** Adds one record and saves; a failure is reported to the caller. */
    method UpdateDictionaryWithWord(inputFrequentWord: FrequentWord, rejected: set<string>) returns (saved: bool)
      requires Valid()
      modifies this
      ensures Valid()
      ensures saved == InsertSucceeds(old(table), inputFrequentWord, rejected)
      ensures table == if saved then old(table)[inputFrequentWord.word := inputFrequentWord.frequent] else old(table)
    {
      saved := InsertSucceeds(table, inputFrequentWord, rejected);
      if saved {
        table := table[inputFrequentWord.word := inputFrequentWord.frequent];
      }
    }

    /** The foreach over the frequent words that CREATE and UPDATE both run. */
    method AddFrequentWords(frequentWords: seq<FrequentWord>, rejected: set<string>) returns (outcome: IngestOutcome)
      requires Valid()
      modifies this
      ensures Valid()
      ensures (table, outcome) == Ingest(old(table), frequentWords, rejected)
    {
      var i := 0;
      while i < |frequentWords|
        invariant 0 <= i <= |frequentWords|
        invariant Valid()
        invariant Ingest(old(table), frequentWords, rejected) == Ingest(table, frequentWords[i..], rejected)
      {
        var data := frequentWords[i];
        assert frequentWords[i..][1..] == frequentWords[i + 1..];
        var found := IsWordContainsInFrequentWordsTable(data.word);
        if !found {
          var saved := UpdateDictionaryWithWord(data, rejected);
          if !saved {
            return InsertFailed(data.word);
          }
        }
        i := i + 1;
      }
      outcome := AllProcessed;
    }

    method CreateDictionaryWithDataFromTextFile(textFilePath: string, env: Environment) returns (r: CommandOutcome)
      requires Valid()
      modifies this
      ensures Valid()
      ensures (table, r) == LoadIntoTable(old(table), textFilePath, env)
    {
      r := LoadAndAdd(textFilePath, env);
    }

    method UpdateDictionaryWithDataFromTextFile(textFilePath: string, env: Environment) returns (r: CommandOutcome)
      requires Valid()
      modifies this
      ensures Valid()
      ensures (table, r) == LoadIntoTable(old(table), textFilePath, env)
    {
      r := LoadAndAdd(textFilePath, env);
    }

    /** Check the file, read its words, pick the frequent ones, add them. */
    method LoadAndAdd(textFilePath: string, env: Environment) returns (r: CommandOutcome)
      requires Valid()
      modifies this
      ensures Valid()
      ensures (table, r) == LoadIntoTable(old(table), textFilePath, env)
    {
      if textFilePath == "" {
        return EmptyPath;
      }
      if textFilePath !in env.files {
        return FileNotFound(textFilePath);
      }
      var wordsFromFile := IOExtentions.GetWords(env.files[textFilePath]);
      var frequentWords := GetFrequentWords(wordsFromFile);
      var outcome := AddFrequentWords(frequentWords, env.rejected);
      r := if outcome == AllProcessed then DictionaryLoaded else StoreError(outcome.word);
    }

    /** Truncates the table; a failure is reported and leaves the table as it was. */
    method CleanupDictionary(env: Environment) returns (r: CommandOutcome)
      requires Valid()
      modifies this
      ensures Valid()
      ensures (table, r) == Cleanup(old(table), env)
    {
      if env.truncateFails {
        r := CleanupFailed;
      } else {
        table := map[];
        r := Cleaned;
      }
    }

    method GetInputCommand(commands: seq<string>, env: Environment) returns (r: CommandOutcome)
      requires Valid()
      modifies this
      ensures Valid()
      ensures (table, r) == RunCommand(old(table), commands, env)
    {
      if |commands| == 0 {
        return NotEnoughArguments;
      }
      var keyword := ToUpper(commands[0]);
      if keyword == "CREATE" {
        if |commands| < 2 {
          return NotEnoughArguments;
        }
        r := CreateDictionaryWithDataFromTextFile(commands[1], env);
      } else if keyword == "UPDATE" {
        if |commands| < 2 {
          return NotEnoughArguments;
        }
        r := UpdateDictionaryWithDataFromTextFile(commands[1], env);
      } else if keyword == "CLEANUP" {
        r := CleanupDictionary(env);
      } else {
        r := UnsupportedCommand(commands[0]);
      }
    }
  }
}
