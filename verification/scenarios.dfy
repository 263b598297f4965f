/**
 * The components together: text to words to frequent words to the table to
 * completions, on a worked example, and what CLEANUP means for completions.
 */
module Scenarios {
  import opened DataModel
  import opened FrequentWords
  import opened WordsAutoCompletion
  import IOExtentions

  const ExampleText: string := "cat cat cat dog dog dog dog bird"
  const ExampleWords: seq<string> := ["cat", "cat", "cat", "dog", "dog", "dog", "dog", "bird"]

  lemma ExampleTextIsJoined()
    ensures ExampleText == IOExtentions.JoinWithSpaces(ExampleWords)
  {
  }

  lemma ExampleWordsArePlain()
    ensures forall w :: w in ExampleWords ==>
              |w| > 0 && IOExtentions.NoSplitter(w) && IOExtentions.IsLowercase(w)
  {
    forall w | w in ExampleWords
      ensures |w| > 0 && IOExtentions.NoSplitter(w) && IOExtentions.IsLowercase(w)
    {
      assert w == "cat" || w == "dog" || w == "bird";
    }
  }

  /** The example text reads as its eight words. */
  lemma ExampleTextWords()
    ensures IOExtentions.GetWords(ExampleText) == ExampleWords
  {
    ExampleTextIsJoined();
    ExampleWordsArePlain();
    IOExtentions.SpacedWordsRoundTrip(ExampleWords);
  }

  /** The counts of a word list with three "cat", four "dog" and one "bird". */
  lemma CatDogBirdCount(words: seq<string>, w: string)
    requires multiset(words) == multiset{"cat", "cat", "cat", "dog", "dog", "dog", "dog", "bird"}
    ensures Count(words, w) == if w == "cat" then 3 else if w == "dog" then 4 else if w == "bird" then 1 else 0
  {
    CountIsMultiplicity(words, w);
  }

  /** Any word list with three "cat", four "dog" and one "bird" has exactly cat = 3 and dog = 4 as frequent words. */
  lemma CatDogBirdFrequentWords(words: seq<string>)
    requires multiset(words) == multiset{"cat", "cat", "cat", "dog", "dog", "dog", "dog", "bird"}
    ensures forall fw :: fw in GetFrequentWords(words) <==>
              fw == FrequentWord("cat", 3) || fw == FrequentWord("dog", 4)
  {
    forall fw
      ensures fw in GetFrequentWords(words) <==> fw == FrequentWord("cat", 3) || fw == FrequentWord("dog", 4)
    {
      CatDogBirdCount(words, fw.word);
    }
  }

  /** "bird" occurs once and is dropped; "cat" and "dog" are kept with their counts. */
  lemma ExampleFrequentWords()
    ensures forall fw :: fw in GetFrequentWords(ExampleWords) <==>
              fw == FrequentWord("cat", 3) || fw == FrequentWord("dog", 4)
  {
    assert multiset(ExampleWords) == multiset{"cat", "cat", "cat", "dog", "dog", "dog", "dog", "bird"};
    CatDogBirdFrequentWords(ExampleWords);
  }

  const ExampleTable: map<string, int> := map["cat" := 3, "dog" := 4]
  const ExampleEnv: Environment := Environment(map["text.txt" := ExampleText], {}, false)

  /** Any batch of exactly cat = 3 and dog = 4, ingested into an empty table, gives the example table. */
  lemma IngestCatAndDog(cands: seq<FrequentWord>)
    requires DistinctWords(cands)
    requires forall fw :: fw in cands <==> fw == FrequentWord("cat", 3) || fw == FrequentWord("dog", 4)
    ensures Ingest(map[], cands, {}) == (ExampleTable, AllProcessed)
  {
    CompleteBatchResult(map[], cands, {});
    var (t, o) := Ingest(map[], cands, {});
    assert FrequentWord("cat", 3) in cands && FrequentWord("dog", 4) in cands;
    assert t == ExampleTable;
  }

  /** Ingesting the example's frequent words into an empty table gives cat = 3 and dog = 4. */
  lemma ExampleIngest()
    ensures Ingest(map[], GetFrequentWords(ExampleWords), {}) == (ExampleTable, AllProcessed)
  {
    ExampleFrequentWords();
    IngestCatAndDog(GetFrequentWords(ExampleWords));
  }

  /** Loading a file whose words ingest completely gives the ingested table. */
  lemma LoadOfWords(table: map<string, int>, path: string, env: Environment, words: seq<string>)
    requires LoadWords(path, env.files) == Read(words)
    requires Ingest(table, GetFrequentWords(words), env.rejected).1 == AllProcessed
    ensures LoadIntoTable(table, path, env) == (Ingest(table, GetFrequentWords(words), env.rejected).0, DictionaryLoaded)
  {
  }

  /** CREATE on the example file fills an empty table with cat = 3 and dog = 4. */
  lemma ExampleCreate()
    ensures RunCommand(map[], ["CREATE", "text.txt"], ExampleEnv) == (ExampleTable, DictionaryLoaded)
  {
    assert ToUpper("CREATE") == "CREATE";
    LoadCommandRunsLoad(map[], ["CREATE", "text.txt"], ExampleEnv);
    ExampleTextWords();
    assert LoadWords("text.txt", ExampleEnv.files) == Read(ExampleWords);
    ExampleIngest();
    LoadOfWords(map[], "text.txt", ExampleEnv, ExampleWords);
  }

  /** Running the same CREATE again keeps cat = 3 and dog = 4: frequencies are not added up. */
  lemma ExampleCreateTwice()
    ensures RunCommand(ExampleTable, ["CREATE", "text.txt"], ExampleEnv) == (ExampleTable, DictionaryLoaded)
  {
    ExampleCreate();
    ReloadingIsNoOp(map[], ["CREATE", "text.txt"], ExampleEnv, ExampleEnv);
  }

  /** Completions on the example table: "c" gives cat, "d" gives dog, "b" gives nothing. */
  lemma ExampleCompletions()
    ensures AutoCompleteWordFromFrequentWordsTable("c", ExampleTable, 5) == [FrequentWord("cat", 3)]
    ensures AutoCompleteWordFromFrequentWordsTable("d", ExampleTable, 5) == [FrequentWord("dog", 4)]
    ensures AutoCompleteWordFromFrequentWordsTable("b", ExampleTable, 5) == []
  {
    assert "dog"[..1][0] == 'd' && "cat"[..1][0] == 'c';
    assert !StartsWith("dog", "c") && !StartsWith("cat", "d");
    assert Matches(ExampleTable, "c") == map["cat" := 3];
    assert Matches(ExampleTable, "d") == map["dog" := 4];
    SingleMatch("c", ExampleTable, "cat", 3, 5);
    SingleMatch("d", ExampleTable, "dog", 4, 5);
    NoMatchGivesEmptyResult("b", ExampleTable, 5);
  }

  /** When exactly one stored word matches, a positive limit gives that record alone. */
  lemma SingleMatch(input: string, table: map<string, int>, w: string, f: int, limit: nat)
    requires limit > 0
    requires Matches(table, input) == map[w := f]
    ensures AutoCompleteWordFromFrequentWordsTable(input, table, limit) == [FrequentWord(w, f)]
  {
    var m := Matches(table, input);
    var ranked := Ranked(m);
    assert |ranked| == 1;
    assert ranked[0].word in m;
    assert ranked == [FrequentWord(w, f)];
  }

  /** After a CLEANUP that succeeds, no prefix has a completion. */
  lemma NoCompletionsAfterCleanup(table: map<string, int>, commands: seq<string>, env: Environment, prefix: string, limit: nat)
    requires RunCommand(table, commands, env).1 == Cleaned
    ensures AutoCompleteWordFromFrequentWordsTable(prefix, RunCommand(table, commands, env).0, limit) == []
  {
    NoMatchGivesEmptyResult(prefix, RunCommand(table, commands, env).0, limit);
  }
}
