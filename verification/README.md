# TextProcessor: frequent-word dictionary and autocomplete, in Dafny

TextProcessor keeps a dictionary of "frequent words" in a database table and
completes typed prefixes from it. This project models its core and proves
properties of the model:

- **Words of a text** (`IOExtentions`). The text is lowercased and split on
  space, CR, LF, period, comma and double quote. Empty entries are dropped.
  The tokens are proved to be exactly the maximal non-delimiter runs of the
  lowercased text, in order.
- **Frequent words** (`FrequentWords.GetFrequentWords`). The words are grouped.
  A group is kept when its word occurs more than twice and has 3 to 15
  characters. Each kept word is paired with its count.
- **The dictionary** (`FrequentWords.FrequentWordsDictionary`). This class
  holds the FrequentWords table as a `map<string, int>` from word to frequency,
  so the unique index on Word holds by construction. CREATE and UPDATE run the
  same loop. A word already stored is skipped and keeps its frequency. A new
  word is inserted with its batch frequency. The first insert that fails ends
  the batch, and earlier inserts stay. CLEANUP empties the table or, if
  TRUNCATE fails, leaves it as it was. `GetInputCommand` dispatches on the
  keyword, ignoring letter case.
- **The line editor** (`IOExtentions.ReadLineOrEsc`). It reads a finite sequence
  of key presses. Escape gives the null result (`Cancelled`). Enter gives the
  buffer. Backspace drops the last character if there is one. Any other key
  appends its character.
- **Autocomplete** (`WordsAutoCompletion.AutoCompleteWordFromFrequentWordsTable`).
  It takes the stored records whose word starts with the input, orders them by
  frequency (highest first) and then by word, and keeps the first
  `completionLimit` of them.

The outside world is a parameter, `FrequentWords.Environment`. It holds the
files (path to already-decoded text), the words whose insert the database
rejects, and whether TRUNCATE fails. Errors are result values: `CommandOutcome`,
`IngestOutcome` and `LineInput`. A row of the table is the datatype
`DataModel.FrequentWord` (DataModel/FrequentWord.cs:8-16): a word and its
frequency.

Points where the code's behaviour is easy to misread, modelled as written:

- A failed insert ends the batch, and no later candidate is tried. The
  exception is rethrown at Classes/FrequentWordsDictionary.cs:169 and again at
  :95 / :131.
- Exceptions for a missing or empty file path, and for a failed insert, are
  not caught by `GetInputCommand`, which only catches
  IndexOutOfRangeException. These outcomes are `EmptyPath`, `FileNotFound` and
  `StoreError`.
- The autocomplete input is matched as typed. It is not lowercased, although
  the stored words are.
- No summary of inserted and skipped words is produced. The code prints one
  message per word.

## Model

| member | source | states |
|---|---|---|
| `DataModel.FitsWordColumn` | DataModel/FrequentWord.cs:11-13 | The Word column accepts a word of at most 200 characters. |
| `DataModel.ValidTable` | DataModel/FrequentWord.cs:7-15 | Every stored word fits the Word column. Words are unique because the table is a map keyed by Word. |
| `IOExtentions.IsSplitter` | Classes/IOExtentions.cs:13 | The six word delimiters: space, CR, LF, period, comma and double quote. |
| `IOExtentions.ToLowerInvariant` | Classes/IOExtentions.cs:32 | Each character becomes `ToLowerChar` of the input character, so the length is kept. The result is lowercase, each position keeps whether it holds a delimiter, and an already-lowercase text is returned unchanged. |
| `IOExtentions.ToLowerChar` | Classes/IOExtentions.cs:32 | An ASCII capital becomes the letter 32 code points higher, which is its lowercase form. Every other character is unchanged, so delimiters stay delimiters. |
| `IOExtentions.SplitFields` | Classes/IOExtentions.cs:33 | Split gives at least one field, and no field contains a delimiter. Splitting a lowercase text gives lowercase fields. |
| `IOExtentions.RemoveEmptyEntries` | Classes/IOExtentions.cs:33 | Every kept entry is a non-empty field, and every non-empty field is kept. |
| `IOExtentions.RemoveEmptyEntriesKeepsRepeats` | Classes/IOExtentions.cs:33 | No empty entry is kept, and every non-empty field is kept as many times as it occurs. |
| `IOExtentions.RemoveEmptyEntriesConcat` | Classes/IOExtentions.cs:33 | Dropping empty entries distributes over concatenation, so the order of the fields is kept. |
| `IOExtentions.RemoveEmptyEntriesOfOne` | Classes/IOExtentions.cs:33 | A single field is kept exactly when it is non-empty. |
| `IOExtentions.GetWords` | Classes/IOExtentions.cs:31-33 | Every token is non-empty, contains none of the six delimiters and is already lowercase. |
| `IOExtentions.FirstFieldIsFirstRun` | Classes/IOExtentions.cs:33 | The first field of a split is the longest delimiter-free prefix. The remaining fields are the split of the text after the delimiter that ends it. |
| `IOExtentions.SplitRemoveEmptyIsRuns` | Classes/IOExtentions.cs:33 | Splitting and then dropping empty entries gives exactly the maximal non-delimiter runs, in order. |
| `IOExtentions.GetWordsAreMaximalRuns` | Classes/IOExtentions.cs:31-33 | The tokens are exactly the maximal non-delimiter runs of the lowercased text, in source order. |
| `IOExtentions.RunsOfWordAndSpace` | Classes/IOExtentions.cs:13 | A delimiter-free word followed by a space is read as that word, followed by the runs of the rest. |
| `IOExtentions.RunsOfSingleWord` | Classes/IOExtentions.cs:13 | A non-empty delimiter-free word is read as itself alone. |
| `IOExtentions.JoinedLowercaseIsLowercase` | Classes/IOExtentions.cs:32 | Lowercase words joined by spaces give a lowercase text. |
| `IOExtentions.RunsOfJoin` | Classes/IOExtentions.cs:33 | Splitting words joined by spaces gives back the words. |
| `IOExtentions.SpacedWordsRoundTrip` | Classes/IOExtentions.cs:31-33 | Round trip: lowercase, non-empty, delimiter-free words joined by spaces are tokenized back to the same words. |
| `IOExtentions.ReadLineOrEsc` | Classes/IOExtentions.cs:69-113 | The loop keeps `curIndex == \|retString\|` and returns `ReadLineResult(keys)`. |
| `IOExtentions.ReadLineResult` | Classes/IOExtentions.cs:69-113 | The first Escape or Enter decides the result. The result is `Cancelled` iff the first is Escape, and `Line` iff it is Enter; then the text is the buffer built by the keys before it. The result is `Unfinished` with the whole buffer iff there is no Escape or Enter. |
| `IOExtentions.Edit` | Classes/IOExtentions.cs:92-110 | One key that does not end the input: Backspace drops the last character when the buffer is non-empty, and any other key appends its character. |
| `IOExtentions.Typed` | Classes/IOExtentions.cs:92-110 | The buffer after the keys: Backspace drops the last character of a non-empty buffer, other keys append their character. Its properties are the Escape, Enter and Backspace lemmas. |
| `IOExtentions.EscapeCancels` | Classes/IOExtentions.cs:79-83 | Escape gives `Cancelled` (null), whatever was typed before it and whatever follows. |
| `IOExtentions.EnterReturnsTyped` | Classes/IOExtentions.cs:86-90 | Enter gives exactly the buffer built by the keys before it. |
| `IOExtentions.PlainTypingIsVerbatim` | Classes/IOExtentions.cs:104-110 | Without Backspace, the buffer is the typed characters in order. |
| `IOExtentions.BackspaceUndoesLastKey` | Classes/IOExtentions.cs:93-101 | A character typed and then erased by Backspace leaves the buffer as before. |
| `IOExtentions.BackspaceOnEmptyIsIgnored` | Classes/IOExtentions.cs:95 | Backspace on an empty buffer leaves it empty. |
| `IOExtentions.TypedIsNoLongerThanKeys` | Classes/IOExtentions.cs:71-110 | The buffer never holds more characters than keys were pressed. |
| `FrequentWords.Count` | Classes/FrequentWordsDictionary.cs:186 | A group's count is at most the number of words, and 0 for a word that does not occur. |
| `FrequentWords.CountIsMultiplicity` | Classes/FrequentWordsDictionary.cs:185-186 | A group's count is the multiplicity of its word in the multiset of words. |
| `FrequentWords.GroupKeys` | Classes/FrequentWordsDictionary.cs:185 | The group keys are pairwise distinct and are exactly the words of the input. They are in order of first occurrence. |
| `FrequentWords.FirstIndex` | Classes/FrequentWordsDictionary.cs:185 | Gives the position of the first occurrence of a word that occurs. |
| `FrequentWords.SelectFrequent` | Classes/FrequentWordsDictionary.cs:186-189 | A record is selected iff its word is a key, its frequency is the word's count, and it passes the three filters. The words are distinct. |
| `FrequentWords.SelectFrequentKeepsKeyOrder` | Classes/FrequentWordsDictionary.cs:186-189 | The Where filters keep the groups in the order of their keys. |
| `FrequentWords.OrderThroughKeys` | Classes/FrequentWordsDictionary.cs:185-189 | Records in the order of keys that are themselves in first-occurrence order are in first-occurrence order. |
| `FrequentWords.PassesFilter` | Classes/FrequentWordsDictionary.cs:186-188 | The three Where filters: count above 2 and word length 3 to 15. `GetFrequentWords` states them. |
| `FrequentWords.GetFrequentWords` | Classes/FrequentWordsDictionary.cs:179-196 | A record is returned iff its frequency is the exact count of its word, that count is above 2, and the word has 3 to 15 characters. Every returned word occurs in the input, and the returned words are pairwise distinct. |
| `FrequentWords.FrequentWordsInFirstOccurrenceOrder` | Classes/FrequentWordsDictionary.cs:184-190 | The records come in the order in which their words first occur in the input, the order of GroupBy's groups. |
| `FrequentWords.FrequentWordsIgnoreOrder` | Classes/FrequentWordsDictionary.cs:184-190 | Two inputs with the same multiset of words give the same records. |
| `FrequentWords.FrequentWordsFitWordColumn` | DataModel/FrequentWord.cs:11-12 | Every frequent word is non-empty and fits the 200-character Word column. |
| `FrequentWords.InsertSucceeds` | Classes/FrequentWordsDictionary.cs:158-171 | Add and SaveChanges succeed iff the word is not stored yet (unique index), fits the Word column, and is not one the store rejects. `UpdateDictionaryWithWord` states it. |
| `FrequentWords.Ingest` | Classes/FrequentWordsDictionary.cs:81-91 | Stored words stay, with their frequencies. A failure names a candidate word that is then not in the table. |
| `FrequentWords.IngestOnlyAdds` | Classes/FrequentWordsDictionary.cs:81-91 | Every stored word stays, with the same frequency. Every new entry is one of the candidates, with its batch frequency. The column constraint is kept. |
| `FrequentWords.IngestConcat` | Classes/FrequentWordsDictionary.cs:81-91 | Processing `a + b` is processing `a`, then processing `b` from the table `a` left, unless `a` stopped. |
| `FrequentWords.FailedInsertStopsBatch` | Classes/FrequentWordsDictionary.cs:81-95 | If the insert of candidate k fails, the result is the table after the first k candidates with `InsertFailed`. Later candidates are never attempted. |
| `FrequentWords.CompleteBatchStoresAll` | Classes/FrequentWordsDictionary.cs:81-91 | After a complete batch every candidate word is stored. |
| `FrequentWords.CompleteBatchResult` | Classes/FrequentWordsDictionary.cs:81-91 | For distinct candidates, the batch completes iff every candidate is either stored or insertable. If it completes, the table is the old table plus exactly the absent candidates, each with its batch frequency. |
| `FrequentWords.StoredWordsAreSkipped` | Classes/FrequentWordsDictionary.cs:83-86 | If every candidate is already stored, the table does not change and the batch completes, whatever the store would reject. |
| `FrequentWords.IngestTwiceIsIngestOnce` | Classes/FrequentWordsDictionary.cs:81-91 | After a batch that completed, ingesting it again, whatever the store now rejects, leaves the table as it is and completes. Frequencies are not added up. |
| `FrequentWords.IngestTwiceSameStore` | Classes/FrequentWordsDictionary.cs:81-95 | With the same store, ingesting a batch again into the table it left changes nothing and ends the same way. This includes a run that stopped at a failed insert. |
| `FrequentWords.IngestFailureIsRefused` | Classes/FrequentWordsDictionary.cs:81-95 | The word a batch stopped at is too long for the Word column or rejected by the store. |
| `FrequentWords.ToUpper` | Classes/FrequentWordsDictionary.cs:42 | Each character becomes `ToUpperChar` of the input character, so the length is kept and no lowercase ASCII letter remains. |
| `FrequentWords.ToUpperChar` | Classes/FrequentWordsDictionary.cs:42 | An ASCII small letter becomes the letter 32 code points lower, which is its capital. Every other character is unchanged. |
| `FrequentWords.LoadWords` | Classes/IOExtentions.cs:48-62 | Words are read iff the path is non-empty and names a file. They are the tokens of that file's text. |
| `FrequentWords.LoadIntoTable` | Classes/FrequentWordsDictionary.cs:69-98 | The outcome is `EmptyPath` iff the path is empty, and `FileNotFound` iff it is non-empty and names no file; both leave the table unchanged. Otherwise the outcome is `DictionaryLoaded` or `StoreError`. Stored words always keep their frequencies. |
| `FrequentWords.LoadedAddsFrequentWords` | Classes/FrequentWordsDictionary.cs:69-98 | A completed load read an existing file. Every frequent word of that file is stored, and a word not stored before gets its count in the file. Every new entry is one of those frequent words with that count. |
| `FrequentWords.LoadStoppedAddsOnlyFrequentWords` | Classes/FrequentWordsDictionary.cs:69-98 | A load that ended in `StoreError` read an existing file. Every new entry is a frequent word of that file with its count. The word it stopped at is one of them, is not stored, and is rejected by the store. |
| `FrequentWords.Cleanup` | Classes/FrequentWordsDictionary.cs:140-151 | `Cleaned` with an empty table iff TRUNCATE does not fail; otherwise `CleanupFailed` with the table unchanged. |
| `FrequentWords.RunCommand` | Classes/FrequentWordsDictionary.cs:38-62 | An outcome other than `DictionaryLoaded`, `Cleaned` or `StoreError` leaves the table unchanged. `Cleaned` leaves it empty. A load keeps every stored word with its frequency. |
| `FrequentWords.CreateEqualsUpdate` | Classes/FrequentWordsDictionary.cs:44-49 | CREATE and UPDATE give the same table and outcome for the same arguments. |
| `FrequentWords.LoadCommandRunsLoad` | Classes/FrequentWordsDictionary.cs:44-49 | CREATE or UPDATE in any letter case, with a path, has exactly the table and outcome of loading that path. |
| `FrequentWords.KeywordIgnoresCase` | Classes/FrequentWordsDictionary.cs:42 | Keywords that differ only in letter case have the same effect on the table. |
| `FrequentWords.BadCommandChangesNothing` | Classes/FrequentWordsDictionary.cs:53-61 | An empty command line, an unknown keyword, or CREATE/UPDATE without a path leaves the table unchanged. The outcome is NotEnoughArguments or UnsupportedCommand. |
| `FrequentWords.CleanupIsAllOrNothing` | Classes/FrequentWordsDictionary.cs:140-151 | CLEANUP either empties the table (`Cleaned`) or leaves it exactly as it was (`CleanupFailed`). |
| `FrequentWords.CommandsKeepIngestedTable` | Classes/FrequentWordsDictionary.cs:38-62 | If every stored record is a lowercase, delimiter-free word of 3 to 15 characters with frequency above 2, this still holds after any command. |
| `FrequentWords.ReloadingIsNoOp` | Classes/FrequentWordsDictionary.cs:69-98 | Re-running a completed CREATE/UPDATE on the same files changes nothing and completes. |
| `FrequentWords.RepeatedCommandIsNoOp` | Classes/FrequentWordsDictionary.cs:38-62 | Running any command line again with the same environment, on the table the first run left, changes nothing and gives the same outcome. This includes a load that ended in `StoreError`. |
| `FrequentWords.FrequentWordsDictionary.constructor` | Classes/FrequentWordsDictionary.cs:14-17 | The dictionary opens the table as it finds it. |
| `FrequentWords.FrequentWordsDictionary.WithCommand` | Classes/FrequentWordsDictionary.cs:19-23 | Constructing with a command line leaves the table that `RunCommand` gives for it. |
| `FrequentWords.FrequentWordsDictionary.IsWordContainsInFrequentWordsTable` | Classes/FrequentWordsDictionary.cs:205-222 | The answer is true iff the word is stored. |
| `FrequentWords.FrequentWordsDictionary.UpdateDictionaryWithWord` | Classes/FrequentWordsDictionary.cs:158-171 | The save succeeds iff the word is absent, fits the column, and is not rejected. On success exactly that entry is added; otherwise the table is unchanged. |
| `FrequentWords.FrequentWordsDictionary.AddFrequentWords` | Classes/FrequentWordsDictionary.cs:81-91 | The loop leaves the table and outcome given by `Ingest` of the old table. |
| `FrequentWords.FrequentWordsDictionary.LoadAndAdd` | Classes/FrequentWordsDictionary.cs:71-91 | The new table and outcome are `LoadIntoTable` of the old table. |
| `FrequentWords.FrequentWordsDictionary.CreateDictionaryWithDataFromTextFile` | Classes/FrequentWordsDictionary.cs:69-98 | The new table and outcome are `LoadIntoTable` of the old table. |
| `FrequentWords.FrequentWordsDictionary.UpdateDictionaryWithDataFromTextFile` | Classes/FrequentWordsDictionary.cs:105-134 | Same as CREATE: `LoadIntoTable` of the old table. |
| `FrequentWords.FrequentWordsDictionary.CleanupDictionary` | Classes/FrequentWordsDictionary.cs:140-151 | The new table and outcome are `Cleanup` of the old table. |
| `FrequentWords.FrequentWordsDictionary.GetInputCommand` | Classes/FrequentWordsDictionary.cs:38-62 | The new table and outcome are `RunCommand` of the old table. |
| `WordsAutoCompletion.StartsWith` | Classes/WordsAutoCompletion.cs:61 | The word begins with the prefix, character by character. |
| `WordsAutoCompletion.RanksBefore` | Classes/WordsAutoCompletion.cs:62-63 | A record comes no later than another when its frequency is higher, or the frequencies are equal and its word comes no later in ordinal order. |
| `WordsAutoCompletion.LexLeTotal` | Classes/WordsAutoCompletion.cs:63 | Of any two words, one comes no later than the other in ordinal order. |
| `WordsAutoCompletion.LexLeAntisymmetric` | Classes/WordsAutoCompletion.cs:63 | Two words that each come no later than the other are equal. |
| `WordsAutoCompletion.LexLeTransitive` | Classes/WordsAutoCompletion.cs:63 | Ordinal word order is transitive. |
| `WordsAutoCompletion.RanksBeforeTransitive` | Classes/WordsAutoCompletion.cs:62-63 | The order "frequency descending, then word" is transitive. |
| `WordsAutoCompletion.RanksBeforeTotal` | Classes/WordsAutoCompletion.cs:62-63 | Any two records are comparable in that order. |
| `WordsAutoCompletion.TopExists` | Classes/WordsAutoCompletion.cs:62-63 | Every non-empty table has a record ranked first. |
| `WordsAutoCompletion.TopUnique` | Classes/WordsAutoCompletion.cs:62-63 | At most one record is ranked first. |
| `WordsAutoCompletion.Top` | Classes/WordsAutoCompletion.cs:62-63 | The chosen word is stored and ranks no later than every stored word. |
| `WordsAutoCompletion.Ranked` | Classes/WordsAutoCompletion.cs:62-63 | The ordering lists every record of the table exactly once, with its stored frequency, sorted by frequency descending and then word ascending. |
| `WordsAutoCompletion.Matches` | Classes/WordsAutoCompletion.cs:61 | Exactly the stored words that start with the prefix are kept, with their frequencies. |
| `WordsAutoCompletion.AutoCompleteWordFromFrequentWordsTable` | Classes/WordsAutoCompletion.cs:55-72 | There are at most `completionLimit` results. Each starts with the input and is a stored record with its frequency. The results are sorted by frequency descending, then word, with no word twice. |
| `WordsAutoCompletion.NoBetterMatchOmitted` | Classes/WordsAutoCompletion.cs:61-64 | The result is a prefix of the full ranked match list, and its length is min(limit, number of matches). Every match left out ranks after every returned record, and can only be left out when the limit is reached. |
| `WordsAutoCompletion.NoMatchGivesEmptyResult` | Classes/WordsAutoCompletion.cs:59-65 | An empty table, or a prefix no word starts with, gives an empty result. |
| `WordsAutoCompletion.EmptyPrefixMatchesAll` | Classes/WordsAutoCompletion.cs:61 | The empty prefix matches every stored word. |
| `Scenarios.ExampleTextWords` | Classes/IOExtentions.cs:31-33 | "cat cat cat dog dog dog dog bird" is tokenized to its eight words. |
| `Scenarios.ExampleFrequentWords` | Classes/FrequentWordsDictionary.cs:184-190 | For those words, the frequent words are exactly cat = 3 and dog = 4. "bird" is dropped. |
| `Scenarios.ExampleCreate` | Classes/FrequentWordsDictionary.cs:38-62 | CREATE on that file fills an empty table with cat = 3 and dog = 4. |
| `Scenarios.ExampleCreateTwice` | Classes/FrequentWordsDictionary.cs:81-91 | Running that CREATE again keeps cat = 3 and dog = 4, not 6 and 8. |
| `Scenarios.ExampleCompletions` | Classes/WordsAutoCompletion.cs:59-65 | With limit 5: "c" gives cat, "d" gives dog, and "b" gives nothing. |
| `Scenarios.NoCompletionsAfterCleanup` | Classes/FrequentWordsDictionary.cs:144 | After a successful CLEANUP, no prefix has a completion. |

## Left out

- Reading the file (Classes/IOExtentions.cs:23-29), the `File.Exists` call inside `IsFileExists`, and UTF-8 decoding. The file system is a map from path to decoded text. `IsFileExists` is modelled by `FrequentWords.LoadWords`: an empty path gives `PathEmpty`, and a path not in the map gives `PathMissing`. Read errors on an existing file are not modelled.
- Console output, `RunAutoCompletion`'s read loop, `PrintAutoCompletedWords` and Program.cs. These are interactive I/O. Program.cs passes a completion limit of 5.
- Entity Framework and SQL Server (DataModel/TextProcessorContext.cs). The table is a map. Why an insert fails is not modelled: the store rejects a given set of words, or any word longer than the Word column. A failure of the existence check (Classes/FrequentWordsDictionary.cs:218-221) is not modelled.
- Change tracking: a failed `Add` stays tracked in the context. This has no effect here, because the batch stops at that point.
- The finalizer that disposes the database context.
- `FrequentWords.FrequentWordsDictionary.WithCommand`: keeps only the table that `RunCommand` gives and drops the outcome. In the code, `EmptyPath`, `FileNotFound` and `StoreError` are exceptions (Classes/IOExtentions.cs:52, :60 and Classes/FrequentWordsDictionary.cs:95, :131). Nothing catches them, so they escape the constructor and `Main`, and the process ends with an unhandled exception. The model lets construction complete; that table is the one left in the database when the exception is thrown.
- Exception messages and their wrapping. Each outcome is a constructor of `CommandOutcome`.
- The surrogate `Id` key of `FrequentWord`.
- `IOExtentions.ToLowerInvariant`: lowercases ASCII letters only, not the full Unicode tables.
- `FrequentWords.ToUpper`: uppercases ASCII letters only. Culture-specific casing is not modelled.
- `FrequentWords.PassesFilter`: counts word length in characters. The code counts UTF-16 code units, which differ for characters outside the Basic Multilingual Plane.
- `FrequentWords.Count`: counts are unbounded integers. A 32-bit overflow of `Frequent` would need more than 2^31 occurrences of one word.
- `WordsAutoCompletion.Matches`: matches prefixes character by character. The database evaluates `StartsWith` as SQL `LIKE` under its collation, which may ignore case.
- `WordsAutoCompletion.Ranked`: breaks ties by ordinal word order. The database orders words by its collation.
- `WordsAutoCompletion.AutoCompleteWordFromFrequentWordsTable`: `completionLimit` is a `nat`. The database provider rejects a negative `Take`, and the only caller passes 5.
- `IOExtentions.ReadLineOrEsc`: reads a finite key sequence, and running out of keys gives `Unfinished`. The console echo of keys is not modelled.
- Atomicity of TRUNCATE and concurrency. CLEANUP is modelled as all-or-nothing, and the program is single-threaded.
