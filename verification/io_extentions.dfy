/**
 * The pure parts of IOExtentions: turning decoded file text into words
 * (lowercase, split on six delimiters, drop empty entries), and the line
 * editor of ReadLineOrEsc, driven by a finite sequence of key presses.
 */
module IOExtentions {

  /** The characters words are split on: space, CR, LF, period, comma, double quote. */
  predicate IsSplitter(c: char) {
    c == ' ' || c == '\r' || c == '\n' || c == '.' || c == ',' || c == '"'
  }

  /** The word contains no delimiter. */
  predicate NoSplitter(t: string) {
    forall i :: 0 <= i < |t| ==> !IsSplitter(t[i])
  }

  // ---------------------------------------------------------------------------
  // Lowercasing (ASCII letters only)
  // ---------------------------------------------------------------------------

  /** Invariant lowercasing of one character, restricted to the ASCII letters. */
  function ToLowerChar(c: char): (l: char)
    ensures IsSplitter(l) <==> IsSplitter(c)
    ensures !('A' <= l <= 'Z')
    ensures 'A' <= c <= 'Z' ==> l as int == c as int + 32
    ensures !('A' <= c <= 'Z') ==> l == c
  {
    if 'A' <= c <= 'Z' then (c as int - 'A' as int + 'a' as int) as char else c
  }

  /** Lowercasing leaves every character of s as it is. */
  predicate IsLowercase(s: string) {
    forall i :: 0 <= i < |s| ==> ToLowerChar(s[i]) == s[i]
  }

  /** Lowercasing of a whole text, character by character. */
  function ToLowerInvariant(s: string): (r: string)
    ensures |r| == |s|
    ensures forall i :: 0 <= i < |s| ==> r[i] == ToLowerChar(s[i])
    ensures IsLowercase(r)
    ensures forall i :: 0 <= i < |s| ==> (IsSplitter(r[i]) <==> IsSplitter(s[i]))
    ensures IsLowercase(s) ==> r == s
  {
    seq(|s|, i requires 0 <= i < |s| => ToLowerChar(s[i]))
  }

  // ---------------------------------------------------------------------------
  // Split with RemoveEmptyEntries
  // ---------------------------------------------------------------------------

  /**
   * Split without options: one field per delimiter-separated stretch, including
   * the empty fields between adjacent delimiters and at either end.
   */
  function SplitFields(s: string): (fields: seq<string>)
    ensures |fields| >= 1
    ensures forall f :: f in fields ==> NoSplitter(f)
    ensures IsLowercase(s) ==> forall f :: f in fields ==> IsLowercase(f)
    decreases |s|
  {
    if |s| == 0 then [""]
    else
      var rest := SplitFields(s[1..]);
      if IsSplitter(s[0]) then [""] + rest
      else
        var first := [s[0]] + rest[0];
        assert rest[0] in rest;
        assert forall f :: f in rest[1..] ==> f in rest;
        assert forall i :: 1 <= i < |first| ==> first[i] == rest[0][i - 1];
        [first] + rest[1..]
  }

  /** The RemoveEmptyEntries option: keep the non-empty fields, in order. */
  function RemoveEmptyEntries(fields: seq<string>): (r: seq<string>)
    ensures forall t :: t in r ==> t != [] && t in fields
    ensures forall t :: t in fields && t != [] ==> t in r
  {
    if |fields| == 0 then []
    else (if fields[0] == [] then [] else [fields[0]]) + RemoveEmptyEntries(fields[1..])
  }

  /** Dropping empty entries keeps every non-empty field as often as it occurs, and no empty one. */
  lemma {:induction false} RemoveEmptyEntriesKeepsRepeats(fields: seq<string>)
    ensures multiset(RemoveEmptyEntries(fields))[[]] == 0
    ensures forall t :: t != [] ==> multiset(RemoveEmptyEntries(fields))[t] == multiset(fields)[t]
  {
    if |fields| > 0 {
      RemoveEmptyEntriesKeepsRepeats(fields[1..]);
      assert fields == [fields[0]] + fields[1..];
    }
  }

  /** Dropping empty entries works field by field: it distributes over concatenation, keeping order. */
  lemma {:induction false} RemoveEmptyEntriesConcat(a: seq<string>, b: seq<string>)
    ensures RemoveEmptyEntries(a + b) == RemoveEmptyEntries(a) + RemoveEmptyEntries(b)
    decreases |a|
  {
    if |a| > 0 {
      assert (a + b)[1..] == a[1..] + b;
      RemoveEmptyEntriesConcat(a[1..], b);
    } else {
      assert a + b == b;
    }
  }

  /** A single field is kept exactly when it is not empty. */
  lemma RemoveEmptyEntriesOfOne(f: string)
    ensures RemoveEmptyEntries([f]) == if f == [] then [] else [f]
  {
  }

  /** The words of a decoded text: lowercase it, split it, drop empty entries. */
  function GetWords(text: string): (tokens: seq<string>)
    ensures forall t :: t in tokens ==> |t| > 0 && NoSplitter(t) && IsLowercase(t)
  {
    RemoveEmptyEntries(SplitFields(ToLowerInvariant(text)))
  }

  // ---------------------------------------------------------------------------
  // Reference definition: the maximal runs of non-delimiters
  // ---------------------------------------------------------------------------

  /** Length of the longest prefix of s free of delimiters. */
  function RunLength(s: string): (n: nat)
    ensures n <= |s|
    ensures forall i :: 0 <= i < n ==> !IsSplitter(s[i])
    ensures n < |s| ==> IsSplitter(s[n])
  {
    if |s| == 0 || IsSplitter(s[0]) then 0 else 1 + RunLength(s[1..])
  }

  /** The maximal non-empty runs of non-delimiter characters of s, in order. */
  function Runs(s: string): (rs: seq<string>)
    ensures forall t :: t in rs ==> |t| > 0 && NoSplitter(t)
    decreases |s|
  {
    if |s| == 0 then []
    else if IsSplitter(s[0]) then Runs(s[1..])
    else
      var k := RunLength(s);
      [s[..k]] + Runs(s[k..])
  }

  /** The first field of a split is the first run; the other fields are those of the text after it. */
  lemma {:induction false} FirstFieldIsFirstRun(s: string)
    ensures SplitFields(s)[0] == s[..RunLength(s)]
    ensures SplitFields(s)[1..] ==
            if RunLength(s) == |s| then [] else SplitFields(s[RunLength(s) + 1..])
    decreases |s|
  {
    if |s| > 0 && !IsSplitter(s[0]) {
      var t := s[1..];
      FirstFieldIsFirstRun(t);
      var k := RunLength(s);
      assert [s[0]] + t[..k - 1] == s[..k];
      if k < |s| {
        assert t[k..] == s[k + 1..];
      }
    }
  }

  /** Splitting and removing empty entries yields exactly the maximal runs. */
  lemma {:induction false} SplitRemoveEmptyIsRuns(s: string)
    ensures RemoveEmptyEntries(SplitFields(s)) == Runs(s)
    decreases |s|
  {
    if |s| > 0 {
      if IsSplitter(s[0]) {
        SplitRemoveEmptyIsRuns(s[1..]);
        assert SplitFields(s) == [""] + SplitFields(s[1..]);
        RemoveEmptyEntriesConcat([""], SplitFields(s[1..]));
        RemoveEmptyEntriesOfOne("");
      } else {
        var k := RunLength(s);
        var fields := SplitFields(s);
        FirstFieldIsFirstRun(s);
        assert fields == [fields[0]] + fields[1..];
        assert fields[0] == s[..k] && s[..k] != [];
        RemoveEmptyEntriesConcat([fields[0]], fields[1..]);
        RemoveEmptyEntriesOfOne(fields[0]);
        if k == |s| {
          assert s[k..] == [];
        } else {
          SplitRemoveEmptyIsRuns(s[k + 1..]);
          assert s[k..][1..] == s[k + 1..];
        }
      }
    }
  }

  /** The words of a text are exactly the maximal non-delimiter runs of its lowercased form, in order. */
  lemma GetWordsAreMaximalRuns(text: string)
    ensures GetWords(text) == Runs(ToLowerInvariant(text))
  {
    SplitRemoveEmptyIsRuns(ToLowerInvariant(text));
  }

  /** A word followed by a space is the first run; the runs after it are those of the rest. */
  lemma RunsOfWordAndSpace(w: string, rest: string)
    requires |w| > 0 && NoSplitter(w)
    ensures Runs(w + " " + rest) == [w] + Runs(rest)
  {
    var s := w + " " + rest;
    assert s[|w|] == ' ';
    var n := RunLength(s);
    assert n == |w|;
    assert s[..n] == w;
    assert s[n..] == " " + rest;
    assert (" " + rest)[1..] == rest;
  }

  /** A word without delimiters is its own single run. */
  lemma RunsOfSingleWord(w: string)
    requires |w| > 0 && NoSplitter(w)
    ensures Runs(w) == [w]
  {
    assert RunLength(w) == |w|;
    assert w[..|w|] == w && w[|w|..] == [];
  }

  /** The words joined by single spaces. */
  function JoinWithSpaces(ws: seq<string>): string {
    if |ws| == 0 then []
    else if |ws| == 1 then ws[0]
    else ws[0] + " " + JoinWithSpaces(ws[1..])
  }

  lemma {:induction false} JoinedLowercaseIsLowercase(ws: seq<string>)
    requires forall w :: w in ws ==> IsLowercase(w)
    ensures IsLowercase(JoinWithSpaces(ws))
  {
    if |ws| > 1 {
      JoinedLowercaseIsLowercase(ws[1..]);
      var tail := JoinWithSpaces(ws[1..]);
      assert ws[0] in ws;
      var s := ws[0] + " " + tail;
      forall i | 0 <= i < |s| ensures ToLowerChar(s[i]) == s[i] {
        if i > |ws[0]| {
          assert s[i] == tail[i - |ws[0]| - 1];
        }
      }
    } else if |ws| == 1 {
      assert ws[0] in ws;
    }
  }

  /**
   * Round trip: lowercase words without delimiters, joined by spaces, are read
   * back as the same words.
   */
  lemma {:induction false} SpacedWordsRoundTrip(ws: seq<string>)
    requires forall w :: w in ws ==> |w| > 0 && NoSplitter(w) && IsLowercase(w)
    ensures GetWords(JoinWithSpaces(ws)) == ws
  {
    JoinedLowercaseIsLowercase(ws);
    GetWordsAreMaximalRuns(JoinWithSpaces(ws));
    RunsOfJoin(ws);
  }

  lemma {:induction false} RunsOfJoin(ws: seq<string>)
    requires forall w :: w in ws ==> |w| > 0 && NoSplitter(w)
    ensures Runs(JoinWithSpaces(ws)) == ws
  {
    if |ws| == 1 {
      assert ws[0] in ws;
      RunsOfSingleWord(ws[0]);
    } else if |ws| > 1 {
      assert ws[0] in ws;
      RunsOfJoin(ws[1..]);
      RunsOfWordAndSpace(ws[0], JoinWithSpaces(ws[1..]));
    }
  }

  // ---------------------------------------------------------------------------
  // ReadLineOrEsc: the line editor over a sequence of key presses
  // ---------------------------------------------------------------------------

  datatype ConsoleKey = Escape | Enter | Backspace | OtherKey

  /** A key press: which key, and the character it produces. */
  datatype ConsoleKeyInfo = ConsoleKeyInfo(key: ConsoleKey, keyChar: char)

  /** What reading a line gives: Cancelled stands for the null of an Escape. */
  datatype LineInput =
    | Cancelled
    | Line(text: string)
    | Unfinished(buffer: string)   // the keys ran out before Escape or Enter

  predicate EndsInput(k: ConsoleKeyInfo) {
    k.key == Escape || k.key == Enter
  }

  /** The buffer after one key that does not end the input. */
  function Edit(buffer: string, k: ConsoleKeyInfo): string {
    match k.key
    case Backspace => if |buffer| > 0 then buffer[..|buffer| - 1] else buffer
    case OtherKey => buffer + [k.keyChar]
    case _ => buffer
  }

  /** The buffer after the keys, applied from the first to the last. */
  function Typed(keys: seq<ConsoleKeyInfo>): string {
    if |keys| == 0 then [] else Edit(Typed(keys[..|keys| - 1]), keys[|keys| - 1])
  }

  /** Index of the first Escape or Enter, or |keys| when there is none. */
  function FirstEnd(keys: seq<ConsoleKeyInfo>): (n: nat)
    ensures n <= |keys|
    ensures forall j :: 0 <= j < n ==> !EndsInput(keys[j])
    ensures n < |keys| ==> EndsInput(keys[n])
  {
    if |keys| == 0 || EndsInput(keys[0]) then 0 else 1 + FirstEnd(keys[1..])
  }

  /** No key before index n ends the input. */
  predicate NoEndBefore(keys: seq<ConsoleKeyInfo>, n: nat)
    requires n <= |keys|
  {
    forall j :: 0 <= j < n ==> !EndsInput(keys[j])
  }

  /** What ReadLineOrEsc returns for the given key presses: decided by the first Escape or Enter. */
  function ReadLineResult(keys: seq<ConsoleKeyInfo>): (r: LineInput)
    ensures r.Unfinished? <==> forall j :: 0 <= j < |keys| ==> !EndsInput(keys[j])
    ensures r.Unfinished? ==> r.buffer == Typed(keys)
    ensures r.Cancelled? <==> exists n :: 0 <= n < |keys| && keys[n].key == Escape && NoEndBefore(keys, n)
    ensures r.Line? <==> exists n :: 0 <= n < |keys| && keys[n].key == Enter && NoEndBefore(keys, n)
    ensures r.Line? ==> forall n :: 0 <= n < |keys| && keys[n].key == Enter && NoEndBefore(keys, n) ==>
                          r.text == Typed(keys[..n])
  {
    var n := FirstEnd(keys);
    if n == |keys| then Unfinished(Typed(keys))
    else if keys[n].key == Escape then Cancelled
    else Line(Typed(keys[..n]))
  }

  method ReadLineOrEsc(keys: seq<ConsoleKeyInfo>) returns (r: LineInput)
    ensures r == ReadLineResult(keys)
  {
    var retString: string := [];
    var curIndex := 0;
    var i := 0;
    while i < |keys|
      invariant 0 <= i <= |keys|
      invariant curIndex == |retString|
      invariant retString == Typed(keys[..i])
      invariant forall j :: 0 <= j < i ==> !EndsInput(keys[j])
    {
      var readKeyResult := keys[i];
      assert keys[..i + 1][..i] == keys[..i];
      if readKeyResult.key == Escape {
        return Cancelled;
      }
      if readKeyResult.key == Enter {
        return Line(retString);
      }
      if readKeyResult.key == Backspace {
        if curIndex > 0 {
          retString := retString[..|retString| - 1];
          curIndex := curIndex - 1;
        }
      } else {
        retString := retString + [readKeyResult.keyChar];
        curIndex := curIndex + 1;
      }
      i := i + 1;
    }
    assert keys[..i] == keys;
    r := Unfinished(retString);
  }

  /** Escape gives the null result, whatever was typed before it. */
  lemma EscapeCancels(typed: seq<ConsoleKeyInfo>, c: char, rest: seq<ConsoleKeyInfo>)
    requires forall j :: 0 <= j < |typed| ==> !EndsInput(typed[j])
    ensures ReadLineResult(typed + [ConsoleKeyInfo(Escape, c)] + rest) == Cancelled
  {
    var keys := typed + [ConsoleKeyInfo(Escape, c)] + rest;
    assert keys[|typed|].key == Escape;
    assert forall j :: 0 <= j < |typed| ==> keys[j] == typed[j];
    assert FirstEnd(keys) == |typed|;
  }

  /** Enter gives the buffer built by the keys before it. */
  lemma EnterReturnsTyped(typed: seq<ConsoleKeyInfo>, c: char, rest: seq<ConsoleKeyInfo>)
    requires forall j :: 0 <= j < |typed| ==> !EndsInput(typed[j])
    ensures ReadLineResult(typed + [ConsoleKeyInfo(Enter, c)] + rest) == Line(Typed(typed))
  {
    var keys := typed + [ConsoleKeyInfo(Enter, c)] + rest;
    assert keys[|typed|].key == Enter;
    assert forall j :: 0 <= j < |typed| ==> keys[j] == typed[j];
    assert FirstEnd(keys) == |typed|;
    assert keys[..|typed|] == typed;
  }

  /** The characters of a run of ordinary key presses. */
  function KeyChars(keys: seq<ConsoleKeyInfo>): string {
    seq(|keys|, i requires 0 <= i < |keys| => keys[i].keyChar)
  }

  /** Without Backspace, the buffer is exactly the characters typed, in order. */
  lemma {:induction false} PlainTypingIsVerbatim(keys: seq<ConsoleKeyInfo>)
    requires forall j :: 0 <= j < |keys| ==> keys[j].key == OtherKey
    ensures Typed(keys) == KeyChars(keys)
  {
    if |keys| > 0 {
      var init := keys[..|keys| - 1];
      PlainTypingIsVerbatim(init);
      assert KeyChars(keys) == KeyChars(init) + [keys[|keys| - 1].keyChar];
    }
  }

  /** Backspace removes the most recent remaining character. */
  lemma BackspaceUndoesLastKey(keys: seq<ConsoleKeyInfo>, c: char, b: char)
    ensures Typed(keys + [ConsoleKeyInfo(OtherKey, c), ConsoleKeyInfo(Backspace, b)]) == Typed(keys)
  {
    var k1 := keys + [ConsoleKeyInfo(OtherKey, c)];
    var k2 := k1 + [ConsoleKeyInfo(Backspace, b)];
    assert keys + [ConsoleKeyInfo(OtherKey, c), ConsoleKeyInfo(Backspace, b)] == k2;
    assert k2[..|k2| - 1] == k1;
    assert k1[..|k1| - 1] == keys;
    var t := Typed(keys);
    assert (t + [c])[..|t|] == t;
  }

  /** Backspace on an empty buffer does nothing. */
  lemma BackspaceOnEmptyIsIgnored(keys: seq<ConsoleKeyInfo>, b: char)
    requires Typed(keys) == []
    ensures Typed(keys + [ConsoleKeyInfo(Backspace, b)]) == []
  {
    var k := keys + [ConsoleKeyInfo(Backspace, b)];
    assert k[..|k| - 1] == keys;
  }

  /** The buffer never holds more characters than keys were pressed. */
  lemma {:induction false} TypedIsNoLongerThanKeys(keys: seq<ConsoleKeyInfo>)
    ensures |Typed(keys)| <= |keys|
  {
    if |keys| > 0 {
      TypedIsNoLongerThanKeys(keys[..|keys| - 1]);
    }
  }
}
