/** The one-time builders of the data files: the word-list cleaner of
    `clean_and_build_file` and the frequency map of
    `build_and_export_frequencies`. */
module Etl {
  import opened Text
  import opened Vocabulary

  datatype Option<T> = None | Some(value: T)

  /** Words dropped whenever they are met. */
  const FakeWords: seq<string> := ["ing", "bede", "ery", "lin", "lar", "ped"]

  /** Counts at or below this are dropped from the frequency map. */
  const PopularityThreshold: int := 1000

  /** `str.islower()` on ASCII: at least one lower-case letter and no
      upper-case one. */
  predicate IsLowerCase(s: string)
  {
    (exists i :: 0 <= i < |s| && 'a' <= s[i] <= 'z') &&
    forall i :: 0 <= i < |s| ==> !('A' <= s[i] <= 'Z')
  }

  /** `strip()` then `lower()`. The source lowers only when `islower()`
      fails; `LowerSkipsLowerCase` shows that makes no difference. */
  function Normalize(raw: string): string
  {
    Lower(Strip(raw))
  }

  /** The skip test of the cleaning loop. An empty word is caught by the
      first disjunct (it is not alphabetic and holds no hyphen), so the
      indexing further on never sees one. */
  predicate Skip(w: string)
  {
    (!IsAlpha(w) && ('-' !in w || '_' !in w)) ||
    HasSubstring(w, "aa") || HasSubstring(w, "abc") ||
    w[|w| - 1] == '-' || w[0] == '-' ||
    |w| == 1 || w in FakeWords
  }

  /** `curr_word.split('_')[0]` when the word holds an underscore. */
  function Truncated(w: string): string
  {
    if '_' in w then Split(w, '_')[0] else w
  }

  /** What one raw entry contributes to the word list, as the source has it. */
  function CleanedAsWritten(raw: string): Option<string>
  {
    var w := Normalize(raw);
    if Skip(w) then None else Some(Truncated(w))
  }

  /** The corrected rule: the as-written word, provided it still has at least
      two letters after the cut. */
  function Cleaned(raw: string): Option<string>
  {
    var kept := CleanedAsWritten(raw);
    if kept.Some? && |kept.value| > 1 then kept else None
  }

  /** The contribution of each raw entry under `rule`, in order. */
  function Contributions(rule: string -> Option<string>, raws: seq<string>): seq<Option<string>>
  {
    if |raws| == 0 then []
    else Contributions(rule, raws[..|raws| - 1]) + [rule(raws[|raws| - 1])]
  }

  /** The words one contribution appends. */
  function Contribution(o: Option<string>): seq<string>
  {
    if o.Some? then [o.value] else []
  }

  /** The word list after appending every contribution, in order. */
  function Collect(results: seq<Option<string>>): seq<string>
  {
    if |results| == 0 then []
    else
      var init := Collect(results[..|results| - 1]);
      match results[|results| - 1]
      case Some(w) => init + [w]
      case None => init
  }

  /** `dict(Counter(words)).keys()`: each distinct word once, in order of
      first occurrence. It is the append-if-absent loop started empty. */
  function CounterKeys(words: seq<string>): seq<string>
  {
    AddEach([], words)
  }

  /** The loop body for one entry, as written: strip, lower unless already
      lower case, the skip test and the cut at the first underscore. */
  method CleanEntry(raw: string) returns (kept: Option<string>)
    ensures kept == CleanedAsWritten(raw)
  {
    var currWord := Strip(raw);
    if !IsLowerCase(currWord) {
      currWord := Lower(currWord);
    }
    LowerSkipsLowerCase(raw);
    assert currWord == Normalize(raw);
    if Skip(currWord) {
      kept := None;
    } else if '_' in currWord {
      var sp := Split(currWord, '_');
      kept := Some(sp[0]);
    } else {
      kept := Some(currWord);
    }
  }

  /** The loop over the entries of the letter files, as written: a word is
      kept iff some entry contributes it, and every kept word is an
      underscore-free prefix of an entry that passed the skip test. */
  method CleanWords(raws: seq<string>) returns (words: seq<string>)
    ensures words == Collect(Contributions(CleanedAsWritten, raws))
    ensures forall w :: w in words <==> exists i :: 0 <= i < |raws| && CleanedAsWritten(raws[i]) == Some(w)
    ensures forall w :: w in words ==>
              '_' !in w &&
              exists i :: 0 <= i < |raws| && !Skip(Normalize(raws[i])) && w <= Normalize(raws[i])
  {
    words := [];
    var i := 0;
    while i < |raws|
      invariant 0 <= i <= |raws|
      invariant words == Collect(Contributions(CleanedAsWritten, raws[..i]))
    {
      ContributionsAppend(CleanedAsWritten, raws, i);
      var kept := CleanEntry(raws[i]);
      if kept.Some? {
        words := words + [kept.value];
      }
      i := i + 1;
    }
    assert raws[..|raws|] == raws;
    CleanWordsFacts(raws);
  }

  /** The cleaning loop with the length test repeated after the underscore
      cut, so that no word shorter than two letters is kept. */
  method CleanWordsIntended(raws: seq<string>) returns (words: seq<string>)
    ensures words == Collect(Contributions(Cleaned, raws))
    ensures forall w :: w in words <==> exists i :: 0 <= i < |raws| && Cleaned(raws[i]) == Some(w)
    ensures forall w :: w in words ==> |w| > 1 && '_' !in w
  {
    words := [];
    var i := 0;
    while i < |raws|
      invariant 0 <= i <= |raws|
      invariant words == Collect(Contributions(Cleaned, raws[..i]))
    {
      ContributionsAppend(Cleaned, raws, i);
      var kept := CleanEntry(raws[i]);
      if kept.Some? && |kept.value| > 1 {
        words := words + [kept.value];
      }
      i := i + 1;
    }
    assert raws[..|raws|] == raws;
    CleanWordsIntendedFacts(raws);
  }

  // ---- the per-entry lists ----

  /** Entry `i` appends its contribution. */
  lemma ContributionsAppend(rule: string -> Option<string>, raws: seq<string>, i: nat)
    requires i < |raws|
    ensures Collect(Contributions(rule, raws[..i + 1])) ==
              Collect(Contributions(rule, raws[..i])) + Contribution(rule(raws[i]))
  {
    assert raws[..i + 1][..i] == raws[..i];
    CollectAppend(Contributions(rule, raws[..i]), rule(raws[i]));
  }

  /** The list holds exactly the contributions of the entries. */
  lemma {:induction false} ContributionsOrigin(rule: string -> Option<string>, raws: seq<string>)
    ensures forall o :: o in Contributions(rule, raws) <==> exists i :: 0 <= i < |raws| && rule(raws[i]) == o
  {
    if |raws| > 0 {
      var n := |raws| - 1;
      var init := raws[..n];
      ContributionsOrigin(rule, init);
      forall o ensures o in Contributions(rule, raws) <==> exists i :: 0 <= i < |raws| && rule(raws[i]) == o {
        if o in Contributions(rule, init) {
          var i :| 0 <= i < |init| && rule(init[i]) == o;
          assert raws[i] == init[i];
        }
        if exists i :: 0 <= i < |raws| && rule(raws[i]) == o {
          var i :| 0 <= i < |raws| && rule(raws[i]) == o;
          if i < n {
            assert init[i] == raws[i];
          }
        }
      }
    }
  }

  /** One more entry appends its contribution, if any. */
  lemma CollectAppend(results: seq<Option<string>>, o: Option<string>)
    ensures Collect(results + [o]) == Collect(results) + Contribution(o)
  {
    assert (results + [o])[..|results|] == results;
  }

  /** A word is in the list iff some entry contributed it. */
  lemma {:induction false} CollectMembers(results: seq<Option<string>>)
    ensures forall w :: w in Collect(results) <==> Some(w) in results
  {
    if |results| > 0 {
      var init := results[..|results| - 1];
      CollectMembers(init);
      assert results == init + [results[|results| - 1]];
    }
  }

  /** What the as-written list holds, entry by entry. */
  lemma CleanWordsFacts(raws: seq<string>)
    ensures forall w :: w in Collect(Contributions(CleanedAsWritten, raws)) <==>
              exists i :: 0 <= i < |raws| && CleanedAsWritten(raws[i]) == Some(w)
    ensures forall w :: w in Collect(Contributions(CleanedAsWritten, raws)) ==>
              '_' !in w &&
              exists i :: 0 <= i < |raws| && !Skip(Normalize(raws[i])) && w <= Normalize(raws[i])
  {
    var words := Collect(Contributions(CleanedAsWritten, raws));
    CollectMembers(Contributions(CleanedAsWritten, raws));
    ContributionsOrigin(CleanedAsWritten, raws);
    forall w | w in words
      ensures '_' !in w && exists i :: 0 <= i < |raws| && !Skip(Normalize(raws[i])) && w <= Normalize(raws[i])
    {
      var i :| 0 <= i < |raws| && CleanedAsWritten(raws[i]) == Some(w);
      CleanedAsWrittenKeeps(raws[i]);
    }
  }

  /** What the corrected list holds, entry by entry. */
  lemma CleanWordsIntendedFacts(raws: seq<string>)
    ensures forall w :: w in Collect(Contributions(Cleaned, raws)) <==>
              exists i :: 0 <= i < |raws| && Cleaned(raws[i]) == Some(w)
    ensures forall w :: w in Collect(Contributions(Cleaned, raws)) ==> |w| > 1 && '_' !in w
  {
    var words := Collect(Contributions(Cleaned, raws));
    CollectMembers(Contributions(Cleaned, raws));
    ContributionsOrigin(Cleaned, raws);
    forall w | w in words ensures |w| > 1 && '_' !in w {
      var i :| 0 <= i < |raws| && Cleaned(raws[i]) == Some(w);
      CleanedKeeps(raws[i]);
    }
  }

  // ---- cleaning ----

  /** The `islower()` test only saves work: lowering a word that passes it
      changes nothing, so strip then lower-unless-lower-case is `Normalize`. */
  lemma LowerSkipsLowerCase(raw: string)
    ensures (var w := Strip(raw); if IsLowerCase(w) then w else Lower(w)) == Normalize(raw)
  {
    var w := Strip(raw);
    if IsLowerCase(w) {
      LowerUnchanged(w);
    }
  }

  /** As the source has it, the kept word is the normalized entry cut just
      before its first underscore (the whole entry when there is none),
      taken from an entry that passed the skip test. */
  lemma CleanedAsWrittenKeeps(raw: string)
    ensures CleanedAsWritten(raw).Some? ==>
              !Skip(Normalize(raw)) && CleanedAsWritten(raw).value <= Normalize(raw) &&
              '_' !in CleanedAsWritten(raw).value
    ensures CleanedAsWritten(raw).Some? && |CleanedAsWritten(raw).value| < |Normalize(raw)| ==>
              Normalize(raw)[|CleanedAsWritten(raw).value|] == '_'
    ensures CleanedAsWritten(raw).Some? && '_' !in Normalize(raw) ==>
              CleanedAsWritten(raw).value == Normalize(raw)
  {
    SplitHead(Normalize(raw), '_');
  }

  /** Every word kept has passed the skip test, is the normalized entry cut
      just before its first underscore, and has at least two letters. */
  lemma CleanedKeeps(raw: string)
    ensures Cleaned(raw).Some? ==>
              !Skip(Normalize(raw)) && Cleaned(raw).value <= Normalize(raw) &&
              '_' !in Cleaned(raw).value && |Cleaned(raw).value| > 1
    ensures Cleaned(raw).Some? && |Cleaned(raw).value| < |Normalize(raw)| ==>
              Normalize(raw)[|Cleaned(raw).value|] == '_'
  {
    CleanedAsWrittenKeeps(raw);
  }

  /** Entries the skip test rejects never contribute. */
  lemma CleanedSkips(raw: string)
    requires Skip(Normalize(raw))
    ensures Cleaned(raw) == None && CleanedAsWritten(raw) == None
  {
  }

  lemma SkipsEmpty()
    ensures Skip("")
  {
  }

  /** As the source has it, a one-letter word gets through when the
      underscore cut happens after the length test. */
  lemma AsWrittenKeepsOneLetter()
    ensures CleanedAsWritten("x_y-z") == Some("x")
  {
    SampleNormalized();
    SampleNotSkipped();
    SampleTruncated();
  }

  /** As the source has it, an entry that starts with an underscore but
      passes the skip test contributes the empty word. */
  lemma AsWrittenKeepsEmpty()
    ensures CleanedAsWritten("_a-b") == Some("")
  {
    EmptySampleNormalized();
    EmptySampleNotSkipped();
    assert Split("_a-b", '_')[0] == "";
  }

  lemma EmptySampleNormalized()
    ensures Normalize("_a-b") == "_a-b"
  {
    var w := "_a-b";
    assert TrimLeft(w) == w;
    assert TrimRight(w) == w;
    LowerUnchanged(w);
  }

  lemma EmptySampleNotSkipped()
    ensures !Skip("_a-b")
  {
    var w := "_a-b";
    assert !IsAlpha(w) by { assert !IsLetter(w[0]); }
    assert w[0] == '_' && w[2] == '-';
    assert !HasSubstring(w, "aa") by {
      assert !HasSubstring(w[3..], "aa");
      assert !HasSubstring(w[2..], "aa");
      assert !HasSubstring(w[1..], "aa");
    }
    assert !HasSubstring(w, "abc") by {
      assert !HasSubstring(w[3..], "abc");
      assert !HasSubstring(w[2..], "abc");
      assert !HasSubstring(w[1..], "abc");
    }
  }

  lemma SampleNormalized()
    ensures Normalize("x_y-z") == "x_y-z"
  {
    var w := "x_y-z";
    assert TrimLeft(w) == w;
    assert TrimRight(w) == w;
    LowerUnchanged(w);
  }

  lemma SampleNotSkipped()
    ensures !Skip("x_y-z")
  {
    var w := "x_y-z";
    assert !IsAlpha(w) by { assert !IsLetter(w[1]); }
    assert w[1] == '_' && w[3] == '-';
    assert !HasSubstring(w, "aa") by {
      assert !HasSubstring(w[4..], "aa");
      assert !HasSubstring(w[3..], "aa");
      assert !HasSubstring(w[2..], "aa");
      assert !HasSubstring(w[1..], "aa");
    }
    assert !HasSubstring(w, "abc") by {
      assert !HasSubstring(w[4..], "abc");
      assert !HasSubstring(w[3..], "abc");
      assert !HasSubstring(w[2..], "abc");
      assert !HasSubstring(w[1..], "abc");
    }
  }

  lemma SampleTruncated()
    ensures Truncated("x_y-z") == "x"
  {
    var w := "x_y-z";
    assert w[1] == '_';
    SplitPrefix("x", w[1..], '_');
    assert w == "x" + w[1..];
  }

  lemma LowerUnchanged(s: string)
    requires forall i :: 0 <= i < |s| ==> !('A' <= s[i] <= 'Z')
    ensures Lower(s) == s
  {
  }

  // ---- dedup ----

  function FirstIndex(s: seq<string>, x: string): (k: nat)
    requires x in s
    ensures k < |s| && s[k] == x && x !in s[..k]
  {
    if s[0] == x then 0 else 1 + FirstIndex(s[1..], x)
  }

  lemma {:induction false} FirstIndexExtend(s: seq<string>, t: seq<string>, x: string)
    requires x in s
    ensures FirstIndex(s + t, x) == FirstIndex(s, x)
  {
    if s[0] != x {
      assert (s + t)[1..] == s[1..] + t;
      FirstIndexExtend(s[1..], t, x);
    }
  }

  /** The dedup has no duplicates, the same members, and lists the words
      in the order in which they first occur. */
  lemma CounterKeysFacts(words: seq<string>)
    ensures NoDup(CounterKeys(words))
    ensures forall x :: x in CounterKeys(words) <==> x in words
    ensures forall i, j :: 0 <= i < j < |CounterKeys(words)| ==>
              FirstIndex(words, CounterKeys(words)[i]) < FirstIndex(words, CounterKeys(words)[j])
  {
    AddEachNoDup([], words);
    forall x ensures x in CounterKeys(words) <==> x in words {
      AddEachMembers([], words, x);
    }
    CounterKeysOrder(words);
  }

  lemma {:induction false} CounterKeysOrder(words: seq<string>)
    ensures forall x :: x in CounterKeys(words) ==> x in words
    ensures forall i, j :: 0 <= i < j < |CounterKeys(words)| ==>
              FirstIndex(words, CounterKeys(words)[i]) < FirstIndex(words, CounterKeys(words)[j])
  {
    forall x | x in CounterKeys(words) ensures x in words {
      AddEachMembers([], words, x);
    }
    if |words| > 0 {
      var init := words[..|words| - 1];
      var last := words[|words| - 1];
      assert words == init + [last];
      CounterKeysOrder(init);
      var d := CounterKeys(init);
      forall x ensures x in d <==> x in init {
        AddEachMembers([], init, x);
      }
      OrderStep(words, init, last, d, CounterKeys(words));
    }
  }

  /** One step of the dedup keeps the first-occurrence order. */
  lemma OrderStep(words: seq<string>, init: seq<string>, last: string, d: seq<string>, d': seq<string>)
    requires words == init + [last]
    requires forall x :: x in d <==> x in init
    requires forall i, j :: 0 <= i < j < |d| ==> FirstIndex(init, d[i]) < FirstIndex(init, d[j])
    requires d' == if last in d then d else d + [last]
    ensures forall x :: x in d' ==> x in words
    ensures forall i, j :: 0 <= i < j < |d'| ==> FirstIndex(words, d'[i]) < FirstIndex(words, d'[j])
  {
    forall y | y in init ensures FirstIndex(words, y) == FirstIndex(init, y) {
      FirstIndexExtend(init, [last], y);
    }
    if last !in d {
      assert FirstIndex(words, last) == |init|;
      forall i, j | 0 <= i < j < |d'| ensures FirstIndex(words, d'[i]) < FirstIndex(words, d'[j]) {
        assert d'[i] == d[i] && d[i] in init;
        if j < |d| {
          assert d'[j] == d[j];
        }
      }
    } else {
      forall i, j | 0 <= i < j < |d| ensures FirstIndex(words, d[i]) < FirstIndex(words, d[j]) {
        assert d[i] in init && d[j] in init;
      }
    }
  }

  // ---- frequencies ----

  /** One row of the frequency table. */
  datatype FreqRow = FreqRow(word: string, count: int)

  /** `freq_df[freq_df['count'] > 1000]` */
  function Popular(rows: seq<FreqRow>): (r: seq<FreqRow>)
  {
    if |rows| == 0 then []
    else (if rows[0].count > PopularityThreshold then [rows[0]] else []) + Popular(rows[1..])
  }

  /** The dictionary after `word_freqs[word] = count` for every row, in
      order: a later row overwrites an earlier one. */
  function FreqMap(rows: seq<FreqRow>): map<string, int>
  {
    if |rows| == 0 then map[]
    else FreqMap(rows[..|rows| - 1])[rows[|rows| - 1].word := rows[|rows| - 1].count]
  }

  /** The filter followed by the dictionary-building loop. */
  method BuildFrequencies(rows: seq<FreqRow>) returns (wordFreqs: map<string, int>)
    ensures wordFreqs == FreqMap(Popular(rows))
    ensures forall w :: w in wordFreqs ==> wordFreqs[w] > PopularityThreshold
  {
    var freqRows := Popular(rows);
    wordFreqs := map[];
    var r := 0;
    while r < |freqRows|
      invariant 0 <= r <= |freqRows|
      invariant wordFreqs == FreqMap(freqRows[..r])
    {
      assert freqRows[..r + 1][..r] == freqRows[..r];
      wordFreqs := wordFreqs[freqRows[r].word := freqRows[r].count];
      r := r + 1;
    }
    assert freqRows[..|freqRows|] == freqRows;
    PopularFacts(rows);
    FreqMapBound(freqRows, PopularityThreshold);
  }

  /** Every value in the dictionary is the count of some row, so a bound on
      all counts bounds all values. */
  lemma {:induction false} FreqMapBound(rows: seq<FreqRow>, t: int)
    requires forall x :: x in rows ==> x.count > t
    ensures forall w :: w in FreqMap(rows) ==> FreqMap(rows)[w] > t
  {
    if |rows| > 0 {
      var init := rows[..|rows| - 1];
      assert forall x :: x in init ==> x in rows;
      FreqMapBound(init, t);
    }
  }

  lemma {:induction false} PopularFacts(rows: seq<FreqRow>)
    ensures forall x :: x in Popular(rows) <==> x in rows && x.count > PopularityThreshold
  {
    if |rows| > 0 {
      PopularFacts(rows[1..]);
      assert rows == [rows[0]] + rows[1..];
    }
  }

  /** A word is a key iff some row names it, and its value is the count of
      the last row that names it. */
  lemma FreqMapLast(rows: seq<FreqRow>)
    ensures forall w :: w in FreqMap(rows) <==> exists i :: 0 <= i < |rows| && rows[i].word == w
    ensures forall w :: w in FreqMap(rows) ==>
              exists i :: 0 <= i < |rows| && rows[i].word == w && FreqMap(rows)[w] == rows[i].count &&
                forall j :: i < j < |rows| ==> rows[j].word != w
  {
    FreqMapKeys(rows);
    FreqMapValues(rows);
  }

  lemma {:induction false} FreqMapKeys(rows: seq<FreqRow>)
    ensures forall w :: w in FreqMap(rows) <==> exists i :: 0 <= i < |rows| && rows[i].word == w
  {
    if |rows| > 0 {
      var init := rows[..|rows| - 1];
      var n := |rows| - 1;
      FreqMapKeys(init);
      forall w ensures w in FreqMap(rows) <==> exists i :: 0 <= i < |rows| && rows[i].word == w {
        if w in FreqMap(init) {
          var i :| 0 <= i < |init| && init[i].word == w;
          assert rows[i].word == w;
        }
        if exists i :: 0 <= i < |rows| && rows[i].word == w {
          var i :| 0 <= i < |rows| && rows[i].word == w;
          if i < n {
            assert init[i].word == w;
          }
        }
      }
    }
  }

  lemma {:induction false} FreqMapValues(rows: seq<FreqRow>)
    ensures forall w :: w in FreqMap(rows) ==>
              exists i :: 0 <= i < |rows| && rows[i].word == w && FreqMap(rows)[w] == rows[i].count &&
                forall j :: i < j < |rows| ==> rows[j].word != w
  {
    if |rows| > 0 {
      var init := rows[..|rows| - 1];
      var n := |rows| - 1;
      FreqMapValues(init);
      forall w | w in FreqMap(rows)
        ensures exists i :: 0 <= i < |rows| && rows[i].word == w && FreqMap(rows)[w] == rows[i].count &&
                  forall j :: i < j < |rows| ==> rows[j].word != w
      {
        if w != rows[n].word {
          assert FreqMap(rows) == FreqMap(init)[rows[n].word := rows[n].count];
          assert w in FreqMap(init) && FreqMap(rows)[w] == FreqMap(init)[w];
          var i :| 0 <= i < |init| && init[i].word == w && FreqMap(init)[w] == init[i].count &&
                   forall j :: i < j < |init| ==> init[j].word != w;
          assert rows[i] == init[i];
          forall j | i < j < |rows| ensures rows[j].word != w {
            if j < n {
              assert rows[j] == init[j];
            }
          }
        }
      }
    }
  }
}
