/** The result ranker: merges the one-gram matches with the admitted
    two-grams, drops blacklisted entries, computes a frequency key and an
    alphabetical key per phrase and produces the two sorted views. */
module Ranker {
  import opened Text
  import opened Vocabulary
  import opened Classifier

  /** `word_freqs[w]`, with a `KeyError` read as 0. */
  function Lookup(freqs: map<string, int>, w: string): int
  {
    if w in freqs then freqs[w] else 0
  }

  lemma SpaceSplits(phrase: string)
    requires ' ' in phrase
    ensures |Split(phrase, ' ')| >= 2
  {
    SplitLength(phrase, ' ');
    CountZero(phrase, ' ');
  }

  /** The frequency key of one result: a phrase with a space is looked up by
      its second token for "starts" and its first token for "ends"; any other
      entry is looked up as it is. */
  function FrequencyKey(anchor: Anchor, freqs: map<string, int>, phrase: string): int
  {
    if ' ' in phrase then
      var split := (SpaceSplits(phrase); Split(phrase, ' '));
      Lookup(freqs, if anchor == Starts then split[1] else split[0])
    else Lookup(freqs, phrase)
  }

  /** The alphabetical key: a phrase with a space becomes its first two
      tokens glued together; any other entry is its own key. */
  function SortKey(phrase: string): string
  {
    if ' ' in phrase then
      var split := (SpaceSplits(phrase); Split(phrase, ' '));
      split[0] + split[1]
    else phrase
  }

  // ---- keys ----

  /** A one-gram is ranked by its own count, 0 when unknown. */
  lemma FrequencyKeyOneGram(anchor: Anchor, freqs: map<string, int>, w: string)
    requires ' ' !in w
    ensures FrequencyKey(anchor, freqs, w) == (if w in freqs then freqs[w] else 0)
  {
  }

  /** A two-gram `a b` is ranked by the count of its non-query word: `b` for
      "starts", `a` for "ends", 0 when unknown. */
  lemma FrequencyKeyTwoGram(freqs: map<string, int>, a: string, b: string)
    requires ' ' !in a && ' ' !in b
    ensures FrequencyKey(Starts, freqs, a + " " + b) == Lookup(freqs, b)
    ensures FrequencyKey(Ends, freqs, a + " " + b) == Lookup(freqs, a)
  {
    SplitPair(a, b, ' ');
    assert ' ' in a + " " + b by { assert (a + " " + b)[|a|] == ' '; }
  }

  /** For every admitted two-gram the key is the count of the word that is
      not the query. */
  lemma FrequencyKeyAdmitted(anchor: Anchor, query: string, words: seq<string>, freqs: map<string, int>, c: string)
    requires Admits(anchor, query, words, c)
    ensures FrequencyKey(anchor, freqs, c) == Lookup(freqs, OtherToken(Tokens(c), anchor))
  {
    TwoTokensShape(c);
    FrequencyKeyTwoGram(freqs, Tokens(c)[0], Tokens(c)[1]);
  }

  /** For a one- or two-word entry the alphabetical key is the entry with
      its space removed. */
  lemma SortKeyRemovesSpace(phrase: string)
    requires Count(phrase, ' ') <= 1
    ensures SortKey(phrase) == Remove(phrase, ' ')
  {
    CountZero(phrase, ' ');
    if ' ' in phrase {
      SplitLength(phrase, ' ');
      TwoTokensShape(phrase);
      var t := Split(phrase, ' ');
      var a, b := t[0], t[1];
      assert phrase == a + " " + b;
      RemoveConcat(a + " ", b, ' ');
      RemoveConcat(a, " ", ' ');
      assert Remove(" ", ' ') == "" by { assert " "[1..] == ""; }
      RemoveAbsent(a, ' ');
      RemoveAbsent(b, ' ');
      assert SortKey(phrase) == a + b;
    } else {
      RemoveAbsent(phrase, ' ');
    }
  }

  lemma SortKeyCatNap()
    ensures SortKey("cat nap") == "catnap"
  {
    SplitPair("cat", "nap", ' ');
    assert "cat" + [' '] + "nap" == "cat nap";
  }

  // ---- the key-building loops ----

  /** The loop building `starting_counts` / `ending_counts`. */
  method FrequencyKeys(anchor: Anchor, freqs: map<string, int>, results: seq<string>)
    returns (counts: seq<int>)
    ensures |counts| == |results|
    ensures forall i :: 0 <= i < |results| ==> counts[i] == FrequencyKey(anchor, freqs, results[i])
  {
    counts := [];
    var i := 0;
    while i < |results|
      invariant 0 <= i <= |results| && |counts| == i
      invariant forall k :: 0 <= k < i ==> counts[k] == FrequencyKey(anchor, freqs, results[k])
    {
      var word := results[i];
      if ' ' in word {
        SpaceSplits(word);
        var wordSplit := Split(word, ' ');
        var other := if anchor == Starts then wordSplit[1] else wordSplit[0];
        if other in freqs {
          counts := counts + [freqs[other]];
        } else {
          counts := counts + [0];
        }
      } else {
        if word in freqs {
          counts := counts + [freqs[word]];
        } else {
          counts := counts + [0];
        }
      }
      i := i + 1;
    }
  }

  /** The loop building the `word for sorting` column. */
  method SortKeys(results: seq<string>) returns (keys: seq<string>)
    ensures |keys| == |results|
    ensures forall i :: 0 <= i < |results| ==> keys[i] == SortKey(results[i])
  {
    keys := [];
    var i := 0;
    while i < |results|
      invariant 0 <= i <= |results| && |keys| == i
      invariant forall k :: 0 <= k < i ==> keys[k] == SortKey(results[k])
    {
      var word := results[i];
      if ' ' in word {
        SpaceSplits(word);
        var wordSplit := Split(word, ' ');
        keys := keys + [wordSplit[0] + wordSplit[1]];
      } else {
        keys := keys + [word];
      }
      i := i + 1;
    }
  }

  // ---- sorted views ----

  /** One row of the results data frame. */
  datatype Row = Row(word: string, count: int, sortKey: string)

  /** `sort_values('counts', ascending=False)` or
      `sort_values('word for sorting', ascending=True)`. */
  datatype Order = ByCountDescending | BySortKeyAscending

  predicate InOrder(o: Order, a: Row, b: Row)
  {
    match o
    case ByCountDescending => a.count >= b.count
    case BySortKeyAscending => LexLe(a.sortKey, b.sortKey)
  }

  predicate Sorted(o: Order, rows: seq<Row>)
  {
    forall i, j :: 0 <= i < j < |rows| ==> InOrder(o, rows[i], rows[j])
  }

  /** What the source relies on from `sort_values`: the same rows, ordered.
      The order among equal keys is not specified. */
  predicate IsSortedView(o: Order, view: seq<Row>, rows: seq<Row>)
  {
    multiset(view) == multiset(rows) && Sorted(o, view)
  }

  lemma InOrderTotal(o: Order, a: Row, b: Row)
    ensures InOrder(o, a, b) || InOrder(o, b, a)
  {
    if o == BySortKeyAscending {
      LexLeTotal(a.sortKey, b.sortKey);
    }
  }

  lemma InOrderTrans(o: Order, a: Row, b: Row, c: Row)
    requires InOrder(o, a, b) && InOrder(o, b, c)
    ensures InOrder(o, a, c)
  {
    if o == BySortKeyAscending {
      LexLeTrans(a.sortKey, b.sortKey, c.sortKey);
    }
  }

  function Insert(o: Order, x: Row, s: seq<Row>): seq<Row>
  {
    if |s| == 0 then [x]
    else if InOrder(o, x, s[0]) then [x] + s
    else [s[0]] + Insert(o, x, s[1..])
  }

  /** A reference sort that realises `IsSortedView`. */
  function SortRows(o: Order, rows: seq<Row>): seq<Row>
  {
    if |rows| == 0 then [] else Insert(o, rows[0], SortRows(o, rows[1..]))
  }

  /** A row that comes before every row of a sorted list can head it. */
  lemma ConsSorted(o: Order, x: Row, s: seq<Row>)
    requires Sorted(o, s)
    requires forall y :: y in multiset(s) ==> InOrder(o, x, y)
    ensures Sorted(o, [x] + s)
  {
    var r := [x] + s;
    forall i, j | 0 <= i < j < |r| ensures InOrder(o, r[i], r[j]) {
      assert r[j] == s[j - 1];
      assert s[j - 1] in multiset(s);
      if i > 0 {
        assert r[i] == s[i - 1];
      }
    }
  }

  lemma HeadFirst(o: Order, s: seq<Row>)
    requires |s| > 0 && Sorted(o, s)
    ensures forall y :: y in multiset(s[1..]) ==> InOrder(o, s[0], y)
  {
    forall y | y in multiset(s[1..]) ensures InOrder(o, s[0], y) {
      var k :| 0 <= k < |s[1..]| && s[1..][k] == y;
      assert s[k + 1] == y;
    }
  }

  lemma {:induction false} InsertSorted(o: Order, x: Row, s: seq<Row>)
    requires Sorted(o, s)
    ensures multiset(Insert(o, x, s)) == multiset(s) + multiset{x}
    ensures Sorted(o, Insert(o, x, s))
  {
    if |s| > 0 {
      assert s == [s[0]] + s[1..];
      HeadFirst(o, s);
      if InOrder(o, x, s[0]) {
        forall y | y in multiset(s) ensures InOrder(o, x, y) {
          if y != s[0] {
            InOrderTrans(o, x, s[0], y);
          }
        }
        ConsSorted(o, x, s);
      } else {
        InOrderTotal(o, x, s[0]);
        assert Sorted(o, s[1..]);
        InsertSorted(o, x, s[1..]);
        ConsSorted(o, s[0], Insert(o, x, s[1..]));
      }
    }
  }

  lemma {:induction false} SortRowsView(o: Order, rows: seq<Row>)
    ensures IsSortedView(o, SortRows(o, rows), rows)
  {
    if |rows| > 0 {
      SortRowsView(o, rows[1..]);
      InsertSorted(o, rows[0], SortRows(o, rows[1..]));
      assert rows == [rows[0]] + rows[1..];
    }
  }

  // ---- rows and the phrase column ----

  function Rows(words: seq<string>, counts: seq<int>, keys: seq<string>): (r: seq<Row>)
    requires |counts| == |words| && |keys| == |words|
  {
    seq(|words|, i requires 0 <= i < |words| => Row(words[i], counts[i], keys[i]))
  }

  /** `list(df['word'])` */
  function Phrases(rows: seq<Row>): seq<string>
  {
    seq(|rows|, i requires 0 <= i < |rows| => rows[i].word)
  }

  lemma PhrasesConcat(a: seq<Row>, b: seq<Row>)
    ensures Phrases(a + b) == Phrases(a) + Phrases(b)
  {
  }

  /** Taking the first row out of `a` and a matching row out of a
      permutation `b` leaves permutations of each other. */
  lemma PermutationRemove(a: seq<Row>, b: seq<Row>, k: nat)
    requires multiset(a) == multiset(b) && |a| > 0 && k < |b| && b[k] == a[0]
    ensures multiset(a[1..]) == multiset(b[..k] + b[k + 1..])
  {
    assert a == [a[0]] + a[1..];
    assert b == b[..k] + [b[k]] + b[k + 1..];
    calc {
      multiset(b[..k] + b[k + 1..]);
      multiset(b[..k]) + multiset(b[k + 1..]);
      multiset(b) - multiset{b[k]};
      multiset(a) - multiset{a[0]};
      multiset(a[1..]);
    }
  }

  /** Reordering the rows reorders the phrase column the same way. */
  lemma {:induction false} PhrasesPermutation(a: seq<Row>, b: seq<Row>)
    requires multiset(a) == multiset(b)
    ensures multiset(Phrases(a)) == multiset(Phrases(b))
  {
    if |a| > 0 {
      assert a[0] in multiset(b);
      var k :| 0 <= k < |b| && b[k] == a[0];
      var rest := b[..k] + b[k + 1..];
      PermutationRemove(a, b, k);
      PhrasesPermutation(a[1..], rest);
      PhrasesConcat([a[0]], a[1..]);
      assert a == [a[0]] + a[1..];
      assert b == b[..k] + ([b[k]] + b[k + 1..]);
      PhrasesConcat(b[..k], [b[k]] + b[k + 1..]);
      PhrasesConcat([b[k]], b[k + 1..]);
      PhrasesConcat(b[..k], b[k + 1..]);
    } else {
      assert b == [];
    }
  }

  /** The alphabetical ordering of the rows, read on their phrases. */
  lemma AlphabeticalPhrases(rows: seq<Row>, view: seq<Row>)
    requires forall r :: r in rows ==> r.sortKey == SortKey(r.word)
    requires IsSortedView(BySortKeyAscending, view, rows)
    ensures multiset(Phrases(view)) == multiset(Phrases(rows))
    ensures forall i, j :: 0 <= i < j < |view| ==>
              LexLe(SortKey(Phrases(view)[i]), SortKey(Phrases(view)[j]))
  {
    PhrasesPermutation(view, rows);
    forall i, j | 0 <= i < j < |view|
      ensures LexLe(SortKey(Phrases(view)[i]), SortKey(Phrases(view)[j]))
    {
      assert view[i] in multiset(rows) && view[j] in multiset(rows);
      assert InOrder(BySortKeyAscending, view[i], view[j]);
    }
  }

  /** One direction of the result table: merge, blacklist, keys, sort.
      Returns the count-sorted rows and the alphabetical word list. */
  method Rank(anchor: Anchor, freqs: map<string, int>, oneGrams: seq<string>, twoGrams: seq<string>,
              black: seq<string>)
    returns (byCount: seq<Row>, alphabetical: seq<string>)
    ensures multiset(Phrases(byCount)) == multiset(RemoveEach(oneGrams + twoGrams, black))
    ensures forall r :: r in byCount ==>
              r.count == FrequencyKey(anchor, freqs, r.word) && r.sortKey == SortKey(r.word)
    ensures forall i, j :: 0 <= i < j < |byCount| ==> byCount[i].count >= byCount[j].count
    ensures multiset(alphabetical) == multiset(RemoveEach(oneGrams + twoGrams, black))
    ensures forall i, j :: 0 <= i < j < |alphabetical| ==>
              LexLe(SortKey(alphabetical[i]), SortKey(alphabetical[j]))
  {
    var results := RemoveBlacklisted(oneGrams + twoGrams, black);
    var counts := FrequencyKeys(anchor, freqs, results);
    var keys := SortKeys(results);
    var rows := Rows(results, counts, keys);
    assert Phrases(rows) == results;
    assert forall r :: r in rows ==>
             r.count == FrequencyKey(anchor, freqs, r.word) && r.sortKey == SortKey(r.word);

    byCount := SortRows(ByCountDescending, rows);
    SortRowsView(ByCountDescending, rows);
    PhrasesPermutation(byCount, rows);
    forall r | r in byCount
      ensures r.count == FrequencyKey(anchor, freqs, r.word) && r.sortKey == SortKey(r.word)
    {
      assert r in multiset(rows);
    }
    assert forall i, j :: 0 <= i < j < |byCount| ==> InOrder(ByCountDescending, byCount[i], byCount[j]);

    var alphaRows := SortRows(BySortKeyAscending, rows);
    SortRowsView(BySortKeyAscending, rows);
    AlphabeticalPhrases(rows, alphaRows);
    alphabetical := Phrases(alphaRows);
  }
}
