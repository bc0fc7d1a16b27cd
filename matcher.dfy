/** The affix matcher: the two list comprehensions that pick, from the
    vocabulary, the one-grams that start or end with the query and whose
    remainder is itself a known word. */
module Matcher {
  import opened Text
  import opened Classifier

  /** The comprehension condition for `word`, with Python's slicing:
      `word[:len(q)]` / `word[len(q):]` for "starts" and `word[-len(q):]` /
      `word[:-len(q)]` for "ends". */
  predicate Matches(anchor: Anchor, query: string, words: seq<string>, w: string)
  {
    |w| > |query| &&
    match anchor
    case Starts => query == Take(w, |query|) && Drop(w, |query|) in words
    case Ends => query == TakeLast(w, |query|) && DropLast(w, |query|) in words
  }

  /** `[word for word in scan if <condition against words>]` */
  function Select(anchor: Anchor, query: string, words: seq<string>, scan: seq<string>): seq<string>
  {
    if |scan| == 0 then []
    else (if Matches(anchor, query, words, scan[0]) then [scan[0]] else [])
         + Select(anchor, query, words, scan[1..])
  }

  /** The one-gram list for one direction: the comprehension runs over the
      vocabulary itself. */
  function OneGrams(anchor: Anchor, query: string, words: seq<string>): seq<string>
  {
    Select(anchor, query, words, words)
  }

  /** `a` is `b` with some entries dropped, order kept. */
  predicate Subsequence(a: seq<string>, b: seq<string>)
  {
    if |a| == 0 then true
    else if |b| == 0 then false
    else if a[0] == b[0] then Subsequence(a[1..], b[1..])
    else Subsequence(a, b[1..])
  }

  lemma {:induction false} SelectMembers(anchor: Anchor, query: string, words: seq<string>, scan: seq<string>)
    ensures forall w :: w in Select(anchor, query, words, scan) <==> w in scan && Matches(anchor, query, words, w)
  {
    if |scan| > 0 {
      SelectMembers(anchor, query, words, scan[1..]);
      assert scan == [scan[0]] + scan[1..];
    }
  }

  lemma {:induction false} SelectSubsequence(anchor: Anchor, query: string, words: seq<string>, scan: seq<string>)
    ensures Subsequence(Select(anchor, query, words, scan), scan)
  {
    if |scan| > 0 {
      SelectSubsequence(anchor, query, words, scan[1..]);
      var rest := Select(anchor, query, words, scan[1..]);
      if Matches(anchor, query, words, scan[0]) {
        assert ([scan[0]] + rest)[1..] == rest;
      } else {
        assert [] + rest == rest;
        SubsequenceSkip(rest, scan);
      }
    }
  }

  lemma {:induction false} SubsequenceSkip(a: seq<string>, b: seq<string>)
    requires |b| > 0 && Subsequence(a, b[1..])
    ensures Subsequence(a, b)
  {
    if |a| > 0 && a[0] == b[0] {
      // a[1..] is a subsequence of b[2..] or of b[1..]; either way of b[1..]
      SubsequenceTail(a, b[1..]);
    }
  }

  lemma {:induction false} SubsequenceTail(a: seq<string>, b: seq<string>)
    requires |a| > 0 && Subsequence(a, b)
    ensures Subsequence(a[1..], b)
  {
    if a[0] == b[0] {
      if |a| > 1 && |b| > 1 {
        SubsequenceSkip(a[1..], b);
      } else if |a| > 1 {
        assert Subsequence(a[1..], b[1..]);
      }
    } else {
      SubsequenceTail(a, b[1..]);
      SubsequenceSkip(a[1..], b);
    }
  }

  /** "starts": `w` is selected iff it is a known word longer than the
      query, the query is its prefix and what follows is a known word. */
  lemma StartsIff(query: string, words: seq<string>, w: string)
    ensures w in OneGrams(Starts, query, words) <==>
              w in words && |w| > |query| && w[..|query|] == query && w[|query|..] in words
  {
    SelectMembers(Starts, query, words, words);
  }

  /** "ends", for a non-empty query: the query is the suffix and what
      precedes it is a known word. */
  lemma EndsIff(query: string, words: seq<string>, w: string)
    requires |query| > 0
    ensures w in OneGrams(Ends, query, words) <==>
              w in words && |w| > |query| && w[|w| - |query|..] == query && w[..|w| - |query|] in words
  {
    SelectMembers(Ends, query, words, words);
  }

  /** Python's `-0` slice: with an empty query `word[-0:]` is the whole word,
      never equal to the empty query, so the "ends" list is empty. */
  lemma EndsEmptyQuery(words: seq<string>)
    ensures OneGrams(Ends, "", words) == []
  {
    EndsEmptyQueryScan(words, words);
  }

  lemma {:induction false} EndsEmptyQueryScan(words: seq<string>, scan: seq<string>)
    ensures Select(Ends, "", words, scan) == []
  {
    if |scan| > 0 {
      EndsEmptyQueryScan(words, scan[1..]);
    }
  }

  /** With an empty query every non-empty known word is a "starts" match. */
  lemma StartsEmptyQuery(words: seq<string>, w: string)
    ensures w in OneGrams(Starts, "", words) <==> w in words && |w| > 0
  {
    SelectMembers(Starts, "", words, words);
  }

  /** A word never matches itself: the length comparison is strict. */
  lemma NoSelfMatch(anchor: Anchor, query: string, words: seq<string>)
    ensures query !in OneGrams(anchor, query, words)
  {
    SelectMembers(anchor, query, words, words);
  }

  /** Matches appear in vocabulary order. */
  lemma InWordsOrder(anchor: Anchor, query: string, words: seq<string>)
    ensures Subsequence(OneGrams(anchor, query, words), words)
  {
    SelectSubsequence(anchor, query, words, words);
  }

  /** Query "cat" against "catnap", "nap" and "concatenate". */
  lemma CatScenario()
    ensures OneGrams(Starts, "cat", ["catnap", "nap", "concatenate"]) == ["catnap"]
  {
    var words := ["catnap", "nap", "concatenate"];
    assert Take("catnap", 3) == "cat" && Drop("catnap", 3) == "nap";
    assert Take("concatenate", 3) == "con";
  }
}
