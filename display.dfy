/** The stems shown in the result table: the part of each result that is
    not the query. */
module Display {
  import opened Text
  import opened Classifier
  import opened Matcher

  /** `ending[i][:-len(user_word)]` */
  function EndingStem(phrase: string, query: string): string
  {
    DropLast(phrase, |query|)
  }

  /** `starting[i][len(user_word):]`, or `[len(user_word)+1:]` when the
      result holds a space. */
  function StartingStem(phrase: string, query: string): string
  {
    if ' ' in phrase then Drop(phrase, |query| + 1) else Drop(phrase, |query|)
  }

  /** For a starting one-gram match the stem is the known word that follows
      the query. */
  lemma StartingStemOfMatch(query: string, words: seq<string>, w: string)
    requires w in OneGrams(Starts, query, words) && ' ' !in w
    ensures StartingStem(w, query) in words
    ensures query + StartingStem(w, query) == w
  {
    StartsIff(query, words, w);
  }

  /** For a starting two-gram the stem is its second word, without the space. */
  lemma StartingStemTwoGram(query: string, rest: string)
    ensures StartingStem(query + " " + rest, query) == rest
  {
    var p := query + " " + rest;
    assert p[|query|] == ' ';
  }

  /** For an ending one-gram match the stem is the known word before the query. */
  lemma EndingStemOfMatch(query: string, words: seq<string>, w: string)
    requires |query| > 0 && w in OneGrams(Ends, query, words)
    ensures EndingStem(w, query) in words
    ensures EndingStem(w, query) + query == w
  {
    EndsIff(query, words, w);
  }

  /** For an ending two-gram the stem keeps the space before the query. */
  lemma EndingStemTwoGram(pre: string, query: string)
    requires |query| > 0
    ensures EndingStem(pre + " " + query, query) == pre + " "
  {
    var p := pre + " " + query;
    assert p[..|p| - |query|] == pre + " ";
  }

  /** With an empty query `[:-0]` gives an empty stem. */
  lemma EndingStemEmptyQuery(phrase: string)
    ensures EndingStem(phrase, "") == ""
  {
  }
}
