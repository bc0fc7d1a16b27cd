/** The candidate classifier: one pass over the cleaned suggestion strings
    of a page, growing the vocabulary with new one-grams and collecting the
    two-grams anchored on the query. */
module Classifier {
  import opened Text
  import opened Vocabulary

  /** Which page the candidates come from: "/s/" (phrases starting with the
      query) or "/e/" (phrases ending with it). */
  datatype Anchor = Starts | Ends

  /** Candidates with a hyphen, an opening parenthesis or a comma are skipped. */
  predicate Forbidden(c: string)
  {
    '-' in c || '(' in c || ',' in c
  }

  /** `c.split(' ')` */
  function Tokens(c: string): seq<string>
  {
    Split(c, ' ')
  }

  predicate IsOneGram(c: string)
  {
    !Forbidden(c) && |Tokens(c)| == 1
  }

  /** The token that must equal the query, and the token that must already
      be a known word, of a two-token candidate. */
  function AnchoredToken(t: seq<string>, anchor: Anchor): string
    requires |t| == 2
  {
    if anchor == Starts then t[0] else t[1]
  }

  function OtherToken(t: seq<string>, anchor: Anchor): string
    requires |t| == 2
  {
    if anchor == Starts then t[1] else t[0]
  }

  /** The admission rule for a two-gram, against the vocabulary `words` as
      it stands when the candidate is examined. */
  predicate Admits(anchor: Anchor, query: string, words: seq<string>, c: string)
  {
    !Forbidden(c) && |Tokens(c)| == 2 &&
    AnchoredToken(Tokens(c), anchor) == query && OtherToken(Tokens(c), anchor) in words
  }

  /** State of a pass: the vocabulary and the two-grams kept so far. */
  datatype Pass = Pass(words: seq<string>, twoGrams: seq<string>)

  /** One iteration of the classification loop. */
  function Step(p: Pass, anchor: Anchor, query: string, c: string): Pass
  {
    if !Forbidden(c) then
      var split := Tokens(c);
      if |split| == 1 then
        if c !in p.words then Pass(p.words + [c], p.twoGrams) else p
      else if |split| == 2 then
        var keep := match anchor
          case Starts => split[0] == query && split[1] in p.words
          case Ends => split[1] == query && split[0] in p.words;
        if keep then Pass(p.words, p.twoGrams + [c]) else p
      else p
    else p
  }

  /** The state after the loop has examined every candidate of `cands`. */
  function Classify(words: seq<string>, anchor: Anchor, query: string, cands: seq<string>): Pass
  {
    if |cands| == 0 then Pass(words, [])
    else Step(Classify(words, anchor, query, cands[..|cands| - 1]), anchor, query, cands[|cands| - 1])
  }

  /** The loop over the cleaned results of one page. */
  method ClassifyCandidates(words: seq<string>, anchor: Anchor, query: string, cands: seq<string>)
    returns (grown: seq<string>, twoGrams: seq<string>)
    ensures Pass(grown, twoGrams) == Classify(words, anchor, query, cands)
    ensures words <= grown
    ensures NoDup(words) ==> NoDup(grown)
    ensures forall x :: x in grown <==> x in words || (x in cands && IsOneGram(x))
    ensures forall g :: g in twoGrams ==> g in cands && Admits(anchor, query, grown, g)
    ensures forall c :: c in cands && Admits(anchor, query, words, c) ==> c in twoGrams
  {
    grown, twoGrams := words, [];
    var i := 0;
    while i < |cands|
      invariant 0 <= i <= |cands|
      invariant Pass(grown, twoGrams) == Classify(words, anchor, query, cands[..i])
    {
      assert cands[..i + 1][..i] == cands[..i];
      var result := cands[i];
      if '-' !in result && '(' !in result && ',' !in result {
        var splitWords := Split(result, ' ');
        if |splitWords| == 1 {
          if result !in grown {
            grown := grown + [result];
          }
        } else if |splitWords| == 2 {
          var keep := if anchor == Starts then splitWords[0] == query && splitWords[1] in grown
                      else splitWords[1] == query && splitWords[0] in grown;
          if keep {
            twoGrams := twoGrams + [result];
          }
        }
      }
      i := i + 1;
    }
    assert cands[..|cands|] == cands;
    ClassifyGrows(words, anchor, query, cands);
    forall x ensures x in grown <==> x in words || (x in cands && IsOneGram(x)) {
      ClassifyVocabulary(words, anchor, query, cands, x);
    }
    ClassifyTwoGramsAdmitted(words, anchor, query, cands);
    ClassifyAdmitsKnown(words, anchor, query, cands);
  }

  // ---- shape of a candidate ----

  /** A candidate is a single token exactly when it has no space. */
  lemma OneTokenIff(c: string)
    ensures |Tokens(c)| == 1 <==> ' ' !in c
  {
    SplitLength(c, ' ');
    CountZero(c, ' ');
  }

  /** A two-token candidate is its two space-free tokens joined by one space. */
  lemma TwoTokensShape(c: string)
    requires |Tokens(c)| == 2
    ensures ' ' !in Tokens(c)[0] && ' ' !in Tokens(c)[1]
    ensures c == Tokens(c)[0] + " " + Tokens(c)[1]
  {
    var t := Tokens(c);
    SplitTokensFree(c, ' ');
    JoinSplit(c, ' ');
    assert Join(t, ' ') == t[0] + [' '] + Join(t[1..], ' ');
  }

  /** A candidate of three or more tokens, or with forbidden punctuation,
      changes nothing. */
  lemma StepIgnores(p: Pass, anchor: Anchor, query: string, c: string)
    requires Forbidden(c) || Count(c, ' ') >= 2
    ensures Step(p, anchor, query, c) == p
  {
    SplitLength(c, ' ');
  }

  /** The vocabulary changes only for a one-gram, which is appended iff absent. */
  lemma StepWords(p: Pass, anchor: Anchor, query: string, c: string)
    ensures Step(p, anchor, query, c).words ==
            if IsOneGram(c) && c !in p.words then p.words + [c] else p.words
  {
  }

  /** A candidate joins the two-gram list iff the admission rule holds
      against the vocabulary at that moment. */
  lemma StepTwoGrams(p: Pass, anchor: Anchor, query: string, c: string)
    ensures Step(p, anchor, query, c).twoGrams ==
            if Admits(anchor, query, p.words, c) then p.twoGrams + [c] else p.twoGrams
  {
  }

  lemma AdmitsMonotone(anchor: Anchor, query: string, w: seq<string>, w': seq<string>, c: string)
    requires w <= w' && Admits(anchor, query, w, c)
    ensures Admits(anchor, query, w', c)
  {
    var t := OtherToken(Tokens(c), anchor);
    var k :| 0 <= k < |w| && w[k] == t;
    assert w'[k] == t;
  }

  /** An admitted "starts" two-gram is the query, a space and a known word;
      an admitted "ends" two-gram is a known word, a space and the query. */
  lemma AdmittedShape(anchor: Anchor, query: string, words: seq<string>, c: string)
    requires Admits(anchor, query, words, c)
    ensures exists t :: t in words && ' ' !in t &&
              c == (if anchor == Starts then query + " " + t else t + " " + query)
  {
    TwoTokensShape(c);
    var t := OtherToken(Tokens(c), anchor);
    assert t in words && ' ' !in t;
  }

  /** The rule from the other direction: the query, a space and a space-free
      word is admitted under "starts" exactly when that word is known. */
  lemma AdmitsPhrase(query: string, t: string, words: seq<string>)
    requires ' ' !in query && ' ' !in t
    requires '-' !in query + t && '(' !in query + t && ',' !in query + t
    ensures Admits(Starts, query, words, query + " " + t) <==> t in words
    ensures Admits(Ends, query, words, t + " " + query) <==> t in words
  {
    SplitPair(query, t, ' ');
    SplitPair(t, query, ' ');
    var c := query + " " + t;
    var d := t + " " + query;
    assert forall ch :: ch in c ==> ch in query + t || ch == ' ';
    assert forall ch :: ch in d ==> ch in query + t || ch == ' ';
  }

  // ---- a whole pass ----

  /** The pass never removes or reorders a word, and never adds a duplicate. */
  lemma {:induction false} ClassifyGrows(words: seq<string>, anchor: Anchor, query: string, cands: seq<string>)
    ensures words <= Classify(words, anchor, query, cands).words
    ensures NoDup(words) ==> NoDup(Classify(words, anchor, query, cands).words)
  {
    if |cands| > 0 {
      var init := cands[..|cands| - 1];
      ClassifyGrows(words, anchor, query, init);
      var p := Classify(words, anchor, query, init);
      var c := cands[|cands| - 1];
      if IsOneGram(c) {
        assert Step(p, anchor, query, c).words == AddIfAbsent(p.words, c);
      }
    }
  }

  /** After the pass, a word is known iff it was known before or some
      candidate was that one-gram. */
  lemma {:induction false} ClassifyVocabulary(words: seq<string>, anchor: Anchor, query: string, cands: seq<string>, x: string)
    ensures x in Classify(words, anchor, query, cands).words <==> x in words || (x in cands && IsOneGram(x))
  {
    if |cands| > 0 {
      var init := cands[..|cands| - 1];
      ClassifyVocabulary(words, anchor, query, init, x);
      assert cands == init + [cands[|cands| - 1]];
    }
  }

  /** Every kept two-gram is a candidate that the admission rule accepts,
      even against the final, larger vocabulary. */
  lemma {:induction false} ClassifyTwoGramsAdmitted(words: seq<string>, anchor: Anchor, query: string, cands: seq<string>)
    ensures forall g :: g in Classify(words, anchor, query, cands).twoGrams ==>
              g in cands && Admits(anchor, query, Classify(words, anchor, query, cands).words, g)
  {
    if |cands| > 0 {
      var init := cands[..|cands| - 1];
      var c := cands[|cands| - 1];
      ClassifyTwoGramsAdmitted(words, anchor, query, init);
      var p := Classify(words, anchor, query, init);
      var q := Step(p, anchor, query, c);
      assert cands == init + [c];
      assert p.words <= q.words;
      forall g | g in q.twoGrams ensures g in cands && Admits(anchor, query, q.words, g) {
        if g in p.twoGrams {
          AdmitsMonotone(anchor, query, p.words, q.words, g);
        }
      }
    }
  }

  /** A candidate admitted against the vocabulary the pass started from is
      always kept, since the vocabulary only grows. */
  lemma {:induction false} ClassifyAdmitsKnown(words: seq<string>, anchor: Anchor, query: string, cands: seq<string>)
    ensures forall c :: c in cands && Admits(anchor, query, words, c) ==>
              c in Classify(words, anchor, query, cands).twoGrams
  {
    if |cands| > 0 {
      var init := cands[..|cands| - 1];
      var last := cands[|cands| - 1];
      ClassifyAdmitsKnown(words, anchor, query, init);
      ClassifyGrows(words, anchor, query, init);
      var p := Classify(words, anchor, query, init);
      assert cands == init + [last];
      if Admits(anchor, query, words, last) {
        AdmitsMonotone(anchor, query, words, p.words, last);
      }
    }
  }

  /** No candidate gives more than one two-gram entry. */
  lemma {:induction false} ClassifyTwoGramsBound(words: seq<string>, anchor: Anchor, query: string, cands: seq<string>)
    ensures |Classify(words, anchor, query, cands).twoGrams| <= |cands|
  {
    if |cands| > 0 {
      ClassifyTwoGramsBound(words, anchor, query, cands[..|cands| - 1]);
    }
  }

  /** An empty candidate splits into one empty token and so is appended to
      the vocabulary like any new one-gram. */
  lemma EmptyCandidateAdded(words: seq<string>, anchor: Anchor, query: string)
    requires "" !in words
    ensures Classify(words, anchor, query, [""]).words == words + [""]
  {
    assert [""][..0] == [];
  }

  /** "cat nap" on the "/s/" page is kept for the query "cat" only when
      "nap" is already a known word. */
  lemma CatNap(words: seq<string>)
    ensures Admits(Starts, "cat", words, "cat nap") <==> "nap" in words
  {
    assert "cat" + " " + "nap" == "cat nap";
    AdmitsPhrase("cat", "nap", words);
  }

  /** The one-gram candidates of a page, in order. */
  function OneGramsOf(cands: seq<string>): seq<string>
  {
    if |cands| == 0 then []
    else OneGramsOf(cands[..|cands| - 1]) + (if IsOneGram(cands[|cands| - 1]) then [cands[|cands| - 1]] else [])
  }

  /** The vocabulary side of a pass is the add-if-absent loop over the
      page's one-grams, whatever the query and the anchor. */
  lemma {:induction false} ClassifyWordsAddEach(words: seq<string>, anchor: Anchor, query: string, cands: seq<string>)
    ensures Classify(words, anchor, query, cands).words == AddEach(words, OneGramsOf(cands))
  {
    if |cands| > 0 {
      var init := cands[..|cands| - 1];
      var c := cands[|cands| - 1];
      ClassifyWordsAddEach(words, anchor, query, init);
      if IsOneGram(c) {
        var o := OneGramsOf(init) + [c];
        assert o[..|o| - 1] == OneGramsOf(init);
      } else {
        assert OneGramsOf(cands) == OneGramsOf(init);
      }
    }
  }
}
