/** One run of the script for one query: the add and blacklist loops, the
    validity gate, the "starts" and "ends" passes, the two ranked result
    lists and the vocabulary that is written back. */
module Search {
  import opened Text
  import opened Vocabulary
  import opened Classifier
  import opened Matcher
  import opened Ranker

  /** A fetched suggestion page: either it has no `class=suggestions`
      marker, or it yields the cleaned candidate strings. */
  datatype Page = NotFound | Suggestions(candidates: seq<string>)

  datatype Outcome =
    | NoMatches(message: string)
      /** The "/e/" page had no marker: the unguarded index raises and the
          run stops before anything is printed or saved. */
    | Crashed
    | Results(ending: seq<string>, starting: seq<string>,
              endingByCount: seq<Row>, startingByCount: seq<Row>,
              saved: seq<string>)

  /** The add list and the blacklist as the script ships them. */
  const ScriptAddWords: seq<string> := ["gam"]
  const ScriptBlacklist: seq<string> := []

  const NoMatchesMessage: string :=
    "\nNo matches found! Double check that you've entered a valid word and try again.\n" +
    "Remember not to include any punctuation or spaces!"

  /** The search is valid unless the query has a space or the "/s/" page
      has no suggestions. */
  predicate ValidSearch(userWord: string, startsPage: Page)
  {
    ' ' !in userWord && startsPage.Suggestions?
  }

  /** The vocabulary once the add list and the blacklist are applied. */
  function Loaded(stored: seq<string>, adds: seq<string>, black: seq<string>): seq<string>
  {
    RemoveEach(AddEach(stored, adds), black)
  }

  /** The vocabulary after both passes: "ends" runs on the vocabulary the
      "starts" pass has grown. */
  function Grown(stored: seq<string>, adds: seq<string>, black: seq<string>, userWord: string,
                 startsCands: seq<string>, endsCands: seq<string>): seq<string>
  {
    var afterStarts := Classify(Loaded(stored, adds, black), Starts, userWord, startsCands).words;
    Classify(afterStarts, Ends, userWord, endsCands).words
  }

  /** What a successful run writes back. */
  function Saved(stored: seq<string>, adds: seq<string>, black: seq<string>, userWord: string,
                 startsCands: seq<string>, endsCands: seq<string>): seq<string>
  {
    RemoveEach(Grown(stored, adds, black, userWord, startsCands, endsCands), black)
  }

  method RunQuery(stored: seq<string>, adds: seq<string>, black: seq<string>, freqs: map<string, int>,
                  input: string, startsPage: Page, endsPage: Page)
    returns (out: Outcome)
    ensures out.NoMatches? <==> !ValidSearch(Lower(input), startsPage)
    ensures out.NoMatches? ==> out.message == NoMatchesMessage
    ensures out.Crashed? <==> ValidSearch(Lower(input), startsPage) && endsPage.NotFound?
    ensures out.Results? ==>
              var q := Lower(input);
              var sc := startsPage.candidates;
              var ec := endsPage.candidates;
              var afterStarts := Classify(Loaded(stored, adds, black), Starts, q, sc);
              var grown := Grown(stored, adds, black, q, sc, ec);
              out.saved == Saved(stored, adds, black, q, sc, ec) &&
              multiset(out.starting) ==
                multiset(RemoveEach(OneGrams(Starts, q, grown) + afterStarts.twoGrams, black)) &&
              multiset(out.ending) ==
                multiset(RemoveEach(OneGrams(Ends, q, grown) + Classify(afterStarts.words, Ends, q, ec).twoGrams, black)) &&
              (forall i, j :: 0 <= i < j < |out.starting| ==> LexLe(SortKey(out.starting[i]), SortKey(out.starting[j]))) &&
              (forall i, j :: 0 <= i < j < |out.ending| ==> LexLe(SortKey(out.ending[i]), SortKey(out.ending[j])))
    ensures out.Results? && NoDup(stored) ==>
              NoDup(out.saved) &&
              (forall b :: b in black ==> b !in out.saved) &&
              (forall w :: w in stored && w !in black ==> w in out.saved) &&
              (forall a :: a in adds && a !in black ==> a in out.saved)
  {
    var userWord := Lower(input);
    var words := AddWords(stored, adds);
    words := RemoveBlacklisted(words, black);
    assert words == Loaded(stored, adds, black);
    ghost var loaded := words;

    var validSearch := true;
    if ' ' in userWord {
      validSearch := false;
    }
    if startsPage.NotFound? {
      validSearch := false;
    }

    if validSearch {
      var twoGramsStart;
      words, twoGramsStart := ClassifyCandidates(words, Starts, userWord, startsPage.candidates);
      ghost var afterStarts := words;
      if endsPage.NotFound? {
        return Crashed;
      }
      var twoGramsEnd;
      words, twoGramsEnd := ClassifyCandidates(words, Ends, userWord, endsPage.candidates);

      var startingByCount, starting := Rank(Starts, freqs, OneGrams(Starts, userWord, words), twoGramsStart, black);
      var endingByCount, ending := Rank(Ends, freqs, OneGrams(Ends, userWord, words), twoGramsEnd, black);

      var saved := RemoveBlacklisted(words, black);
      out := Results(ending, starting, endingByCount, startingByCount, saved);

      if NoDup(stored) {
        AddEachNoDup(stored, adds);
        AddEachContains(stored, adds);
        RemoveEachIsWithout(AddEach(stored, adds), black);
        WithoutFacts(AddEach(stored, adds), black);
        RemoveEachIsWithout(words, black);
        WithoutFacts(words, black);
        assert forall w :: w in stored ==> w in AddEach(stored, adds);
        assert forall w :: w in loaded ==> w in afterStarts;
        assert forall w :: w in afterStarts ==> w in words;
      }
    } else {
      out := NoMatches(NoMatchesMessage);
    }
  }

  // ---- properties of a run ----

  /** With the shipped lists, loading only makes sure "gam" is present. */
  lemma ScriptLoaded(stored: seq<string>)
    ensures Loaded(stored, ScriptAddWords, ScriptBlacklist) == AddIfAbsent(stored, "gam")
  {
    assert ScriptAddWords[..0] == [];
    assert AddEach(stored, ScriptAddWords) == AddIfAbsent(stored, "gam");
    assert RemoveEach(AddIfAbsent(stored, "gam"), []) == AddIfAbsent(stored, "gam");
  }

  /** A query with a space is turned away before anything else happens. */
  lemma SpaceInvalid(userWord: string, startsPage: Page)
    requires ' ' in userWord
    ensures !ValidSearch(userWord, startsPage)
  {
  }

  /** On a duplicate-free vocabulary a run is the add loops and the
      blacklist filter written as one expression. */
  lemma SavedShape(stored: seq<string>, adds: seq<string>, black: seq<string>, userWord: string,
                   startsCands: seq<string>, endsCands: seq<string>)
    requires NoDup(stored)
    ensures Saved(stored, adds, black, userWord, startsCands, endsCands) ==
              Without(AddEach(Without(AddEach(stored, adds), black), OneGramsOf(startsCands) + OneGramsOf(endsCands)), black)
    ensures NoDup(Saved(stored, adds, black, userWord, startsCands, endsCands))
  {
    var loaded := Loaded(stored, adds, black);
    AddEachNoDup(stored, adds);
    RemoveEachIsWithout(AddEach(stored, adds), black);
    WithoutFacts(AddEach(stored, adds), black);
    var afterStarts := Classify(loaded, Starts, userWord, startsCands).words;
    ClassifyWordsAddEach(loaded, Starts, userWord, startsCands);
    ClassifyWordsAddEach(afterStarts, Ends, userWord, endsCands);
    AddEachConcat(loaded, OneGramsOf(startsCands), OneGramsOf(endsCands));
    var grown := Grown(stored, adds, black, userWord, startsCands, endsCands);
    AddEachNoDup(loaded, OneGramsOf(startsCands) + OneGramsOf(endsCands));
    RemoveEachIsWithout(grown, black);
    WithoutFacts(grown, black);
  }

  /** Running the same query again on the saved vocabulary, with the same
      pages, saves the same vocabulary: every addition is deduplicated and
      every blacklisted re-discovery is removed again. */
  lemma SavedIdempotent(stored: seq<string>, adds: seq<string>, black: seq<string>, userWord: string,
                        startsCands: seq<string>, endsCands: seq<string>)
    requires NoDup(stored)
    ensures var once := Saved(stored, adds, black, userWord, startsCands, endsCands);
            Saved(once, adds, black, userWord, startsCands, endsCands) == once
  {
    var found := OneGramsOf(startsCands) + OneGramsOf(endsCands);
    var once := Saved(stored, adds, black, userWord, startsCands, endsCands);
    SavedShape(stored, adds, black, userWord, startsCands, endsCands);
    SavedShape(once, adds, black, userWord, startsCands, endsCands);

    var added := AddEach(stored, adds);
    var filtered := Without(added, black);
    var grown := AddEach(filtered, found);
    assert once == Without(grown, black);
    WithoutFacts(grown, black);
    AddEachContains(stored, adds);
    WithoutFacts(added, black);
    AddEachContains(filtered, found);
    assert forall a :: a in adds && a !in black ==> a in once by {
      forall a | a in adds && a !in black ensures a in once {
        assert a in added && a in filtered;
        assert filtered <= grown;
        assert a in grown;
      }
    }
    Settled(once, adds, black);
    Settled(once, found, black);
  }
}
