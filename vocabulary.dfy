/** The vocabulary `words`: a Python list of one-grams in insertion order,
    grown by `append` when a word is absent and shrunk by `list.remove`,
    which deletes the first occurrence only. */
module Vocabulary {

  predicate NoDup(s: seq<string>)
  {
    forall i, j :: 0 <= i < j < |s| ==> s[i] != s[j]
  }

  /** `if x not in words: words.append(x)` */
  function AddIfAbsent(words: seq<string>, x: string): (r: seq<string>)
    ensures x in r && words <= r
    ensures forall y :: y in r ==> y in words || y == x
    ensures NoDup(words) ==> NoDup(r)
  {
    if x in words then words else words + [x]
  }

  /** The vocabulary after the add-list loop has handled every entry of
      `adds`, in order. */
  function AddEach(words: seq<string>, adds: seq<string>): seq<string>
  {
    if |adds| == 0 then words
    else AddIfAbsent(AddEach(words, adds[..|adds| - 1]), adds[|adds| - 1])
  }

  /** Python `list.remove(x)`: deletes the first occurrence of `x`. */
  function RemoveFirst(s: seq<string>, x: string): seq<string>
  {
    if |s| == 0 then []
    else if s[0] == x then s[1..]
    else [s[0]] + RemoveFirst(s[1..], x)
  }

  /** The list after `for b in black: if b in words: words.remove(b)`. */
  function RemoveEach(words: seq<string>, black: seq<string>): seq<string>
  {
    if |black| == 0 then words
    else
      var w := RemoveEach(words, black[..|black| - 1]);
      var b := black[|black| - 1];
      if b in w then RemoveFirst(w, b) else w
  }

  /** Reference definition: the words of `s` that are not in `black`, in order. */
  function Without(s: seq<string>, black: seq<string>): seq<string>
  {
    if |s| == 0 then []
    else (if s[0] in black then [] else [s[0]]) + Without(s[1..], black)
  }

  // ---- the two loops of the source, as methods ----

  /** The add-list loop. */
  method AddWords(words: seq<string>, adds: seq<string>) returns (r: seq<string>)
    ensures r == AddEach(words, adds)
    ensures forall a :: a in adds ==> a in r
    ensures words <= r
  {
    r := words;
    var i := 0;
    while i < |adds|
      invariant 0 <= i <= |adds|
      invariant r == AddEach(words, adds[..i])
    {
      assert adds[..i + 1][..i] == adds[..i];
      if adds[i] !in r {
        r := r + [adds[i]];
      }
      i := i + 1;
    }
    assert adds[..|adds|] == adds;
    AddEachContains(words, adds);
  }

  /** The blacklist loop, run at load time and again before saving. */
  method RemoveBlacklisted(words: seq<string>, black: seq<string>) returns (r: seq<string>)
    ensures r == RemoveEach(words, black)
    ensures NoDup(words) ==> NoDup(r) && forall b :: b in black ==> b !in r
  {
    r := words;
    var i := 0;
    while i < |black|
      invariant 0 <= i <= |black|
      invariant r == RemoveEach(words, black[..i])
    {
      assert black[..i + 1][..i] == black[..i];
      if black[i] in r {
        r := RemoveFirst(r, black[i]);
      }
      i := i + 1;
    }
    assert black[..|black|] == black;
    if NoDup(words) {
      RemoveEachIsWithout(words, black);
      WithoutFacts(words, black);
    }
  }

  // ---- add list ----

  /** Every add-list entry ends up in the vocabulary, and nothing that was
      there is removed or reordered. */
  lemma {:induction false} AddEachContains(words: seq<string>, adds: seq<string>)
    ensures forall a :: a in adds ==> a in AddEach(words, adds)
    ensures words <= AddEach(words, adds)
  {
    if |adds| > 0 {
      var init := adds[..|adds| - 1];
      AddEachContains(words, init);
      assert adds == init + [adds[|adds| - 1]];
    }
  }

  lemma {:induction false} AddEachMembers(words: seq<string>, adds: seq<string>, x: string)
    ensures x in AddEach(words, adds) <==> x in words || x in adds
  {
    AddEachContains(words, adds);
    if |adds| > 0 {
      var init := adds[..|adds| - 1];
      AddEachMembers(words, init, x);
      assert adds == init + [adds[|adds| - 1]];
    }
  }

  lemma {:induction false} AddEachNoDup(words: seq<string>, adds: seq<string>)
    requires NoDup(words)
    ensures NoDup(AddEach(words, adds))
  {
    if |adds| > 0 {
      AddEachNoDup(words, adds[..|adds| - 1]);
    }
  }

  /** When every add-list entry is already present the loop changes nothing. */
  lemma {:induction false} AddEachPresent(words: seq<string>, adds: seq<string>)
    requires forall a :: a in adds ==> a in words
    ensures AddEach(words, adds) == words
  {
    if |adds| > 0 {
      var init := adds[..|adds| - 1];
      assert forall a :: a in init ==> a in adds;
      AddEachPresent(words, init);
      assert adds[|adds| - 1] in adds;
    }
  }

  /** Re-running the add-list loop changes nothing. */
  lemma AddEachIdempotent(words: seq<string>, adds: seq<string>)
    ensures AddEach(AddEach(words, adds), adds) == AddEach(words, adds)
  {
    AddEachContains(words, adds);
    AddEachPresent(AddEach(words, adds), adds);
  }

  /** What the add loop appends is made of add-list entries absent from `words`. */
  lemma {:induction false} AddEachAppends(words: seq<string>, adds: seq<string>)
    ensures words <= AddEach(words, adds)
    ensures forall k :: |words| <= k < |AddEach(words, adds)| ==>
              AddEach(words, adds)[k] in adds && AddEach(words, adds)[k] !in words
  {
    if |adds| > 0 {
      var init := adds[..|adds| - 1];
      AddEachAppends(words, init);
      assert adds == init + [adds[|adds| - 1]];
      AddEachMembers(words, init, adds[|adds| - 1]);
    }
  }

  // ---- list.remove ----

  lemma {:induction false} RemoveFirstAbsent(s: seq<string>, x: string)
    requires x !in s
    ensures RemoveFirst(s, x) == s
  {
    if |s| > 0 {
      RemoveFirstAbsent(s[1..], x);
    }
  }

  /** `remove` deletes exactly the first occurrence. */
  lemma {:induction false} RemoveFirstAt(s: seq<string>, x: string, i: nat)
    requires i < |s| && s[i] == x && x !in s[..i]
    ensures RemoveFirst(s, x) == s[..i] + s[i + 1..]
  {
    if i > 0 {
      assert s[1..][..i - 1] == s[1..i];
      assert x !in s[1..][..i - 1];
      RemoveFirstAt(s[1..], x, i - 1);
      assert s[..i] == [s[0]] + s[1..i];
    }
  }

  lemma {:induction false} RemoveFirstMultiset(s: seq<string>, x: string)
    ensures multiset(RemoveFirst(s, x)) == multiset(s) - multiset{x}
  {
    if |s| > 0 {
      RemoveFirstMultiset(s[1..], x);
      assert s == [s[0]] + s[1..];
      if s[0] != x {
        assert multiset(RemoveFirst(s, x)) == multiset{s[0]} + multiset(RemoveFirst(s[1..], x));
      }
    }
  }

  lemma {:induction false} RemoveFirstNoDup(s: seq<string>, x: string)
    requires NoDup(s)
    ensures NoDup(RemoveFirst(s, x))
    ensures forall y :: y in RemoveFirst(s, x) <==> y in s && y != x
  {
    if |s| > 0 {
      assert NoDup(s[1..]);
      RemoveFirstNoDup(s[1..], x);
      if s[0] == x {
        assert forall k :: 1 <= k < |s| ==> s[k] != x;
      } else {
        NoDupCons(s[0], RemoveFirst(s[1..], x));
      }
    }
  }

  // ---- blacklist ----

  lemma {:induction false} WithoutFacts(s: seq<string>, black: seq<string>)
    ensures forall y :: y in Without(s, black) <==> y in s && y !in black
    ensures NoDup(s) ==> NoDup(Without(s, black))
  {
    if |s| > 0 {
      WithoutFacts(s[1..], black);
      assert s == [s[0]] + s[1..];
      if NoDup(s) {
        assert NoDup(s[1..]);
      }
    }
  }

  lemma {:induction false} RemoveFirstWithout(s: seq<string>, black: seq<string>, b: string)
    requires NoDup(s)
    ensures RemoveFirst(Without(s, black), b) == Without(s, black + [b])
  {
    if |s| > 0 {
      assert NoDup(s[1..]);
      RemoveFirstWithout(s[1..], black, b);
      if s[0] == b && s[0] !in black {
        WithoutFacts(s[1..], black);
        WithoutFacts(s[1..], black + [b]);
        assert b !in s[1..];
        WithoutAbsent(s[1..], black, b);
      } else if s[0] !in black {
        assert s[0] !in black + [b];
        var w := Without(s[1..], black);
        assert Without(s, black) == [s[0]] + w;
        assert ([s[0]] + w)[0] == s[0] && ([s[0]] + w)[1..] == w;
        assert s[0] != b;
        assert RemoveFirst([s[0]] + w, b) == [s[0]] + RemoveFirst(w, b);
        assert Without(s, black + [b]) == [s[0]] + Without(s[1..], black + [b]);
      } else {
        assert s[0] in black + [b];
        assert Without(s, black) == Without(s[1..], black);
        assert Without(s, black + [b]) == Without(s[1..], black + [b]);
      }
    }
  }

  lemma NoDupCons(a: string, t: seq<string>)
    requires a !in t && NoDup(t)
    ensures NoDup([a] + t)
  {
    forall i, j | 0 <= i < j < |[a] + t| ensures ([a] + t)[i] != ([a] + t)[j] {
      if i > 0 {
        assert ([a] + t)[i] == t[i - 1];
      }
      assert ([a] + t)[j] == t[j - 1];
    }
  }

  lemma {:induction false} WithoutAbsent(s: seq<string>, black: seq<string>, b: string)
    requires b !in s
    ensures Without(s, black + [b]) == Without(s, black)
  {
    if |s| > 0 {
      WithoutAbsent(s[1..], black, b);
    }
  }

  /** On a duplicate-free list the blacklist loop removes exactly the
      blacklisted words and keeps the order of the rest. */
  lemma {:induction false} RemoveEachIsWithout(words: seq<string>, black: seq<string>)
    requires NoDup(words)
    ensures RemoveEach(words, black) == Without(words, black)
  {
    if |black| == 0 {
      WithoutNone(words, black);
    } else {
      var init := black[..|black| - 1];
      var b := black[|black| - 1];
      RemoveEachIsWithout(words, init);
      assert black == init + [b];
      RemoveFirstWithout(words, init, b);
      if b !in RemoveEach(words, init) {
        RemoveFirstAbsent(Without(words, init), b);
      }
    }
  }

  lemma {:induction false} WithoutNone(s: seq<string>, black: seq<string>)
    requires |black| == 0
    ensures Without(s, black) == s
  {
    if |s| > 0 {
      WithoutNone(s[1..], black);
    }
  }

  /** With duplicates, one pass of the loop leaves a second copy behind. */
  lemma RemoveEachDuplicate()
    ensures RemoveEach(["x", "x"], ["x"]) == ["x"]
  {
    assert ["x"][..0] == [];
  }

  // ---- a run of add, blacklist and add again is settled ----

  lemma {:induction false} AddEachConcat(words: seq<string>, a: seq<string>, b: seq<string>)
    ensures AddEach(words, a + b) == AddEach(AddEach(words, a), b)
  {
    if |b| > 0 {
      AddEachConcat(words, a, b[..|b| - 1]);
      assert (a + b)[..|a + b| - 1] == a + b[..|b| - 1];
    } else {
      assert a + b == a;
    }
  }

  lemma {:induction false} WithoutConcat(s: seq<string>, t: seq<string>, black: seq<string>)
    ensures Without(s + t, black) == Without(s, black) + Without(t, black)
  {
    if |s| > 0 {
      WithoutConcat(s[1..], t, black);
      assert (s + t)[1..] == s[1..] + t;
    } else {
      assert s + t == t;
    }
  }

  lemma {:induction false} WithoutDisjoint(s: seq<string>, black: seq<string>)
    requires forall x :: x in s ==> x !in black
    ensures Without(s, black) == s
  {
    if |s| > 0 {
      WithoutDisjoint(s[1..], black);
      assert s == [s[0]] + s[1..];
    }
  }

  lemma {:induction false} WithoutAllBlack(s: seq<string>, black: seq<string>)
    requires forall x :: x in s ==> x in black
    ensures Without(s, black) == []
  {
    if |s| > 0 {
      WithoutAllBlack(s[1..], black);
    }
  }

  /** A vocabulary free of blacklisted words that already holds every
      non-blacklisted entry of `adds` is unchanged by adding `adds` and then
      removing the blacklisted words: whatever is appended is blacklisted. */
  lemma Settled(words: seq<string>, adds: seq<string>, black: seq<string>)
    requires forall x :: x in words ==> x !in black
    requires forall a :: a in adds && a !in black ==> a in words
    ensures Without(AddEach(words, adds), black) == words
  {
    var grown := AddEach(words, adds);
    AddEachAppends(words, adds);
    var extra := grown[|words|..];
    assert grown == words + extra;
    assert forall x :: x in extra ==> x in black by {
      forall x | x in extra ensures x in black {
        var k :| 0 <= k < |extra| && extra[k] == x;
        assert grown[|words| + k] == x;
      }
    }
    WithoutConcat(words, extra, black);
    WithoutDisjoint(words, black);
    WithoutAllBlack(extra, black);
  }
}
