/** Concrete cases of the library and the analyzer, worked out by the verifier. */
module Scenarios {
  import opened Types
  import opened Text
  import opened Sorting
  import opened Analysis
  import opened Library

  /** A text starting with a visible character is not blank. */
  lemma NotBlank(text: string)
    requires text != [] && !IsWhitespace(text[0])
    ensures Trim(text) != []
  {
    TrimEmpty(text);
  }

  /** The report of a non-blank text lists the repeated phrases of its words. */
  lemma ReportPhrases(text: string)
    requires Trim(text) != []
    ensures Analyze(text).repeatedPhrases == RepeatedPhrases(GetWords(text))
  {
  }

  /** Of versions created at 100, 300 and 200, the one created at 300 is the latest. */
  lemma LatestOfThree()
    ensures Latest([Version("a", "Verse 1", "", 100), Version("b", "Version 2", "", 300),
                    Version("c", "Version 3", "", 200)]).id == "b"
  {
    var vs := [Version("a", "Verse 1", "", 100), Version("b", "Version 2", "", 300),
               Version("c", "Version 3", "", 200)];
    assert vs[1] in vs;
  }

  const LoveText: string := "love love love hate"

  lemma LoveWords()
    ensures GetWords(LoveText) == ["love", "love", "love", "hate"]
  {
    var words := ["love", "love", "love", "hate"];
    assert ToLower(LoveText) == LoveText;
    assert LoveText == Join(words, ' ');
    TokensOfSpaced(words);
  }

  /** The four words hold two distinct ones. */
  lemma LoveUnique(words: seq<string>)
    requires words == ["love", "love", "love", "hate"]
    ensures UniqueCount(words) == 2
  {
    assert (set w | w in words) == {"love", "hate"};
  }
  /** Three positive keywords and one negative. */
  lemma LoveTone(words: seq<string>)
    requires words == ["love", "love", "love", "hate"]
    ensures ToneOf(words) == Tone(3, 1)
  {
    assert "love" in PositiveWords && "love" !in NegativeWords;
    assert "hate" in NegativeWords && "hate" !in PositiveWords;
    var w3, w2, w1 := words[..3], words[..2], words[..1];
    assert words[..3][..2] == w2 && words[..2][..1] == w1 && w1[..0] == [];
    assert Matches(w1, PositiveWords) == 1 && Matches(w1, NegativeWords) == 0;
    assert Matches(w2, PositiveWords) == 2 && Matches(w2, NegativeWords) == 0;
    assert Matches(w3, PositiveWords) == 3 && Matches(w3, NegativeWords) == 0;
  }
  /** "love love love hate": four words, two distinct, three positive and one negative. */
  lemma LoveHate(text: string)
    requires text == LoveText
    ensures Analyze(text).wordCount == 4
    ensures Analyze(text).uniqueWords == 2
    ensures Analyze(text).tone == Tone(3, 1)
  {
    LoveWords();
    LoveUnique(GetWords(text));
    LoveTone(GetWords(text));
    NotBlank(text);
  }

  /** "a b c a b c a b c": nine words, seven windows. */
  const AbcText: string := "a b c a b c a b c"
  const ABC := "a b c"
  const BCA := "b c a"
  const CAB := "c a b"

  /** Three pieces joined by spaces. */
  lemma JoinThree(x: string, y: string, z: string)
    ensures Join([x, y, z], ' ') == x + " " + y + " " + z
  {
    var p := [x, y, z];
    assert p[1..] == [y, z] && p[1..][1..] == [z];
    assert Join([z], ' ') == z;
    assert Join([y, z], ' ') == y + [' '] + z;
    assert " " == [' '];
  }

  lemma AbcWindows(words: seq<string>)
    requires words == ["a", "b", "c", "a", "b", "c", "a", "b", "c"]
    ensures Windows(words) == [ABC, BCA, CAB, ABC, BCA, CAB, ABC]
  {
    var w := Windows(words);
    assert |w| == 7;
    forall i | 0 <= i < 7 ensures w[i] == [ABC, BCA, CAB, ABC, BCA, CAB, ABC][i] {
      assert words[i..i + 3] == [words[i], words[i + 1], words[i + 2]];
      JoinThree(words[i], words[i + 1], words[i + 2]);
    }
  }

  /** Seven windows cycling through three distinct phrases, in first-occurrence order. */
  lemma CycleOrder(x: string, y: string, z: string)
    requires x != y && y != z && x != z
    ensures Distinct([x, y, z, x, y, z, x]) == [x, y, z]
  {
    CycleOrderSteps(x, y, z);
    assert [x, y, z] + [x] + [y] + [z] + [x] == [x, y, z, x, y, z, x];
  }

  /** The cycle built one window at a time. */
  lemma CycleOrderSteps(x: string, y: string, z: string)
    requires x != y && y != z && x != z
    ensures Distinct([x, y, z] + [x] + [y] + [z] + [x]) == [x, y, z]
  {
    var d := [x, y, z];
    FirstOccurrences(x, y, z);
    var s4 := d + [x];
    SeenAgain(d, x, d);
    var s5 := s4 + [y];
    SeenAgain(s4, y, d);
    var s6 := s5 + [z];
    SeenAgain(s5, z, d);
    SeenAgain(s6, x, d);
  }

  lemma FirstOccurrences(x: string, y: string, z: string)
    requires x != y && y != z && x != z
    ensures Distinct([x, y, z]) == [x, y, z]
  {
    DistinctAppend([], x);
    assert [x] == [] + [x];
    DistinctAppend([x], y);
    assert [x, y] == [x] + [y];
    DistinctAppend([x, y], z);
    assert [x, y, z] == [x, y] + [z];
  }

  /** A phrase seen before leaves the first-occurrence order as it is. */
  lemma SeenAgain(s: seq<string>, p: string, d: seq<string>)
    requires Distinct(s) == d && p in s
    ensures Distinct(s + [p]) == d
  {
    DistinctAppend(s, p);
  }

  /** The same seven windows counted: three, two and two. */
  lemma CycleCounts(x: string, y: string, z: string)
    requires x != y && y != z && x != z
    ensures var t := Tally([x, y, z, x, y, z, x]);
      x in t && y in t && z in t && t[x] == 3 && t[y] == 2 && t[z] == 2
  {
    var w := [x, y, z, x, y, z, x];
    CycleMultiset(x, y, z);
    assert [x, y, z] + [x, y, z] + [x] == w;
    TallyOf(w, x);
    TallyOf(w, y);
    TallyOf(w, z);
  }

  /** A phrase that occurs is a key of the tally, with its number of occurrences. */
  lemma TallyOf(w: seq<string>, p: string)
    requires multiset(w)[p] > 0
    ensures p in Tally(w) && Tally(w)[p] == multiset(w)[p]
  {
  }

  lemma CycleMultiset(x: string, y: string, z: string)
    requires x != y && y != z && x != z
    ensures var m := multiset([x, y, z] + [x, y, z] + [x]); m[x] == 3 && m[y] == 2 && m[z] == 2
  {
    OnceEach(x, y, z);
  }

  lemma OnceEach(x: string, y: string, z: string)
    requires x != y && y != z && x != z
    ensures var m := multiset([x, y, z]); m[x] == 1 && m[y] == 1 && m[z] == 1
  {
    assert [x, y, z] == [x] + [y] + [z];
  }

  lemma AbcFrequent(order: seq<string>, tally: map<string, nat>)
    requires order == [ABC, BCA, CAB]
    requires ABC in tally && BCA in tally && CAB in tally
    requires tally[ABC] == 3 && tally[BCA] == 2 && tally[CAB] == 2
    ensures Frequent(order, tally) == [PhraseCount(ABC, 3), PhraseCount(BCA, 2), PhraseCount(CAB, 2)]
  {
    assert order[1..] == [BCA, CAB] && order[1..][1..] == [CAB] && [CAB][1..] == [];
    assert tally[ABC] == 3 && tally[BCA] == 2 && tally[CAB] == 2;
    assert Frequent([], tally) == [];
    assert Frequent([CAB], tally) == [PhraseCount(CAB, 2)];
    assert Frequent([BCA, CAB], tally) == [PhraseCount(BCA, 2), PhraseCount(CAB, 2)];
  }

  lemma AbcRanked(t: seq<PhraseCount>)
    requires t == [PhraseCount(ABC, 3), PhraseCount(BCA, 2), PhraseCount(CAB, 2)]
    ensures SortDesc(t, CountOf) == t
  {
    assert t[1..] == [t[1], t[2]] && t[1..][1..] == [t[2]] && [t[2]][1..] == [];
    assert SortDesc([t[2]], CountOf) == [t[2]];
    assert SortDesc([t[1], t[2]], CountOf) == [t[1], t[2]];
  }

  /** The three-word phrases of the text, counted over its seven windows and
      ranked by count: "a b c" three times, then "b c a" and "c a b" twice
      each, in order of first occurrence. */
  lemma AbcRepeated(words: seq<string>)
    requires words == ["a", "b", "c", "a", "b", "c", "a", "b", "c"]
    ensures RepeatedPhrases(words) == [PhraseCount(ABC, 3), PhraseCount(BCA, 2), PhraseCount(CAB, 2)]
  {
    AbcWindows(words);
    var w := Windows(words);
    CycleOrder(ABC, BCA, CAB);
    CycleCounts(ABC, BCA, CAB);
    AbcFrequent(Distinct(w), Tally(w));
    AbcRanked(PhraseTable(words));
  }

  /** The text is its nine words joined by spaces. */
  lemma AbcJoin(words: seq<string>, text: string)
    requires words == ["a", "b", "c", "a", "b", "c", "a", "b", "c"] && text == AbcText
    ensures text == Join(words, ' ')
  {
    var third := ["a", "b", "c"];
    JoinThree("a", "b", "c");
    JoinAppend(third, third);
    JoinAppend(third, third + third);
    assert words == third + (third + third);
    AbcTextParts();
  }

  /** The scenario text is three copies of "a b c" separated by spaces. */
  lemma AbcTextParts()
    ensures AbcText == ABC + " " + (ABC + " " + ABC)
  {
  }


  /** Joining two non-empty lists puts one separator between their joins. */
  lemma {:induction false} JoinAppend(a: seq<string>, b: seq<string>)
    requires a != [] && b != []
    ensures Join(a + b, ' ') == Join(a, ' ') + " " + Join(b, ' ')
  {
    if |a| == 1 {
      assert (a + b)[1..] == b;
    } else {
      JoinAppend(a[1..], b);
      assert (a + b)[1..] == a[1..] + b;
    }
  }

  /** The scenario text tokenizes into its nine one-letter words. */
  lemma AbcWords(text: string)
    requires text == AbcText
    ensures GetWords(text) == ["a", "b", "c", "a", "b", "c", "a", "b", "c"]
  {
    var words := ["a", "b", "c", "a", "b", "c", "a", "b", "c"];
    assert ToLower(text) == text;
    AbcJoin(words, text);
    assert IsWord("a") && IsWord("b") && IsWord("c");
    forall k | 0 <= k < |words| ensures words[k] != [] && IsWord(words[k]) {
      assert words[k] in {"a", "b", "c"};
    }
    TokensOfSpaced(words);
  }

  /** The report of "a b c a b c a b c" lists exactly those three phrases. */
  lemma AbcAnalysis(text: string)
    requires text == AbcText
    ensures Analyze(text).repeatedPhrases == [PhraseCount(ABC, 3), PhraseCount(BCA, 2), PhraseCount(CAB, 2)]
  {
    NotBlank(text);
    ReportPhrases(text);
    AbcWords(text);
    AbcRepeated(GetWords(text));
  }
}
