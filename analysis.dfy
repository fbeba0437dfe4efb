/**
 * The lyric analyzer: tokenization, repeated three-word phrases, keyword
 * tone and line profile, computed from the lyric text alone.
 */
module Analysis {
  import opened Types
  import opened Text
  import opened Sorting

  const PositiveWords: set<string> :=
    {"love", "happy", "joy", "beautiful", "sun", "light", "hope", "dream", "good", "great"}
  const NegativeWords: set<string> :=
    {"hate", "sad", "pain", "dark", "lost", "fear", "bad", "cry", "storm", "end"}

  /** Words per phrase window. */
  const PhraseLength: nat := 3
  /** How many repeated phrases the report keeps. */
  const MaxPhrases: nat := 5

  // ---------------------------------------------------------------- tokens

  /** The regular-expression class `\w` (no Unicode flag): ASCII letters, digits and `_`. */
  predicate IsWordChar(c: char) {
    ('a' <= c <= 'z') || ('A' <= c <= 'Z') || ('0' <= c <= '9') || c == '_'
  }

  /** `toLowerCase` on ASCII letters; every other character is kept. */
  function LowerChar(c: char): char {
    if 'A' <= c <= 'Z' then (c as int + 32) as char else c
  }

  function ToLower(s: string): string {
    seq(|s|, i requires 0 <= i < |s| => LowerChar(s[i]))
  }

  /** Every character is a word character. */
  predicate IsWord(s: string) {
    forall i :: 0 <= i < |s| ==> IsWordChar(s[i])
  }

  /** No character is a word character. */
  predicate IsGap(s: string) {
    forall i :: 0 <= i < |s| ==> !IsWordChar(s[i])
  }

  /** Length of the longest prefix of word characters. */
  function WordPrefix(s: string): (n: nat)
    ensures n <= |s|
    ensures forall i :: 0 <= i < n ==> IsWordChar(s[i])
    ensures n == |s| || !IsWordChar(s[n])
  {
    if s != [] && IsWordChar(s[0]) then
      assert forall i :: 1 <= i < |s| ==> s[i] == s[1..][i - 1];
      1 + WordPrefix(s[1..])
    else 0
  }

  /** Length of the longest prefix of non-word characters. */
  function GapPrefix(s: string): (n: nat)
    ensures n <= |s|
    ensures forall i :: 0 <= i < n ==> !IsWordChar(s[i])
    ensures n == |s| || IsWordChar(s[n])
  {
    if s != [] && !IsWordChar(s[0]) then
      assert forall i :: 1 <= i < |s| ==> s[i] == s[1..][i - 1];
      1 + GapPrefix(s[1..])
    else 0
  }

  /** The matches of `/\b(\w+)\b/g`: the maximal runs of word characters, left to right. */
  function Tokens(s: string): seq<string>
    decreases |s|
  {
    var k := GapPrefix(s);
    if k == |s| then []
    else
      var rest := s[k..];
      var n := WordPrefix(rest);
      [rest[..n]] + Tokens(rest[n..])
  }

  /** The separators around the tokens: before the first, between each two, after the last. */
  function Gaps(s: string): seq<string>
    decreases |s|
  {
    var k := GapPrefix(s);
    if k == |s| then [s]
    else
      var rest := s[k..];
      var n := WordPrefix(rest);
      [s[..k]] + Gaps(rest[n..])
  }

  /** Interleaves separators and tokens: `g0 + t0 + g1 + t1 + ... + gn`. */
  function Weave(gaps: seq<string>, tokens: seq<string>): string
    requires |gaps| == |tokens| + 1
  {
    if tokens == [] then gaps[0] else gaps[0] + tokens[0] + Weave(gaps[1..], tokens[1..])
  }

  /** The tokens are exactly the maximal runs of word characters: weaving them
      with the separators restores the text, every token is a non-empty run of
      word characters, every separator holds no word character, and the
      separators between two tokens are non-empty (so no run is split). */
  lemma TokensSpec(s: string)
    ensures |Gaps(s)| == |Tokens(s)| + 1
    ensures Weave(Gaps(s), Tokens(s)) == s
    ensures forall k :: 0 <= k < |Tokens(s)| ==> Tokens(s)[k] != [] && IsWord(Tokens(s)[k])
    ensures forall k :: 0 <= k < |Gaps(s)| ==> IsGap(Gaps(s)[k])
    ensures forall k :: 0 < k < |Gaps(s)| - 1 ==> Gaps(s)[k] != []
  {
    TokensWeave(s);
    TokensAreRuns(s);
    GapsAreSeparators(s);
    GapsAreNonEmpty(s);
  }

  lemma {:induction false} TokensWeave(s: string)
    ensures |Gaps(s)| == |Tokens(s)| + 1
    ensures Weave(Gaps(s), Tokens(s)) == s
    decreases |s|
  {
    var k := GapPrefix(s);
    if k < |s| {
      var rest := s[k..];
      var n := WordPrefix(rest);
      var tail := rest[n..];
      TokensWeave(tail);
      var g, t := Gaps(s), Tokens(s);
      assert t == [rest[..n]] + Tokens(tail);
      assert g == [s[..k]] + Gaps(tail);
      WeaveCons(g, t);
      assert g[1..] == Gaps(tail) && t[1..] == Tokens(tail);
      CutTwice(s, k, n);
    }
  }

  lemma WeaveCons(gaps: seq<string>, tokens: seq<string>)
    requires |gaps| == |tokens| + 1 && tokens != []
    ensures Weave(gaps, tokens) == gaps[0] + tokens[0] + Weave(gaps[1..], tokens[1..])
  {
  }

  /** Cutting a string twice and gluing the pieces back restores it. */
  lemma CutTwice(s: string, k: nat, n: nat)
    requires k <= |s| && n <= |s| - k
    ensures s == s[..k] + s[k..][..n] + s[k..][n..]
  {
    assert s[k..] == s[k..][..n] + s[k..][n..];
    assert s == s[..k] + s[k..];
  }

  lemma {:induction false} TokensAreRuns(s: string)
    ensures forall k :: 0 <= k < |Tokens(s)| ==> Tokens(s)[k] != [] && IsWord(Tokens(s)[k])
    decreases |s|
  {
    var k := GapPrefix(s);
    if k < |s| {
      var rest := s[k..];
      var n := WordPrefix(rest);
      var t, tail := Tokens(s), Tokens(rest[n..]);
      TokensAreRuns(rest[n..]);
      assert t == [rest[..n]] + tail;
      forall j | 0 <= j < |t| ensures t[j] != [] && IsWord(t[j]) {
        if j == 0 {
          assert IsWordChar(rest[0]);
          assert IsWord(rest[..n]) by {
            forall i | 0 <= i < n ensures IsWordChar(rest[..n][i]) { assert rest[..n][i] == rest[i]; }
          }
        } else {
          assert t[j] == tail[j - 1];
        }
      }
    }
  }

  lemma {:induction false} GapsAreSeparators(s: string)
    ensures forall k :: 0 <= k < |Gaps(s)| ==> IsGap(Gaps(s)[k])
    decreases |s|
  {
    var k := GapPrefix(s);
    if k < |s| {
      var rest := s[k..];
      var n := WordPrefix(rest);
      GapsAreSeparators(rest[n..]);
      assert IsGap(s[..k]) by {
        forall i | 0 <= i < k ensures !IsWordChar(s[..k][i]) { assert s[..k][i] == s[i]; }
      }
      assert Gaps(s) == [s[..k]] + Gaps(rest[n..]);
      AllGapsCons(s[..k], Gaps(rest[n..]));
    }
  }

  lemma AllGapsCons(head: string, tail: seq<string>)
    requires IsGap(head) && forall j :: 0 <= j < |tail| ==> IsGap(tail[j])
    ensures forall j :: 0 <= j < |[head] + tail| ==> IsGap(([head] + tail)[j])
  {
    forall j | 0 <= j < |[head] + tail| ensures IsGap(([head] + tail)[j]) {
      if j > 0 { assert ([head] + tail)[j] == tail[j - 1]; }
    }
  }

  lemma {:induction false} GapsAreNonEmpty(s: string)
    ensures forall k :: 0 < k < |Gaps(s)| - 1 ==> Gaps(s)[k] != []
    ensures s != [] && !IsWordChar(s[0]) ==> Gaps(s)[0] != []
    decreases |s|
  {
    var k := GapPrefix(s);
    if k < |s| {
      var rest := s[k..];
      var n := WordPrefix(rest);
      var tail := rest[n..];
      GapsAreNonEmpty(tail);
      var g := Gaps(s);
      assert g == [s[..k]] + Gaps(tail);
      assert tail != [] ==> !IsWordChar(tail[0]);
      forall j | 0 < j < |g| - 1 ensures g[j] != [] {
        assert g[j] == Gaps(tail)[j - 1];
        if j == 1 {
          assert |Gaps(tail)| >= 2;
          assert tail != [];
        }
      }
    }
  }

  /** A run of word characters ends where a non-word character starts. */
  lemma {:induction false} WordPrefixAppend(w: string, t: string)
    requires IsWord(w) && (t == [] || !IsWordChar(t[0]))
    ensures WordPrefix(w + t) == |w|
  {
    if w != [] {
      assert (w + t)[1..] == w[1..] + t;
      WordPrefixAppend(w[1..], t);
    }
  }

  /** A separator ends where a word character starts. */
  lemma {:induction false} GapPrefixAppend(g: string, t: string)
    requires IsGap(g) && (t == [] || IsWordChar(t[0]))
    ensures GapPrefix(g + t) == |g|
  {
    if g != [] {
      assert (g + t)[1..] == g[1..] + t;
      GapPrefixAppend(g[1..], t);
    }
  }

  /** A separator, a word and text starting with a non-word character
      tokenize as that word followed by the tokens of the text. */
  lemma TokensStep(g: string, w: string, t: string)
    requires IsGap(g) && w != [] && IsWord(w) && (t == [] || !IsWordChar(t[0]))
    ensures Tokens(g + w + t) == [w] + Tokens(t)
  {
    var s := g + w + t;
    GapPrefixAppend(g, w + t);
    assert g + w + t == g + (w + t);
    assert s[|g|..] == w + t;
    WordPrefixAppend(w, t);
    assert (w + t)[..|w|] == w && (w + t)[|w|..] == t;
  }

  /** A leading separator extends the separator prefix. */
  lemma {:induction false} GapPrefixShift(g: string, t: string)
    requires IsGap(g)
    ensures GapPrefix(g + t) == |g| + GapPrefix(t)
  {
    if g != [] {
      assert (g + t)[1..] == g[1..] + t;
      GapPrefixShift(g[1..], t);
    } else {
      assert g + t == t;
    }
  }

  /** A leading separator does not change the tokens. */
  lemma TokensSkipGap(g: string, t: string)
    requires IsGap(g)
    ensures Tokens(g + t) == Tokens(t)
  {
    var s := g + t;
    GapPrefixShift(g, t);
    var kt := GapPrefix(t);
    assert GapPrefix(s) == |g| + kt;
    assert s[|g| + kt..] == t[kt..];
    if kt < |t| {
      var rest := t[kt..];
      var n := WordPrefix(rest);
      assert Tokens(s) == [rest[..n]] + Tokens(rest[n..]);
    }
  }

  /** A leading word followed by a non-word character is the first token. */
  lemma TokensWordFirst(w: string, t: string)
    requires w != [] && IsWord(w) && (t == [] || !IsWordChar(t[0]))
    ensures Tokens(w + t) == [w] + Tokens(t)
  {
    var s := w + t;
    assert IsWordChar(s[0]);
    assert GapPrefix(s) == 0;
    WordPrefixAppend(w, t);
    assert s[0..] == s;
    assert s[..|w|] == w && s[|w|..] == t;
  }

  /** Words joined by single spaces tokenize back to those words. */
  lemma {:induction false} TokensOfSpaced(ws: seq<string>)
    requires forall k :: 0 <= k < |ws| ==> ws[k] != [] && IsWord(ws[k])
    ensures Tokens(Join(ws, ' ')) == ws
  {
    if |ws| == 1 {
      TokensWordFirst(ws[0], []);
      assert ws[0] + [] == ws[0];
    } else if |ws| > 1 {
      var rest := Join(ws[1..], ' ');
      var tail := [' '] + rest;
      assert Join(ws, ' ') == ws[0] + tail;
      TokensOfSpaced(ws[1..]);
      TokensWordFirst(ws[0], tail);
      TokensSkipGap([' '], rest);
      assert ws == [ws[0]] + ws[1..];
    }
  }

  /** No ASCII upper-case letter occurs. */
  predicate NoUpper(s: string) {
    forall i :: 0 <= i < |s| ==> !('A' <= s[i] <= 'Z')
  }

  /** Tokens are cut from the text: a text without upper-case letters has
      tokens without upper-case letters. */
  lemma {:induction false} TokensNoUpper(s: string)
    requires NoUpper(s)
    ensures forall k :: 0 <= k < |Tokens(s)| ==> NoUpper(Tokens(s)[k])
    decreases |s|
  {
    var k := GapPrefix(s);
    if k < |s| {
      var rest := s[k..];
      var n := WordPrefix(rest);
      assert NoUpper(rest[..n]) by {
        forall i | 0 <= i < n ensures !('A' <= rest[..n][i] <= 'Z') {
          assert rest[..n][i] == s[k + i];
        }
      }
      assert NoUpper(rest[n..]) by {
        forall i | 0 <= i < |rest[n..]| ensures !('A' <= rest[n..][i] <= 'Z') {
          assert rest[n..][i] == s[k + n + i];
        }
      }
      TokensNoUpper(rest[n..]);
      assert Tokens(s) == [rest[..n]] + Tokens(rest[n..]);
      AllNoUpperCons(rest[..n], Tokens(rest[n..]));
    }
  }

  lemma AllNoUpperCons(head: string, tail: seq<string>)
    requires NoUpper(head) && forall j :: 0 <= j < |tail| ==> NoUpper(tail[j])
    ensures forall j :: 0 <= j < |[head] + tail| ==> NoUpper(([head] + tail)[j])
  {
    forall j | 0 <= j < |[head] + tail| ensures NoUpper(([head] + tail)[j]) {
      if j > 0 { assert ([head] + tail)[j] == tail[j - 1]; }
    }
  }

  /** Lower-casing leaves no upper-case letter. */
  lemma ToLowerNoUpper(text: string)
    ensures NoUpper(ToLower(text))
  {
  }

  /** `getWords`: the text lower-cased, then cut into tokens. */
  function GetWords(text: string): seq<string> {
    Tokens(ToLower(text))
  }

  /** Every word is a non-empty run of `[a-z0-9_]`. */
  lemma GetWordsLower(text: string)
    ensures forall k :: 0 <= k < |GetWords(text)| ==> GetWords(text)[k] != []
    ensures forall k, i :: 0 <= k < |GetWords(text)| && 0 <= i < |GetWords(text)[k]| ==>
      var c := GetWords(text)[k][i];
      ('a' <= c <= 'z') || ('0' <= c <= '9') || c == '_'
  {
    var s := ToLower(text);
    var ws := Tokens(s);
    TokensSpec(s);
    ToLowerNoUpper(text);
    TokensNoUpper(s);
    forall k, i | 0 <= k < |ws| && 0 <= i < |ws[k]|
      ensures ('a' <= ws[k][i] <= 'z') || ('0' <= ws[k][i] <= '9') || ws[k][i] == '_'
    {
      assert IsWordChar(ws[k][i]) && NoUpper(ws[k]);
    }
  }

  // ------------------------------------------------------- repeated phrases

  /** The phrase keys of all windows of `PhraseLength` consecutive words, joined by one space. */
  function Windows(words: seq<string>): (w: seq<string>)
    ensures |words| < PhraseLength ==> w == []
    ensures |words| >= PhraseLength ==> |w| == |words| - PhraseLength + 1
  {
    if |words| < PhraseLength then []
    else seq(|words| - PhraseLength + 1,
             i requires 0 <= i <= |words| - PhraseLength => Join(words[i..i + PhraseLength], ' '))
  }

  /** The distinct elements of `s`, in order of first occurrence. */
  function Distinct(s: seq<string>): (r: seq<string>)
    ensures forall x :: x in r <==> x in s
    ensures forall i, j :: 0 <= i < j < |r| ==> r[i] != r[j]
  {
    if s == [] then []
    else
      var d := Distinct(s[..|s| - 1]);
      assert forall x :: x in s <==> x in s[..|s| - 1] || x == s[|s| - 1];
      if s[|s| - 1] in d then d else d + [s[|s| - 1]]
  }

  /** Occurrence count of every element of `s`. */
  function Tally(s: seq<string>): map<string, nat> {
    map p | p in s :: multiset(s)[p]
  }

  /** Index of the first occurrence of `p` in `s`, or `|s|` when absent. */
  function FirstIndex(s: seq<string>, p: string): (k: nat)
    ensures k <= |s| && (k < |s| <==> p in s)
    ensures k < |s| ==> s[k] == p
    ensures forall j :: 0 <= j < k ==> s[j] != p
  {
    if s == [] then 0 else if s[0] == p then 0 else 1 + FirstIndex(s[1..], p)
  }

  lemma {:induction false} FirstIndexAppend(s: seq<string>, x: string, p: string)
    ensures FirstIndex(s + [x], p) == if p in s then FirstIndex(s, p) else if p == x then |s| else |s| + 1
  {
    if s != [] {
      FirstIndexAppend(s[1..], x, p);
      assert (s + [x])[1..] == s[1..] + [x];
    }
  }

  /** The distinct elements come in strictly increasing order of first occurrence. */
  lemma {:induction false} DistinctInFirstOrder(s: seq<string>)
    ensures forall i, j :: 0 <= i < j < |Distinct(s)| ==>
      FirstIndex(s, Distinct(s)[i]) < FirstIndex(s, Distinct(s)[j])
  {
    if s != [] {
      var init, x := s[..|s| - 1], s[|s| - 1];
      assert s == init + [x];
      DistinctInFirstOrder(init);
      var d := Distinct(init);
      forall p | p in d ensures FirstIndex(s, p) == FirstIndex(init, p) < |init| {
        FirstIndexAppend(init, x, p);
      }
      if x !in d {
        FirstIndexAppend(init, x, x);
      }
    }
  }

  /** `Object.entries(counts).filter(([, c]) => c > 1).map(...)` over keys in insertion order. */
  function Frequent(order: seq<string>, tally: map<string, nat>): (r: seq<PhraseCount>)
    requires forall p :: p in order ==> p in tally
    ensures forall e :: e in r <==> e.phrase in order && e.count == tally[e.phrase] && e.count > 1
  {
    if order == [] then []
    else
      var e := PhraseCount(order[0], tally[order[0]]);
      var rest := Frequent(order[1..], tally);
      assert forall p :: p in order <==> p == order[0] || p in order[1..];
      if e.count > 1 then [e] + rest else rest
  }

  /** One step of `Frequent`. */
  lemma FrequentStep(order: seq<string>, tally: map<string, nat>)
    requires order != [] && forall p :: p in order ==> p in tally
    ensures Frequent(order, tally) ==
      if tally[order[0]] > 1 then [PhraseCount(order[0], tally[order[0]])] + Frequent(order[1..], tally)
      else Frequent(order[1..], tally)
  {
  }

  /** An entry ranked before all of an ascending list can be put in front of it. */
  lemma ConsAscending(e: PhraseCount, rest: seq<PhraseCount>, rank: string -> int)
    requires Ascending(rest, (q: PhraseCount) => rank(q.phrase))
    requires forall q :: q in rest ==> rank(e.phrase) < rank(q.phrase)
    ensures Ascending([e] + rest, (q: PhraseCount) => rank(q.phrase))
  {
    var r := [e] + rest;
    forall i, j | 0 <= i < j < |r| ensures rank(r[i].phrase) < rank(r[j].phrase) {
      assert r[j] == rest[j - 1];
      if i == 0 {
        assert rest[j - 1] in rest;
      } else {
        assert r[i] == rest[i - 1];
      }
    }
  }

  /** The first phrase of an ascending order is ranked below every entry kept from the others. */
  lemma FrequentHead(order: seq<string>, tally: map<string, nat>, rank: string -> int)
    requires order != [] && forall p :: p in order ==> p in tally
    requires forall i, j :: 0 <= i < j < |order| ==> rank(order[i]) < rank(order[j])
    ensures forall q :: q in Frequent(order[1..], tally) ==> rank(order[0]) < rank(q.phrase)
  {
    forall q | q in Frequent(order[1..], tally) ensures rank(order[0]) < rank(q.phrase) {
      var k :| 0 <= k < |order[1..]| && order[1..][k] == q.phrase;
      assert order[k + 1] == q.phrase;
    }
  }

  /** Filtering keeps the relative order of the phrases, for any ranking of them. */
  lemma {:induction false} FrequentInOrder(order: seq<string>, tally: map<string, nat>, rank: string -> int)
    requires forall p :: p in order ==> p in tally
    requires forall i, j :: 0 <= i < j < |order| ==> rank(order[i]) < rank(order[j])
    ensures Ascending(Frequent(order, tally), (q: PhraseCount) => rank(q.phrase))
  {
    if order != [] {
      FrequentInOrder(order[1..], tally, rank);
      FrequentStep(order, tally);
      if tally[order[0]] > 1 {
        FrequentHead(order, tally, rank);
        ConsAscending(PhraseCount(order[0], tally[order[0]]), Frequent(order[1..], tally), rank);
      }
    }
  }

  function CountOf(e: PhraseCount): int {
    e.count
  }

  /** The windows' phrases in first-occurrence order with their counts, those seen more than once. */
  function PhraseTable(words: seq<string>): seq<PhraseCount> {
    var w := Windows(words);
    Frequent(Distinct(w), Tally(w))
  }

  /** The phrase table stably sorted by count, descending. */
  function Ranked(words: seq<string>): seq<PhraseCount> {
    SortDesc(PhraseTable(words), CountOf)
  }

  /** The reference definition of `findRepeatedPhrases`: the first five
      entries of the ranked phrase table. */
  function RepeatedPhrases(words: seq<string>): seq<PhraseCount> {
    if |words| < PhraseLength then [] else Take(Ranked(words), MaxPhrases)
  }

  /** Every ranked entry is a phrase of at least two windows, with its exact window count. */
  lemma RankedEntries(words: seq<string>)
    ensures forall k :: 0 <= k < |Ranked(words)| ==>
      Ranked(words)[k].count >= 2 &&
      Ranked(words)[k].count == multiset(Windows(words))[Ranked(words)[k].phrase]
  {
    var t := Ranked(words);
    forall k | 0 <= k < |t| ensures t[k].count >= 2 && t[k].count == multiset(Windows(words))[t[k].phrase] {
      assert t[k] in multiset(PhraseTable(words));
    }
  }

  /** Every entry is a phrase seen at least twice among the windows, with its
      exact number of windows; there are at most five; counts never increase. */
  lemma RepeatedPhrasesCounts(words: seq<string>)
    ensures |RepeatedPhrases(words)| <= MaxPhrases
    ensures |words| < PhraseLength ==> RepeatedPhrases(words) == []
    ensures forall k :: 0 <= k < |RepeatedPhrases(words)| ==>
      RepeatedPhrases(words)[k].count >= 2 &&
      RepeatedPhrases(words)[k].count == multiset(Windows(words))[RepeatedPhrases(words)[k].phrase]
    ensures forall i, j :: 0 <= i < j < |RepeatedPhrases(words)| ==>
      RepeatedPhrases(words)[i].count >= RepeatedPhrases(words)[j].count
  {
    if |words| >= PhraseLength {
      var r := RepeatedPhrases(words);
      RankedEntries(words);
      forall k | 0 <= k < |r|
        ensures r[k].count >= 2 && r[k].count == multiset(Windows(words))[r[k].phrase]
      {
        assert r[k] == Ranked(words)[k];
      }
    }
  }

  /** The ranked table is ordered by count, and among equal counts by first occurrence. */
  lemma RankedTies(words: seq<string>)
    ensures forall i, j :: 0 <= i < j < |Ranked(words)| ==>
      Ranked(words)[i].count > Ranked(words)[j].count ||
      (Ranked(words)[i].count == Ranked(words)[j].count &&
       FirstIndex(Windows(words), Ranked(words)[i].phrase) < FirstIndex(Windows(words), Ranked(words)[j].phrase))
  {
    var w := Windows(words);
    var rank := (e: PhraseCount) => FirstIndex(w, e.phrase);
    DistinctInFirstOrder(w);
    FrequentInOrder(Distinct(w), Tally(w), p => FirstIndex(w, p));
    assert Ascending(PhraseTable(words), rank);
    SortDescTies(PhraseTable(words), CountOf, rank);
    assert SortedThenBy(Ranked(words), CountOf, rank);
  }

  /** Phrases with equal counts keep the order in which they first occurred,
      and no phrase is listed twice. */
  lemma RepeatedPhrasesTies(words: seq<string>)
    ensures forall i, j :: 0 <= i < j < |RepeatedPhrases(words)| ==>
      RepeatedPhrases(words)[i].phrase != RepeatedPhrases(words)[j].phrase
    ensures forall i, j :: (0 <= i < j < |RepeatedPhrases(words)| &&
      RepeatedPhrases(words)[i].count == RepeatedPhrases(words)[j].count) ==>
      FirstIndex(Windows(words), RepeatedPhrases(words)[i].phrase) <
      FirstIndex(Windows(words), RepeatedPhrases(words)[j].phrase)
  {
    if |words| >= PhraseLength {
      RankedTies(words);
      RankedEntries(words);
      var r, s := RepeatedPhrases(words), Ranked(words);
      forall i, j | 0 <= i < j < |r|
        ensures r[i].phrase != r[j].phrase
        ensures r[i].count == r[j].count ==> FirstIndex(Windows(words), r[i].phrase) < FirstIndex(Windows(words), r[j].phrase)
      {
        assert r[i] == s[i] && r[j] == s[j];
      }
    }
  }

  /** The list is the top five: a phrase seen at least twice that is not
      listed has no more windows than the fifth entry. */
  lemma RepeatedPhrasesTop(words: seq<string>, p: string)
    requires multiset(Windows(words))[p] >= 2
    ensures (exists k :: 0 <= k < |RepeatedPhrases(words)| && RepeatedPhrases(words)[k].phrase == p) ||
            (|RepeatedPhrases(words)| == MaxPhrases &&
             multiset(Windows(words))[p] <= RepeatedPhrases(words)[MaxPhrases - 1].count)
  {
    var w := Windows(words);
    var r := RepeatedPhrases(words);
    assert p in w;
    var e := PhraseCount(p, multiset(w)[p]);
    assert e in PhraseTable(words);
    assert e in multiset(Ranked(words));
    assert |words| >= PhraseLength;
    TakeKeeps(Ranked(words), e, MaxPhrases, CountOf);
    if e in r {
      var k :| 0 <= k < |r| && r[k] == e;
      assert r[k].phrase == p;
    }
  }


  /** Sum of the counts of the listed elements of `s`. */
  function SumCounts(order: seq<string>, s: seq<string>): nat {
    if order == [] then 0 else SumCounts(order[..|order| - 1], s) + multiset(s)[order[|order| - 1]]
  }

  lemma {:induction false} SumCountsBump(order: seq<string>, s: seq<string>, x: string)
    requires forall i, j :: 0 <= i < j < |order| ==> order[i] != order[j]
    ensures SumCounts(order, s + [x]) == SumCounts(order, s) + (if x in order then 1 else 0)
  {
    if order != [] {
      var init := order[..|order| - 1];
      SumCountsBump(init, s, x);
      assert x in order <==> x in init || x == order[|order| - 1];
      assert multiset(s + [x]) == multiset(s) + multiset{x};
    }
  }

  /** The window counts add up to the number of windows. */
  lemma {:induction false} SumOfTally(s: seq<string>)
    ensures SumCounts(Distinct(s), s) == |s|
  {
    if s != [] {
      var init, x := s[..|s| - 1], s[|s| - 1];
      assert s == init + [x];
      SumOfTally(init);
      var d := Distinct(init);
      SumCountsBump(d, init, x);
      if x !in d {
        assert (d + [x])[..|d|] == d;
        assert multiset(init)[x] == 0;
      }
    }
  }

  /** With fewer than three words there are no windows; otherwise there are
      `wordCount - 2` of them and their counts add up to that. */
  lemma WindowsTotal(words: seq<string>)
    ensures |Windows(words)| == if |words| < PhraseLength then 0 else |words| - 2
    ensures SumCounts(Distinct(Windows(words)), Windows(words)) == |Windows(words)|
  {
    SumOfTally(Windows(words));
  }

  lemma TallyAppend(s: seq<string>, x: string)
    ensures Tally(s + [x]) == Tally(s)[x := if x in s then Tally(s)[x] + 1 else 1]
  {
    var a, b := Tally(s + [x]), Tally(s)[x := if x in s then Tally(s)[x] + 1 else 1];
    assert multiset(s + [x]) == multiset(s) + multiset{x};
    assert forall p :: p in s + [x] <==> p in s || p == x;
    assert a.Keys == b.Keys;
    assert forall p :: p in a ==> a[p] == b[p];
  }

  lemma DistinctAppend(s: seq<string>, x: string)
    ensures Distinct(s + [x]) == if x in s then Distinct(s) else Distinct(s) + [x]
  {
    assert (s + [x])[..|s|] == s;
  }

  /** Every phrase in first-occurrence order has a count. */
  lemma TableReady(w: seq<string>)
    ensures forall p :: p in Distinct(w) ==> p in Tally(w)
  {
  }

  /** One step of the counting loop: recording window `i` in the insertion-ordered dictionary. */
  lemma CountStep(w: seq<string>, i: nat, order: seq<string>, counts: map<string, nat>)
    requires i < |w|
    requires order == Distinct(w[..i]) && counts == Tally(w[..i])
    ensures w[i] in counts ==>
      Distinct(w[..i + 1]) == order && Tally(w[..i + 1]) == counts[w[i] := counts[w[i]] + 1]
    ensures w[i] !in counts ==>
      Distinct(w[..i + 1]) == order + [w[i]] && Tally(w[..i + 1]) == counts[w[i] := 1]
  {
    assert w[..i + 1] == w[..i] + [w[i]];
    TallyAppend(w[..i], w[i]);
    DistinctAppend(w[..i], w[i]);
  }

  /** `findRepeatedPhrases`: counts the windows into an insertion-ordered
      dictionary (keys in `order`, counts in `counts`), then filters, sorts and cuts. */
  method FindRepeatedPhrases(words: seq<string>) returns (r: seq<PhraseCount>)
    ensures r == RepeatedPhrases(words)
    ensures |r| <= MaxPhrases
    ensures forall k :: 0 <= k < |r| ==> r[k].count >= 2
  {
    if |words| < PhraseLength {
      RepeatedPhrasesCounts(words);
      return [];
    }
    ghost var w := Windows(words);
    var order: seq<string> := [];
    var counts: map<string, nat> := map[];
    var i := 0;
    while i <= |words| - PhraseLength
      invariant 0 <= i <= |w|
      invariant order == Distinct(w[..i])
      invariant counts == Tally(w[..i])
    {
      var phrase := Join(words[i..i + PhraseLength], ' ');
      assert phrase == w[i];
      CountStep(w, i, order, counts);
      if phrase in counts {
        counts := counts[phrase := counts[phrase] + 1];
      } else {
        order := order + [phrase];
        counts := counts[phrase := 1];
      }
      i := i + 1;
    }
    assert w[..i] == w;
    TableReady(w);
    r := Take(SortDesc(Frequent(order, counts), CountOf), MaxPhrases);
    assert r == Take(Ranked(words), MaxPhrases);
    RepeatedPhrasesCounts(words);
  }

  // ------------------------------------------------------------------ tone

  /** How many words are in `keys` (counted from the front). */
  function Matches(words: seq<string>, keys: set<string>): nat {
    if words == [] then 0
    else Matches(words[..|words| - 1], keys) + (if words[|words| - 1] in keys then 1 else 0)
  }

  /** Matches of two disjoint keyword sets together never exceed the word count. */
  lemma {:induction false} MatchesDisjoint(words: seq<string>, a: set<string>, b: set<string>)
    requires a !! b
    ensures Matches(words, a) + Matches(words, b) <= |words|
    ensures Matches(words, a) + Matches(words, b) == Matches(words, a + b)
  {
    if words != [] {
      MatchesDisjoint(words[..|words| - 1], a, b);
    }
  }

  /** The reference tone of a word list. */
  function ToneOf(words: seq<string>): Tone {
    Tone(Matches(words, PositiveWords), Matches(words, NegativeWords))
  }

  /** Both tone counts together are at most the word count (the keyword sets are disjoint). */
  lemma ToneBound(words: seq<string>)
    ensures ToneOf(words).positive + ToneOf(words).negative <= |words|
  {
    MatchesDisjoint(words, PositiveWords, NegativeWords);
  }

  /** `getBasicTone`: one pass with two counters. */
  method GetBasicTone(words: seq<string>) returns (tone: Tone)
    ensures tone == ToneOf(words)
  {
    var positive, negative := 0, 0;
    for i := 0 to |words|
      invariant positive == Matches(words[..i], PositiveWords)
      invariant negative == Matches(words[..i], NegativeWords)
    {
      assert words[..i + 1][..i] == words[..i];
      if words[i] in PositiveWords {
        positive := positive + 1;
      }
      if words[i] in NegativeWords {
        negative := negative + 1;
      }
    }
    assert words[..|words|] == words;
    tone := Tone(positive, negative);
  }

  // ---------------------------------------------------------------- report

  /** The report of a blank text. */
  const EmptyReport := AnalysisReport(0, 0, 0, 0, [], [], Tone(0, 0))

  /** Number of distinct words (`new Set(words).size`). */
  function UniqueCount(words: seq<string>): nat {
    |set w | w in words|
  }

  lemma {:induction false} UniqueCountBound(words: seq<string>)
    ensures UniqueCount(words) <= |words|
    ensures words != [] ==> UniqueCount(words) >= 1
  {
    if words != [] {
      var init := words[..|words| - 1];
      UniqueCountBound(init);
      assert (set w | w in words) == (set w | w in init) + {words[|words| - 1]} by {
        assert forall x :: x in words <==> x in init || x == words[|words| - 1];
      }
    }
  }

  /** The lines that have a non-whitespace character, in order. */
  function ContentLines(lyrics: string): seq<string> {
    NonBlankLines(Split(lyrics, '\n'))
  }

  /** `lines.map(line => line.length)`. */
  function LineLengths(lines: seq<string>): seq<nat> {
    seq(|lines|, i requires 0 <= i < |lines| => |lines[i]|)
  }

  /** The reference definition of `analyzeLyrics`. */
  function Analyze(lyrics: string): AnalysisReport {
    if Trim(lyrics) == [] then EmptyReport
    else
      var words := GetWords(lyrics);
      var lines := ContentLines(lyrics);
      AnalysisReport(
        |words|, |lines|, UniqueCount(words), |lyrics|, RepeatedPhrases(words),
        LineLengths(lines), ToneOf(words))
  }

  /** `analyzeLyrics`. */
  method AnalyzeLyrics(lyrics: string) returns (report: AnalysisReport)
    ensures report == Analyze(lyrics)
  {
    if Trim(lyrics) == [] {
      return EmptyReport;
    }
    var words := GetWords(lyrics);
    var lines := ContentLines(lyrics);
    var phrases := FindRepeatedPhrases(words);
    var tone := GetBasicTone(words);
    report := AnalysisReport(
      |words|, |lines|, UniqueCount(words), |lyrics|, phrases, LineLengths(lines), tone);
  }

  /** The all-zero report comes out exactly for blank text. */
  lemma AnalyzeBlank(lyrics: string)
    ensures Analyze(lyrics) == EmptyReport <==> IsBlank(lyrics)
  {
    TrimEmpty(lyrics);
  }

  /** The counts of a non-blank text: words, characters, distinct words, tone. */
  lemma AnalyzeCounts(lyrics: string)
    requires !IsBlank(lyrics)
    ensures Analyze(lyrics).wordCount == |GetWords(lyrics)|
    ensures Analyze(lyrics).characterCount == |lyrics|
    ensures Analyze(lyrics).uniqueWords == UniqueCount(GetWords(lyrics)) <= Analyze(lyrics).wordCount
    ensures Analyze(lyrics).tone.positive == Matches(GetWords(lyrics), PositiveWords)
    ensures Analyze(lyrics).tone.negative == Matches(GetWords(lyrics), NegativeWords)
    ensures Analyze(lyrics).tone.positive + Analyze(lyrics).tone.negative <= Analyze(lyrics).wordCount
    ensures Analyze(lyrics).repeatedPhrases == RepeatedPhrases(GetWords(lyrics))
  {
    TrimEmpty(lyrics);
    UniqueCountBound(GetWords(lyrics));
    ToneBound(GetWords(lyrics));
  }

  /** One length per non-blank line, in order; each at least 1; a non-blank
      text has at least one such line. */
  lemma AnalyzeLines(lyrics: string)
    ensures |Analyze(lyrics).lineLengths| == Analyze(lyrics).lineCount
    ensures forall k :: 0 <= k < |Analyze(lyrics).lineLengths| ==> Analyze(lyrics).lineLengths[k] >= 1
    ensures !IsBlank(lyrics) ==> Analyze(lyrics).lineCount >= 1
    ensures !IsBlank(lyrics) ==> forall k :: 0 <= k < Analyze(lyrics).lineCount ==>
      Analyze(lyrics).lineLengths[k] == |ContentLines(lyrics)[k]|
  {
    TrimEmpty(lyrics);
    if !IsBlank(lyrics) {
      var lines := ContentLines(lyrics);
      assert Analyze(lyrics).lineLengths == LineLengths(lines);
      assert Analyze(lyrics).lineCount == |lines|;
      NonBlankPieces(lyrics, '\n');
    }
  }
}
