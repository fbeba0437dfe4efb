/**
 * The four cleaning rules of the cleaner view. Each is a total function from
 * the lyric text to a new lyric text.
 */
module Cleaner {
  import opened Text

  // ------------------------------------------------------- Trim Whitespace

  /** `map(line => line.trim())`. */
  function TrimEach(lines: seq<string>): seq<string> {
    seq(|lines|, i requires 0 <= i < |lines| => Trim(lines[i]))
  }

  /** "Trim Whitespace": `text.split('\n').map(line => line.trim()).join('\n')`. */
  function TrimWhitespace(text: string): string {
    Join(TrimEach(Split(text, '\n')), '\n')
  }

  /** Trimming keeps the lines: as many as before, each the trimmed original,
      none with whitespace at either end. */
  lemma TrimWhitespaceLines(text: string)
    ensures Split(TrimWhitespace(text), '\n') == TrimEach(Split(text, '\n'))
    ensures |Split(TrimWhitespace(text), '\n')| == |Split(text, '\n')|
    ensures forall k :: 0 <= k < |Split(TrimWhitespace(text), '\n')| ==>
      IsTrimmed(Split(TrimWhitespace(text), '\n')[k])
  {
    var lines := TrimEach(Split(text, '\n'));
    forall k | 0 <= k < |lines| ensures '\n' !in lines[k] && IsTrimmed(lines[k]) {
      TrimKeepsOut(Split(text, '\n')[k], '\n');
      TrimSpec(Split(text, '\n')[k]);
    }
    SplitJoin(lines, '\n');
  }

  lemma TrimWhitespaceIdempotent(text: string)
    ensures TrimWhitespace(TrimWhitespace(text)) == TrimWhitespace(text)
  {
    TrimWhitespaceLines(text);
    var lines := TrimEach(Split(text, '\n'));
    forall k | 0 <= k < |lines| ensures Trim(lines[k]) == lines[k] {
      TrimIdempotent(Split(text, '\n')[k]);
    }
    assert TrimEach(lines) == lines;
  }

  lemma TrimWhitespaceShorter(text: string)
    ensures |TrimWhitespace(text)| <= |text|
  {
    var lines := Split(text, '\n');
    forall k | 0 <= k < |lines| ensures |TrimEach(lines)[k]| <= |lines[k]| {
      TrimSpec(lines[k]);
    }
    JoinShorter(TrimEach(lines), lines, '\n');
    JoinSplit(text, '\n');
  }

  // ---------------------------------------------------- Remove Empty Lines

  /** "Remove Empty Lines": `text.split('\n').filter(line => line.trim() !== '').join('\n')`. */
  function RemoveEmptyLines(text: string): string {
    Join(NonBlankLines(Split(text, '\n')), '\n')
  }

  /** The lines kept are separator-free and non-blank. */
  lemma KeptLines(text: string)
    ensures forall k :: 0 <= k < |NonBlankLines(Split(text, '\n'))| ==>
      '\n' !in NonBlankLines(Split(text, '\n'))[k] && !IsBlank(NonBlankLines(Split(text, '\n'))[k])
  {
    var kept := NonBlankLines(Split(text, '\n'));
    forall k | 0 <= k < |kept| ensures '\n' !in kept[k] && !IsBlank(kept[k]) {
      NonBlankLinesKeep(Split(text, '\n'), kept[k]);
    }
  }

  /** The result is empty exactly for blank text. */
  lemma RemoveEmptyLinesEmpty(text: string)
    ensures RemoveEmptyLines(text) == [] <==> IsBlank(text)
  {
    var kept := NonBlankLines(Split(text, '\n'));
    NonBlankPieces(text, '\n');
    if kept != [] {
      KeptLines(text);
      JoinLength(kept, '\n');
      assert |kept[0]| > 0;
      assert TotalLength(kept) > 0;
    }
  }

  /** Otherwise its lines are the non-blank lines of the input, unchanged and
      in order, and none of them is blank. */
  lemma RemoveEmptyLinesSpec(text: string)
    requires !IsBlank(text)
    ensures Split(RemoveEmptyLines(text), '\n') == NonBlankLines(Split(text, '\n'))
    ensures forall k :: 0 <= k < |Split(RemoveEmptyLines(text), '\n')| ==>
      !IsBlank(Split(RemoveEmptyLines(text), '\n')[k])
  {
    NonBlankPieces(text, '\n');
    KeptLines(text);
    SplitJoin(NonBlankLines(Split(text, '\n')), '\n');
  }

  lemma RemoveEmptyLinesIdempotent(text: string)
    ensures RemoveEmptyLines(RemoveEmptyLines(text)) == RemoveEmptyLines(text)
  {
    RemoveEmptyLinesEmpty(text);
    var r := RemoveEmptyLines(text);
    if IsBlank(text) {
      assert Split(r, '\n') == [[]];
    } else {
      RemoveEmptyLinesSpec(text);
      var kept := NonBlankLines(Split(text, '\n'));
      NonBlankLinesFixpoint(kept);
    }
  }

  // ------------------------------------------------------- Collapse Spaces

  /** "Collapse Spaces": `text.replace(/ +/g, ' ')`; a space followed by a space is dropped. */
  function CollapseSpaces(s: string): (r: string)
    ensures |r| <= |s|
  {
    if |s| <= 1 then s
    else if s[0] == ' ' && s[1] == ' ' then CollapseSpaces(s[1..])
    else [s[0]] + CollapseSpaces(s[1..])
  }

  /** Two `' '` characters are never adjacent. */
  predicate NoDoubleSpace(s: string) {
    forall i :: 0 <= i < |s| - 1 ==> !(s[i] == ' ' && s[i + 1] == ' ')
  }

  /** A non-empty run of spaces becomes one space. */
  lemma {:induction false} CollapseRun(n: nat)
    requires n >= 1
    ensures CollapseSpaces(seq(n, _ => ' ')) == " "
  {
    if n > 1 {
      CollapseRun(n - 1);
      assert seq(n, _ => ' ')[1..] == seq(n - 1, _ => ' ');
    }
  }

  /** One step of the collapse: a leading space is dropped when a space follows it. */
  lemma CollapseCons(x: char, t: string)
    ensures CollapseSpaces([x] + t) ==
      if x == ' ' && t != [] && t[0] == ' ' then CollapseSpaces(t) else [x] + CollapseSpaces(t)
  {
    assert ([x] + t)[1..] == t;
  }

  /** Regrouping a concatenation with one leading and one inner character. */
  lemma Regroup(x: char, p: string, c: char, q: string)
    ensures [x] + p + [c] + q == [x] + (p + [c] + q)
  {
  }

  /** Every other character splits the work: it is kept, and the text on
      each side of it is collapsed on its own. */
  lemma {:induction false} CollapseAround(a: string, c: char, b: string)
    requires c != ' '
    ensures CollapseSpaces(a + [c] + b) == CollapseSpaces(a) + [c] + CollapseSpaces(b)
  {
    if a == [] {
      assert a + [c] + b == [c] + b;
      CollapseCons(c, b);
    } else {
      var x, a1 := a[0], a[1..];
      var t := a1 + [c] + b;
      assert a == [x] + a1;
      Regroup(x, a1, c, b);
      CollapseAround(a1, c, b);
      CollapseCons(x, t);
      CollapseCons(x, a1);
      assert t[0] == if a1 == [] then c else a1[0];
      if !(x == ' ' && a1 != [] && a1[0] == ' ') {
        Regroup(x, CollapseSpaces(a1), c, CollapseSpaces(b));
      }
    }
  }

  /** Together CollapseRun, CollapseAround and `CollapseSpaces([]) == []`
      determine the function; it leaves no double space. */
  lemma {:induction false} CollapseNoDouble(s: string)
    ensures NoDoubleSpace(CollapseSpaces(s))
    ensures s != [] ==> CollapseSpaces(s) != [] && CollapseSpaces(s)[0] == s[0]
  {
    if |s| > 1 {
      CollapseNoDouble(s[1..]);
    }
  }

  /** Text without a double space is left as it is. */
  lemma {:induction false} CollapseFixpoint(s: string)
    ensures CollapseSpaces(s) == s <==> NoDoubleSpace(s)
  {
    CollapseNoDouble(s);
    if |s| > 1 && NoDoubleSpace(s) {
      CollapseFixpoint(s[1..]);
      assert NoDoubleSpace(s[1..]) by {
        forall i | 0 <= i < |s[1..]| - 1 ensures !(s[1..][i] == ' ' && s[1..][i + 1] == ' ') {
          assert s[1..][i] == s[i + 1] && s[1..][i + 1] == s[i + 2];
        }
      }
    }
  }

  /** The text with its spaces deleted. */
  function WithoutSpaces(s: string): string {
    if s == [] then [] else (if s[0] == ' ' then [] else [s[0]]) + WithoutSpaces(s[1..])
  }

  /** Collapsing deletes spaces only: the output is a subsequence of the
      input, and every other character (tabs and newlines included) is kept, in order. */
  lemma {:induction false} CollapseKeepsOthers(s: string)
    ensures IsSubsequence(CollapseSpaces(s), s)
    ensures WithoutSpaces(CollapseSpaces(s)) == WithoutSpaces(s)
  {
    if |s| > 1 {
      CollapseKeepsOthers(s[1..]);
      var rest := CollapseSpaces(s[1..]);
      if !(s[0] == ' ' && s[1] == ' ') {
        assert ([s[0]] + rest)[1..] == rest;
      }
    } else if |s| == 1 {
      assert s[1..] == [];
    }
  }

  lemma CollapseSpacesIdempotent(s: string)
    ensures CollapseSpaces(CollapseSpaces(s)) == CollapseSpaces(s)
  {
    CollapseNoDouble(s);
    CollapseFixpoint(CollapseSpaces(s));
  }

  // --------------------------------------------------- Remove Punctuation

  /** The character class `[.,?!()[\]{}"']`. */
  const Punctuation: set<char> := {'.', ',', '?', '!', '(', ')', '[', ']', '{', '}', '"', '\''}

  /** "Remove Punctuation": `text.replace(/[.,?!()[\]{}"']/g, '')`. */
  function RemovePunctuation(s: string): (r: string)
    ensures |r| <= |s|
    ensures forall c :: c in r ==> c !in Punctuation
  {
    if s == [] then []
    else
      var rest := RemovePunctuation(s[1..]);
      if s[0] in Punctuation then rest else [s[0]] + rest
  }

  /** The result is the input with exactly the punctuation characters
      deleted: a subsequence of it in which every other character occurs as
      often as in the input. */
  lemma {:induction false} RemovePunctuationSpec(s: string)
    ensures IsSubsequence(RemovePunctuation(s), s)
    ensures forall c :: multiset(RemovePunctuation(s))[c] == if c in Punctuation then 0 else multiset(s)[c]
  {
    if s != [] {
      RemovePunctuationSpec(s[1..]);
      var rest := RemovePunctuation(s[1..]);
      assert s == [s[0]] + s[1..];
      if s[0] !in Punctuation {
        assert ([s[0]] + rest)[1..] == rest;
        assert RemovePunctuation(s) == [s[0]] + rest;
      } else {
        assert RemovePunctuation(s) == rest;
      }
    }
  }

  /** Text without punctuation is left as it is, so the rule is idempotent. */
  lemma {:induction false} RemovePunctuationFixpoint(s: string)
    ensures RemovePunctuation(s) == s <==> forall c :: c in s ==> c !in Punctuation
  {
    if s != [] {
      RemovePunctuationFixpoint(s[1..]);
      if RemovePunctuation(s) == s {
        assert |RemovePunctuation(s)| == |s|;
      }
    }
  }

  lemma RemovePunctuationIdempotent(s: string)
    ensures RemovePunctuation(RemovePunctuation(s)) == RemovePunctuation(s)
  {
    RemovePunctuationFixpoint(RemovePunctuation(s));
  }
}
