/**
 * String helpers with JavaScript semantics: `String.prototype.trim`,
 * `split` on a one-character separator, `Array.prototype.join`, and the
 * decimal rendering of a number inside a template literal.
 */
module Text {

  /** What `trim()` removes: ECMAScript WhiteSpace (Tab, VT, FF, SP, NBSP,
      ZWNBSP and the Unicode Zs category) and LineTerminator (LF, CR, LS, PS). */
  predicate IsWhitespace(c: char) {
    || c == '\t' || c == '\n' || c == '\U{B}' || c == '\U{C}' || c == '\r' || c == ' '
    || c == '\U{A0}' || c == '\U{1680}' || ('\U{2000}' <= c <= '\U{200A}')
    || c == '\U{2028}' || c == '\U{2029}' || c == '\U{202F}' || c == '\U{205F}'
    || c == '\U{3000}' || c == '\U{FEFF}'
  }

  /** A string whose `trim()` is empty: every character is whitespace. */
  predicate IsBlank(s: string) {
    forall i :: 0 <= i < |s| ==> IsWhitespace(s[i])
  }

  /** The first index at or after `i` whose character is not whitespace, or `|s|`. */
  function SkipStart(s: string, i: nat): (k: nat)
    requires i <= |s|
    ensures i <= k <= |s|
    ensures forall m :: i <= m < k ==> IsWhitespace(s[m])
    ensures k < |s| ==> !IsWhitespace(s[k])
    decreases |s| - i
  {
    if i < |s| && IsWhitespace(s[i]) then SkipStart(s, i + 1) else i
  }

  /** The index just past the last character before `j` (and from `lo` on)
      that is not whitespace, or `lo`. */
  function SkipEnd(s: string, lo: nat, j: nat): (k: nat)
    requires lo <= j <= |s|
    ensures lo <= k <= j
    ensures forall m :: k <= m < j ==> IsWhitespace(s[m])
    ensures k > lo ==> !IsWhitespace(s[k - 1])
  {
    if j > lo && IsWhitespace(s[j - 1]) then SkipEnd(s, lo, j - 1) else j
  }

  /** `String.prototype.trim`: the text between the leading and the trailing whitespace. */
  function Trim(s: string): string {
    var i := SkipStart(s, 0);
    s[i..SkipEnd(s, i, |s|)]
  }

  /** Neither end of `s` is whitespace. */
  predicate IsTrimmed(s: string) {
    s == [] || (!IsWhitespace(s[0]) && !IsWhitespace(s[|s| - 1]))
  }

  /** Whitespace at every index below `i` makes the prefix blank. */
  lemma BlankPrefix(s: string, i: nat)
    requires i <= |s| && forall m :: 0 <= m < i ==> IsWhitespace(s[m])
    ensures IsBlank(s[..i])
  {
    forall m | 0 <= m < i ensures IsWhitespace(s[..i][m]) {
      assert s[..i][m] == s[m];
    }
  }

  /** Whitespace at every index from `j` on makes the suffix blank. */
  lemma BlankSuffix(s: string, j: nat)
    requires j <= |s| && forall m :: j <= m < |s| ==> IsWhitespace(s[m])
    ensures IsBlank(s[j..])
  {
    forall m | 0 <= m < |s| - j ensures IsWhitespace(s[j..][m]) {
      assert s[j..][m] == s[j + m];
    }
  }

  /** `trim()` keeps a contiguous slice of its input, drops only whitespace
      around it and leaves no whitespace at either end. */
  lemma TrimSpec(s: string)
    ensures exists i, j :: 0 <= i <= j <= |s| && Trim(s) == s[i..j]
                           && IsBlank(s[..i]) && IsBlank(s[j..])
    ensures IsTrimmed(Trim(s))
  {
    var i := SkipStart(s, 0);
    var j := SkipEnd(s, i, |s|);
    BlankPrefix(s, i);
    BlankSuffix(s, j);
    var r := Trim(s);
    assert r == s[i..j];
    if r != [] {
      assert r[0] == s[i] && r[|r| - 1] == s[j - 1];
    }
  }

  /** `trim()` is the identity exactly on strings without whitespace at either end. */
  lemma TrimFixpoint(s: string)
    ensures Trim(s) == s <==> IsTrimmed(s)
  {
    TrimSpec(s);
    if IsTrimmed(s) && s != [] {
      assert SkipStart(s, 0) == 0;
      assert SkipEnd(s, 0, |s|) == |s|;
      assert s[0..|s|] == s;
    }
  }

  /** `trim()` is idempotent. */
  lemma TrimIdempotent(s: string)
    ensures Trim(Trim(s)) == Trim(s)
  {
    TrimSpec(s);
    TrimFixpoint(Trim(s));
  }

  /** `s.trim()` is falsy (the empty string) exactly when `s` is blank. */
  lemma TrimEmpty(s: string)
    ensures Trim(s) == [] <==> IsBlank(s)
  {
    TrimSpec(s);
    var i, j :| 0 <= i <= j <= |s| && Trim(s) == s[i..j] && IsBlank(s[..i]) && IsBlank(s[j..]);
    if Trim(s) == [] {
      forall k | 0 <= k < |s| ensures IsWhitespace(s[k]) {
        if k < i { assert s[..i][k] == s[k]; } else { assert s[j..][k - j] == s[k]; }
      }
    }
  }

  /** `trim()` yields a slice of its input, so it adds no character. */
  lemma TrimKeepsOut(s: string, c: char)
    requires c !in s
    ensures c !in Trim(s) && |Trim(s)| <= |s|
  {
    TrimSpec(s);
    var i, j :| 0 <= i <= j <= |s| && Trim(s) == s[i..j] && IsBlank(s[..i]) && IsBlank(s[j..]);
  }

  /** `s.split(d)` for a one-character separator: the pieces between the
      occurrences of `d`; the empty string splits into one empty piece. */
  function Split(s: string, d: char): (r: seq<string>)
    ensures |r| >= 1
    ensures forall k :: 0 <= k < |r| ==> d !in r[k]
  {
    if s == [] then [[]]
    else if s[0] == d then [[]] + Split(s[1..], d)
    else
      var rest := Split(s[1..], d);
      [[s[0]] + rest[0]] + rest[1..]
  }

  /** `parts.join(d)`: the pieces with `d` between consecutive ones. */
  function Join(parts: seq<string>, d: char): string {
    if parts == [] then []
    else if |parts| == 1 then parts[0]
    else parts[0] + [d] + Join(parts[1..], d)
  }

  /** Joining the pieces of a split restores the string. */
  lemma {:induction false} JoinSplit(s: string, d: char)
    ensures Join(Split(s, d), d) == s
  {
    if s == [] {
    } else if s[0] == d {
      JoinSplit(s[1..], d);
      assert s == [d] + s[1..];
    } else {
      JoinSplit(s[1..], d);
      var rest := Split(s[1..], d);
      if |rest| == 1 {
        assert s == [s[0]] + rest[0];
      } else {
        assert Join(rest, d) == rest[0] + [d] + Join(rest[1..], d);
        assert s == [s[0]] + s[1..];
      }
    }
  }

  /** Splitting a join of separator-free pieces gives the pieces back. */
  lemma {:induction false} SplitJoin(parts: seq<string>, d: char)
    requires |parts| >= 1
    requires forall k :: 0 <= k < |parts| ==> d !in parts[k]
    ensures Split(Join(parts, d), d) == parts
  {
    if |parts| == 1 {
      SplitNoSeparator(parts[0], d);
    } else {
      SplitJoin(parts[1..], d);
      SplitPrefix(parts[0], Join(parts[1..], d), d);
      assert Split(Join(parts, d), d) == [parts[0]] + Split(Join(parts[1..], d), d);
      assert parts == [parts[0]] + parts[1..];
    }
  }

  /** A string without the separator is a single piece. */
  lemma {:induction false} SplitNoSeparator(s: string, d: char)
    requires d !in s
    ensures Split(s, d) == [s]
  {
    if s != [] {
      SplitNoSeparator(s[1..], d);
      assert s == [s[0]] + s[1..];
    }
  }

  /** A separator-free prefix followed by the separator becomes the first piece. */
  lemma {:induction false} SplitPrefix(a: string, b: string, d: char)
    requires d !in a
    ensures Split(a + [d] + b, d) == [a] + Split(b, d)
  {
    if a == [] {
      assert a + [d] + b == [d] + b;
      assert ([d] + b)[1..] == b;
    } else {
      SplitPrefix(a[1..], b, d);
      assert (a + [d] + b)[1..] == a[1..] + [d] + b;
      assert a == [a[0]] + a[1..];
    }
  }

  /** A join of blank pieces around a whitespace separator is blank. */
  lemma {:induction false} JoinBlank(parts: seq<string>, d: char)
    requires IsWhitespace(d)
    requires forall k :: 0 <= k < |parts| ==> IsBlank(parts[k])
    ensures IsBlank(Join(parts, d))
  {
    if |parts| > 1 {
      JoinBlank(parts[1..], d);
      var j := Join(parts, d);
      assert j == parts[0] + ([d] + Join(parts[1..], d));
      forall k | 0 <= k < |j| ensures IsWhitespace(j[k]) {
        if k < |parts[0]| {
          assert j[k] == parts[0][k];
        } else if k > |parts[0]| {
          assert j[k] == Join(parts[1..], d)[k - |parts[0]| - 1];
        }
      }
    }
  }

  /** The summed length of the pieces. */
  function TotalLength(parts: seq<string>): nat {
    if parts == [] then 0 else |parts[0]| + TotalLength(parts[1..])
  }

  /** The length of a join is the total length of the pieces plus one per gap. */
  lemma {:induction false} JoinLength(parts: seq<string>, d: char)
    requires parts != []
    ensures |Join(parts, d)| == TotalLength(parts) + |parts| - 1
  {
    if |parts| > 1 {
      JoinLength(parts[1..], d);
    }
  }

  /** Shortening every piece does not lengthen the join. */
  lemma {:induction false} JoinShorter(a: seq<string>, b: seq<string>, d: char)
    requires |a| == |b| && a != []
    requires forall k :: 0 <= k < |a| ==> |a[k]| <= |b[k]|
    ensures |Join(a, d)| <= |Join(b, d)|
  {
    JoinLength(a, d);
    JoinLength(b, d);
    TotalShorter(a, b);
  }

  lemma {:induction false} TotalShorter(a: seq<string>, b: seq<string>)
    requires |a| == |b|
    requires forall k :: 0 <= k < |a| ==> |a[k]| <= |b[k]|
    ensures TotalLength(a) <= TotalLength(b)
  {
    if a != [] {
      TotalShorter(a[1..], b[1..]);
    }
  }

  /** `lines.filter(line => line.trim() !== '')`. */
  function NonBlankLines(lines: seq<string>): (r: seq<string>)
    ensures |r| <= |lines|
    ensures forall k :: 0 <= k < |r| ==> Trim(r[k]) != []
    ensures IsSubsequence(r, lines)
    ensures forall l :: multiset(r)[l] == if Trim(l) == [] then 0 else multiset(lines)[l]
  {
    if lines == [] then []
    else
      assert lines == [lines[0]] + lines[1..];
      if Trim(lines[0]) != [] then
        var rest := NonBlankLines(lines[1..]);
        assert ([lines[0]] + rest)[1..] == rest;
        [lines[0]] + rest
      else NonBlankLines(lines[1..])
  }

  /** The filter keeps every line that has a non-whitespace character, and only those. */
  lemma {:induction false} NonBlankLinesKeep(lines: seq<string>, l: string)
    ensures l in NonBlankLines(lines) <==> l in lines && !IsBlank(l)
  {
    TrimEmpty(l);
    if lines != [] {
      NonBlankLinesKeep(lines[1..], l);
      TrimEmpty(lines[0]);
    }
  }

  /** Lines none of which is blank are all kept. */
  lemma {:induction false} NonBlankLinesKeepAll(lines: seq<string>)
    requires forall k :: 0 <= k < |lines| ==> !IsBlank(lines[k])
    ensures NonBlankLines(lines) == lines
  {
    if lines != [] {
      TrimEmpty(lines[0]);
      forall k | 0 <= k < |lines[1..]| ensures !IsBlank(lines[1..][k]) {
        assert lines[1..][k] == lines[k + 1];
      }
      NonBlankLinesKeepAll(lines[1..]);
      assert NonBlankLines(lines) == [lines[0]] + lines[1..];
    }
  }

  /** The filter changes nothing exactly when no line is blank. */
  lemma NonBlankLinesFixpoint(lines: seq<string>)
    ensures NonBlankLines(lines) == lines <==> forall k :: 0 <= k < |lines| ==> !IsBlank(lines[k])
  {
    if forall k :: 0 <= k < |lines| ==> !IsBlank(lines[k]) {
      NonBlankLinesKeepAll(lines);
    } else {
      var k :| 0 <= k < |lines| && IsBlank(lines[k]);
      TrimEmpty(lines[k]);
    }
  }


  /** Every character of a piece of a split is a character of the string. */
  lemma {:induction false} SplitChars(s: string, d: char, k: nat, c: char)
    requires k < |Split(s, d)| && c in Split(s, d)[k]
    ensures c in s
  {
    if s != [] {
      var rest := Split(s[1..], d);
      if s[0] == d {
        SplitChars(s[1..], d, k - 1, c);
      } else if k == 0 {
        if c != s[0] {
          assert c in rest[0];
          SplitChars(s[1..], d, 0, c);
        }
      } else {
        assert Split(s, d)[k] == rest[k];
        SplitChars(s[1..], d, k, c);
      }
    }
  }

  /** A split on a whitespace separator has a non-blank piece exactly when the string is not blank. */
  lemma NonBlankPieces(s: string, d: char)
    requires IsWhitespace(d)
    ensures NonBlankLines(Split(s, d)) == [] <==> IsBlank(s)
  {
    var pieces := Split(s, d);
    if NonBlankLines(pieces) == [] {
      forall k | 0 <= k < |pieces| ensures IsBlank(pieces[k]) {
        NonBlankLinesKeep(pieces, pieces[k]);
      }
      JoinBlank(pieces, d);
      JoinSplit(s, d);
    } else if IsBlank(s) {
      var l := NonBlankLines(pieces)[0];
      NonBlankLinesKeep(pieces, l);
      var k :| 0 <= k < |pieces| && pieces[k] == l;
      forall i | 0 <= i < |l| ensures IsWhitespace(l[i]) {
        SplitChars(s, d, k, l[i]);
      }
    }
  }

  /** `a` is `b` with some elements deleted, the others kept in order. */
  predicate IsSubsequence<T(==)>(a: seq<T>, b: seq<T>) {
    a == [] ||
    (b != [] && ((a[0] == b[0] && IsSubsequence(a[1..], b[1..])) || IsSubsequence(a, b[1..])))
  }

  /** Decimal digit characters. */
  predicate IsDigit(c: char) {
    '0' <= c <= '9'
  }

  /** The decimal form of a number, as a template literal renders it. */
  function NatToString(n: nat): (r: string)
    ensures |r| >= 1
    ensures forall k :: 0 <= k < |r| ==> IsDigit(r[k])
    ensures (n == 0) == (r == "0")
    ensures n > 0 ==> r[0] != '0'
    decreases n
  {
    var digit := [('0' as int + n % 10) as char];
    if n < 10 then digit else NatToString(n / 10) + digit
  }

  /** The number a string of decimal digits denotes, most significant digit first. */
  function DecimalValue(s: string): nat
    requires forall k :: 0 <= k < |s| ==> IsDigit(s[k])
  {
    if s == [] then 0
    else
      assert IsDigit(s[|s| - 1]);
      DecimalValue(s[..|s| - 1]) * 10 + (s[|s| - 1] as int - '0' as int)
  }

  /** The digits denote the number they were made from. */
  lemma {:induction false} NatToStringValue(n: nat)
    ensures DecimalValue(NatToString(n)) == n
    decreases n
  {
    if n >= 10 {
      NatToStringValue(n / 10);
      var r := NatToString(n);
      assert r[..|r| - 1] == NatToString(n / 10);
    }
  }

  /** Different numbers are rendered differently. */
  lemma NatToStringInjective(m: nat, n: nat)
    ensures NatToString(m) == NatToString(n) <==> m == n
  {
    if NatToString(m) == NatToString(n) {
      NatToStringValue(m);
      NatToStringValue(n);
    }
  }
}
