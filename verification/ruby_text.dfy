/**
 * Models of the handful of Ruby `String` operations the gate script is built from:
 * `tr(c, "")`, `strip`, `split("\n")` and `split(" ")`.  Strings are `seq<char>`;
 * only the ASCII notion of whitespace that these Ruby operations use is modelled.
 */
module RubyText {

  /** Whitespace as Ruby's regex `\s`, `split(" ")` and `strip` see it: space, \t, \n, \v, \f, \r. */
  predicate IsSpace(c: char)
  {
    c == ' ' || '\t' <= c <= '\r'
  }

  /** The characters `String#strip` removes at either end: whitespace and NUL. */
  predicate IsStripChar(c: char)
  {
    c == '\0' || IsSpace(c)
  }

  /** A token of `split(" ")`: non-empty and free of whitespace. */
  predicate IsWord(w: string)
  {
    w != [] && WordLength(w) == |w|
  }

  /** `n` copies of `c`. */
  function Repeat(c: char, n: nat): (r: string)
    ensures |r| == n
    ensures forall i :: 0 <= i < n ==> r[i] == c
  {
    if n == 0 then [] else [c] + Repeat(c, n - 1)
  }

  // ----------------------------------------------------------------------------------------
  // tr(c, "")
  // ----------------------------------------------------------------------------------------

  /** `s.tr(c, "")`: every occurrence of `c` is deleted, wherever it stands. */
  function DeleteChar(s: string, c: char): (r: string)
    ensures c !in r
    ensures forall x :: x != c ==> (x in r <==> x in s)
    ensures |r| <= |s|
  {
    if s == [] then [] else (if s[0] == c then [] else [s[0]]) + DeleteChar(s[1..], c)
  }

  /** Deleting a character distributes over concatenation, so it keeps the order of what stays. */
  lemma {:induction false} DeleteCharAppend(a: string, b: string, c: char)
    ensures DeleteChar(a + b, c) == DeleteChar(a, c) + DeleteChar(b, c)
  {
    if a != [] {
      assert (a + b)[0] == a[0];
      assert (a + b)[1..] == a[1..] + b;
      DeleteCharAppend(a[1..], b, c);
      var h := if a[0] == c then [] else [a[0]];
      assert DeleteChar(a + b, c) == h + (DeleteChar(a[1..], c) + DeleteChar(b, c));
      assert DeleteChar(a, c) == h + DeleteChar(a[1..], c);
    } else {
      assert a + b == b;
    }
  }

  // ----------------------------------------------------------------------------------------
  // strip
  // ----------------------------------------------------------------------------------------

  /** `lstrip`: the longest suffix of `s` that does not start with a strip character. */
  function Lstrip(s: string): (r: string)
    ensures |r| <= |s| && r == s[|s| - |r|..]
    ensures forall i :: 0 <= i < |s| - |r| ==> IsStripChar(s[i])
    ensures r == [] || !IsStripChar(r[0])
  {
    if s != [] && IsStripChar(s[0]) then Lstrip(s[1..]) else s
  }

  /** `rstrip`: the longest prefix of `s` that does not end with a strip character. */
  function Rstrip(s: string): (r: string)
    ensures |r| <= |s| && r == s[..|r|]
    ensures forall i :: |r| <= i < |s| ==> IsStripChar(s[i])
    ensures r == [] || !IsStripChar(r[|r| - 1])
  {
    if s != [] && IsStripChar(s[|s| - 1]) then Rstrip(s[..|s| - 1]) else s
  }

  /**
   * `strip`: the slice of `s` that starts at its first and ends at its last character that
   * is not whitespace or NUL; everything cut away on either side is whitespace or NUL.
   */
  function Strip(s: string): (r: string)
    ensures var lo := |s| - |Lstrip(s)|;
      && lo + |r| <= |s|
      && r == s[lo..lo + |r|]
      && (forall i :: 0 <= i < lo ==> IsStripChar(s[i]))
      && (forall i :: lo + |r| <= i < |s| ==> IsStripChar(s[i]))
    ensures r == [] || (!IsStripChar(r[0]) && !IsStripChar(r[|r| - 1]))
  {
    Rstrip(Lstrip(s))
  }

  /** Every character of a slice occurs in the whole string. */
  lemma SliceChars(s: string, lo: nat, hi: nat)
    requires lo <= hi <= |s|
    ensures forall c :: c in s[lo..hi] ==> c in s
  {
    forall c | c in s[lo..hi]
      ensures c in s
    {
      var k :| 0 <= k < hi - lo && s[lo..hi][k] == c;
      assert s[lo + k] == c;
    }
  }

  // ----------------------------------------------------------------------------------------
  // split on a single separator character, and the matching join
  // ----------------------------------------------------------------------------------------

  /** Position of the first `c` in `s`, or `|s|` when there is none. */
  function IndexOf(s: string, c: char): (i: nat)
    ensures i <= |s|
    ensures i < |s| ==> s[i] == c
    ensures forall j :: 0 <= j < i ==> s[j] != c
  {
    if s == [] then 0 else if s[0] == c then 0 else 1 + IndexOf(s[1..], c)
  }

  /** The fields between separators, joined back with the separator. */
  function Join(fs: seq<string>, sep: char): string
  {
    if fs == [] then [] else if |fs| == 1 then fs[0] else fs[0] + [sep] + Join(fs[1..], sep)
  }

  /** Every field of `s` between occurrences of `sep`, empty ones included; the inverse of `Join`. */
  function Fields(s: string, sep: char): (fs: seq<string>)
    ensures |fs| >= 1
    ensures forall i :: 0 <= i < |fs| ==> sep !in fs[i]
    ensures Join(fs, sep) == s
    decreases |s|
  {
    var i := IndexOf(s, sep);
    if i == |s| then
      [s]
    else
      var rest := Fields(s[i + 1..], sep);
      assert ([s[..i]] + rest)[1..] == rest;
      assert s == s[..i] + [sep] + s[i + 1..];
      [s[..i]] + rest
  }

  /** Splitting a join gives back the fields, when no field contains the separator. */
  lemma {:induction false} FieldsOfJoin(fs: seq<string>, sep: char)
    requires |fs| >= 1
    requires forall i :: 0 <= i < |fs| ==> sep !in fs[i]
    ensures Fields(Join(fs, sep), sep) == fs
  {
    var s := Join(fs, sep);
    if |fs| == 1 {
      assert IndexOf(s, sep) == |s|;
    } else {
      assert s == fs[0] + [sep] + Join(fs[1..], sep);
      assert s[|fs[0]|] == sep;
      assert forall j :: 0 <= j < |fs[0]| ==> s[j] == fs[0][j];
      assert IndexOf(s, sep) == |fs[0]|;
      assert s[..|fs[0]|] == fs[0];
      assert s[|fs[0]| + 1..] == Join(fs[1..], sep);
      FieldsOfJoin(fs[1..], sep);
      assert fs == [fs[0]] + fs[1..];
    }
  }

  /** Trailing empty fields removed, as Ruby's `split` does without a limit. */
  function DropTrailingEmpty(fs: seq<string>): (r: seq<string>)
    ensures |r| <= |fs| && r == fs[..|r|]
    ensures forall i :: |r| <= i < |fs| ==> fs[i] == []
    ensures r == [] || r[|r| - 1] != []
  {
    if fs != [] && fs[|fs| - 1] == [] then DropTrailingEmpty(fs[..|fs| - 1]) else fs
  }

  /** Joining fields that are all empty gives only separators. */
  lemma {:induction false} JoinAllEmpty(fs: seq<string>, sep: char)
    requires |fs| >= 1
    requires forall i :: 0 <= i < |fs| ==> fs[i] == []
    ensures Join(fs, sep) == Repeat(sep, |fs| - 1)
  {
    if |fs| > 1 {
      JoinAllEmpty(fs[1..], sep);
      assert Repeat(sep, |fs| - 1) == [sep] + Repeat(sep, |fs| - 2);
    }
  }

  /** Joining, then dropping the empty tail fields, leaves the kept join followed by one separator per dropped field. */
  lemma {:induction false} JoinDropped(fs: seq<string>, m: nat, sep: char)
    requires 1 <= m <= |fs|
    requires forall i :: m <= i < |fs| ==> fs[i] == []
    ensures Join(fs, sep) == Join(fs[..m], sep) + Repeat(sep, |fs| - m)
  {
    if m == |fs| {
      assert fs[..m] == fs;
    } else if m == 1 {
      JoinAllEmpty(fs[1..], sep);
      assert Repeat(sep, |fs| - 1) == [sep] + Repeat(sep, |fs| - 2);
    } else {
      JoinDropped(fs[1..], m - 1, sep);
      assert fs[1..][..m - 1] == fs[..m][1..];
    }
  }

  /**
   * `s.split("\n")` (and any other single non-space separator): the fields between
   * separators with the trailing empty ones dropped.  No line holds the separator, the
   * last line is non-empty, and `s` is the lines joined back followed only by separators.
   */
  function Split(s: string, sep: char): (lines: seq<string>)
    ensures forall i :: 0 <= i < |lines| ==> sep !in lines[i]
    ensures lines == [] || lines[|lines| - 1] != []
    ensures var j := Join(lines, sep);
      && |j| <= |s|
      && s[..|j|] == j
      && forall i :: |j| <= i < |s| ==> s[i] == sep
  {
    var fs := Fields(s, sep);
    var r := DropTrailingEmpty(fs);
    if r == [] then
      JoinAllEmpty(fs, sep);
      r
    else
      JoinDropped(fs, |r|, sep);
      r
  }

  /** `s.split("\n")`. */
  function SplitLines(s: string): (lines: seq<string>)
    ensures forall i :: 0 <= i < |lines| ==> '\n' !in lines[i]
    ensures lines == [] || lines[|lines| - 1] != []
    ensures var j := Join(lines, '\n');
      && |j| <= |s|
      && s[..|j|] == j
      && forall i :: |j| <= i < |s| ==> s[i] == '\n'
  {
    Split(s, '\n')
  }

  /** Appending one more field adds a separator and that field. */
  lemma {:induction false} JoinSnoc(fs: seq<string>, x: string, sep: char)
    requires fs != []
    ensures Join(fs + [x], sep) == Join(fs, sep) + [sep] + x
  {
    if |fs| > 1 {
      assert (fs + [x])[1..] == fs[1..] + [x];
      JoinSnoc(fs[1..], x, sep);
    }
  }

  /** `k` empty lines. */
  function EmptyLines(k: nat): (r: seq<string>)
    ensures |r| == k && forall i :: 0 <= i < k ==> r[i] == []
  {
    if k == 0 then [] else EmptyLines(k - 1) + [[]]
  }

  /** Lines whose last one is non-empty survive the dropping of any number of empty lines after them. */
  lemma {:induction false} DropPaddedEmpty(fs: seq<string>, k: nat)
    requires fs == [] || fs[|fs| - 1] != []
    ensures DropTrailingEmpty(fs + EmptyLines(k)) == fs
  {
    if k == 0 {
      assert fs + EmptyLines(0) == fs;
    } else {
      var padded := fs + EmptyLines(k);
      assert padded[..|padded| - 1] == fs + EmptyLines(k - 1);
      DropPaddedEmpty(fs, k - 1);
    }
  }

  /** Joining lines padded with `k` empty lines is the join followed by `k` separators. */
  lemma {:induction false} JoinPadded(fs: seq<string>, k: nat, sep: char)
    requires fs != []
    ensures Join(fs + EmptyLines(k), sep) == Join(fs, sep) + Repeat(sep, k)
  {
    if k == 0 {
      assert fs + EmptyLines(0) == fs;
    } else {
      JoinPadded(fs, k - 1, sep);
      assert fs + EmptyLines(k) == (fs + EmptyLines(k - 1)) + [[]];
      JoinSnoc(fs + EmptyLines(k - 1), [], sep);
      assert Repeat(sep, k - 1) + [sep] == Repeat(sep, k);
    }
  }

  /**
   * Splitting is the inverse of joining: newline-free lines, the last one non-empty, joined
   * with newlines and followed by any number of newlines split back into those lines.
   */
  lemma SplitLinesOfJoin(lines: seq<string>, k: nat)
    requires forall i :: 0 <= i < |lines| ==> '\n' !in lines[i]
    requires lines == [] || lines[|lines| - 1] != []
    ensures SplitLines(Join(lines, '\n') + Repeat('\n', k)) == lines
  {
    var s := Join(lines, '\n') + Repeat('\n', k);
    if lines == [] {
      assert s == Repeat('\n', k);
      SplitLinesEmpty(s);
    } else {
      var padded := lines + EmptyLines(k);
      JoinPadded(lines, k, '\n');
      FieldsOfJoin(padded, '\n');
      DropPaddedEmpty(lines, k);
    }
  }

  /** There are no lines exactly when the text is empty or nothing but newlines. */
  lemma SplitLinesEmpty(s: string)
    ensures SplitLines(s) == [] <==> forall i :: 0 <= i < |s| ==> s[i] == '\n'
  {
    var lines := SplitLines(s);
    if lines != [] {
      var last := lines[|lines| - 1];
      var j := Join(lines, '\n');
      JoinEndsWithLast(lines, '\n');
      assert s[|j| - 1] == last[|last| - 1];
      assert '\n' !in last;
    }
  }

  /** A join ends with its last field. */
  lemma {:induction false} JoinEndsWithLast(fs: seq<string>, sep: char)
    requires fs != []
    ensures var j := Join(fs, sep); var last := fs[|fs| - 1];
      |last| <= |j| && j[|j| - |last|..] == last
  {
    if |fs| > 1 {
      JoinEndsWithLast(fs[1..], sep);
    }
  }

  /** A join starts with its first field followed, when there are more, by the separator. */
  lemma {:induction false} JoinStartsWithFirst(fs: seq<string>, sep: char)
    requires fs != []
    ensures var j := Join(fs, sep);
      && |fs[0]| <= |j|
      && j[..|fs[0]|] == fs[0]
      && (|fs| > 1 ==> |fs[0]| < |j| && j[|fs[0]|] == sep)
  {
  }

  /**
   * When the text has a character other than a newline, its first line is exactly the text
   * up to its first newline (possibly empty, when the text starts with one).
   */
  lemma FirstLine(s: string)
    requires exists i :: 0 <= i < |s| && s[i] != '\n'
    ensures SplitLines(s) != [] && SplitLines(s)[0] == s[..IndexOf(s, '\n')]
  {
    SplitLinesEmpty(s);
    var lines := SplitLines(s);
    JoinStartsWithFirst(lines, '\n');
    var j := Join(lines, '\n');
    var k := IndexOf(s, '\n');
    assert s[..|lines[0]|] == lines[0];
  }

  // ----------------------------------------------------------------------------------------
  // split(" "): awk-style splitting on runs of whitespace
  // ----------------------------------------------------------------------------------------

  /** `s` with its leading whitespace removed. */
  function SkipSpaces(s: string): (r: string)
    ensures |r| <= |s| && r == s[|s| - |r|..]
    ensures forall i :: 0 <= i < |s| - |r| ==> IsSpace(s[i])
    ensures r == [] || !IsSpace(r[0])
  {
    if s != [] && IsSpace(s[0]) then SkipSpaces(s[1..]) else s
  }

  /** Length of the longest whitespace-free prefix of `s`. */
  function WordLength(s: string): (n: nat)
    ensures n <= |s|
    ensures forall i :: 0 <= i < n ==> !IsSpace(s[i])
    ensures n < |s| ==> IsSpace(s[n])
  {
    if s == [] || IsSpace(s[0]) then 0 else 1 + WordLength(s[1..])
  }

  /**
   * `s.split(" ")`: the maximal whitespace-free runs of `s`, in order; leading and
   * trailing whitespace yields no empty token.
   */
  function SplitWords(s: string): (ws: seq<string>)
    ensures forall i :: 0 <= i < |ws| ==> IsWord(ws[i])
    decreases |s|
  {
    var t := SkipSpaces(s);
    if t == [] then
      []
    else
      var n := WordLength(t);
      LeadingWord(t);
      var rest := SplitWords(t[n..]);
      ConsWords(t[..n], rest);
      [t[..n]] + rest
  }

  /** Putting a word in front of a sequence of words gives a sequence of words. */
  lemma ConsWords(w: string, ws: seq<string>)
    requires IsWord(w)
    requires forall i :: 0 <= i < |ws| ==> IsWord(ws[i])
    ensures forall i :: 0 <= i < |[w] + ws| ==> IsWord(([w] + ws)[i])
  {
  }

  /** The whitespace-free run at the start of a text that does not start with whitespace is a word. */
  lemma {:induction false} LeadingWord(t: string)
    requires t != [] && !IsSpace(t[0])
    ensures WordLength(t) >= 1 && IsWord(t[..WordLength(t)])
  {
    var n := WordLength(t);
    if n > 1 {
      LeadingWord(t[1..]);
      assert t[1..][..n - 1] == t[..n][1..];
    }
  }

  /** Whitespace alone yields no token. */
  lemma SplitWordsAllSpace(t: string)
    requires forall i :: 0 <= i < |t| ==> IsSpace(t[i])
    ensures SplitWords(t) == []
  {
    assert SkipSpaces(t) == [];
  }

  /** A leading whitespace character does not change the tokens. */
  lemma SplitWordsSpaceFirst(x: string)
    requires x != [] && IsSpace(x[0])
    ensures SplitWords(x) == SplitWords(x[1..])
  {
    assert SkipSpaces(x) == SkipSpaces(x[1..]);
  }

  /** A word at the start, ended by whitespace or by the end of the text, is the first token. */
  lemma SplitWordsWordFirst(w: string, rest: string)
    requires IsWord(w)
    requires rest == [] || IsSpace(rest[0])
    ensures SplitWords(w + rest) == [w] + SplitWords(rest)
  {
    var s := w + rest;
    assert s[0] == w[0];
    assert SkipSpaces(s) == s;
    WordAt(w, rest);
    assert s[|w|..] == rest;
  }

  /** A word, one space and more text split into that word and the tokens of the text. */
  lemma SplitWordsCons(w: string, r: string)
    requires IsWord(w)
    ensures SplitWords(w + ([' '] + r)) == [w] + SplitWords(r)
  {
    var rest := [' '] + r;
    SplitWordsWordFirst(w, rest);
    assert rest[1..] == r;
    SplitWordsSpaceFirst(rest);
  }

  /** Joining two or more fields puts the first, a separator, and the join of the rest. */
  lemma JoinCons(fs: seq<string>, sep: char, tail: string)
    requires |fs| >= 2
    ensures Join(fs, sep) + tail == fs[0] + ([sep] + (Join(fs[1..], sep) + tail))
  {
  }

  /** One word followed by whitespace splits back into that word. */
  lemma SplitWordsSingle(w: string, tail: string)
    requires IsWord(w)
    requires forall i :: 0 <= i < |tail| ==> IsSpace(tail[i])
    ensures SplitWords(w + tail) == [w]
  {
    SplitWordsAllSpace(tail);
    assert [w] + SplitWords(tail) == [w];
    SplitWordsWordFirst(w, tail);
  }

  /**
   * Words joined by single spaces and followed by any whitespace split back into
   * exactly those words.
   */
  lemma {:induction false} SplitWordsOfJoin(ws: seq<string>, tail: string)
    requires forall i :: 0 <= i < |ws| ==> IsWord(ws[i])
    requires forall i :: 0 <= i < |tail| ==> IsSpace(tail[i])
    ensures SplitWords(Join(ws, ' ') + tail) == ws
  {
    if ws == [] {
      assert Join(ws, ' ') + tail == tail;
      SplitWordsAllSpace(tail);
    } else if |ws| == 1 {
      assert [ws[0]] == ws;
      assert Join(ws, ' ') == ws[0];
      SplitWordsSingle(ws[0], tail);
    } else {
      assert [ws[0]] + ws[1..] == ws;
      var r := Join(ws[1..], ' ') + tail;
      JoinCons(ws, ' ', tail);
      SplitWordsCons(ws[0], r);
      SplitWordsOfJoin(ws[1..], tail);
    }
  }

  /** A non-empty string without whitespace is a word. */
  lemma {:induction false} NoSpaceIsWord(w: string)
    requires w != [] && forall i :: 0 <= i < |w| ==> !IsSpace(w[i])
    ensures IsWord(w)
  {
    if |w| > 1 {
      NoSpaceIsWord(w[1..]);
    }
  }

  /** A word followed by whitespace (or nothing) is read as one whole token. */
  lemma {:induction false} WordAt(w: string, rest: string)
    requires IsWord(w)
    requires rest == [] || IsSpace(rest[0])
    ensures WordLength(w + rest) == |w| && (w + rest)[..|w|] == w
  {
    assert (w + rest)[0] == w[0];
    assert (w + rest)[1..] == w[1..] + rest;
    if |w| > 1 {
      WordAt(w[1..], rest);
    } else {
      assert w[1..] + rest == rest;
    }
  }
}
