/**
 * The few Python `str` operations the scanner relies on, over `string` (a sequence of
 * code points, which is what a decoded Python `str` is).
 */
module Text {
  import opened Seqs

  /** `c.isspace()`: the characters that `str.strip()` with no argument removes. */
  predicate IsSpace(c: char) {
    || ('\t' <= c <= '\r')
    || ('\U{1C}' <= c <= '\U{1F}')
    || c == ' ' || c == '\U{85}' || c == '\U{A0}' || c == '\U{1680}'
    || ('\U{2000}' <= c <= '\U{200A}')
    || c == '\U{2028}' || c == '\U{2029}' || c == '\U{202F}' || c == '\U{205F}' || c == '\U{3000}'
  }

  /** The character sets `strip` is called with: none given (whitespace), and `'"'`. */
  datatype Chars = Whitespace | Quote

  predicate Drops(cs: Chars, c: char) {
    match cs
    case Whitespace => IsSpace(c)
    case Quote => c == '"'
  }

  /** `s.lstrip(chars)`. */
  function TrimStart(s: string, drop: Chars): (r: string)
    ensures |r| <= |s|
    ensures r == [] || !Drops(drop, r[0])
    decreases |s|
  {
    if |s| > 0 && Drops(drop, s[0]) then TrimStart(s[1..], drop) else s
  }

  /** `lstrip` removes a prefix made only of characters of `chars`. */
  lemma {:induction false} TrimStartSuffix(s: string, drop: Chars)
    ensures var r := TrimStart(s, drop);
      r == s[|s| - |r|..] && forall i :: 0 <= i < |s| - |r| ==> Drops(drop, s[i])
    decreases |s|
  {
    if |s| > 0 && Drops(drop, s[0]) {
      TrimStartSuffix(s[1..], drop);
    }
  }

  /** `s.rstrip(chars)`. */
  function TrimEnd(s: string, drop: Chars): (r: string)
    ensures |r| <= |s|
    ensures r == [] || !Drops(drop, r[|r| - 1])
    decreases |s|
  {
    if |s| > 0 && Drops(drop, s[|s| - 1]) then TrimEnd(s[..|s| - 1], drop) else s
  }

  /** `rstrip` removes a suffix made only of characters of `chars`. */
  lemma {:induction false} TrimEndPrefix(s: string, drop: Chars)
    ensures var r := TrimEnd(s, drop);
      r == s[..|r|] && forall i :: |r| <= i < |s| ==> Drops(drop, s[i])
    decreases |s|
  {
    if |s| > 0 && Drops(drop, s[|s| - 1]) {
      TrimEndPrefix(s[..|s| - 1], drop);
    }
  }

  /** `s.strip(chars)`: neither end of the result is a character of `chars`. */
  function Strip(s: string, drop: Chars): (r: string)
    ensures |r| <= |s|
    ensures r == [] || (!Drops(drop, r[0]) && !Drops(drop, r[|r| - 1]))
  {
    var t := TrimStart(s, drop);
    TrimEndPrefix(t, drop);
    TrimEnd(t, drop)
  }

  /** A string that starts and ends with kept characters is its own strip. */
  lemma StripKeeps(s: string, drop: Chars)
    requires s == [] || (!Drops(drop, s[0]) && !Drops(drop, s[|s| - 1]))
    ensures Strip(s, drop) == s
  {
  }

  lemma StripIdempotent(s: string, drop: Chars)
    ensures Strip(Strip(s, drop), drop) == Strip(s, drop)
  {
    StripKeeps(Strip(s, drop), drop);
  }

  /** A dropped character at the end does not change the strip. */
  lemma {:induction false} StripDropsLast(s: string, c: char, drop: Chars)
    requires Drops(drop, c)
    ensures Strip(s + [c], drop) == Strip(s, drop)
    decreases |s|
  {
    if |s| > 0 && Drops(drop, s[0]) {
      assert (s + [c])[1..] == s[1..] + [c];
      StripDropsLast(s[1..], c, drop);
    } else if |s| == 0 {
    } else {
      assert TrimStart(s + [c], drop) == s + [c];
      assert (s + [c])[..|s|] == s;
    }
  }

  /** A string opened, but not closed, by one double quote loses only that quote to `strip('"')`. */
  lemma QuoteOpensOnly(s: string)
    requires |s| >= 2 && s[0] == '"' && s[1] != '"' && s[|s| - 1] != '"'
    ensures Strip(s, Quote) == s[1..]
  {
    assert TrimStart(s[1..], Quote) == s[1..];
  }

  /** `s.startswith(c)` for a one-character prefix. */
  predicate StartsWith(s: string, c: char) {
    |s| > 0 && s[0] == c
  }

  /** `s.startswith(p)`. */
  predicate HasPrefix(s: string, p: string) {
    |p| <= |s| && s[..|p|] == p
  }

  /** `p in s` for strings: `p` occurs in `s` as a contiguous substring. */
  predicate Contains(s: string, p: string)
    decreases |s|
  {
    HasPrefix(s, p) || (|s| > 0 && Contains(s[1..], p))
  }

  /** `p` occurs in `s` starting at index `k`. */
  predicate OccursAt(s: string, p: string, k: int) {
    0 <= k <= |s| - |p| && s[k..k + |p|] == p
  }

  /** `Contains` is occurrence at some index. */
  lemma {:induction false} ContainsAt(s: string, p: string)
    ensures Contains(s, p) <==> exists k :: OccursAt(s, p, k)
    decreases |s|
  {
    if |s| > 0 {
      ContainsAt(s[1..], p);
      if HasPrefix(s, p) {
        assert OccursAt(s, p, 0);
      }
      if Contains(s[1..], p) {
        var k :| OccursAt(s[1..], p, k);
        assert s[k + 1..k + 1 + |p|] == s[1..][k..k + |p|];
        assert OccursAt(s, p, k + 1);
      }
      if k :| OccursAt(s, p, k) {
        if k > 0 {
          assert s[1..][k - 1..k - 1 + |p|] == s[k..k + |p|];
          assert OccursAt(s[1..], p, k - 1);
        } else {
          assert HasPrefix(s, p);
        }
      }
    } else if HasPrefix(s, p) {
      assert OccursAt(s, p, 0);
    } else if k :| OccursAt(s, p, k) {
      assert HasPrefix(s, p);
    }
  }

  /** ASCII part of `str.lower()`. */
  function LowerChar(c: char): char {
    if 'A' <= c <= 'Z' then (c as int + 32) as char else c
  }

  function Lower(s: string): string {
    seq(|s|, i requires 0 <= i < |s| => LowerChar(s[i]))
  }

  /**
   * Lower-casing keeps the length and every character that is not an ASCII capital,
   * turns each capital into the same letter in small, so leaves no capital behind,
   * and changes nothing a second time.
   */
  lemma LowerLaw(s: string)
    ensures |Lower(s)| == |s|
    ensures forall i :: 0 <= i < |s| && !('A' <= s[i] <= 'Z') ==> Lower(s)[i] == s[i]
    ensures forall i :: 0 <= i < |s| && 'A' <= s[i] <= 'Z' ==>
      'a' <= Lower(s)[i] <= 'z' && Lower(s)[i] as int - 'a' as int == s[i] as int - 'A' as int
    ensures forall i :: 0 <= i < |s| ==> !('A' <= Lower(s)[i] <= 'Z')
    ensures Lower(Lower(s)) == Lower(s)
  {
  }

  /**
   * `s.split(sep)` for a one-character separator: the pieces between separators,
   * always at least one, and more than one exactly when `sep` occurs.
   */
  function Split(s: string, sep: char): (parts: seq<string>)
    ensures |parts| >= 1
    decreases |s|
  {
    var i := IndexOf(s, sep);
    if i < 0 then [s] else [s[..i]] + Split(s[i + 1..], sep)
  }

  /** There is more than one piece exactly when `sep` occurs. */
  lemma SplitCount(s: string, sep: char)
    ensures sep in s <==> |Split(s, sep)| >= 2
  {
    IndexOfFound(s, sep);
  }

  /** `sep.join(parts)`. */
  function Join(parts: seq<string>, sep: char): string
    decreases |parts|
  {
    if parts == [] then ""
    else if |parts| == 1 then parts[0]
    else parts[0] + [sep] + Join(parts[1..], sep)
  }

  lemma {:induction false} SplitPiecesHaveNoSeparator(s: string, sep: char)
    ensures forall k :: 0 <= k < |Split(s, sep)| ==> sep !in Split(s, sep)[k]
    decreases |s|
  {
    var i := IndexOf(s, sep);
    IndexOfFound(s, sep);
    if i >= 0 {
      IndexOfFirst(s, sep);
      SplitPiecesHaveNoSeparator(s[i + 1..], sep);
    }
  }

  /** Joining the pieces gives the string back. */
  lemma {:induction false} JoinSplit(s: string, sep: char)
    ensures Join(Split(s, sep), sep) == s
    decreases |s|
  {
    var i := IndexOf(s, sep);
    if i >= 0 {
      JoinSplit(s[i + 1..], sep);
      JoinSplitStep(s, sep, i);
    }
  }

  /** The step of `JoinSplit`: the first piece, a separator, and the rest joined back. */
  lemma JoinSplitStep(s: string, sep: char, i: int)
    requires 0 <= i < |s| && i == IndexOf(s, sep)
    requires Join(Split(s[i + 1..], sep), sep) == s[i + 1..]
    ensures Join(Split(s, sep), sep) == s
  {
    var head, rest := s[..i], s[i + 1..];
    var tail := Split(rest, sep);
    calc {
      Join(Split(s, sep), sep);
    == { SplitAt(s, sep, i); }
      Join([head] + tail, sep);
    == { JoinCons(head, tail, sep); }
      head + [sep] + rest;
    == { Around(s, i); }
      s;
    }
  }

  /** Where `sep` first occurs, `split` cuts off the first piece. */
  lemma SplitAt(s: string, sep: char, i: int)
    requires 0 <= i < |s| && i == IndexOf(s, sep)
    ensures Split(s, sep) == [s[..i]] + Split(s[i + 1..], sep)
  {
  }

  /** Two pieces joined by a separator that neither holds split back into those two. */
  lemma SplitTwo(a: string, b: string, sep: char)
    requires sep !in a && sep !in b
    ensures Split(a + [sep] + b, sep) == [a, b]
  {
    var s := a + [sep] + b;
    assert s[..|a|] == a && s[|a| + 1..] == b;
    IndexOfIs(s, sep, |a|);
    IndexOfFound(b, sep);
  }

  /**
   * A string is what comes before index `i`, the character there, and what follows:
   * the last step of `JoinSplitStep`, where that character is the separator.
   */
  lemma Around(s: string, i: int)
    requires 0 <= i < |s|
    ensures s == s[..i] + [s[i]] + s[i + 1..]
  {
  }

  /**
   * The prefix through index `i` is the prefix before it and the character there:
   * in `Parsers.RequirementsLineStep` it turns the first line with its newline into
   * the line and the newline.
   */
  lemma PrefixThrough(s: string, i: int)
    requires 0 <= i < |s|
    ensures s[..i + 1] == s[..i] + [s[i]]
  {
  }

  /** Joining a first piece before at least one more puts a separator between them. */
  lemma JoinCons(p: string, ps: seq<string>, sep: char)
    requires |ps| >= 1
    ensures Join([p] + ps, sep) == p + [sep] + Join(ps, sep)
  {
    assert ([p] + ps)[1..] == ps;
  }

  /** Splitting separator-free pieces joined by the separator gives the pieces back. */
  lemma {:induction false} SplitJoin(parts: seq<string>, sep: char)
    requires |parts| >= 1
    requires forall k :: 0 <= k < |parts| ==> sep !in parts[k]
    ensures Split(Join(parts, sep), sep) == parts
    decreases |parts|
  {
    if |parts| > 1 {
      var tail := Join(parts[1..], sep);
      SplitJoin(parts[1..], sep);
      var s := parts[0] + [sep] + tail;
      assert IndexOf(s, sep) == |parts[0]| by {
        assert s[..|parts[0]|] == parts[0];
        assert s[|parts[0]|] == sep;
        IndexOfIs(s, sep, |parts[0]|);
      }
      assert s[..|parts[0]|] == parts[0];
      assert s[|parts[0]| + 1..] == tail;
    }
  }

  /**
   * `f.readlines()` on text `s`: the lines of `s`, each keeping its '\n', the last
   * one without it when `s` does not end in a newline; no line is empty.
   */
  function ReadLines(s: string): (lines: seq<string>)
    ensures forall k :: 0 <= k < |lines| ==> lines[k] != ""
    decreases |s|
  {
    if s == [] then []
    else
      var i := IndexOf(s, '\n');
      if i < 0 then [s] else [s[..i + 1]] + ReadLines(s[i + 1..])
  }

  function Concat(lines: seq<string>): string
    decreases |lines|
  {
    if lines == [] then "" else lines[0] + Concat(lines[1..])
  }

  /** The lines put back together give the text. */
  lemma {:induction false} ReadLinesConcat(s: string)
    ensures Concat(ReadLines(s)) == s
    decreases |s|
  {
    if s != [] {
      var i := IndexOf(s, '\n');
      if i >= 0 {
        var rest := s[i + 1..];
        ReadLinesConcat(rest);
        var lines := ReadLines(s);
        assert lines == [s[..i + 1]] + ReadLines(rest);
        assert lines[1..] == ReadLines(rest);
        assert Concat(lines) == s[..i + 1] + Concat(ReadLines(rest));
        assert s == s[..i + 1] + rest;
      }
    }
  }

  /** The lines of a text with a newline at `i` are the line through it, then the lines after it. */
  lemma {:induction false} ReadLinesAt(s: string, i: int)
    requires 0 <= i < |s| && i == IndexOf(s, '\n')
    ensures ReadLines(s) == [s[..i + 1]] + ReadLines(s[i + 1..])
  {
    assert s != [];
  }

  predicate NewlineOnlyAtEnd(line: string) {
    forall j :: 0 <= j < |line| - 1 ==> line[j] != '\n'
  }

  predicate EndsWithNewline(line: string) {
    |line| > 0 && line[|line| - 1] == '\n'
  }

  /** A newline only ever ends a line, and every line but the last ends with one. */
  lemma {:induction false} ReadLinesEndings(s: string)
    ensures forall k :: 0 <= k < |ReadLines(s)| ==> NewlineOnlyAtEnd(ReadLines(s)[k])
    ensures forall k :: 0 <= k < |ReadLines(s)| - 1 ==> EndsWithNewline(ReadLines(s)[k])
    decreases |s|
  {
    if s != [] {
      var i := IndexOf(s, '\n');
      IndexOfFound(s, '\n');
      if i >= 0 {
        var rest := s[i + 1..];
        ReadLinesEndings(rest);
        ReadLinesAt(s, i);
        FirstLineEnding(s, i);
      }
    }
  }

  /** The line through the first newline ends with it and holds no other. */
  lemma FirstLineEnding(s: string, i: int)
    requires 0 <= i < |s| && i == IndexOf(s, '\n')
    ensures NewlineOnlyAtEnd(s[..i + 1]) && EndsWithNewline(s[..i + 1])
  {
    IndexOfFirst(s, '\n');
    var line := s[..i + 1];
    forall j | 0 <= j < i ensures line[j] != '\n' {
      assert line[j] == s[..i][j];
    }
  }
}
