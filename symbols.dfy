/** The symbol list typed into the sidebar: split into lines, each line
    stripped and upper-cased, blank lines dropped (`main`, line 134). */
module Symbols {

  /** Python's `str.isspace()` characters: the ASCII whitespace and
      separator controls, NEL, NO-BREAK SPACE and the Unicode space separators. */
  predicate IsSpace(c: char) {
    || ('\U{0009}' <= c <= '\U{000D}') || ('\U{001C}' <= c <= '\U{0020}')
    || c == '\U{0085}' || c == '\U{00A0}' || c == '\U{1680}'
    || ('\U{2000}' <= c <= '\U{200A}') || c == '\U{2028}' || c == '\U{2029}'
    || c == '\U{202F}' || c == '\U{205F}' || c == '\U{3000}'
  }

  predicate IsLower(c: char) {
    'a' <= c <= 'z'
  }

  /** `text.split('\n')`: the pieces between newlines, always at least one. */
  function Split(text: string): (pieces: seq<string>)
    ensures |pieces| >= 1
    ensures forall p :: p in pieces ==> '\n' !in p
  {
    if text == [] then [[]]
    else
      var rest := Split(text[1..]);
      if text[0] == '\n' then [[]] + rest
      else [[text[0]] + rest[0]] + rest[1..]
  }

  /** `'\n'.join(pieces)`. */
  function Join(pieces: seq<string>): string
    requires |pieces| >= 1
  {
    if |pieces| == 1 then pieces[0] else pieces[0] + ['\n'] + Join(pieces[1..])
  }

  /** Joining the pieces of a split gives back the text. */
  lemma {:induction false} JoinSplit(text: string)
    ensures Join(Split(text)) == text
  {
    if text != [] {
      JoinSplit(text[1..]);
      var rest := Split(text[1..]);
      if text[0] == '\n' {
        assert Split(text)[1..] == rest;
      } else {
        var first := [text[0]] + rest[0];
        assert Split(text) == [first] + rest[1..];
        if |rest| == 1 {
          assert text == [text[0]] + text[1..];
        } else {
          assert ([first] + rest[1..])[1..] == rest[1..];
          assert text[1..] == rest[0] + ['\n'] + Join(rest[1..]);
          assert text == [text[0]] + text[1..];
        }
      }
    }
  }

  /** A piece without newlines followed by a newline splits off as one piece. */
  lemma {:induction false} SplitLine(line: string, tail: string)
    requires '\n' !in line
    ensures Split(line + ['\n'] + tail) == [line] + Split(tail)
    ensures Split(line) == [line]
  {
    if line != [] {
      SplitLine(line[1..], tail);
      assert (line + ['\n'] + tail)[1..] == line[1..] + ['\n'] + tail;
      assert line == [line[0]] + line[1..];
    }
  }

  /** Splitting newline-free pieces joined by newlines gives back the pieces. */
  lemma {:induction false} SplitJoin(pieces: seq<string>)
    requires |pieces| >= 1
    requires forall p :: p in pieces ==> '\n' !in p
    ensures Split(Join(pieces)) == pieces
  {
    if |pieces| == 1 {
      SplitLine(pieces[0], []);
    } else {
      SplitJoin(pieces[1..]);
      SplitLine(pieces[0], Join(pieces[1..]));
    }
  }

  /** The first index at or after `i` that does not hold whitespace (or the
      length of `s`): the scan `str.strip()` makes from the left. */
  function SkipSpace(s: string, i: nat): (n: nat)
    requires i <= |s|
    ensures i <= n <= |s|
    ensures forall k :: i <= k < n ==> IsSpace(s[k])
    ensures n < |s| ==> !IsSpace(s[n])
    decreases |s| - i
  {
    if i < |s| && IsSpace(s[i]) then SkipSpace(s, i + 1) else i
  }

  /** The index just after the last non-whitespace character before `j` (or
      `lo`): the scan `str.strip()` makes from the right, stopping at `lo`. */
  function SkipSpaceBack(s: string, lo: nat, j: nat): (n: nat)
    requires lo <= j <= |s|
    ensures lo <= n <= j
    ensures forall k :: n <= k < j ==> IsSpace(s[k])
    ensures n > lo ==> !IsSpace(s[n - 1])
    decreases j
  {
    if j > lo && IsSpace(s[j - 1]) then SkipSpaceBack(s, lo, j - 1) else j
  }

  /** `str.strip()`: the characters between the leading and trailing whitespace. */
  function Strip(s: string): string {
    var i := SkipSpace(s, 0);
    s[i..SkipSpaceBack(s, i, |s|)]
  }

  /** A string with no whitespace at either end. */
  predicate Trimmed(s: string) {
    s != [] ==> !IsSpace(s[0]) && !IsSpace(s[|s| - 1])
  }

  /** Strip removes exactly the whitespace at both ends: it keeps a contiguous
      piece of the input that is trimmed, and everything cut off on either
      side is whitespace. */
  lemma StripCutsOnlySpace(s: string)
    ensures var i := SkipSpace(s, 0);
      && i + |Strip(s)| <= |s|
      && Strip(s) == s[i..i + |Strip(s)|]
      && (forall k :: 0 <= k < i ==> IsSpace(s[k]))
      && (forall k :: i + |Strip(s)| <= k < |s| ==> IsSpace(s[k]))
    ensures Trimmed(Strip(s))
  {
    var i := SkipSpace(s, 0);
    var j := SkipSpaceBack(s, i, |s|);
    assert Strip(s) == s[i..j];
    if i < j {
      assert Strip(s)[0] == s[i] && Strip(s)[j - i - 1] == s[j - 1];
    }
  }

  /** Strip yields nothing exactly for an all-whitespace input. */
  lemma StripEmpty(s: string)
    ensures Strip(s) == [] <==> forall k :: 0 <= k < |s| ==> IsSpace(s[k])
  {
    var i := SkipSpace(s, 0);
    if i < |s| {
      assert SkipSpaceBack(s, i, |s|) > i;
    }
  }

  /** Every character that strip keeps occurs in the input. */
  lemma StripKeepsChars(s: string)
    ensures forall c :: c in Strip(s) ==> c in s
  {
    var i := SkipSpace(s, 0);
    var j := SkipSpaceBack(s, i, |s|);
    forall c | c in Strip(s) ensures c in s {
      var k :| 0 <= k < j - i && s[i..j][k] == c;
      assert s[i + k] == c;
    }
  }

  /** A trimmed string is its own strip. */
  lemma StripTrimmed(s: string)
    requires Trimmed(s)
    ensures Strip(s) == s
  {
    if s != [] {
      assert SkipSpace(s, 0) == 0;
      assert SkipSpaceBack(s, 0, |s|) == |s|;
    }
  }

  /** `str.upper()` on the ASCII letters. */
  function Upper(s: string): (r: string)
    ensures |r| == |s|
    ensures forall k :: 0 <= k < |r| ==> !IsLower(r[k])
    ensures forall k :: 0 <= k < |r| ==> !IsLower(s[k]) ==> r[k] == s[k]
    ensures forall k :: 0 <= k < |r| ==> IsLower(s[k]) ==> 'A' <= r[k] <= 'Z'
  {
    seq(|s|, k requires 0 <= k < |s| =>
      if IsLower(s[k]) then (s[k] as int - 'a' as int + 'A' as int) as char else s[k])
  }

  /** The ASCII alphabet in both cases, letter by letter. */
  const LowerLetters: string := "abcdefghijklmnopqrstuvwxyz"
  const UpperLetters: string := "ABCDEFGHIJKLMNOPQRSTUVWXYZ"

  /** Every lowercase letter becomes its own capital: the one at the same
      place in the alphabet. */
  lemma UpperIsOwnCapital(s: string)
    ensures forall k, j :: 0 <= k < |s| && 0 <= j < 26 && s[k] == LowerLetters[j] ==>
      Upper(s)[k] == UpperLetters[j]
    ensures forall k :: 0 <= k < |s| && IsLower(s[k]) ==> s[k] in LowerLetters
  {
    assert forall j :: 0 <= j < 26 ==>
      LowerLetters[j] as int == 'a' as int + j && UpperLetters[j] as int == 'A' as int + j;
    forall k | 0 <= k < |s| && IsLower(s[k]) ensures s[k] in LowerLetters {
      var j := s[k] as int - 'a' as int;
      assert LowerLetters[j] == s[k];
    }
  }

  /** Upper-casing leaves whitespace where it was and adds none. */
  lemma UpperKeepsNonLetters(s: string)
    ensures forall k :: 0 <= k < |s| ==> (IsSpace(Upper(s)[k]) <==> IsSpace(s[k]))
    ensures forall k :: 0 <= k < |s| ==> (Upper(s)[k] == '\n' <==> s[k] == '\n')
  {
  }

  /** One line of the comprehension: its symbol, or nothing for a blank line. */
  function NormalizeLine(line: string): seq<string> {
    var t := Strip(line);
    if t == [] then [] else [Upper(t)]
  }

  /** The entries `f` yields for each line, concatenated in line order. */
  function FlatMap(lines: seq<string>, f: string -> seq<string>): seq<string>
  {
    if lines == [] then [] else f(lines[0]) + FlatMap(lines[1..], f)
  }

  /** `[s.strip().upper() for s in lines if s.strip()]`. */
  function NormalizeLines(lines: seq<string>): seq<string>
  {
    FlatMap(lines, NormalizeLine)
  }

  /** The symbol list built from the text area; an empty text gives no symbols. */
  function ParseSymbols(text: string): seq<string>
  {
    if text == [] then [] else NormalizeLines(Split(text))
  }

  /** A well-formed entry of the symbol list. */
  predicate Clean(sym: string) {
    sym != [] && Trimmed(sym) && '\n' !in sym && forall k :: 0 <= k < |sym| ==> !IsLower(sym[k])
  }

  /** A line without newlines yields at most one entry, and that entry is clean. */
  lemma NormalizeLineClean(line: string)
    requires '\n' !in line
    ensures |NormalizeLine(line)| <= 1
    ensures forall sym :: sym in NormalizeLine(line) ==> Clean(sym)
  {
    var t := Strip(line);
    StripCutsOnlySpace(line);
    StripKeepsChars(line);
    if t != [] {
      var u := Upper(t);
      assert NormalizeLine(line) == [u];
      UpperKeepsNonLetters(t);
      assert !IsSpace(u[0]) && !IsSpace(u[|u| - 1]);
      assert '\n' !in t;
      assert '\n' !in u;
    }
  }

  /** The comprehension works line by line and keeps the order of the lines:
      normalising a concatenation concatenates the normalised parts. */
  lemma NormalizeLinesAppend(lines: seq<string>, more: seq<string>)
    ensures NormalizeLines(lines + more) == NormalizeLines(lines) + NormalizeLines(more)
  {
    FlatMapAppend(lines, more, NormalizeLine);
  }

  lemma {:induction false} FlatMapAppend(lines: seq<string>, more: seq<string>, f: string -> seq<string>)
    ensures FlatMap(lines + more, f) == FlatMap(lines, f) + FlatMap(more, f)
  {
    if lines != [] {
      FlatMapAppend(lines[1..], more, f);
      assert (lines + more)[0] == lines[0];
      assert (lines + more)[1..] == lines[1..] + more;
    } else {
      assert lines + more == more;
    }
  }

  /** The comprehension never yields more entries than lines, and each entry is clean. */
  lemma {:induction false} NormalizeLinesClean(lines: seq<string>)
    requires forall l :: l in lines ==> '\n' !in l
    ensures |NormalizeLines(lines)| <= |lines|
    ensures forall sym :: sym in NormalizeLines(lines) ==> Clean(sym)
  {
    if lines != [] {
      NormalizeLinesClean(lines[1..]);
      NormalizeLineClean(lines[0]);
    }
  }

  /** A clean entry is left as it is by strip and upper. */
  lemma NormalizeClean(sym: string)
    requires Clean(sym)
    ensures NormalizeLine(sym) == [sym]
  {
    StripTrimmed(sym);
    assert Upper(sym) == sym;
  }

  /** Every entry of the parsed list is clean, and there are never more
      entries than lines of text. */
  lemma ParseSymbolsClean(text: string)
    ensures forall sym :: sym in ParseSymbols(text) ==> Clean(sym)
    ensures |ParseSymbols(text)| <= |Split(text)|
  {
    NormalizeLinesClean(Split(text));
  }

  /** Any non-empty list of clean symbols, written one per line, parses back
      to itself: the comprehension neither drops nor merges entries. */
  lemma ParseCleanList(syms: seq<string>)
    requires syms != []
    requires forall sym :: sym in syms ==> Clean(sym)
    ensures ParseSymbols(Join(syms)) == syms
  {
    SplitJoin(syms);
    CleanLinesFixed(syms);
    assert Join(syms) != [] by {
      assert syms[0] in syms && Clean(syms[0]);
      assert |Join(syms)| >= |syms[0]|;
    }
  }

  /** A symbol typed on two lines is kept twice, not merged. */
  lemma ParseKeepsRepeats(sym: string)
    requires Clean(sym)
    ensures ParseSymbols(sym + "\n" + sym) == [sym, sym]
  {
    assert Join([sym, sym]) == sym + "\n" + sym;
    ParseCleanList([sym, sym]);
  }

  /** Parsing is idempotent: writing the parsed list back one symbol per line
      and parsing again gives the same list. */
  lemma ParseSymbolsIdempotent(text: string)
    ensures var syms := ParseSymbols(text);
      syms != [] ==> ParseSymbols(Join(syms)) == syms
  {
    var syms := ParseSymbols(text);
    ParseSymbolsClean(text);
    if syms != [] {
      ParseCleanList(syms);
    }
  }

  /** Normalising a list of clean entries returns it unchanged. */
  lemma {:induction false} CleanLinesFixed(syms: seq<string>)
    requires forall sym :: sym in syms ==> Clean(sym)
    ensures NormalizeLines(syms) == syms
  {
    if syms != [] {
      CleanLinesFixed(syms[1..]);
      NormalizeClean(syms[0]);
    }
  }
}
