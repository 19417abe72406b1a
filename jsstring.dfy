/**
 * The JavaScript string built-ins the playground relies on, modelled as
 * specified functions over `seq<char>`: `String.prototype.trim`,
 * `split` with a one-character separator, `Array.prototype.join`,
 * `replace` with a string pattern (first occurrence only), `repeat`, and
 * the global whole-word regular-expression replacement `/\bword\b/g`.
 */
module JsString {
  import opened Wrappers

  // ---------------------------------------------------------------------
  // Whitespace, as String.prototype.trim sees it (ECMA-262 WhiteSpace and
  // LineTerminator code points).
  // ---------------------------------------------------------------------

  /** A line terminator: the characters a regular-expression `.` refuses. */
  predicate IsLineTerminator(c: char) {
    c == '\n' || c == '\r' || c == '\U{2028}' || c == '\U{2029}'
  }

  /** A character that `trim` strips: tab, vertical tab, form feed, the space
      separators (category Zs), the byte-order mark and the line terminators. */
  predicate IsJsSpace(c: char) {
    || c == '\t' || c == '\U{000B}' || c == '\U{000C}' || c == ' '
    || c == '\U{00A0}' || c == '\U{FEFF}' || c == '\U{1680}'
    || ('\U{2000}' <= c <= '\U{200A}')
    || c == '\U{202F}' || c == '\U{205F}' || c == '\U{3000}'
    || IsLineTerminator(c)
  }

  /** Number of whitespace characters at the front of `s`. */
  function LeadingSpaces(s: string): (n: nat)
    ensures n <= |s|
    ensures forall i :: 0 <= i < n ==> IsJsSpace(s[i])
    ensures n < |s| ==> !IsJsSpace(s[n])
  {
    if s == [] || !IsJsSpace(s[0]) then 0
    else
      var n := LeadingSpaces(s[1..]);
      assert forall i :: 1 <= i < n + 1 ==> s[i] == s[1..][i - 1];
      1 + n
  }

  /** Number of whitespace characters at the end of `s`. */
  function TrailingSpaces(s: string): (n: nat)
    ensures n <= |s|
    ensures forall i :: |s| - n <= i < |s| ==> IsJsSpace(s[i])
    ensures n < |s| ==> !IsJsSpace(s[|s| - 1 - n])
  {
    if s == [] || !IsJsSpace(s[|s| - 1]) then 0
    else 1 + TrailingSpaces(s[..|s| - 1])
  }

  /** `r` is the slice of `s` starting at `lo`, and everything of `s` outside
      that slice is whitespace. */
  ghost predicate TrimmedAt(s: string, r: string, lo: nat) {
    && lo + |r| <= |s|
    && r == s[lo..lo + |r|]
    && (forall i :: 0 <= i < lo ==> IsJsSpace(s[i]))
    && (forall i :: lo + |r| <= i < |s| ==> IsJsSpace(s[i]))
  }

  /** `s.trim()`: the text between the leading and the trailing whitespace. */
  function Trim(s: string): string {
    var a := s[LeadingSpaces(s)..];
    a[..|a| - TrailingSpaces(a)]
  }

  /** The trimmed text is a slice of the original with only whitespace
      around it, and it neither starts nor ends with whitespace. */
  lemma TrimSpec(s: string)
    ensures TrimmedAt(s, Trim(s), LeadingSpaces(s))
    ensures Trim(s) == [] || (!IsJsSpace(Trim(s)[0]) && !IsJsSpace(Trim(s)[|Trim(s)| - 1]))
  {
  }

  /** Text that neither starts nor ends with whitespace is its own trim. */
  lemma TrimUnpadded(s: string)
    requires s != [] && !IsJsSpace(s[0]) && !IsJsSpace(s[|s| - 1])
    ensures Trim(s) == s
  {
    assert LeadingSpaces(s) == 0;
    assert s[0..] == s;
  }

  /** Whitespace before and after unpadded text is trimmed away, leaving
      exactly that text. */
  lemma TrimIndented(pad: string, s: string, tail: string)
    requires forall i :: 0 <= i < |pad| ==> IsJsSpace(pad[i])
    requires forall i :: 0 <= i < |tail| ==> IsJsSpace(tail[i])
    requires s != [] && !IsJsSpace(s[0]) && !IsJsSpace(s[|s| - 1])
    ensures Trim(pad + s + tail) == s
  {
    var x := pad + s + tail;
    assert forall i :: 0 <= i < |pad| ==> x[i] == pad[i];
    assert x[|pad|] == s[0] && x[|pad| + |s| - 1] == s[|s| - 1];
    assert forall i :: |pad| + |s| <= i < |x| ==> x[i] == tail[i - |pad| - |s|];
    TrimSpec(x);
    assert LeadingSpaces(x) == |pad|;
    var t := Trim(x);
    assert |t| == |s|;
    assert x[|pad|..|pad| + |s|] == s;
  }

  /** Text trims to the empty string exactly when it is all whitespace. */
  lemma TrimEmptyIff(s: string)
    ensures Trim(s) == [] <==> forall i :: 0 <= i < |s| ==> IsJsSpace(s[i])
  {
    TrimSpec(s);
    if Trim(s) != [] {
      assert s[LeadingSpaces(s)] == Trim(s)[0];
    }
  }

  // ---------------------------------------------------------------------
  // split / join
  // ---------------------------------------------------------------------

  /** `parts.join(sep)`. */
  function Join(parts: seq<string>, sep: string): string {
    if |parts| == 0 then ""
    else if |parts| == 1 then parts[0]
    else parts[0] + sep + Join(parts[1..], sep)
  }

  /** `s.split(sep)` for a one-character separator: the maximal runs between
      separators, always at least one (the empty string splits to `[""]`). */
  function Split(s: string, sep: char): (r: seq<string>)
    ensures |r| >= 1
    ensures forall i :: 0 <= i < |r| ==> sep !in r[i]
    ensures |r| - 1 == CountChar(s, sep)
  {
    if |s| == 0 then [""]
    else
      var rest := Split(s[1..], sep);
      if s[0] == sep then [""] + rest
      else [[s[0]] + rest[0]] + rest[1..]
  }

  /** Number of occurrences of `c` in `s`. */
  function CountChar(s: string, c: char): nat {
    if |s| == 0 then 0 else (if s[0] == c then 1 else 0) + CountChar(s[1..], c)
  }

  /** Joining the pieces with the separator gives back the text. */
  lemma {:induction false} JoinSplit(s: string, sep: char)
    ensures Join(Split(s, sep), [sep]) == s
  {
    if |s| > 0 {
      var rest := Split(s[1..], sep);
      JoinSplit(s[1..], sep);
      if s[0] == sep {
        assert Split(s, sep) == [""] + rest;
        assert Join([""] + rest, [sep]) == "" + [sep] + Join(rest, [sep]) by {
          assert ([""] + rest)[1..] == rest;
        }
      } else {
        var r := Split(s, sep);
        assert r == [[s[0]] + rest[0]] + rest[1..];
        if |rest| == 1 {
          assert Join(r, [sep]) == [s[0]] + rest[0];
        } else {
          assert r[1..] == rest[1..];
          assert Join(r, [sep]) == [s[0]] + rest[0] + [sep] + Join(rest[1..], [sep]);
        }
      }
    }
  }

  /** A leading piece free of the separator splits off as the first piece. */
  lemma {:induction false} SplitCons(a: string, sep: char, rest: string)
    requires sep !in a
    ensures Split(a + [sep] + rest, sep) == [a] + Split(rest, sep)
  {
    if |a| == 0 {
      assert a + [sep] + rest == [sep] + rest;
      assert ([sep] + rest)[1..] == rest;
    } else {
      SplitCons(a[1..], sep, rest);
      assert (a + [sep] + rest)[1..] == a[1..] + [sep] + rest;
      assert [a[0]] + a[1..] == a;
    }
  }

  /** Text without the separator is a single piece. */
  lemma {:induction false} SplitNone(a: string, sep: char)
    requires sep !in a
    ensures Split(a, sep) == [a]
  {
    if |a| > 0 {
      SplitNone(a[1..], sep);
      assert [a[0]] + a[1..] == a;
    }
  }

  /** Splitting undoes joining, whenever no piece holds the separator. */
  lemma {:induction false} SplitJoin(parts: seq<string>, sep: char)
    requires |parts| >= 1
    requires forall i :: 0 <= i < |parts| ==> sep !in parts[i]
    ensures Split(Join(parts, [sep]), sep) == parts
  {
    if |parts| == 1 {
      SplitNone(parts[0], sep);
    } else {
      SplitJoin(parts[1..], sep);
      SplitCons(parts[0], sep, Join(parts[1..], [sep]));
    }
  }

  // ---------------------------------------------------------------------
  // replace (string pattern) and repeat
  // ---------------------------------------------------------------------

  /** `s.indexOf(pat)`: the least index at which `pat` occurs, if any. */
  function IndexOf(s: string, pat: string): (r: Option<nat>)
    ensures r.Some? ==> r.value + |pat| <= |s| && pat <= s[r.value..]
    ensures r.Some? ==> forall j :: 0 <= j < r.value ==> !(pat <= s[j..])
    ensures r.None? ==> forall j :: 0 <= j <= |s| ==> !(pat <= s[j..])
  {
    if pat <= s then Some(0)
    else if |s| == 0 then None
    else
      var r := IndexOf(s[1..], pat);
      assert forall j :: 1 <= j <= |s| ==> s[j..] == s[1..][j - 1..];
      match r
      case None => None
      case Some(k) => Some(k + 1)
  }

  /** `s.replace(pat, rep)` with a string pattern: only the first occurrence
      is replaced, and text without an occurrence is returned unchanged. */
  function ReplaceFirst(s: string, pat: string, rep: string): (r: string)
    ensures pat <= s ==> r == rep + s[|pat|..]
    ensures IndexOf(s, pat).None? ==> r == s
  {
    match IndexOf(s, pat)
    case None => s
    case Some(k) => s[..k] + rep + s[k + |pat|..]
  }

  /** `s.repeat(n)`. */
  function Repeat(s: string, n: nat): (r: string)
    ensures |r| == n * |s|
    ensures forall c :: c in r ==> c in s
  {
    if n == 0 then "" else s + Repeat(s, n - 1)
  }

  // ---------------------------------------------------------------------
  // s.replace(/\bword\b/g, rep)
  // ---------------------------------------------------------------------

  /** A character of `\w`, which decides where `\b` holds. */
  predicate IsWordChar(c: char) {
    ('a' <= c <= 'z') || ('A' <= c <= 'Z') || ('0' <= c <= '9') || c == '_'
  }

  /** Text made of word characters only: a token between two `\b`s. */
  predicate IsWordText(w: string) {
    forall i :: 0 <= i < |w| ==> IsWordChar(w[i])
  }

  /** A pattern `word` for which `\bword\b` is modelled below: it starts and
      ends with a word character, so `\b` before it needs a non-word
      character (or the start) in front, and `\b` after it a non-word
      character (or the end) behind. */
  predicate IsWordPattern(word: string) {
    |word| > 0 && IsWordChar(word[0]) && IsWordChar(word[|word| - 1])
  }

  /** `word` occurs at the front of `s` as a whole word: the character after
      it, if any, is not a word character (the one before is the caller's). */
  predicate WordAtFront(s: string, word: string) {
    word <= s && (|s| == |word| || !IsWordChar(s[|word|]))
  }

  /** `word` occurs in `s` at `j` with `\b` on both sides, where `afterWord`
      tells whether the text before `s` ends with a word character. */
  ghost predicate WholeWordAt(s: string, j: int, word: string, afterWord: bool)
    requires 0 <= j <= |s|
  {
    WordAtFront(s[j..], word) && (if j == 0 then !afterWord else !IsWordChar(s[j - 1]))
  }

  /**
   * The global replacement of `\bword\b` by `rep`, scanning left to right;
   * `afterWord` tells whether the character before `s` was a word character
   * (so that `\b` cannot hold at the front). After a replacement the scan
   * resumes behind the match, whose last character is a word character.
   */
  function ReplaceWordFrom(s: string, word: string, rep: string, afterWord: bool): string
    requires IsWordPattern(word)
  {
    if |s| == 0 then ""
    else if !afterWord && WordAtFront(s, word) then
      rep + ReplaceWordFrom(s[|word|..], word, rep, IsWordChar(word[|word| - 1]))
    else [s[0]] + ReplaceWordFrom(s[1..], word, rep, IsWordChar(s[0]))
  }

  /** `s.replace(/\bword\b/g, rep)`. */
  function ReplaceWord(s: string, word: string, rep: string): string
    requires IsWordPattern(word)
  {
    ReplaceWordFrom(s, word, rep, false)
  }

  /** Text in which `word` does not occur at all is left unchanged. */
  lemma {:induction false} ReplaceWordAbsent(s: string, word: string, rep: string, afterWord: bool)
    requires IsWordPattern(word)
    requires IndexOf(s, word).None?
    ensures ReplaceWordFrom(s, word, rep, afterWord) == s
  {
    if |s| > 0 {
      assert s[0..] == s;
      assert IndexOf(s[1..], word).None? by {
        forall j | 0 <= j <= |s| - 1 ensures !(word <= s[1..][j..]) {
          assert s[1..][j..] == s[j + 1..];
        }
      }
      ReplaceWordAbsent(s[1..], word, rep, IsWordChar(s[0]));
      assert [s[0]] + s[1..] == s;
    }
  }

  /** Text in which no whole-word occurrence of `word` starts is copied as it
      is, and the scan goes on after it in the state its last character
      leaves. */
  lemma {:induction false} ReplaceWordSkip(x: string, y: string, word: string, rep: string, afterWord: bool)
    requires IsWordPattern(word)
    requires forall j :: 0 <= j < |x| ==> !WholeWordAt(x + y, j, word, afterWord)
    ensures ReplaceWordFrom(x + y, word, rep, afterWord)
         == x + ReplaceWordFrom(y, word, rep, if x == [] then afterWord else IsWordChar(x[|x| - 1]))
  {
    if x == [] {
      assert x + y == y;
    } else {
      var s := x + y;
      assert s[0..] == s;
      assert !WholeWordAt(s, 0, word, afterWord);
      assert s[1..] == x[1..] + y;
      forall j | 0 <= j < |x| - 1 ensures !WholeWordAt(x[1..] + y, j, word, IsWordChar(x[0])) {
        assert (x[1..] + y)[j..] == s[j + 1..];
        assert !WholeWordAt(s, j + 1, word, afterWord);
        if j > 0 {
          assert (x[1..] + y)[j - 1] == s[j];
        }
      }
      ReplaceWordSkip(x[1..], y, word, rep, IsWordChar(x[0]));
      assert [x[0]] + x[1..] == x;
    }
  }

  /** A whole word at the front of the scan, after a non-word character or at
      the start, with no later occurrence, is replaced and the rest is kept;
      `a` is text already produced before the scan and stays as it is. */
  lemma ReplaceWordFront(a: string, word: string, b: string, rep: string)
    requires IsWordPattern(word)
    requires IndexOf(b, word).None?
    requires b == [] || !IsWordChar(b[0])
    ensures a + ReplaceWordFrom(word + b, word, rep, false) == a + rep + b
  {
    var wb := word + b;
    assert word <= wb && wb[|word|..] == b;
    assert WordAtFront(wb, word);
    ReplaceWordAbsent(b, word, rep, IsWordChar(word[|word| - 1]));
    assert a + (rep + b) == a + rep + b;
  }

  /** An occurrence that touches a word character, in front of it (the scan
      state `afterWord`) or right after it, is not a whole word and is kept. */
  lemma ReplaceWordKept(word: string, b: string, rep: string, afterWord: bool)
    requires IsWordPattern(word) && IsWordText(word)
    requires afterWord || (b != [] && IsWordChar(b[0]))
    ensures ReplaceWordFrom(word + b, word, rep, afterWord) == word + ReplaceWordFrom(b, word, rep, true)
  {
    var s := word + b;
    forall j | 0 <= j < |word| ensures !WholeWordAt(s, j, word, afterWord) {
      if j == 0 {
        assert s[0..] == s;
      } else {
        assert s[j - 1] == word[j - 1];
      }
    }
    ReplaceWordSkip(word, b, word, rep, afterWord);
  }

  /** Inside a token, behind a word character, `\b` never holds, so the rest
      of the token is copied. */
  lemma {:induction false} ReplaceWordInside(w: string, word: string, rep: string)
    requires IsWordPattern(word) && IsWordText(w)
    ensures ReplaceWordFrom(w, word, rep, true) == w
  {
    if w != [] {
      ReplaceWordInside(w[1..], word, rep);
      assert [w[0]] + w[1..] == w;
    }
  }

  /** A token of word characters, standing alone, is replaced exactly when it
      is the word itself. */
  lemma ReplaceWordToken(w: string, word: string, rep: string)
    requires IsWordPattern(word) && IsWordText(word) && IsWordText(w)
    ensures ReplaceWord(w, word, rep) == if w == word then rep else w
  {
    if w == word {
      assert WordAtFront(w, word) && w[|word|..] == [];
      assert ReplaceWordFrom([], word, rep, true) == [];
      assert ReplaceWord(w, word, rep) == rep + ReplaceWordFrom(w[|word|..], word, rep, true);
    } else if w != [] {
      assert !WordAtFront(w, word);
      ReplaceWordInside(w[1..], word, rep);
      assert [w[0]] + w[1..] == w;
    }
  }

  /** A word of word characters stands whole at the front of `x + [c] + y`,
      with `c` a non-word character, exactly when it does at the front of
      `x` alone: it cannot reach over `c`. */
  lemma WordAtFrontBefore(x: string, c: char, y: string, word: string)
    requires x != [] && IsWordText(word) && !IsWordChar(c)
    ensures WordAtFront(x + [c] + y, word) <==> WordAtFront(x, word)
  {
    var s := x + [c] + y;
    assert s[|x|] == c;
    if word <= s {
      assert forall i :: 0 <= i < |word| ==> s[i] == word[i];
      assert |word| <= |x|;
      assert x[..|word|] == word;
      if |word| < |x| { assert s[|word|] == x[|word|]; }
    }
    if word <= x {
      assert s[..|word|] == x[..|word|];
      if |word| < |x| { assert s[|word|] == x[|word|]; }
    }
  }

  /** A non-word character `c` separates the scan: what comes before it and
      what comes after it are replaced independently, the part after `c`
      starting as at the beginning of a line. */
  lemma {:induction false} ReplaceWordSplit(x: string, c: char, y: string, word: string, rep: string, afterWord: bool)
    requires IsWordPattern(word) && IsWordText(word) && !IsWordChar(c)
    ensures ReplaceWordFrom(x + [c] + y, word, rep, afterWord)
         == ReplaceWordFrom(x, word, rep, afterWord) + ([c] + ReplaceWordFrom(y, word, rep, false))
    decreases |x|
  {
    var s := x + [c] + y;
    var t := [c] + ReplaceWordFrom(y, word, rep, false);
    if x == [] {
      assert s == [c] + y && s[0] == c && s[1..] == y;
      assert !(word <= s);
    } else {
      WordAtFrontBefore(x, c, y, word);
      if !afterWord && WordAtFront(x, word) {
        var f := IsWordChar(word[|word| - 1]);
        var x' := x[|word|..];
        assert s[|word|..] == x' + [c] + y;
        ReplaceWordSplit(x', c, y, word, rep, f);
        var a := ReplaceWordFrom(x', word, rep, f);
        assert ReplaceWordFrom(s, word, rep, afterWord) == rep + (a + t);
        assert rep + (a + t) == (rep + a) + t;
      } else {
        var f := IsWordChar(x[0]);
        var x' := x[1..];
        assert s[1..] == x' + [c] + y && s[0] == x[0];
        ReplaceWordSplit(x', c, y, word, rep, f);
        var a := ReplaceWordFrom(x', word, rep, f);
        assert ReplaceWordFrom(s, word, rep, afterWord) == [x[0]] + (a + t);
        assert [x[0]] + (a + t) == ([x[0]] + a) + t;
      }
    }
  }

  /** The first occurrence of `word`, standing as a whole word, is replaced,
      and the text around it is kept. */
  lemma ReplaceWordOnce(a: string, word: string, b: string, rep: string)
    requires IsWordPattern(word)
    requires IndexOf(a + (word + b), word) == Some(|a|)
    requires IndexOf(b, word).None?
    requires a == [] || !IsWordChar(a[|a| - 1])
    requires b == [] || !IsWordChar(b[0])
    ensures ReplaceWord(a + (word + b), word, rep) == a + rep + b
  {
    ReplaceWordAround(a, word + b, word, rep);
    ReplaceWordFront(a, word, b, rep);
  }

  /** The scan copies `a`, in which no occurrence starts, and goes on with
      `rest` as at the start of a line, `a` ending in a non-word character. */
  lemma ReplaceWordAround(a: string, rest: string, word: string, rep: string)
    requires IsWordPattern(word)
    requires IndexOf(a + rest, word) == Some(|a|)
    requires a == [] || !IsWordChar(a[|a| - 1])
    ensures ReplaceWord(a + rest, word, rep) == a + ReplaceWordFrom(rest, word, rep, false)
  {
    ReplaceWordSkip(a, rest, word, rep, false);
  }
}
