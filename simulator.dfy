/**
 * The output simulator of the playground's run action (`executeCode`).
 *
 * Nothing is evaluated: every `spill`, `skibidi spill` and `rizzmode spill`
 * line contributes the first quoted literal it holds, found with the regular
 * expression `/["'](.*?)["']/`, escaped and wrapped as a plain, glowing or
 * bold output record; other lines, and print lines without a quoted literal,
 * contribute nothing. A run that finds no record shows one sentinel record,
 * and whitespace-only input shows a placeholder without running at all.
 */
module Simulator {
  import opened Wrappers
  import opened JsString
  import opened Html
  import opened Transpiler

  // ---------------------------------------------------------------------
  // The quote regular expression /["'](.*?)["']/
  // ---------------------------------------------------------------------

  predicate IsQuote(c: char) {
    c == '"' || c == '\''
  }

  /** Between `a` and `b` there is no quote and nothing `.` refuses. */
  ghost predicate Clean(s: string, a: int, b: int)
    requires 0 <= a && b <= |s|
  {
    forall k :: a <= k < b ==> !IsQuote(s[k]) && !IsLineTerminator(s[k])
  }

  /** The regular expression matches with its opening quote at `i` and its
      closing quote at `j`: the lazy `.*?` stops at the first quote after `i`,
      and `.` cannot cross a line terminator. */
  ghost predicate QuotePair(s: string, i: int, j: int) {
    0 <= i < j < |s| && IsQuote(s[i]) && IsQuote(s[j]) && Clean(s, i + 1, j)
  }

  /** An opening quote has at most one closing quote. */
  lemma QuotePairUnique(s: string, i: int, j: int, j': int)
    requires QuotePair(s, i, j) && QuotePair(s, i, j')
    ensures j == j'
  {
  }

  /** The lazy scan for the closing quote, starting at `j`. */
  function CloseQuote(s: string, j: nat): Option<nat>
    requires j <= |s|
    decreases |s| - j
  {
    if j == |s| then None
    else if IsQuote(s[j]) then Some(j)
    else if IsLineTerminator(s[j]) then None
    else CloseQuote(s, j + 1)
  }

  /** The scan finds the first quote with nothing `.` refuses before it, and
      fails exactly when there is none. */
  lemma {:induction false} CloseQuoteSpec(s: string, j: nat)
    requires j <= |s|
    ensures var r := CloseQuote(s, j);
      && (r.Some? ==> j <= r.value < |s| && IsQuote(s[r.value]) && Clean(s, j, r.value))
      && (r.None? ==> forall k :: j <= k < |s| && IsQuote(s[k]) ==> !Clean(s, j, k))
    decreases |s| - j
  {
    if j < |s| && !IsQuote(s[j]) && !IsLineTerminator(s[j]) {
      CloseQuoteSpec(s, j + 1);
    }
  }

  /** The leftmost match at or after `i`: the regular-expression search tries
      each start position in turn. */
  function FindQuotePair(s: string, i: nat): Option<(nat, nat)>
    requires i <= |s|
    decreases |s| - i
  {
    if i == |s| then None
    else if IsQuote(s[i]) && CloseQuote(s, i + 1).Some? then Some((i, CloseQuote(s, i + 1).value))
    else FindQuotePair(s, i + 1)
  }

  /** The search yields the match with the leftmost opening quote at or after
      `i`, and fails exactly when there is none. */
  lemma {:induction false} FindQuotePairSpec(s: string, i: nat)
    requires i <= |s|
    ensures var r := FindQuotePair(s, i);
      && (r.Some? ==> i <= r.value.0 && QuotePair(s, r.value.0, r.value.1))
      && (r.Some? ==> forall a, b :: i <= a < r.value.0 ==> !QuotePair(s, a, b))
      && (r.None? ==> forall a, b :: i <= a ==> !QuotePair(s, a, b))
    decreases |s| - i
  {
    if i < |s| {
      CloseQuoteSpec(s, i + 1);
      FindQuotePairSpec(s, i + 1);
    }
  }

  /** `s.match(/["'](.*?)["']/)?.[1]`: the text between the opening quote of
      the leftmost match and its closing quote. A quote of either kind closes
      a literal opened by either kind. */
  function FirstQuoted(s: string): (r: Option<string>)
    ensures r.None? <==> forall a, b :: !QuotePair(s, a, b)
    ensures r.Some? ==> forall k :: 0 <= k < |r.value| ==> !IsQuote(r.value[k]) && !IsLineTerminator(r.value[k])
  {
    FindQuotePairSpec(s, 0);
    match FindQuotePair(s, 0)
    case None => None
    case Some((a, b)) =>
      assert QuotePair(s, a, b);
      var v := s[a + 1..b];
      assert forall k :: 0 <= k < |v| ==> v[k] == s[a + 1 + k];
      Some(v)
  }

  /** A literal between two quotes, after text without quotes, is what the
      regular expression extracts, whatever follows the closing quote. */
  lemma {:induction false} QuotedLiteral(before: string, q1: char, lit: string, q2: char, after: string)
    requires forall k :: 0 <= k < |before| ==> !IsQuote(before[k])
    requires IsQuote(q1) && IsQuote(q2)
    requires forall k :: 0 <= k < |lit| ==> !IsQuote(lit[k]) && !IsLineTerminator(lit[k])
    ensures FirstQuoted(before + [q1] + lit + [q2] + after) == Some(lit)
  {
    var s := before + [q1] + lit + [q2] + after;
    var a, b := |before|, |before| + 1 + |lit|;
    assert s[a] == q1 && s[b] == q2;
    assert forall k :: a + 1 <= k < b ==> s[k] == lit[k - a - 1];
    assert QuotePair(s, a, b);
    assert forall k :: 0 <= k < a ==> !IsQuote(s[k]) by {
      assert forall k :: 0 <= k < a ==> s[k] == before[k];
    }
    var p := FindQuotePair(s, 0);
    FindQuotePairSpec(s, 0);
    assert p.Some? && p.value.0 == a;
    QuotePairUnique(s, a, b, p.value.1);
    assert s[a + 1..b] == lit;
  }

  /** Text without any quote yields no literal. */
  lemma NoQuoteNoLiteral(s: string)
    requires forall k :: 0 <= k < |s| ==> !IsQuote(s[k])
    ensures FirstQuoted(s) == None
  {
    forall a, b ensures !QuotePair(s, a, b) {
      if 0 <= a < |s| { assert !IsQuote(s[a]); }
    }
  }

  /** The lazy scan for a closing quote behind a prefix `p` finds the same
      quote as in the text without it, `|p|` positions further on. */
  lemma CloseQuoteShift(p: string, e: string, j: nat)
    requires j <= |e|
    ensures CloseQuote(p + e, |p| + j) == if CloseQuote(e, j).None? then None else Some(|p| + CloseQuote(e, j).value)
    decreases |e| - j
  {
    if j < |e| {
      assert (p + e)[|p| + j] == e[j];
      CloseQuoteShift(p, e, j + 1);
    }
  }

  /** Searching behind a prefix `p` finds the same match as in the text
      without it, `|p|` positions further on. */
  lemma FindQuotePairShift(p: string, e: string, i: nat)
    requires i <= |e|
    ensures var r := FindQuotePair(e, i);
      FindQuotePair(p + e, |p| + i) == if r.None? then None else Some((|p| + r.value.0, |p| + r.value.1))
    decreases |e| - i
  {
    var s := p + e;
    if i == |e| {
      assert |p| + i == |s|;
    } else {
      assert s[|p| + i] == e[i];
      CloseQuoteShift(p, e, i + 1);
      if IsQuote(e[i]) && CloseQuote(e, i + 1).Some? {
        assert FindQuotePair(s, |p| + i) == Some((|p| + i, |p| + CloseQuote(e, i + 1).value));
      } else {
        FindQuotePairShift(p, e, i + 1);
        assert FindQuotePair(s, |p| + i) == FindQuotePair(s, |p| + i + 1);
      }
    }
  }

  /** No match starts inside quote-free text, so the search goes on behind it. */
  lemma FindQuotePairQuoteFree(p: string, e: string, i: nat)
    requires i <= |p|
    requires forall k :: 0 <= k < |p| ==> !IsQuote(p[k])
    ensures FindQuotePair(p + e, i) == FindQuotePair(p + e, |p|)
    decreases |p| - i
  {
    if i < |p| {
      assert (p + e)[i] == p[i];
      FindQuotePairQuoteFree(p, e, i + 1);
    }
  }

  /** Quote-free text in front does not change the literal extracted. */
  lemma QuoteFreePrefix(p: string, e: string)
    requires forall k :: 0 <= k < |p| ==> !IsQuote(p[k])
    ensures FirstQuoted(p + e) == FirstQuoted(e)
  {
    FindQuotePairQuoteFree(p, e, 0);
    FindQuotePairShift(p, e, 0);
    var r := FindQuotePair(e, 0);
    FindQuotePairSpec(e, 0);
    if r.Some? {
      var (a, b) := r.value;
      assert QuotePair(e, a, b);
      assert (p + e)[|p| + a + 1..|p| + b] == e[a + 1..b];
    }
  }

  /** No print keyword holds a quote, so searching the whole trimmed print
      line finds the literal of the text after its keyword. */
  lemma KeywordQuoted(c: Category, arg: string)
    requires c == PlainPrint || c == GlowPrint || c == BoldPrint
    ensures FirstQuoted(Keyword(c) + arg) == FirstQuoted(arg)
  {
    var kw := Keyword(c);
    assert forall k :: 0 <= k < |kw| ==> !IsQuote(kw[k]);
    QuoteFreePrefix(kw, arg);
  }

  // ---------------------------------------------------------------------
  // Output records
  // ---------------------------------------------------------------------

  datatype Style = Plain | Glow | Bold

  /** One output line: a printed literal (its payload already escaped), or
      the sentinel for a run that printed nothing. */
  datatype OutputRecord = Printed(style: Style, text: string) | NothingPrinted

  /** The outcome of the run action: the placeholder for empty input, or the
      records of a run. */
  datatype RunResult = NoCode | Ran(records: seq<OutputRecord>)

  /** The print statement a trimmed line starts with, tested in the
      simulator's own order. */
  function PrintStyle(t: string): Option<Style> {
    if "spill " <= t then Some(Plain)
    else if "skibidi spill " <= t then Some(Glow)
    else if "rizzmode spill " <= t then Some(Bold)
    else None
  }

  /** The simulator and the transpiler agree on which lines are print
      statements, and of which kind. */
  lemma PrintStyleAgrees(t: string)
    ensures PrintStyle(t) == Some(Plain) <==> Classify(t) == PlainPrint
    ensures PrintStyle(t) == Some(Glow) <==> Classify(t) == GlowPrint
    ensures PrintStyle(t) == Some(Bold) <==> Classify(t) == BoldPrint
  {
    LeadingChars(t);
    ClassifySpec(t);
  }

  /** The records one source line contributes: one for a print line that
      holds a quoted literal, in the style of its print statement, and none
      otherwise. */
  function LineRecords(line: string): (r: seq<OutputRecord>)
    ensures |r| <= 1
    ensures r != [] <==> PrintStyle(Trim(line)).Some? && FirstQuoted(Trim(line)).Some?
    ensures r != [] ==> r[0].Printed? && r[0].style == PrintStyle(Trim(line)).value
  {
    var t := Trim(line);
    match PrintStyle(t)
    case None => []
    case Some(style) =>
      match FirstQuoted(t)
      case None => []
      case Some(lit) => [Printed(style, Escape(lit))]
  }

  /** The payload of a line's record reads back as the quoted literal, and it
      holds no raw `<` or `>` that could open a tag in the output panel. */
  lemma LinePayload(line: string)
    requires LineRecords(line) != []
    ensures Unescape(LineRecords(line)[0].text) == FirstQuoted(Trim(line)).value
    ensures forall k :: 0 <= k < |LineRecords(line)[0].text| ==>
      LineRecords(line)[0].text[k] != '<' && LineRecords(line)[0].text[k] != '>'
  {
    UnescapeEscape(FirstQuoted(Trim(line)).value);
  }

  /** Only the lines the transpiler classifies as print statements produce
      records. */
  lemma RecordsOnlyFromPrints(line: string)
    requires LineRecords(line) != []
    ensures Classify(Trim(line)) in {PlainPrint, GlowPrint, BoldPrint}
  {
    PrintStyleAgrees(Trim(line));
  }

  /** The records of a sequence of lines, in line order. */
  function Records(lines: seq<string>): (r: seq<OutputRecord>)
    ensures |r| <= |lines|
    ensures forall k :: 0 <= k < |r| ==> r[k].Printed?
  {
    if lines == [] then [] else LineRecords(lines[0]) + Records(lines[1..])
  }

  /** Records follow the source order: those of `a + b` are those of `a`
      followed by those of `b`. */
  lemma {:induction false} RecordsAppend(a: seq<string>, b: seq<string>)
    ensures Records(a + b) == Records(a) + Records(b)
  {
    if a == [] {
      assert a + b == b;
    } else {
      assert (a + b)[1..] == a[1..] + b;
      RecordsAppend(a[1..], b);
    }
  }

  /** One more line adds that line's records at the end. */
  lemma RecordsPrefix(lines: seq<string>, i: nat)
    requires i < |lines|
    ensures Records(lines[..i + 1]) == Records(lines[..i]) + LineRecords(lines[i])
  {
    assert lines[..i + 1] == lines[..i] + [lines[i]];
    RecordsAppend(lines[..i], [lines[i]]);
    assert Records([lines[i]]) == LineRecords(lines[i]) + Records([]);
  }

  /** The record list a run shows: the records, or the sentinel alone. */
  function Shown(lines: seq<string>): (r: seq<OutputRecord>)
    ensures |r| >= 1
    ensures Records(lines) != [] ==> r == Records(lines)
    ensures Records(lines) == [] ==> r == [NothingPrinted]
  {
    if Records(lines) == [] then [NothingPrinted] else Records(lines)
  }

  /** The pieces of a `spill "lit"` line: it trims to itself without its
      indentation, starts with the plain print statement and quotes `lit`. */
  lemma SpillLine(pad: string, q1: char, lit: string, q2: char)
    requires forall i :: 0 <= i < |pad| ==> IsJsSpace(pad[i])
    requires IsQuote(q1) && IsQuote(q2)
    requires forall k :: 0 <= k < |lit| ==> !IsQuote(lit[k]) && !IsLineTerminator(lit[k])
    ensures Trim(pad + ("spill " + [q1] + lit + [q2])) == "spill " + [q1] + lit + [q2]
    ensures PrintStyle("spill " + [q1] + lit + [q2]) == Some(Plain)
    ensures FirstQuoted("spill " + [q1] + lit + [q2]) == Some(lit)
  {
    var t := "spill " + [q1] + lit + [q2];
    TrimIndented(pad, t, []);
    assert pad + t + [] == pad + t;
    assert t[..6] == "spill ";
    var kw := "spill ";
    assert forall k :: 0 <= k < |kw| ==> !IsQuote(kw[k]);
    QuotedLiteral(kw, q1, lit, q2, []);
    assert t + [] == t;
  }

  /** `spill "lit"` (or with single quotes), indented or not, prints `lit`,
      escaped. */
  lemma SpillLiteral(pad: string, q1: char, lit: string, q2: char)
    requires forall i :: 0 <= i < |pad| ==> IsJsSpace(pad[i])
    requires IsQuote(q1) && IsQuote(q2)
    requires forall k :: 0 <= k < |lit| ==> !IsQuote(lit[k]) && !IsLineTerminator(lit[k])
    ensures LineRecords(pad + ("spill " + [q1] + lit + [q2])) == [Printed(Plain, Escape(lit))]
  {
    SpillLine(pad, q1, lit, q2);
  }

  /** A print line whose argument holds no quote (a variable, an expression)
      prints nothing. */
  lemma UnquotedArgument(line: string)
    requires forall k :: 0 <= k < |line| ==> !IsQuote(line[k])
    ensures LineRecords(line) == []
  {
    var t := Trim(line);
    TrimSpec(line);
    assert forall k :: 0 <= k < |t| ==> t[k] == line[LeadingSpaces(line) + k];
    NoQuoteNoLiteral(t);
  }

  /** `spill "it's"`: the apostrophe closes the literal that the double quote
      opened, so only `it` is printed. */
  lemma ApostropheClosesLiteral()
    ensures LineRecords("spill \"it's\"") == [Printed(Plain, "it")]
  {
    var t := "spill \"it's\"";
    assert t == "spill " + ['"'] + "it" + ['\''] + "s\"";
    TrimUnpadded(t);
    assert PrintStyle(t) == Some(Plain) by {
      assert "spill " <= t;
    }
    QuotedLiteral("spill ", '"', "it", '\'', "s\"");
    EscapePlain("it");
  }

  // ---------------------------------------------------------------------
  // The imperative run
  // ---------------------------------------------------------------------

  /** The simulation loop: scan the lines in order, collect one record per
      print line with a quoted literal, and fall back on the sentinel. */
  method Simulate(lines: seq<string>) returns (output: seq<OutputRecord>)
    ensures output == Shown(lines)
  {
    output := [];
    for i := 0 to |lines|
      invariant output == Records(lines[..i])
    {
      var line := lines[i];
      RecordsPrefix(lines, i);
      ghost var before := output;
      var trimmed := Trim(line);
      if "spill " <= trimmed {
        var content := FirstQuoted(trimmed);
        if content.Some? {
          output := output + [Printed(Plain, Escape(content.value))];
        }
      } else if "skibidi spill " <= trimmed {
        var content := FirstQuoted(trimmed);
        if content.Some? {
          output := output + [Printed(Glow, Escape(content.value))];
        }
      } else if "rizzmode spill " <= trimmed {
        var content := FirstQuoted(trimmed);
        if content.Some? {
          output := output + [Printed(Bold, Escape(content.value))];
        }
      }
      assert output == before + LineRecords(line);
    }
    assert lines[..|lines|] == lines;
    if |output| == 0 {
      output := output + [NothingPrinted];
    }
  }

  /** The run action: whitespace-only input shows the placeholder and runs
      nothing; otherwise the code is transpiled (the result is not shown) and
      simulated, and the records are shown. */
  method Execute(code: string) returns (result: RunResult)
    ensures result == NoCode <==> forall i :: 0 <= i < |code| ==> IsJsSpace(code[i])
    ensures result.Ran? ==> result.records == Shown(Split(code, '\n')) && |result.records| >= 1
  {
    TrimEmptyIff(code);
    if Trim(code) == "" {
      return NoCode;
    }
    var python := Transpile(code);
    var output := Simulate(Split(code, '\n'));
    result := Ran(output);
  }

  // ---------------------------------------------------------------------
  // Rendering
  // ---------------------------------------------------------------------

  /** The markup of one record, as the run writes it into the output panel. */
  function RenderRecord(r: OutputRecord): string {
    match r
    case Printed(Plain, text) => "<div class=\"output-line\">" + text + "</div>"
    case Printed(Glow, text) => "<div class=\"output-line output-glow\">✨ " + text + " ✨</div>"
    case Printed(Bold, text) => "<div class=\"output-line\"><strong>" + text + "</strong></div>"
    case NothingPrinted =>
      "<div class=\"output-line\">Code executed successfully! No output statements found. 💯</div>"
  }

  /** `output.join('')`. */
  function RenderRecords(rs: seq<OutputRecord>): string {
    if rs == [] then "" else RenderRecord(rs[0]) + RenderRecords(rs[1..])
  }

  /** The markup the output panel holds after the run action. */
  function Display(result: RunResult): string {
    match result
    case NoCode =>
      "<div class=\"output-placeholder\">No code to run! Write some VibeScript first 💙</div>"
    case Ran(records) => RenderRecords(records)
  }
}
