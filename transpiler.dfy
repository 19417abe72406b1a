/**
 * The VibeScript-to-Python transpiler of the playground (`transpileVibeScript`).
 *
 * Each line is trimmed and classified by an ordered keyword test; the line is
 * then rewritten into one Python-like line, indented by four spaces per level
 * of the current block depth, or dropped (block end markers). The depth is a
 * small state machine: `sus check` and `vibe until` open a level, `end sus`,
 * `end vibe` and `plot twist` close one, floored at zero, and `plot twist`
 * reopens it after emitting `else:`.
 *
 * The per-line classification, rewriting and depth transitions are functions;
 * `Emit` folds them over the lines and is the specification of the loop in
 * the `Transpile` method.
 */
module Transpiler {
  import opened Wrappers
  import opened JsString

  // ---------------------------------------------------------------------
  // Classification
  // ---------------------------------------------------------------------

  datatype Category =
    | BlankOrComment  // empty after trimming, or starting with `#`
    | BlockEnd        // `end sus` / `end vibe` (by prefix)
    | VariableDecl    // `braincell `
    | PlainPrint      // `spill `
    | GlowPrint       // `skibidi spill `
    | BoldPrint       // `rizzmode spill `
    | ConditionalOpen // `sus check `
    | ElseBranch      // exactly `plot twist`
    | LoopOpen        // `vibe until `
    | AddAssign       // `sum `
    | SubAssign       // `sub `
    | MulAssign       // `mul `
    | DivAssign       // `div `
    | Fallback        // anything else
  {
    predicate IsCompound() {
      this == AddAssign || this == SubAssign || this == MulAssign || this == DivAssign
    }
  }

  /** The keyword phrase that introduces a category and is stripped from the
      line when it is rewritten; empty for the categories without one. */
  function Keyword(c: Category): string {
    match c
    case VariableDecl => "braincell "
    case PlainPrint => "spill "
    case GlowPrint => "skibidi spill "
    case BoldPrint => "rizzmode spill "
    case ConditionalOpen => "sus check "
    case LoopOpen => "vibe until "
    case AddAssign => "sum "
    case SubAssign => "sub "
    case MulAssign => "mul "
    case DivAssign => "div "
    case _ => ""
  }

  /** The categories recognised by a keyword prefix. */
  predicate HasKeyword(c: Category) {
    c != BlankOrComment && c != BlockEnd && c != ElseBranch && c != Fallback
  }

  /** The first characters each keyword phrase fixes, which tell the phrases apart. */
  lemma LeadingChars(t: string)
    ensures "#" <= t ==> t[0] == '#'
    ensures "end sus" <= t || "end vibe" <= t ==> t[0] == 'e'
    ensures "braincell " <= t ==> t[0] == 'b'
    ensures "spill " <= t ==> t[0] == 's' && t[1] == 'p'
    ensures "skibidi spill " <= t ==> t[0] == 's' && t[1] == 'k'
    ensures "rizzmode spill " <= t ==> t[0] == 'r'
    ensures "sus check " <= t ==> t[0] == 's' && t[1] == 'u' && t[2] == 's'
    ensures t == "plot twist" ==> t[0] == 'p'
    ensures "vibe until " <= t ==> t[0] == 'v'
    ensures "sum " <= t ==> t[0] == 's' && t[1] == 'u' && t[2] == 'm'
    ensures "sub " <= t ==> t[0] == 's' && t[1] == 'u' && t[2] == 'b'
    ensures "mul " <= t ==> t[0] == 'm'
    ensures "div " <= t ==> t[0] == 'd'
  {
  }

  /** The ordered dispatch of the transpiler on a trimmed line. */
  function Classify(t: string): Category {
    if t == "" || "#" <= t then BlankOrComment
    else if "end sus" <= t || "end vibe" <= t then BlockEnd
    else if "braincell " <= t then VariableDecl
    else if "spill " <= t then PlainPrint
    else if "skibidi spill " <= t then GlowPrint
    else if "rizzmode spill " <= t then BoldPrint
    else if "sus check " <= t then ConditionalOpen
    else if t == "plot twist" then ElseBranch
    else if "vibe until " <= t then LoopOpen
    else if "sum " <= t then AddAssign
    else if "sub " <= t then SubAssign
    else if "mul " <= t then MulAssign
    else if "div " <= t then DivAssign
    else Fallback
  }

  /**
   * The tests are tried in the source's order, yet no two keyword phrases can
   * both be prefixes of one line, so each category holds exactly when its own
   * test does, whatever came before it.
   */
  lemma ClassifySpec(t: string)
    ensures Classify(t) == BlankOrComment <==> t == "" || "#" <= t
    ensures Classify(t) == BlockEnd <==> "end sus" <= t || "end vibe" <= t
    ensures Classify(t) == ElseBranch <==> t == "plot twist"
    ensures forall k :: HasKeyword(k) ==> (Classify(t) == k <==> Keyword(k) <= t)
  {
    LeadingChars(t);
  }

  // ---------------------------------------------------------------------
  // Rewriting
  // ---------------------------------------------------------------------

  /** The Python compound-assignment operator of a `sum`/`sub`/`mul`/`div` line. */
  function Operator(c: Category): string
    requires c.IsCompound()
  {
    match c
    case AddAssign => "+="
    case SubAssign => "-="
    case MulAssign => "*="
    case DivAssign => "/="
  }

  /** `${parts[i]}` in a template string: a missing array element prints as
      `undefined`. */
  function Part(parts: seq<string>, i: nat): string {
    if i < |parts| then parts[i] else "undefined"
  }

  /** `t.replace(keyword, '')`: the first occurrence of the keyword is removed,
      which, on a line that starts with it, leaves the text after it. */
  function Arg(c: Category, t: string): (arg: string)
    requires HasKeyword(c) ==> Keyword(c) <= t
    ensures arg == t[|Keyword(c)|..]
  {
    ReplaceFirst(t, Keyword(c), "")
  }

  /** The compound-assignment rewrite: the argument is split on single spaces,
      and only the first two pieces are used. */
  function Compound(arg: string, op: string): string {
    var parts := Split(arg, ' ');
    parts[0] + " " + op + " " + Part(parts, 1)
  }

  /** `sum a b` with space-free `a` and `b` becomes `a += b`; whatever follows
      `b` after a further space is ignored. */
  lemma CompoundTwoTokens(a: string, b: string, rest: string, op: string)
    requires ' ' !in a && ' ' !in b
    requires rest == [] || rest[0] == ' '
    ensures Compound(a + " " + b + rest, op) == a + " " + op + " " + b
  {
    assert a + " " + b + rest == a + [' '] + (b + rest);
    SplitCons(a, ' ', b + rest);
    if rest == [] {
      assert b + rest == b;
      SplitNone(b, ' ');
    } else {
      assert b + rest == b + [' '] + rest[1..];
      SplitCons(b, ' ', rest[1..]);
    }
  }

  /** `sum a` without a second operand becomes `a += undefined`. */
  lemma CompoundOneToken(a: string, op: string)
    requires ' ' !in a
    ensures Compound(a, op) == a + " " + op + " undefined"
  {
    SplitNone(a, ' ');
  }

  /** `yeah` and `nah` are words of word characters, for which `\bword\b`
      is modelled. */
  lemma BooleanWords()
    ensures IsWordPattern("yeah") && IsWordText("yeah")
    ensures IsWordPattern("nah") && IsWordText("nah")
  {
  }

  /** The fallback rewrite: whole-word `yeah` and `nah` become `True` and `False`. */
  function Booleans(t: string): string {
    ReplaceWord(ReplaceWord(t, "yeah", "True"), "nah", "False")
  }

  /** The Python body of a line of category `c`, before indentation. */
  function Rewrite(c: Category, t: string): string
    requires c != BlankOrComment && c != BlockEnd
    requires HasKeyword(c) ==> Keyword(c) <= t
  {
    var arg := Arg(c, t);
    match c
    case VariableDecl => arg
    case PlainPrint => "print(" + arg + ")"
    case GlowPrint => "print(\"✨\", " + arg + ", \"✨\")"
    case BoldPrint => "print(\"**\", " + arg + ", \"**\")"
    case ConditionalOpen => "if " + arg + ":"
    case ElseBranch => "else:"
    case LoopOpen => "while " + arg + ":"
    case AddAssign | SubAssign | MulAssign | DivAssign => Compound(arg, Operator(c))
    case Fallback => Booleans(t)
  }

  /**
   * The rewrite table. The keyword is removed with a first-occurrence
   * `replace`, which, since the line starts with it, leaves the text after
   * the keyword (`arg` below); only fallback lines get the boolean words
   * replaced, so a declaration keeps `yeah` and `nah` as they are.
   */
  lemma RewriteTable(c: Category, t: string)
    requires c != BlankOrComment && c != BlockEnd
    requires HasKeyword(c) ==> Keyword(c) <= t
    ensures var arg := t[|Keyword(c)|..]; var r := Rewrite(c, t);
      && (c == VariableDecl ==> r == arg)
      && (c == PlainPrint ==> r == "print(" + arg + ")")
      && (c == GlowPrint ==> r == "print(\"✨\", " + arg + ", \"✨\")")
      && (c == BoldPrint ==> r == "print(\"**\", " + arg + ", \"**\")")
      && (c == ConditionalOpen ==> r == "if " + arg + ":")
      && (c == ElseBranch ==> r == "else:")
      && (c == LoopOpen ==> r == "while " + arg + ":")
      && (c.IsCompound() ==> r == Compound(arg, Operator(c)))
  {
    if c.IsCompound() {
      RewriteCompound(c, t);
    }
  }

  /** A compound assignment is built from the text after its keyword. */
  lemma RewriteCompound(c: Category, t: string)
    requires c.IsCompound() && Keyword(c) <= t
    ensures Rewrite(c, t) == Compound(t[|Keyword(c)|..], Operator(c))
  {
  }

  /** A fallback line is rewritten by its boolean words only. */
  lemma RewriteFallback(t: string)
    ensures Rewrite(Fallback, t) == Booleans(t)
  {
  }

  /** A fallback line without `yeah` or `nah` anywhere is copied unchanged. */
  lemma RewriteFallbackPlain(t: string)
    requires IndexOf(t, "yeah").None? && IndexOf(t, "nah").None?
    ensures Rewrite(Fallback, t) == t
  {
    ReplaceWordAbsent(t, "yeah", "True", false);
    ReplaceWordAbsent(t, "nah", "False", false);
  }

  /** A fallback line holding one whole-word `yeah`, and no `nah` once it is
      replaced, has exactly that word turned into `True`. */
  lemma RewriteFallbackYeah(a: string, b: string)
    requires IndexOf(a + ("yeah" + b), "yeah") == Some(|a|)
    requires IndexOf(b, "yeah").None?
    requires a == [] || !IsWordChar(a[|a| - 1])
    requires b == [] || !IsWordChar(b[0])
    requires IndexOf(a + "True" + b, "nah").None?
    ensures Rewrite(Fallback, a + ("yeah" + b)) == a + "True" + b
  {
    var t := a + ("yeah" + b);
    BooleanWords();
    RewriteFallback(t);
    ReplaceWordOnce(a, "yeah", b, "True");
    assert ReplaceWord(t, "yeah", "True") == a + "True" + b;
    ReplaceWordAbsent(a + "True" + b, "nah", "False", false);
  }

  /** A fallback line holding one whole-word `nah`, and no `yeah`, has exactly
      that word turned into `False`. */
  lemma RewriteFallbackNah(a: string, b: string)
    requires IndexOf(a + ("nah" + b), "nah") == Some(|a|)
    requires IndexOf(b, "nah").None?
    requires a == [] || !IsWordChar(a[|a| - 1])
    requires b == [] || !IsWordChar(b[0])
    requires IndexOf(a + ("nah" + b), "yeah").None?
    ensures Rewrite(Fallback, a + ("nah" + b)) == a + "False" + b
  {
    var t := a + ("nah" + b);
    BooleanWords();
    RewriteFallback(t);
    ReplaceWordAbsent(t, "yeah", "True", false);
    assert ReplaceWord(t, "yeah", "True") == t;
    ReplaceWordOnce(a, "nah", b, "False");
  }

  /** A token of word characters is rewritten on its own: `yeah` becomes
      `True`, `nah` becomes `False`, and any other token, such as `yeahs` or
      `nahum`, is kept. */
  lemma BooleansToken(w: string)
    requires IsWordText(w)
    ensures Booleans(w) == if w == "yeah" then "True" else if w == "nah" then "False" else w
  {
    ReplaceWordToken(w, "yeah", "True");
    var v := ReplaceWord(w, "yeah", "True");
    assert IsWordText(v);
    ReplaceWordToken(v, "nah", "False");
  }

  /** A non-word character splits the rewrite: the text on either side of it
      is rewritten independently, so every whole-word `yeah` and `nah` of a
      line is replaced, however many there are. */
  lemma BooleansSplit(x: string, c: char, y: string)
    requires !IsWordChar(c)
    ensures Booleans(x + [c] + y) == Booleans(x) + ([c] + Booleans(y))
  {
    BooleanWords();
    var x', y' := ReplaceWord(x, "yeah", "True"), ReplaceWord(y, "yeah", "True");
    ReplaceWordSplit(x, c, y, "yeah", "True", false);
    assert x' + ([c] + y') == x' + [c] + y';
    ReplaceWordSplit(x', c, y', "nah", "False", false);
  }

  /** `'    '.repeat(n)`: four spaces per level. */
  function Indent(n: nat): (r: string)
    ensures |r| == 4 * n
    ensures forall i :: 0 <= i < |r| ==> r[i] == ' '
  {
    var r := Repeat("    ", n);
    assert forall i :: 0 <= i < |r| ==> r[i] in r;
    r
  }

  // ---------------------------------------------------------------------
  // Depth state machine
  // ---------------------------------------------------------------------

  /** `Math.max`. */
  function Max(a: int, b: int): int {
    if a < b then b else a
  }

  /** The depth a line is emitted at: `plot twist` first closes the branch
      it ends (floored at zero); every other line uses the current depth. */
  function EmitDepth(c: Category, d: int): (e: int)
    requires d >= 0
    ensures e >= 0
    ensures c == ElseBranch && d >= 1 ==> e == d - 1
    ensures c == ElseBranch && d == 0 ==> e == 0
    ensures c != ElseBranch ==> e == d
  {
    if c == ElseBranch then Max(0, d - 1) else d
  }

  /** The depth after a line of category `c`: it never becomes negative, and
      `plot twist` leaves it unchanged when a block is open. */
  function NextDepth(c: Category, d: int): (n: int)
    requires d >= 0
    ensures n >= 0
    ensures c == BlockEnd ==> n == (if d == 0 then 0 else d - 1)
    ensures c == ConditionalOpen || c == LoopOpen ==> n == d + 1
    ensures c == ElseBranch ==> n == EmitDepth(c, d) + 1 && (d >= 1 ==> n == d) && (d == 0 ==> n == 1)
    ensures c != BlockEnd && c != ConditionalOpen && c != LoopOpen && c != ElseBranch ==> n == d
  {
    match c
    case BlockEnd => Max(0, d - 1)
    case ElseBranch => EmitDepth(c, d) + 1
    case ConditionalOpen | LoopOpen => d + 1
    case _ => d
  }

  // ---------------------------------------------------------------------
  // One line, and the whole program
  // ---------------------------------------------------------------------

  /** The output lines (none or one) of one source line at depth `d`. */
  function LineOut(line: string, d: int): (r: seq<string>)
    requires d >= 0
    ensures |r| == (if Classify(Trim(line)) == BlockEnd then 0 else 1)
    ensures Classify(Trim(line)) == BlankOrComment ==> r == [line]
  {
    var t := Trim(line);
    var c := Classify(t);
    ClassifySpec(t);
    if c == BlankOrComment then [line]
    else if c == BlockEnd then []
    else [Indent(EmitDepth(c, d)) + Rewrite(c, t)]
  }

  /** A keyword line, with whitespace around it, trims to the keyword and its
      argument, and is classified by its keyword. */
  lemma KeywordLine(pad: string, c: Category, arg: string, tail: string)
    requires HasKeyword(c)
    requires forall i :: 0 <= i < |pad| ==> IsJsSpace(pad[i])
    requires forall i :: 0 <= i < |tail| ==> IsJsSpace(tail[i])
    requires arg != [] && !IsJsSpace(arg[|arg| - 1])
    ensures Trim(pad + (Keyword(c) + arg) + tail) == Keyword(c) + arg
    ensures Classify(Keyword(c) + arg) == c
    ensures (Keyword(c) + arg)[|Keyword(c)|..] == arg
  {
    var t := Keyword(c) + arg;
    assert Keyword(c) <= t;
    assert t[0] == Keyword(c)[0] && t[|t| - 1] == arg[|arg| - 1];
    TrimIndented(pad, t, tail);
    ClassifySpec(t);
  }

  /** A keyword line: the indentation of the source is dropped and replaced by
      that of the current depth, trailing whitespace is dropped, and the
      rewrite sees the text after the keyword. */
  lemma LineOutKeyword(pad: string, c: Category, arg: string, tail: string, d: int)
    requires d >= 0 && HasKeyword(c)
    requires forall i :: 0 <= i < |pad| ==> IsJsSpace(pad[i])
    requires forall i :: 0 <= i < |tail| ==> IsJsSpace(tail[i])
    requires arg != [] && !IsJsSpace(arg[|arg| - 1])
    ensures Classify(Keyword(c) + arg) == c
    ensures LineOut(pad + (Keyword(c) + arg) + tail, d) == [Indent(d) + Rewrite(c, Keyword(c) + arg)]
    ensures LineDepth(pad + (Keyword(c) + arg) + tail, d) == NextDepth(c, d)
  {
    KeywordLine(pad, c, arg, tail);
  }

  /** A line that no keyword test claims: the source indentation and trailing
      whitespace are dropped, the boolean words of the trimmed text are
      replaced, and the depth is unchanged. */
  lemma LineOutFallback(pad: string, t: string, tail: string, d: int)
    requires d >= 0
    requires forall i :: 0 <= i < |pad| ==> IsJsSpace(pad[i])
    requires forall i :: 0 <= i < |tail| ==> IsJsSpace(tail[i])
    requires t != [] && !IsJsSpace(t[0]) && !IsJsSpace(t[|t| - 1])
    requires Classify(t) == Fallback
    ensures LineOut(pad + t + tail, d) == [Indent(d) + Booleans(t)]
    ensures LineDepth(pad + t + tail, d) == d
  {
    TrimIndented(pad, t, tail);
  }

  /** `plot twist` emits `else:` one level up (floored at zero) and leaves the
      depth one level below where it emitted, i.e. unchanged when `d >= 1`. */
  lemma LineOutElse(twist: string, d: int)
    requires d >= 0
    requires Classify(Trim(twist)) == ElseBranch
    ensures LineOut(twist, d) == [Indent(Max(0, d - 1)) + "else:"]
    ensures LineDepth(twist, d) == Max(0, d - 1) + 1
  {
    assert Rewrite(ElseBranch, Trim(twist)) == "else:";
  }

  /** The depth after one source line. */
  function LineDepth(line: string, d: int): int
    requires d >= 0
  {
    NextDepth(Classify(Trim(line)), d)
  }

  /** The depth after a sequence of lines, started at `d`. */
  function DepthAfter(lines: seq<string>, d: int): (n: int)
    requires d >= 0
    ensures n >= 0
  {
    if lines == [] then d else DepthAfter(lines[1..], LineDepth(lines[0], d))
  }

  /** The output lines of a sequence of source lines, started at depth `d`. */
  function Emit(lines: seq<string>, d: int): seq<string>
    requires d >= 0
  {
    if lines == [] then [] else LineOut(lines[0], d) + Emit(lines[1..], LineDepth(lines[0], d))
  }

  /** The number of block end markers among the lines. */
  function EndMarkers(lines: seq<string>): nat {
    if lines == [] then 0
    else (if Classify(Trim(lines[0])) == BlockEnd then 1 else 0) + EndMarkers(lines[1..])
  }

  /** A program is transpiled piece by piece: the output of `a + b` is that
      of `a` followed by that of `b` started at the depth `a` ends at. */
  lemma {:induction false} EmitAppend(a: seq<string>, b: seq<string>, d: int)
    requires d >= 0
    ensures Emit(a + b, d) == Emit(a, d) + Emit(b, DepthAfter(a, d))
    ensures DepthAfter(a + b, d) == DepthAfter(b, DepthAfter(a, d))
  {
    if a != [] {
      assert (a + b)[1..] == a[1..] + b;
      EmitAppend(a[1..], b, LineDepth(a[0], d));
    } else {
      assert a + b == b;
    }
  }

  /** Appending one line appends its own output and applies its own depth step. */
  lemma EmitSnoc(prefix: seq<string>, line: string, d: int)
    requires d >= 0
    ensures Emit(prefix + [line], d) == Emit(prefix, d) + LineOut(line, DepthAfter(prefix, d))
    ensures DepthAfter(prefix + [line], d) == LineDepth(line, DepthAfter(prefix, d))
  {
    EmitAppend(prefix, [line], d);
  }

  /** One more line of a prefix appends its own output and depth step. */
  lemma EmitPrefix(lines: seq<string>, i: nat, d: int)
    requires i < |lines| && d >= 0
    ensures Emit(lines[..i + 1], d) == Emit(lines[..i], d) + LineOut(lines[i], DepthAfter(lines[..i], d))
    ensures DepthAfter(lines[..i + 1], d) == LineDepth(lines[i], DepthAfter(lines[..i], d))
  {
    assert lines[..i + 1] == lines[..i] + [lines[i]];
    EmitSnoc(lines[..i], lines[i], d);
  }

  /** Every line but the end markers yields exactly one output line. */
  lemma {:induction false} EmitLength(lines: seq<string>, d: int)
    requires d >= 0
    ensures |Emit(lines, d)| == |lines| - EndMarkers(lines)
    ensures EndMarkers(lines) <= |lines|
  {
    if lines != [] {
      EmitLength(lines[1..], LineDepth(lines[0], d));
    }
  }

  /** Line `i` contributes its own output, in input order, at the depth that
      the lines before it leave. */
  lemma EmitAt(lines: seq<string>, i: nat, d: int)
    requires i < |lines| && d >= 0
    ensures Emit(lines, d) ==
      Emit(lines[..i], d)
      + LineOut(lines[i], DepthAfter(lines[..i], d))
      + Emit(lines[i + 1..], DepthAfter(lines[..i + 1], d))
  {
    assert Emit(lines, d) == Emit(lines[..i + 1], d) + Emit(lines[i + 1..], DepthAfter(lines[..i + 1], d)) by {
      assert lines == lines[..i + 1] + lines[i + 1..];
      EmitAppend(lines[..i + 1], lines[i + 1..], d);
    }
    EmitPrefix(lines, i, d);
  }

  /** An opening `sus check`/`vibe until` line is emitted at depth `d`, and
      what follows it one level deeper. */
  lemma Opener(open: string, body: seq<string>, d: int)
    requires d >= 0
    requires Classify(Trim(open)) == ConditionalOpen || Classify(Trim(open)) == LoopOpen
    ensures Emit([open] + body, d) == [Indent(d) + Rewrite(Classify(Trim(open)), Trim(open))] + Emit(body, d + 1)
    ensures DepthAfter([open] + body, d) == DepthAfter(body, d + 1)
  {
    EmitAppend([open], body, d);
    assert [open][1..] == [];
  }

  /**
   * A block: an opening `sus check`/`vibe until` line, a body that ends at the
   * depth it started at, and an end marker. The opener is emitted at depth
   * `d`, the body one level deeper, and the depth afterwards is `d` again.
   */
  lemma Block(open: string, body: seq<string>, close: string, d: int)
    requires d >= 0
    requires Classify(Trim(open)) == ConditionalOpen || Classify(Trim(open)) == LoopOpen
    requires Classify(Trim(close)) == BlockEnd
    requires DepthAfter(body, d + 1) == d + 1
    ensures Emit([open] + body + [close], d) == [Indent(d) + Rewrite(Classify(Trim(open)), Trim(open))] + Emit(body, d + 1)
    ensures DepthAfter([open] + body + [close], d) == d
  {
    EmitAppend([open] + body, [close], d);
    Opener(open, body, d);
    assert Emit([close], d + 1) == [];
  }

  /** The first half of an if/else block, up to and including `plot twist`:
      the `else:` line sits at the depth of the `if`, and the depth is one
      level deeper again after it. */
  lemma IfHead(open: string, yes: seq<string>, twist: string, d: int)
    requires d >= 0
    requires Classify(Trim(open)) == ConditionalOpen
    requires Classify(Trim(twist)) == ElseBranch
    requires DepthAfter(yes, d + 1) == d + 1
    ensures Emit([open] + yes + [twist], d)
         == [Indent(d) + Rewrite(ConditionalOpen, Trim(open))] + Emit(yes, d + 1) + [Indent(d) + "else:"]
    ensures DepthAfter([open] + yes + [twist], d) == d + 1
  {
    Opener(open, yes, d);
    LineOutElse(twist, d + 1);
    EmitSnoc([open] + yes, twist, d);
  }

  /**
   * An if/else block: `sus check`, a body, `plot twist`, a second body and an
   * end marker. The `else:` line sits at the depth of the `if`, both bodies
   * one level deeper, and the depth afterwards is `d` again.
   */
  lemma IfElseBlock(open: string, yes: seq<string>, twist: string, no: seq<string>, close: string, d: int)
    requires d >= 0
    requires Classify(Trim(open)) == ConditionalOpen
    requires Classify(Trim(twist)) == ElseBranch
    requires Classify(Trim(close)) == BlockEnd
    requires DepthAfter(yes, d + 1) == d + 1 && DepthAfter(no, d + 1) == d + 1
    ensures Emit([open] + yes + [twist] + no + [close], d)
         == [Indent(d) + Rewrite(ConditionalOpen, Trim(open))] + Emit(yes, d + 1)
            + [Indent(d) + "else:"] + Emit(no, d + 1)
    ensures DepthAfter([open] + yes + [twist] + no + [close], d) == d
  {
    var b := [open] + yes + [twist];
    IfHead(open, yes, twist, d);
    assert Emit(b + no, d) == Emit(b, d) + Emit(no, d + 1) && DepthAfter(b + no, d) == d + 1 by {
      EmitAppend(b, no, d);
    }
    EmitSnoc(b + no, close, d);
  }

  // ---------------------------------------------------------------------
  // The imperative pass
  // ---------------------------------------------------------------------

  /** `transpileVibeScript(code)`: one pass over the lines of `code`, keeping
      the depth in `indentLevel` and collecting the output lines. */
  method Transpile(code: string) returns (python: string)
    ensures python == Join(Emit(Split(code, '\n'), 0), "\n")
  {
    var lines := Split(code, '\n');
    var pythonCode: seq<string> := [];
    var indentLevel: int := 0;
    for i := 0 to |lines|
      invariant indentLevel >= 0
      invariant indentLevel == DepthAfter(lines[..i], 0)
      invariant pythonCode == Emit(lines[..i], 0)
    {
      var line := lines[i];
      EmitPrefix(lines, i, 0);
      var trimmed := Trim(line);
      var category := Classify(trimmed);
      ClassifySpec(trimmed);
      if category == BlankOrComment {
        pythonCode := pythonCode + [line];
        continue;
      }
      if category == BlockEnd {
        indentLevel := Max(0, indentLevel - 1);
        continue;
      }
      var indent := Indent(indentLevel);
      if category == ElseBranch {
        indentLevel := Max(0, indentLevel - 1);
        indent := Indent(indentLevel);
      }
      pythonCode := pythonCode + [indent + Rewrite(category, trimmed)];
      if category == ConditionalOpen || category == ElseBranch || category == LoopOpen {
        indentLevel := indentLevel + 1;
      }
    }
    assert lines[..|lines|] == lines;
    python := Join(pythonCode, "\n");
  }
}
