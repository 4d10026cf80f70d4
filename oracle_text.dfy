/** The oracle-text tokenizer of the deck builder (Main.java, inside the card-building
    callback): it cuts a card's rules text into styled runs, explicit line-break runs and
    symbol groups.

    The specification has three layers:
    - `Lex` cuts the text into lexemes: the five characters the scanner reacts to, the
      `{...}` escapes, and every other character. An escape without a closing `}` is the
      source's out-of-bounds failure.
    - `Step` is the scanner's transition for one lexeme, on the state the source keeps in
      local variables: the output list, the pending `StringBuilder` and the `italic` flag.
    - `Scan` runs the transitions over the lexemes, and `Tokenize` adds the final flush.

    `TokenizeOracle` is the source's loop over characters, proved equal to `Tokenize`; the
    lemmas after it state what the output promises.

    The two styles (the template's "oracle" style and its `italic()` variant) are values of
    an uninterpreted type `S`; the symbol table lookup (`Symbols.symbol` with its fixed
    template, font and context arguments) is an uninterpreted function `lookup` from the
    escape's payload to an uninterpreted glyph group `G`. */
module OracleText {
  import opened Results
  import JavaLang

  /** One entry of the output list: a run of text in one style (the source's singleton list
      holding one TextComponent), or the glyph group the symbol lookup returned. */
  datatype Component<S, G> = Run(style: S, text: string) | Glyphs(glyphs: G)

  /** The template's oracle style and its italic variant. */
  datatype Styles<S> = Styles(plain: S, italic: S)

  /** The units the scanner reacts to. `Plain` holds any character other than `(`, `)`,
      newline, space and `{`; a `}` outside an escape is a plain character. */
  datatype Lexeme = Open | Close | Newline | Space | Escape(payload: string) | Plain(c: char)

  // ---------------------------------------------------------------------------
  // Lexing
  // ---------------------------------------------------------------------------

  /** The lexeme of one character that does not open an escape. */
  function Single(c: char): (l: Lexeme)
    requires c != '{'
    ensures Source(l) == [c]
  {
    match c
    case '(' => Open
    case ')' => Close
    case '\n' => Newline
    case ' ' => Space
    case _ => Plain(c)
  }

  /** The text a lexeme was cut from. */
  function Source(l: Lexeme): string {
    match l
    case Open => "("
    case Close => ")"
    case Newline => "\n"
    case Space => " "
    case Escape(p) => "{" + p + "}"
    case Plain(c) => [c]
  }

  /** The lexemes that `Lex` can produce: an escape's payload holds no `}`, and a plain
      character is none of the characters the scanner reacts to. */
  predicate Lexical(l: Lexeme) {
    match l
    case Escape(p) => '}' !in p
    case Plain(c) => c !in "()\n {"
    case _ => true
  }

  /** Cuts the oracle text into lexemes. An escape runs from `{` to the next `}`; with no
      `}` after it, the source's `charAt` reads past the end of the string. */
  function Lex(s: string): (r: Result<seq<Lexeme>>)
    decreases |s|
  {
    if s == [] then Success([])
    else if s[0] == '{' then
      var k := JavaLang.IndexOf(s[1..], '}');
      if k < 0 then Failure(IndexOutOfBounds)
      else PrependTo([Escape(s[1..k + 1])], Lex(s[k + 2..]))
    else PrependTo([Single(s[0])], Lex(s[1..]))
  }

  /** The text the lexemes were cut from. */
  function Unlex(ls: seq<Lexeme>): string {
    if ls == [] then [] else Source(ls[0]) + Unlex(ls[1..])
  }

  /** The text the lexemes were cut from, without the escapes. */
  function Visible(ls: seq<Lexeme>): string {
    if ls == [] then []
    else (if ls[0].Escape? then [] else Source(ls[0])) + Visible(ls[1..])
  }

  /** The payloads of the escapes, in order. */
  function Payloads(ls: seq<Lexeme>): seq<string> {
    if ls == [] then []
    else (if ls[0].Escape? then [ls[0].payload] else []) + Payloads(ls[1..])
  }

  /** Every lexeme that `Lex` produces is lexical. */
  lemma {:induction false} LexLexical(s: string)
    requires Lex(s).Success?
    ensures forall i :: 0 <= i < |Lex(s).value| ==> Lexical(Lex(s).value[i])
    decreases |s|
  {
    if s != [] {
      if s[0] == '{' {
        var k := JavaLang.IndexOf(s[1..], '}');
        LexLexical(s[k + 2..]);
      } else {
        LexLexical(s[1..]);
      }
    }
  }

  /** Lexing a text and writing the lexemes back gives the text. */
  lemma {:induction false} LexUnlex(s: string)
    requires Lex(s).Success?
    ensures Unlex(Lex(s).value) == s
    decreases |s|
  {
    if s != [] {
      var l, rest := LexFront(s);
      LexUnlex(rest);
      UnlexCons(l, Lex(rest).value);
    }
  }

  /** The first lexeme of a text that lexes, and the text after it. */
  lemma LexFront(s: string) returns (l: Lexeme, rest: string)
    requires s != [] && Lex(s).Success?
    ensures |rest| < |s| && s == Source(l) + rest
    ensures Lex(rest).Success? && Lex(s).value == [l] + Lex(rest).value
  {
    if s[0] == '{' {
      var k := JavaLang.IndexOf(s[1..], '}');
      var p := s[1..k + 1];
      l, rest := Escape(p), s[k + 2..];
      EscapeText(s, k);
      LexEscape(p, rest);
    } else {
      l, rest := Single(s[0]), s[1..];
      assert s == [s[0]] + rest;
      LexSingle(s[0], rest);
    }
  }

  lemma UnlexCons(l: Lexeme, ls: seq<Lexeme>)
    ensures Unlex([l] + ls) == Source(l) + Unlex(ls)
  {
    assert ([l] + ls)[1..] == ls;
  }

  /** A text opening with a closed escape is that escape's source, then the rest. */
  lemma EscapeText(s: string, k: int)
    requires s != [] && s[0] == '{' && k == JavaLang.IndexOf(s[1..], '}') && k >= 0
    ensures '}' !in s[1..k + 1]
    ensures s == "{" + s[1..k + 1] + "}" + s[k + 2..]
  {
    assert s[1..][k] == '}' && s[1..][..k] == s[1..k + 1];
    assert s[1..] == s[1..k + 1] + "}" + s[k + 2..];
  }

  /** A closed escape at the front lexes to one escape lexeme, then the rest. */
  lemma LexEscape(p: string, rest: string)
    requires '}' !in p
    ensures Lex("{" + p + "}" + rest) == PrependTo([Escape(p)], Lex(rest))
  {
    var s := "{" + p + "}" + rest;
    assert s[1..] == p + "}" + rest;
    assert s[1..][..|p|] == p;
    JavaLang.IndexOfFirst(s[1..], '}', |p|);
    assert s[1..|p| + 1] == p;
    assert s[|p| + 2..] == rest;
  }

  /** A character that opens no escape lexes to its own lexeme, then the rest. */
  lemma LexSingle(c: char, rest: string)
    requires c != '{'
    ensures Lex([c] + rest) == PrependTo([Single(c)], Lex(rest))
  {
    assert ([c] + rest)[1..] == rest;
  }

  /** Lexing what lexical lexemes write gives back those lexemes. */
  lemma {:induction false} UnlexLex(ls: seq<Lexeme>)
    requires forall i :: 0 <= i < |ls| ==> Lexical(ls[i])
    ensures Lex(Unlex(ls)) == Success(ls)
    decreases |ls|
  {
    if ls != [] {
      var l, rest := ls[0], Unlex(ls[1..]);
      UnlexLex(ls[1..]);
      assert [l] + ls[1..] == ls;
      match l
      case Escape(p) =>
        LexEscape(p, rest);
        assert Unlex(ls) == "{" + p + "}" + rest;
      case _ =>
        LexSingle(Source(l)[0], rest);
        assert Unlex(ls) == [Source(l)[0]] + rest;
        assert Single(Source(l)[0]) == l;
    }
  }

  /** An opening `{` with no `}` anywhere after it. */
  predicate Unclosed(s: string, j: int) {
    0 <= j < |s| && s[j] == '{' && '}' !in s[j + 1..]
  }

  /** Lexing fails exactly when some `{` has no `}` after it: the source neither truncates
      nor skips an unterminated escape. */
  lemma {:induction false} LexFailsIffUnclosed(s: string)
    ensures Lex(s).Failure? <==> exists j :: Unclosed(s, j)
    decreases |s|
  {
    if s == [] {
    } else if s[0] == '{' {
      var k := JavaLang.IndexOf(s[1..], '}');
      if k < 0 {
        assert Unclosed(s, 0);
      } else {
        LexFailsIffUnclosed(s[k + 2..]);
        UnclosedAfterEscape(s, k, s[k + 2..]);
      }
    } else {
      LexFailsIffUnclosed(s[1..]);
      UnclosedAfterChar(s);
    }
  }

  /** After a closed escape at the front, the unclosed `{` are those of the rest. */
  lemma UnclosedAfterEscape(s: string, k: int, rest: string)
    requires s != [] && s[0] == '{' && k == JavaLang.IndexOf(s[1..], '}') && k >= 0
    requires rest == s[k + 2..]
    ensures (exists j :: Unclosed(s, j)) <==> exists j :: Unclosed(rest, j)
  {
    assert s[k + 1] == s[1..][k] == '}';
    forall j | Unclosed(rest, j) ensures Unclosed(s, j + k + 2) {
      assert s[j + k + 2 + 1..] == rest[j + 1..];
    }
    forall j | 0 <= j <= k + 1 ensures !Unclosed(s, j) {
      if j <= k { assert s[j + 1..][k - j] == '}'; }
    }
    forall j | Unclosed(s, j) && j >= k + 2 ensures Unclosed(rest, j - k - 2) {
      assert s[j + 1..] == rest[j - k - 2 + 1..];
    }
  }

  /** After a character that opens no escape, the unclosed `{` are those of the rest. */
  lemma UnclosedAfterChar(s: string)
    requires s != [] && s[0] != '{'
    ensures (exists j :: Unclosed(s, j)) <==> exists j :: Unclosed(s[1..], j)
  {
    var rest := s[1..];
    forall j | Unclosed(rest, j) ensures Unclosed(s, j + 1) {
      assert s[j + 2..] == rest[j + 1..];
    }
    forall j | Unclosed(s, j) ensures Unclosed(rest, j - 1) {
      assert s[j + 1..] == rest[j..];
    }
  }

  /** A failing lex is always the out-of-bounds read of an unterminated escape. */
  lemma {:induction false} LexFault(s: string)
    ensures Lex(s).Failure? ==> Lex(s).fault == IndexOutOfBounds
    decreases |s|
  {
    if s != [] {
      if s[0] == '{' {
        var k := JavaLang.IndexOf(s[1..], '}');
        if k >= 0 { LexFault(s[k + 2..]); }
      } else {
        LexFault(s[1..]);
      }
    }
  }

  /** Without a `{`, lexing succeeds with one lexeme per character. */
  lemma {:induction false} LexWithoutEscapes(s: string)
    requires '{' !in s
    ensures Lex(s).Success? && |Lex(s).value| == |s|
    ensures forall i :: 0 <= i < |s| ==> Lex(s).value[i] == Single(s[i])
  {
    if s != [] {
      assert forall c :: c in s[1..] ==> c in s;
      LexWithoutEscapes(s[1..]);
      assert forall i :: 1 <= i < |s| ==> s[1..][i - 1] == s[i];
    }
  }

  // ---------------------------------------------------------------------------
  // The scanner
  // ---------------------------------------------------------------------------

  /** The scanner's state: the output list so far, the pending text, the italic flag. */
  datatype Scanner<S, G> = Scanner(out: seq<Component<S, G>>, pending: string, italic: bool)

  /** The state before the first character: no output, nothing pending, italics off. */
  function Start<S, G>(): Scanner<S, G> {
    Scanner([], [], false)
  }

  /** The style the source picks for a flush: `italic ? oracleStyle.italic() : oracleStyle`. */
  function Current<S>(styles: Styles<S>, italic: bool): S {
    if italic then styles.italic else styles.plain
  }

  /** The output with the pending text appended as a run, when there is any. */
  function Flushed<S, G>(out: seq<Component<S, G>>, pending: string, style: S): seq<Component<S, G>> {
    if pending == [] then out else out + [Run(style, pending)]
  }

  /** The transition for one lexeme. `(` turns italics on and keeps its character pending;
      `)` always emits an italic run ending in `)` and turns italics off; a space is
      appended and emitted at once; a newline flushes, then emits a run of its own; an
      escape flushes, then emits the lookup of its payload. Only `)` changes the flag back,
      and only `(` and plain characters leave text pending. */
  function Step<S, G>(st: Scanner<S, G>, l: Lexeme, styles: Styles<S>, lookup: string -> G): (r: Scanner<S, G>)
    ensures l.Open? ==> r.italic && r.out == st.out && r.pending == st.pending + "("
    ensures l.Close? ==> !r.italic && r.out == st.out + [Run(styles.italic, st.pending + ")")]
    ensures !l.Open? && !l.Close? ==> r.italic == st.italic
    ensures l.Plain? ==> r.out == st.out && r.pending == st.pending + [l.c]
    ensures !l.Open? && !l.Plain? ==> r.pending == []
    ensures l.Space? ==> r.out == st.out + [Run(Current(styles, st.italic), st.pending + " ")]
    ensures l.Newline? ==> r.out == Flushed(st.out, st.pending, Current(styles, st.italic)) + [Run(Current(styles, st.italic), "\n")]
    ensures l.Escape? ==> r.out == Flushed(st.out, st.pending, Current(styles, st.italic)) + [Glyphs(lookup(l.payload))]
  {
    var style := Current(styles, st.italic);
    match l
    case Open => Scanner(st.out, st.pending + "(", true)
    case Close => Scanner(st.out + [Run(styles.italic, st.pending + ")")], [], false)
    case Newline => Scanner(Flushed(st.out, st.pending, style) + [Run(style, "\n")], [], st.italic)
    case Space => Scanner(st.out + [Run(style, st.pending + " ")], [], st.italic)
    case Escape(p) => Scanner(Flushed(st.out, st.pending, style) + [Glyphs(lookup(p))], [], st.italic)
    case Plain(c) => Scanner(st.out, st.pending + [c], st.italic)
  }

  /** The state after the scanner has consumed the lexemes, one transition each. */
  function ScanFrom<S, G>(st: Scanner<S, G>, ls: seq<Lexeme>, styles: Styles<S>, lookup: string -> G): Scanner<S, G>
    decreases |ls|
  {
    if ls == [] then st else ScanFrom(Step(st, ls[0], styles, lookup), ls[1..], styles, lookup)
  }

  /** The output once the text is exhausted: pending text is flushed in the current style. */
  function Finish<S, G>(st: Scanner<S, G>, styles: Styles<S>): seq<Component<S, G>> {
    Flushed(st.out, st.pending, Current(styles, st.italic))
  }

  /** Scanning the rest of a text from a state: the final output, or the lexing failure. */
  function Continue<S, G>(st: Scanner<S, G>, rest: Result<seq<Lexeme>>, styles: Styles<S>, lookup: string -> G): Result<seq<Component<S, G>>> {
    match rest
    case Failure(f) => Failure(f)
    case Success(ls) => Success(Finish(ScanFrom(st, ls, styles, lookup), styles))
  }

  /** The tokenizer's output for the oracle text: the scan with its final flush, or the
      failure of an unterminated escape. */
  function Tokenize<S, G>(oracle: string, styles: Styles<S>, lookup: string -> G): (r: Result<seq<Component<S, G>>>)
    ensures r.Success? <==> Lex(oracle).Success?
  {
    Continue(Start(), Lex(oracle), styles, lookup)
  }

  // ---------------------------------------------------------------------------
  // The source's loop
  // ---------------------------------------------------------------------------

  /** The loop over the oracle text's characters, with the inner loop that collects an
      escape's payload and the `charAt` that fails when no `}` follows. */
  method TokenizeOracle<S, G>(oracle: string, styles: Styles<S>, lookup: string -> G)
    returns (r: Result<seq<Component<S, G>>>)
    ensures r == Tokenize(oracle, styles, lookup)
  {
    var text: seq<Component<S, G>> := [];
    var italic := false;
    var currentString := "";
    var i := 0;
    ghost var goal := Tokenize(oracle, styles, lookup);
    assert oracle[i..] == oracle;
    while i < |oracle|
      invariant 0 <= i <= |oracle|
      invariant goal == Continue(Scanner(text, currentString, italic), Lex(oracle[i..]), styles, lookup)
    {
      ghost var st := Scanner(text, currentString, italic);
      var c := oracle[i];
      if c == '{' {
        text, currentString, i := ScanEscape(oracle, i, text, currentString, italic, styles, lookup);
        if i == |oracle| {
          // `oracle.charAt(oracle.length())` throws
          return Failure(IndexOutOfBounds);
        }
        i := i + 1;
      } else {
        ContinueChar(st, oracle, i, styles, lookup);
        text, currentString, italic := ScanChar(c, text, currentString, italic, styles, lookup);
        i := i + 1;
      }
    }
    ContinueAtEnd(Scanner(text, currentString, italic), oracle[i..], styles, lookup);
    if currentString != [] {
      text := text + [Run(if italic then styles.italic else styles.plain, currentString)];
      currentString := "";
    }
    r := Success(text);
  }

  /** The `{` case: flushes the pending text, reads the payload up to the next `}` and
      appends its glyphs. It stops at the `}` it consumed, or at the end of the text when
      there is none, where the source's `charAt` fails. */
  method ScanEscape<S, G>(oracle: string, open: nat, text: seq<Component<S, G>>, currentString: string, italic: bool, styles: Styles<S>, lookup: string -> G)
    returns (text': seq<Component<S, G>>, currentString': string, i: nat)
    requires open < |oracle| && oracle[open] == '{'
    ensures open < i <= |oracle|
    ensures i == |oracle| ==>
      Continue(Scanner(text, currentString, italic), Lex(oracle[open..]), styles, lookup) == Failure(IndexOutOfBounds)
    ensures i < |oracle| ==>
      Continue(Scanner(text, currentString, italic), Lex(oracle[open..]), styles, lookup)
      == Continue(Scanner(text', currentString', italic), Lex(oracle[i + 1..]), styles, lookup)
  {
    ghost var st := Scanner(text, currentString, italic);
    var style := if italic then styles.italic else styles.plain;
    text', currentString' := text, currentString;
    if currentString != [] {
      text' := text + [Run(style, currentString)];
      currentString' := "";
    }
    var symbolBuilder;
    symbolBuilder, i := ReadSymbol(oracle, open + 1);
    ContinueEscape(st, oracle, open, i, styles, lookup);
    if i < |oracle| {
      text' := text' + [Glyphs(lookup(symbolBuilder))];
      assert Step(st, Escape(symbolBuilder), styles, lookup) == Scanner(text', currentString', italic);
    }
  }

  /** The inner loop after a `{`: collects characters from `start` up to the next `}` or
      the end of the text, and returns them with the position where it stopped. */
  method ReadSymbol(oracle: string, start: nat) returns (symbolBuilder: string, i: nat)
    requires start <= |oracle|
    ensures start <= i <= |oracle|
    ensures symbolBuilder == oracle[start..i]
    ensures '}' !in symbolBuilder
    ensures i < |oracle| ==> oracle[i] == '}'
  {
    symbolBuilder := "";
    i := start;
    while i < |oracle| && oracle[i] != '}'
      invariant start <= i <= |oracle|
      invariant symbolBuilder == oracle[start..i]
      invariant '}' !in symbolBuilder
    {
      symbolBuilder := symbolBuilder + [oracle[i]];
      i := i + 1;
    }
  }

  /** The switch on one character other than `{`, on the loop's three variables. */
  method ScanChar<S, G>(c: char, text: seq<Component<S, G>>, currentString: string, italic: bool, styles: Styles<S>, ghost lookup: string -> G)
    returns (text': seq<Component<S, G>>, currentString': string, italic': bool)
    requires c != '{'
    ensures Scanner(text', currentString', italic') == Step(Scanner(text, currentString, italic), Single(c), styles, lookup)
  {
    var style := if italic then styles.italic else styles.plain;
    text', currentString', italic' := text, currentString, italic;
    match c {
      case '(' =>
        italic' := true;
        currentString' := currentString + [c];
      case ')' =>
        currentString' := currentString + [c];
        text' := text + [Run(styles.italic, currentString')];
        currentString' := "";
        italic' := false;
      case '\n' =>
        if currentString != [] {
          text' := text + [Run(style, currentString)];
          currentString' := "";
        }
        text' := text' + [Run(style, "\n")];
      case ' ' =>
        currentString' := currentString + [c];
        text' := text + [Run(style, currentString')];
        currentString' := "";
      case _ =>
        currentString' := currentString + [c];
    }
  }

  /** At the end of the text, what remains is the final flush. */
  lemma ContinueAtEnd<S, G>(st: Scanner<S, G>, s: string, styles: Styles<S>, lookup: string -> G)
    requires s == []
    ensures Continue(st, Lex(s), styles, lookup) == Success(Flushed(st.out, st.pending, Current(styles, st.italic)))
  {
  }

  /** Continuing after one lexeme is continuing from the state its transition gives. */
  lemma ContinueStep<S, G>(st: Scanner<S, G>, l: Lexeme, rest: Result<seq<Lexeme>>, styles: Styles<S>, lookup: string -> G)
    ensures Continue(st, PrependTo([l], rest), styles, lookup) == Continue(Step(st, l, styles, lookup), rest, styles, lookup)
  {
    if rest.Success? {
      assert ([l] + rest.value)[1..] == rest.value;
    }
  }

  /** Scanning on from a character that opens no escape is scanning on, after its
      transition, from the next character. */
  lemma ContinueChar<S, G>(st: Scanner<S, G>, s: string, i: nat, styles: Styles<S>, lookup: string -> G)
    requires i < |s| && s[i] != '{'
    ensures Continue(st, Lex(s[i..]), styles, lookup)
         == Continue(Step(st, Single(s[i]), styles, lookup), Lex(s[i + 1..]), styles, lookup)
  {
    LexSingle(s[i], s[i + 1..]);
    assert s[i..] == [s[i]] + s[i + 1..];
    ContinueStep(st, Single(s[i]), Lex(s[i + 1..]), styles, lookup);
  }

  /** Scanning on from an opening `{` whose payload loop stopped at `close`: the failure
      when that is the end of the text, else scanning on after the escape's transition. */
  lemma ContinueEscape<S, G>(st: Scanner<S, G>, s: string, open: nat, close: nat, styles: Styles<S>, lookup: string -> G)
    requires open < close <= |s| && s[open] == '{'
    requires '}' !in s[open + 1..close]
    requires close < |s| ==> s[close] == '}'
    ensures close == |s| ==> Continue(st, Lex(s[open..]), styles, lookup) == Failure(IndexOutOfBounds)
    ensures close < |s| ==>
      Continue(st, Lex(s[open..]), styles, lookup)
      == Continue(Step(st, Escape(s[open + 1..close]), styles, lookup), Lex(s[close + 1..]), styles, lookup)
  {
    EscapeAt(s, open, close);
    if close < |s| {
      ContinueStep(st, Escape(s[open + 1..close]), Lex(s[close + 1..]), styles, lookup);
    }
  }

  /** How the text from an opening `{` lexes, given where the payload loop stopped: at the
      end of the text (the lex fails), or at the `}` that closes the escape. */
  lemma EscapeAt(s: string, open: nat, close: nat)
    requires open < close <= |s| && s[open] == '{'
    requires '}' !in s[open + 1..close]
    requires close < |s| ==> s[close] == '}'
    ensures close == |s| ==> Lex(s[open..]) == Failure(IndexOutOfBounds)
    ensures close < |s| ==> Lex(s[open..]) == PrependTo([Escape(s[open + 1..close])], Lex(s[close + 1..]))
  {
    if close < |s| {
      assert s[open..] == "{" + s[open + 1..close] + "}" + s[close + 1..];
      LexEscape(s[open + 1..close], s[close + 1..]);
    } else {
      assert s[open..][1..] == s[open + 1..close];
    }
  }

  // ---------------------------------------------------------------------------
  // What the output promises
  // ---------------------------------------------------------------------------

  /** The text of all runs, in order; glyph groups contribute nothing. */
  function Texts<S, G>(out: seq<Component<S, G>>): string {
    if out == [] then []
    else (if out[0].Run? then out[0].text else []) + Texts(out[1..])
  }

  /** The glyph groups, in order. */
  function GlyphGroups<S, G>(out: seq<Component<S, G>>): seq<G> {
    if out == [] then []
    else (if out[0].Glyphs? then [out[0].glyphs] else []) + GlyphGroups(out[1..])
  }

  /** The lookup applied to each payload. */
  function Lookups<G>(ps: seq<string>, lookup: string -> G): (gs: seq<G>)
    ensures |gs| == |ps|
    ensures forall i :: 0 <= i < |ps| ==> gs[i] == lookup(ps[i])
  {
    if ps == [] then [] else [lookup(ps[0])] + Lookups(ps[1..], lookup)
  }

  /** Looking up a concatenation is concatenating the lookups. */
  lemma LookupsConcat<G>(ps: seq<string>, qs: seq<string>, lookup: string -> G)
    ensures Lookups(ps + qs, lookup) == Lookups(ps, lookup) + Lookups(qs, lookup)
  {
  }

  lemma {:induction false} TextsSnoc<S, G>(out: seq<Component<S, G>>, c: Component<S, G>)
    ensures Texts(out + [c]) == Texts(out) + (if c.Run? then c.text else [])
    ensures GlyphGroups(out + [c]) == GlyphGroups(out) + (if c.Glyphs? then [c.glyphs] else [])
    decreases |out|
  {
    if out != [] {
      TextsSnoc(out[1..], c);
      assert (out + [c])[1..] == out[1..] + [c];
    }
  }

  /** One transition moves the lexeme's visible characters into the output or the pending
      text, and an escape's lookup into the glyph groups. */
  lemma StepPreserves<S, G>(st: Scanner<S, G>, l: Lexeme, styles: Styles<S>, lookup: string -> G)
    ensures Texts(Step(st, l, styles, lookup).out) + Step(st, l, styles, lookup).pending
         == Texts(st.out) + st.pending + (if l.Escape? then [] else Source(l))
    ensures GlyphGroups(Step(st, l, styles, lookup).out)
         == GlyphGroups(st.out) + (if l.Escape? then [lookup(l.payload)] else [])
  {
    var style := Current(styles, st.italic);
    match l
    case Open =>
    case Plain(c) =>
    case Close => TextsSnoc(st.out, Run(styles.italic, st.pending + ")"));
    case Space => TextsSnoc(st.out, Run(style, st.pending + " "));
    case Newline => FlushedSnoc(st.out, st.pending, style, Run(style, "\n"));
    case Escape(p) => FlushedSnoc(st.out, st.pending, style, Glyphs(lookup(p)));
  }

  /** Flushing the pending text and then appending one component. */
  lemma FlushedSnoc<S, G>(out: seq<Component<S, G>>, pending: string, style: S, c: Component<S, G>)
    ensures Texts(Flushed(out, pending, style) + [c]) == Texts(out) + pending + (if c.Run? then c.text else [])
    ensures GlyphGroups(Flushed(out, pending, style) + [c]) == GlyphGroups(out) + (if c.Glyphs? then [c.glyphs] else [])
  {
    var f := Flushed(out, pending, style);
    if pending != [] { TextsSnoc(out, Run(style, pending)); }
    TextsSnoc(f, c);
  }

  /** Scanning keeps every visible character, in order, in the runs emitted and then the
      pending text. */
  lemma {:induction false} ScanKeepsText<S, G>(st: Scanner<S, G>, ls: seq<Lexeme>, styles: Styles<S>, lookup: string -> G)
    ensures Texts(ScanFrom(st, ls, styles, lookup).out) + ScanFrom(st, ls, styles, lookup).pending
         == Texts(st.out) + st.pending + Visible(ls)
    decreases |ls|
  {
    if ls != [] {
      var l := ls[0];
      var next := Step(st, l, styles, lookup);
      StepPreserves(st, l, styles, lookup);
      ScanKeepsText(next, ls[1..], styles, lookup);
      var shown := if l.Escape? then [] else Source(l);
      assert Visible(ls) == shown + Visible(ls[1..]);
    }
  }

  /** The glyph groups a scan adds are the lookups of the payloads, in order. */
  lemma {:induction false} ScanKeepsGlyphs<S, G>(st: Scanner<S, G>, ls: seq<Lexeme>, styles: Styles<S>, lookup: string -> G)
    ensures GlyphGroups(ScanFrom(st, ls, styles, lookup).out)
         == GlyphGroups(st.out) + Lookups(Payloads(ls), lookup)
    decreases |ls|
  {
    if ls != [] {
      var l := ls[0];
      var next := Step(st, l, styles, lookup);
      StepPreserves(st, l, styles, lookup);
      ScanKeepsGlyphs(next, ls[1..], styles, lookup);
      var found := if l.Escape? then [l.payload] else [];
      assert Payloads(ls) == found + Payloads(ls[1..]);
      LookupsConcat(found, Payloads(ls[1..]), lookup);
    }
  }

  /** Text preservation: when the tokenizer succeeds, its runs spell out the oracle text
      with every `{...}` escape (braces and payload) taken out, and its glyph groups are the
      lookups of the escapes' payloads, in order; the lexemes spell out the oracle text. */
  lemma TokenizePreservesText<S, G>(oracle: string, styles: Styles<S>, lookup: string -> G)
    requires Tokenize(oracle, styles, lookup).Success?
    ensures Unlex(Lex(oracle).value) == oracle
    ensures Texts(Tokenize(oracle, styles, lookup).value) == Visible(Lex(oracle).value)
    ensures GlyphGroups(Tokenize(oracle, styles, lookup).value) == Lookups(Payloads(Lex(oracle).value), lookup)
  {
    LexUnlex(oracle);
    var ls := Lex(oracle).value;
    assert Tokenize(oracle, styles, lookup).value == Finish(ScanFrom(Start(), ls, styles, lookup), styles);
    ScanAllPreserves(ls, styles, lookup);
  }

  /** The whole scan from the start, with its final flush, keeps the visible text and the
      payloads' lookups. */
  lemma ScanAllPreserves<S, G>(ls: seq<Lexeme>, styles: Styles<S>, lookup: string -> G)
    ensures Texts(Finish(ScanFrom(Start(), ls, styles, lookup), styles)) == Visible(ls)
    ensures GlyphGroups(Finish(ScanFrom(Start(), ls, styles, lookup), styles)) == Lookups(Payloads(ls), lookup)
  {
    var st := ScanFrom(Start(), ls, styles, lookup);
    ScanKeepsText(Start(), ls, styles, lookup);
    ScanKeepsGlyphs(Start(), ls, styles, lookup);
    assert Texts<S, G>([]) == [] && GlyphGroups<S, G>([]) == [];
    assert Texts(st.out) + st.pending == Visible(ls);
    if st.pending != [] {
      TextsSnoc(st.out, Run(Current(styles, st.italic), st.pending));
    } else {
      assert Texts(st.out) + st.pending == Texts(st.out);
    }
  }

  /** Without any `{`, the tokenizer succeeds, its runs spell out the oracle text exactly
      and it emits no glyph group. */
  lemma NoEscapeTextPreserved<S, G>(oracle: string, styles: Styles<S>, lookup: string -> G)
    requires '{' !in oracle
    ensures Tokenize(oracle, styles, lookup).Success?
    ensures Texts(Tokenize(oracle, styles, lookup).value) == oracle
    ensures GlyphGroups(Tokenize(oracle, styles, lookup).value) == []
  {
    LexFailsIffUnclosed(oracle);
    TokenizePreservesText(oracle, styles, lookup);
    LexUnlex(oracle);
    NoEscapeLexemes(Lex(oracle).value);
  }

  lemma {:induction false} NoEscapeLexemes(ls: seq<Lexeme>)
    requires '{' !in Unlex(ls)
    ensures Visible(ls) == Unlex(ls)
    ensures Payloads(ls) == []
  {
    if ls != [] {
      assert Unlex(ls) == Source(ls[0]) + Unlex(ls[1..]);
      assert Source(ls[0])[0] == Unlex(ls)[0];
      assert forall c :: c in Unlex(ls[1..]) ==> c in Unlex(ls);
      NoEscapeLexemes(ls[1..]);
    }
  }

  /** The tokenizer fails exactly when the oracle text has a `{` with no `}` after it, and
      then with the out-of-bounds read. */
  lemma TokenizeFailsIffUnclosed<S, G>(oracle: string, styles: Styles<S>, lookup: string -> G)
    ensures Tokenize(oracle, styles, lookup).Failure? <==> exists j :: Unclosed(oracle, j)
    ensures Tokenize(oracle, styles, lookup).Failure? ==> Tokenize(oracle, styles, lookup).fault == IndexOutOfBounds
  {
    LexFailsIffUnclosed(oracle);
    LexFault(oracle);
  }

  /** What a single emitted run looks like. It is never empty. A space, a `)` or a newline
      can only be its last character, so a run holds at most one word; a run holding a
      newline is exactly the newline; and a run holding `(` or `)` is in the italic style. */
  ghost predicate WellFormedRun<S, G>(c: Component<S, G>, styles: Styles<S>) {
    c.Run? ==>
      && c.text != []
      && (forall k :: 0 <= k < |c.text| - 1 ==> c.text[k] != ' ' && c.text[k] != ')' && c.text[k] != '\n')
      && ('\n' in c.text ==> c.text == "\n")
      && ('(' in c.text || ')' in c.text ==> c.style == styles.italic)
  }

  /** What the scanner keeps between lexemes: every run emitted is well formed, the pending
      text holds no space, `)` or newline, and a pending `(` means italics are on. */
  ghost predicate WellFormedScanner<S, G>(st: Scanner<S, G>, styles: Styles<S>) {
    && (forall i :: 0 <= i < |st.out| ==> WellFormedRun(st.out[i], styles))
    && ' ' !in st.pending && ')' !in st.pending && '\n' !in st.pending
    && ('(' in st.pending ==> st.italic)
  }

  /** The pending text, flushed as a run in the current style, is a well-formed run. */
  lemma PendingRunWellFormed<S, G>(st: Scanner<S, G>, styles: Styles<S>)
    requires WellFormedScanner(st, styles)
    requires st.pending != []
    ensures WellFormedRun<S, G>(Run(Current(styles, st.italic), st.pending), styles)
  {
  }

  /** Every transition keeps the scanner well formed. */
  lemma StepWellFormed<S, G>(st: Scanner<S, G>, l: Lexeme, styles: Styles<S>, lookup: string -> G)
    requires Lexical(l)
    requires WellFormedScanner(st, styles)
    ensures WellFormedScanner(Step(st, l, styles, lookup), styles)
  {
    var style := Current(styles, st.italic);
    if st.pending != [] { PendingRunWellFormed(st, styles); }
    match l
    case Open =>
    case Plain(c) =>
    case Close =>
      var t := st.pending + ")";
      assert t[|t| - 1] == ')';
      assert forall k :: 0 <= k < |t| - 1 ==> t[k] == st.pending[k];
      assert WellFormedRun<S, G>(Run(styles.italic, t), styles);
    case Space =>
      var t := st.pending + " ";
      assert forall k :: 0 <= k < |t| - 1 ==> t[k] == st.pending[k];
      assert WellFormedRun<S, G>(Run(style, t), styles);
    case Newline =>
      assert WellFormedRun<S, G>(Run(style, "\n"), styles);
    case Escape(p) =>
  }

  /** Scanning lexical lexemes keeps the scanner well formed. */
  lemma {:induction false} ScanWellFormed<S, G>(st: Scanner<S, G>, ls: seq<Lexeme>, styles: Styles<S>, lookup: string -> G)
    requires forall i :: 0 <= i < |ls| ==> Lexical(ls[i])
    requires WellFormedScanner(st, styles)
    ensures WellFormedScanner(ScanFrom(st, ls, styles, lookup), styles)
    decreases |ls|
  {
    if ls != [] {
      StepWellFormed(st, ls[0], styles, lookup);
      ScanWellFormed(Step(st, ls[0], styles, lookup), ls[1..], styles, lookup);
    }
  }

  /** Every run the tokenizer emits is non-empty; holds a space, `)` or newline only as its
      last character; is exactly `"\n"` when it holds a newline; and is in the italic style
      when it holds a parenthesis. */
  lemma TokenizeRunsWellFormed<S, G>(oracle: string, styles: Styles<S>, lookup: string -> G)
    requires Tokenize(oracle, styles, lookup).Success?
    ensures forall i :: 0 <= i < |Tokenize(oracle, styles, lookup).value| ==> WellFormedRun(Tokenize(oracle, styles, lookup).value[i], styles)
  {
    var ls := Lex(oracle).value;
    LexLexical(oracle);
    ScanWellFormed(Start(), ls, styles, lookup);
    var st := ScanFrom(Start(), ls, styles, lookup);
    if st.pending != [] { PendingRunWellFormed(st, styles); }
  }

  // ---------------------------------------------------------------------------
  // Examples
  // ---------------------------------------------------------------------------

  /** A space ends the word before it: two words give two runs, the space kept on the
      first. */
  lemma SpaceSplitsWords<S, G>(styles: Styles<S>, lookup: string -> G)
    ensures Tokenize("a b", styles, lookup) == Success([Run(styles.plain, "a "), Run(styles.plain, "b")])
  {
    var ls := [Plain('a'), Space, Plain('b')];
    LexWithoutEscapes("a b");
    assert Lex("a b").value == ls;
    var s1: Scanner<S, G> := Scanner([], "a", false);
    var s2: Scanner<S, G> := Scanner([Run(styles.plain, "a ")], [], false);
    var s3: Scanner<S, G> := Scanner([Run(styles.plain, "a ")], "b", false);
    assert Step(s2, Plain('b'), styles, lookup) == s3;
    assert ScanFrom(s2, [Plain('b')], styles, lookup) == s3;
    assert s1.pending + " " == "a ";
    assert Step(s1, Space, styles, lookup) == s2;
    assert ScanFrom(s1, [Space, Plain('b')], styles, lookup) == s3;
    assert Step(Start(), Plain('a'), styles, lookup) == s1;
    assert ls[1..] == [Space, Plain('b')];
    assert ScanFrom(Start(), ls, styles, lookup) == s3;
    assert Finish(s3, styles) == [Run(styles.plain, "a "), Run(styles.plain, "b")];
  }

  /** A lone symbol becomes one glyph group, looked up by its payload. */
  lemma SymbolAlone<S, G>(styles: Styles<S>, lookup: string -> G)
    ensures Tokenize("{T}", styles, lookup) == Success([Glyphs(lookup("T"))])
  {
    var s := "{T}";
    assert s[0] == '{' && s[1..] == "T}" && s[1..2] == "T" && s[3..] == [];
    assert Lex(s[3..]) == Success([]);
    JavaLang.IndexOfFirst(s[1..], '}', 1);
    assert Lex(s) == PrependTo([Escape(s[1..2])], Lex(s[3..]));
    var st: Scanner<S, G> := Scanner([Glyphs(lookup("T"))], [], false);
    assert ScanFrom(st, [], styles, lookup) == st;
    assert ScanFrom(Start(), [Escape("T")], styles, lookup) == st;
  }

  /** An escape left open fails. */
  lemma OpenEscapeFails<S, G>(styles: Styles<S>, lookup: string -> G)
    ensures Tokenize("Pay {2", styles, lookup) == Failure(IndexOutOfBounds)
  {
  }
}
