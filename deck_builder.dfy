/** The string and collection helpers of the deck builder's entry point (Main.java): the
    command-line options, the deck-list lines, the batches of names sent per request, the
    type-line words, the card archetype and the file name of a rendered card. */
module DeckBuilder {
  import opened Results
  import JavaLang

  // ---------------------------------------------------------------------------
  // Command-line options (parseArgs)
  // ---------------------------------------------------------------------------

  /** An argument that names an option: it starts with `--`. */
  predicate IsOption(arg: string) {
    JavaLang.StartsWith(arg, "--")
  }

  /** `text.split("=", 2)` as the option parser reads it: the key before the first `=`,
      and everything after that `=` (which may hold more `=`), or no value at all. */
  function SplitOption(text: string): (kv: (string, Option<string>))
    ensures '=' !in kv.0
    ensures kv.1.None? <==> '=' !in text
    ensures kv.1.None? ==> kv.0 == text
    ensures kv.1.Some? ==> text == kv.0 + "=" + kv.1.value
  {
    var k := JavaLang.IndexOf(text, '=');
    if k < 0 then (text, None) else (text[..k], Some(text[k + 1..]))
  }

  /** The key and value an option argument contributes. */
  function OptionOf(arg: string): (string, Option<string>)
    requires IsOption(arg)
  {
    SplitOption(arg[2..])
  }

  /** The option map the arguments give, one `put` per option argument in order. */
  function Options(argArray: seq<string>): map<string, Option<string>>
    decreases |argArray|
  {
    if argArray == [] then map[]
    else
      var before := Options(argArray[..|argArray| - 1]);
      var arg := argArray[|argArray| - 1];
      if IsOption(arg) then before[OptionOf(arg).0 := OptionOf(arg).1] else before
  }

  /** The source's loop filling the option map. */
  method ParseArgs(argArray: seq<string>) returns (args: map<string, Option<string>>)
    ensures args == Options(argArray)
  {
    args := map[];
    var n := 0;
    while n < |argArray|
      invariant 0 <= n <= |argArray|
      invariant args == Options(argArray[..n])
    {
      var arg := argArray[n];
      if JavaLang.StartsWith(arg, "--") {
        var split := SplitOption(arg[2..]);
        args := args[split.0 := split.1];
      }
      assert argArray[..n + 1][..n] == argArray[..n];
      n := n + 1;
    }
    assert argArray[..n] == argArray;
  }

  /** A key is in the option map exactly when some option argument has that key: arguments
      without `--` contribute nothing. */
  lemma {:induction false} OptionsKeys(argArray: seq<string>, key: string)
    ensures key in Options(argArray) <==>
      exists n :: 0 <= n < |argArray| && IsOption(argArray[n]) && OptionOf(argArray[n]).0 == key
    decreases |argArray|
  {
    if argArray != [] {
      var m := |argArray| - 1;
      var init := argArray[..m];
      OptionsKeys(init, key);
      assert forall n :: 0 <= n < m ==> argArray[n] == init[n];
      if IsOption(argArray[m]) && OptionOf(argArray[m]).0 == key {
      } else if key in Options(argArray) {
        var n :| 0 <= n < m && IsOption(init[n]) && OptionOf(init[n]).0 == key;
        assert argArray[n] == init[n];
      }
    }
  }

  /** A later option with the same key overwrites an earlier one: the value kept is the one
      of the last option argument with that key. */
  lemma {:induction false} OptionsLastWins(argArray: seq<string>, n: nat)
    requires n < |argArray| && IsOption(argArray[n])
    requires forall j :: n < j < |argArray| && IsOption(argArray[j]) ==> OptionOf(argArray[j]).0 != OptionOf(argArray[n]).0
    ensures OptionOf(argArray[n]).0 in Options(argArray)
    ensures Options(argArray)[OptionOf(argArray[n]).0] == OptionOf(argArray[n]).1
    decreases |argArray|
  {
    var m := |argArray| - 1;
    if n < m {
      var init := argArray[..m];
      assert init[n] == argArray[n];
      forall j | n < j < |init| && IsOption(init[j]) ensures OptionOf(init[j]).0 != OptionOf(init[n]).0 {
        assert init[j] == argArray[j];
      }
      OptionsLastWins(init, n);
    }
  }

  // ---------------------------------------------------------------------------
  // Deck-list lines
  // ---------------------------------------------------------------------------

  predicate IsAsciiDigit(c: char) {
    '0' <= c <= '9'
  }

  /** The characters the regular-expression `.` does not match: Java's line terminators. */
  predicate IsLineTerminator(c: char) {
    c == '\n' || c == '\r' || c == '\U{0085}' || c == '\U{2028}' || c == '\U{2029}'
  }

  /** `matcher.matches()` for the pattern `([0-9]+)x (.+)` with groups `digits` and `name`:
      the whole line is one or more ASCII digits, `x`, a space, then one or more characters
      none of which ends a line. */
  predicate Matches(line: string, digits: string, name: string) {
    && |digits| >= 1 && (forall i :: 0 <= i < |digits| ==> IsAsciiDigit(digits[i]))
    && |name| >= 1 && (forall i :: 0 <= i < |name| ==> !IsLineTerminator(name[i]))
    && line == digits + "x " + name
  }

  /** The number of ASCII digits the line starts with. */
  function DigitRun(s: string): (k: nat)
    ensures k <= |s|
    ensures forall i :: 0 <= i < k ==> IsAsciiDigit(s[i])
    ensures k < |s| ==> !IsAsciiDigit(s[k])
  {
    if s != [] && IsAsciiDigit(s[0]) then 1 + DigitRun(s[1..]) else 0
  }

  /** The two groups of the deck-line pattern, when the whole line matches it. */
  function MatchLine(line: string): Option<(string, string)> {
    var k := DigitRun(line);
    if 1 <= k && k + 2 < |line| && line[k] == 'x' && line[k + 1] == ' '
       && (forall i :: k + 2 <= i < |line| ==> !IsLineTerminator(line[i]))
    then Some((line[..k], line[k + 2..]))
    else None
  }

  /** `MatchLine` finds exactly the matches of the pattern: a line matches with given groups
      if and only if `MatchLine` returns those groups, so the groups are unique. */
  lemma MatchLineSpec(line: string, digits: string, name: string)
    ensures Matches(line, digits, name) <==> MatchLine(line) == Some((digits, name))
  {
    var k := DigitRun(line);
    if Matches(line, digits, name) {
      assert line[|digits|] == 'x';
      forall i | 0 <= i < |digits| ensures IsAsciiDigit(line[i]) {
        assert line[i] == digits[i];
      }
      assert k == |digits|;
      assert line[..k] == digits;
      assert line[k + 2..] == name;
      forall i | k + 2 <= i < |line| ensures !IsLineTerminator(line[i]) {
        assert line[i] == name[i - k - 2];
      }
    }
    if MatchLine(line) == Some((digits, name)) {
      assert line == line[..k] + "x " + line[k + 2..];
      forall i | 0 <= i < |name| ensures !IsLineTerminator(name[i]) {
        assert name[i] == line[k + 2 + i];
      }
    }
  }

  /** One line of the deck list that names a card: the name it is filed under and how many
      copies it asks for. */
  datatype Entry = Entry(name: string, count: int)

  /** The name a card line is filed under. A name holding `(` is cut at `indexOf('(') - 1`,
      which also drops the character before the `(` (normally the space before a set
      code); when the name starts with `(` that end index is -1 and `substring` fails. */
  function CardName(name: string): (r: Result<string>)
    ensures r.Failure? <==> name != [] && name[0] == '('
    ensures r.Failure? ==> r.fault == IndexOutOfBounds
    ensures r.Success? ==> '(' !in r.value && JavaLang.StartsWith(name, r.value)
    ensures r.Success? && '(' !in name ==> r.value == name
    ensures r.Success? && '(' in name ==> |r.value| + 1 < |name| && name[|r.value| + 1] == '(' && '(' !in name[..|r.value| + 1]
  {
    if '(' in name then
      var k := JavaLang.IndexOf(name, '(');
      if k - 1 < 0 then Failure(IndexOutOfBounds)
      else
        assert name[..k - 1] == name[..k][..k - 1];
        Success(name[..k - 1])
    else Success(name)
  }

  /** One line of the deck list: no entry when the pattern does not match (the source only
      reports the line), else the count from `Integer.parseInt` of the digits, which fails on
      an `int` overflow, and the filed name. */
  function ParseLine(line: string): Result<Option<Entry>> {
    match MatchLine(line)
    case None => Success(None)
    case Some((digits, name)) =>
      match JavaLang.ParseInt(digits)
      case Failure(f) => Failure(f)
      case Success(count) =>
        match CardName(name)
        case Failure(f) => Failure(f)
        case Success(filed) => Success(Some(Entry(filed, count)))
  }

  /** What a matching line gives: the count is the decimal value of the digits when that
      fits in an `int` (so `groupCount() == 2` always holds and the count never defaults to
      1), and the line fails with a NumberFormatException otherwise. */
  lemma ParseLineCount(line: string, digits: string, name: string)
    requires Matches(line, digits, name)
    ensures JavaLang.AllDigits(digits, 10)
    ensures JavaLang.DigitsValue(digits, 10) > JavaLang.IntMax ==> ParseLine(line) == Failure(NumberFormat)
    ensures JavaLang.DigitsValue(digits, 10) <= JavaLang.IntMax && CardName(name).Success? ==>
      ParseLine(line) == Success(Some(Entry(CardName(name).value, JavaLang.DigitsValue(digits, 10))))
  {
    MatchLineSpec(line, digits, name);
    forall i | 0 <= i < |digits| ensures JavaLang.DigitValue(digits[i], 10).Some? {
      assert IsAsciiDigit(digits[i]);
    }
    assert digits[0..] == digits;
  }

  /** A line names the card `name`. */
  predicate Names(line: string, name: string) {
    ParseLine(line).Success? && ParseLine(line).value.Some? && ParseLine(line).value.value.name == name
  }

  /** The card map the deck list gives, one `put` per named card in order; the first line
      that throws ends the reading. */
  function Deck(lines: seq<string>): Result<map<string, int>>
    decreases |lines|
  {
    if lines == [] then Success(map[])
    else
      match Deck(lines[..|lines| - 1])
      case Failure(f) => Failure(f)
      case Success(cards) =>
        match ParseLine(lines[|lines| - 1])
        case Failure(f) => Failure(f)
        case Success(None) => Success(cards)
        case Success(Some(e)) => Success(cards[e.name := e.count])
  }

  /** The source's loop over the deck list's lines. */
  method ReadDeck(lines: seq<string>) returns (r: Result<map<string, int>>)
    ensures r == Deck(lines)
  {
    var cards: map<string, int> := map[];
    var n := 0;
    while n < |lines|
      invariant 0 <= n <= |lines|
      invariant Deck(lines[..n]) == Success(cards)
    {
      assert lines[..n + 1][..n] == lines[..n];
      var line := lines[n];
      var m := MatchLine(line);
      if m.Some? {
        var count := JavaLang.ParseInt(m.value.0);
        if count.Failure? {
          DeckStopsAt(lines, n);
          return Failure(count.fault);
        }
        var cardName := m.value.1;
        var filed := CardName(cardName);
        if filed.Failure? {
          DeckStopsAt(lines, n);
          return Failure(filed.fault);
        }
        cards := cards[filed.value := count.value];
      }
      n := n + 1;
    }
    assert lines[..n] == lines;
    r := Success(cards);
  }

  /** When every line before `n` reads and line `n` throws, reading stops there with that
      line's failure. */
  lemma DeckStopsAt(lines: seq<string>, n: nat)
    requires n < |lines| && Deck(lines[..n]).Success? && ParseLine(lines[n]).Failure?
    ensures Deck(lines) == Failure(ParseLine(lines[n]).fault)
  {
    var upTo := lines[..n + 1];
    assert upTo[..|upTo| - 1] == lines[..n] && upTo[|upTo| - 1] == lines[n];
    assert Deck(upTo) == Failure(ParseLine(lines[n]).fault);
    DeckFailureKept(lines, n + 1);
  }

  /** Once a prefix of the deck list fails, the whole list fails the same way. */
  lemma {:induction false} DeckFailureKept(lines: seq<string>, n: nat)
    requires n <= |lines| && Deck(lines[..n]).Failure?
    ensures Deck(lines) == Deck(lines[..n])
    decreases |lines| - n
  {
    if n < |lines| {
      assert lines[..n + 1][..n] == lines[..n];
      DeckFailureKept(lines, n + 1);
    } else {
      assert lines[..n] == lines;
    }
  }

  /** Reading the deck list fails exactly when some line throws. */
  lemma {:induction false} DeckFailsIff(lines: seq<string>)
    ensures Deck(lines).Failure? <==> exists n :: 0 <= n < |lines| && ParseLine(lines[n]).Failure?
    decreases |lines|
  {
    if lines != [] {
      var m := |lines| - 1;
      var init := lines[..m];
      DeckFailsIff(init);
      assert forall n :: 0 <= n < m ==> lines[n] == init[n];
      if Deck(init).Failure? {
        var n :| 0 <= n < |init| && ParseLine(init[n]).Failure?;
        assert lines[n] == init[n];
      }
    }
  }

  /** A name is in the card map exactly when some line names it. */
  lemma {:induction false} DeckKeys(lines: seq<string>, name: string)
    requires Deck(lines).Success?
    ensures name in Deck(lines).value <==> exists n :: 0 <= n < |lines| && Names(lines[n], name)
    decreases |lines|
  {
    if lines != [] {
      var m := |lines| - 1;
      var init := lines[..m];
      DeckKeys(init, name);
      assert forall n :: 0 <= n < m ==> lines[n] == init[n];
      if !Names(lines[m], name) && name in Deck(lines).value {
        var n :| 0 <= n < m && Names(init[n], name);
        assert lines[n] == init[n];
      }
    }
  }

  /** A later line naming the same card overwrites an earlier one: the count kept is the one
      of the last line naming it. */
  lemma {:induction false} DeckLastWins(lines: seq<string>, n: nat)
    requires Deck(lines).Success?
    requires n < |lines| && ParseLine(lines[n]).Success? && ParseLine(lines[n]).value.Some?
    requires forall j :: n < j < |lines| ==> !Names(lines[j], ParseLine(lines[n]).value.value.name)
    ensures ParseLine(lines[n]).value.value.name in Deck(lines).value
    ensures Deck(lines).value[ParseLine(lines[n]).value.value.name] == ParseLine(lines[n]).value.value.count
    decreases |lines|
  {
    var m := |lines| - 1;
    if n < m {
      var init := lines[..m];
      assert init[n] == lines[n];
      forall j | n < j < |init| ensures !Names(init[j], ParseLine(init[n]).value.value.name) {
        assert init[j] == lines[j];
      }
      DeckLastWins(init, n);
    }
  }

  // ---------------------------------------------------------------------------
  // Request batches
  // ---------------------------------------------------------------------------

  /** The names cut into consecutive batches of five, the last one holding what is left. */
  function Chunks(names: seq<string>): seq<seq<string>>
    decreases |names|
  {
    if names == [] then []
    else
      var k := if |names| < 5 then |names| else 5;
      [names[..k]] + Chunks(names[k..])
  }

  /** The batches in order, put back together. */
  function Flatten(batches: seq<seq<string>>): seq<string> {
    if batches == [] then [] else batches[0] + Flatten(batches[1..])
  }

  /** The source's batching loop: the outer loop runs while names are left, and the inner one
      pops up to five of them from the front of the deque into one request. */
  method Batches(names: seq<string>) returns (batches: seq<seq<string>>)
    ensures batches == Chunks(names)
  {
    var cardsList := names;
    batches := [];
    while cardsList != []
      invariant batches + Chunks(cardsList) == Chunks(names)
      decreases |cardsList|
    {
      ghost var left := cardsList;
      var cycleCards: seq<string> := [];
      var i := 0;
      while i < 5 && cardsList != []
        invariant 0 <= i <= 5 && |cycleCards| == i
        invariant cycleCards + cardsList == left
        decreases 5 - i
      {
        cycleCards := cycleCards + [cardsList[0]];
        cardsList := cardsList[1..];
        i := i + 1;
      }
      assert cycleCards == left[..|cycleCards|] && cardsList == left[|cycleCards|..];
      batches := batches + [cycleCards];
    }
  }

  /** Batching loses no name, repeats none and keeps their order. */
  lemma {:induction false} ChunksFlatten(names: seq<string>)
    ensures Flatten(Chunks(names)) == names
    decreases |names|
  {
    if names != [] {
      var k := if |names| < 5 then |names| else 5;
      ChunksFlatten(names[k..]);
      assert Chunks(names)[1..] == Chunks(names[k..]);
      assert names[..k] + names[k..] == names;
    }
  }

  /** Every batch holds one to five names, and every batch but the last holds five. */
  lemma {:induction false} ChunksSizes(names: seq<string>)
    ensures forall b :: 0 <= b < |Chunks(names)| ==> 1 <= |Chunks(names)[b]| <= 5
    ensures forall b :: 0 <= b < |Chunks(names)| - 1 ==> |Chunks(names)[b]| == 5
    ensures |Chunks(names)| == (|names| + 4) / 5
    decreases |names|
  {
    if names != [] {
      var k := if |names| < 5 then |names| else 5;
      ChunksSizes(names[k..]);
      var cs := Chunks(names);
      assert cs == [names[..k]] + Chunks(names[k..]);
      assert forall b :: 1 <= b < |cs| ==> cs[b] == Chunks(names[k..])[b - 1];
      if k < 5 {
        assert Chunks(names[k..]) == [];
      }
    }
  }

  // ---------------------------------------------------------------------------
  // Type lines and archetypes
  // ---------------------------------------------------------------------------

  /** The em dash between a card's types and its subtypes. */
  const EmDash: char := '\U{2014}'

  /** The part of a type line before its first em dash. */
  function TypeHead(typeLine: string): (head: string)
    ensures EmDash !in head
    ensures JavaLang.StartsWith(typeLine, head)
    ensures |head| < |typeLine| ==> typeLine[|head|] == EmDash
  {
    if EmDash in typeLine then
      var k := JavaLang.IndexOf(typeLine, EmDash);
      assert typeLine[..k][..k] == typeLine[..k];
      typeLine[..k]
    else typeLine
  }

  /** `typeLine.split("—")[0].split(" ")`, each word lower-cased. The first `split` gives no
      piece at all for a line made only of em dashes, and indexing it fails. */
  function TypeTokens(typeLine: string): Result<seq<string>> {
    var parts := JavaLang.Split(typeLine, EmDash);
    if |parts| == 0 then Failure(IndexOutOfBounds)
    else Success(JavaLang.LowerEach(JavaLang.Split(parts[0], ' ')))
  }

  /** Type tokens fail exactly for a non-empty type line made only of em dashes. */
  lemma TypeTokensFailIff(typeLine: string)
    ensures TypeTokens(typeLine).Failure? <==>
      typeLine != [] && forall i :: 0 <= i < |typeLine| ==> typeLine[i] == EmDash
  {
    JavaLang.SplitEmptyIff(typeLine, EmDash);
  }

  /** The type tokens are the pieces `split(" ")` cuts from the part before the first em
      dash, each lower-cased. Since `split` drops the empty pieces at the end, the last token
      is empty only when that part is empty. */
  lemma TypeTokensSplit(typeLine: string)
    requires TypeTokens(typeLine).Success?
    ensures TypeTokens(typeLine).value == JavaLang.LowerEach(JavaLang.Split(TypeHead(typeLine), ' '))
    ensures var tokens := TypeTokens(typeLine).value;
      tokens != [] && tokens[|tokens| - 1] == [] ==> TypeHead(typeLine) == []
  {
    var head := TypeHead(typeLine);
    JavaLang.SplitFirst(typeLine, EmDash);
    if ' ' !in head {
      assert JavaLang.Split(head, ' ') == [head];
    }
  }

  /** The type tokens are the words of the part before the first em dash, lower-cased and in
      order: joined with spaces they spell that part lower-cased, up to the spaces at its end,
      which `split` drops. No token holds a space or an em dash or an upper-case letter. */
  lemma TypeTokensWords(typeLine: string)
    requires TypeTokens(typeLine).Success?
    ensures var tokens := TypeTokens(typeLine).value;
      && JavaLang.StartsWith(JavaLang.Lower(TypeHead(typeLine)), JavaLang.Join(tokens, ' '))
      && (forall i :: |JavaLang.Join(tokens, ' ')| <= i < |TypeHead(typeLine)| ==> TypeHead(typeLine)[i] == ' ')
    ensures forall t :: 0 <= t < |TypeTokens(typeLine).value| ==>
      var token := TypeTokens(typeLine).value[t];
      ' ' !in token && EmDash !in token && forall i :: 0 <= i < |token| ==> !JavaLang.IsAsciiUpper(token[i])
  {
    var head := TypeHead(typeLine);
    JavaLang.SplitFirst(typeLine, EmDash);
    var words := JavaLang.Split(head, ' ');
    var tokens := TypeTokens(typeLine).value;
    assert tokens == JavaLang.LowerEach(words);
    HeadWordsJoin(head);
    forall t | 0 <= t < |tokens|
      ensures ' ' !in tokens[t] && EmDash !in tokens[t] && forall i :: 0 <= i < |tokens[t]| ==> !JavaLang.IsAsciiUpper(tokens[t][i])
    {
      assert tokens[t] == JavaLang.Lower(words[t]);
      WordChars(head, t);
    }
  }

  /** The words of `head`, lower-cased and joined with spaces, spell `head` lower-cased up to
      its trailing spaces. */
  lemma HeadWordsJoin(head: string)
    ensures var joined := JavaLang.Join(JavaLang.LowerEach(JavaLang.Split(head, ' ')), ' ');
      && JavaLang.StartsWith(JavaLang.Lower(head), joined)
      && forall i :: |joined| <= i < |head| ==> head[i] == ' '
  {
    var words := JavaLang.Split(head, ' ');
    JavaLang.SplitJoin(head, ' ');
    JavaLang.LowerJoin(words, ' ');
    var joined := JavaLang.Join(words, ' ');
    assert head[..|joined|] == joined;
    assert JavaLang.Lower(head)[..|joined|] == JavaLang.Lower(joined);
  }

  /** A word of a head without em dash, lower-cased, holds no space, em dash or capital. */
  lemma WordChars(head: string, t: nat)
    requires EmDash !in head && t < |JavaLang.Split(head, ' ')|
    ensures var word := JavaLang.Lower(JavaLang.Split(head, ' ')[t]);
      ' ' !in word && EmDash !in word && forall i :: 0 <= i < |word| ==> !JavaLang.IsAsciiUpper(word[i])
  {
    var words := JavaLang.Split(head, ' ');
    JavaLang.SplitJoin(head, ' ');
    WordInJoin(words, t, ' ');
    assert forall c :: c in words[t] ==> c in head;
    LowerKeeps(words[t], EmDash);
    LowerKeeps(words[t], ' ');
  }

  /** The loop that collects the type strings: each word of the part before the first em
      dash, lower-cased, added in turn to the list. */
  method TypeStrings(typeLine: string) returns (r: Result<seq<string>>)
    ensures r == TypeTokens(typeLine)
  {
    var parts := JavaLang.Split(typeLine, EmDash);
    if |parts| == 0 {
      return Failure(IndexOutOfBounds);
    }
    var words := JavaLang.Split(parts[0], ' ');
    var typeStrings: seq<string> := [];
    var i := 0;
    while i < |words|
      invariant 0 <= i <= |words|
      invariant typeStrings == JavaLang.LowerEach(words[..i])
    {
      assert words[..i + 1] == words[..i] + [words[i]];
      typeStrings := typeStrings + [JavaLang.Lower(words[i])];
      i := i + 1;
    }
    assert words[..i] == words;
    return Success(typeStrings);
  }

  /** Every character of a piece is a character of the joined string. */
  lemma {:induction false} WordInJoin(fs: seq<string>, t: nat, sep: char)
    requires t < |fs|
    ensures forall c :: c in fs[t] ==> c in JavaLang.Join(fs, sep)
    decreases |fs|
  {
    if t > 0 {
      WordInJoin(fs[1..], t - 1, sep);
    }
  }

  /** Lower-casing does not produce a character that is no upper-case letter. */
  lemma LowerKeeps(s: string, c: char)
    requires !JavaLang.IsAsciiUpper(c) && !('a' <= c <= 'z') && c !in s
    ensures c !in JavaLang.Lower(s)
  {
    forall i | 0 <= i < |s| ensures JavaLang.Lower(s)[i] != c {
      assert s[i] in s;
    }
  }

  /** The three kinds of card the builder constructs. */
  datatype Archetype = CreatureCard | LandCard | SpellCard

  /** The card kind for a type line: "Creature" is looked for first, so a land creature is a
      creature; then "Land"; everything else is a spell. */
  function ArchetypeOf(typeLine: string): (a: Archetype)
    ensures a == CreatureCard <==> exists i :: JavaLang.OccursAt(typeLine, "Creature", i)
    ensures a == LandCard <==>
      (!exists i :: JavaLang.OccursAt(typeLine, "Creature", i)) && exists i :: JavaLang.OccursAt(typeLine, "Land", i)
    ensures a == SpellCard <==>
      (!exists i :: JavaLang.OccursAt(typeLine, "Creature", i)) && !exists i :: JavaLang.OccursAt(typeLine, "Land", i)
  {
    if JavaLang.Contains(typeLine, "Creature") then CreatureCard
    else if JavaLang.Contains(typeLine, "Land") then LandCard
    else SpellCard
  }

  /** The card-data field the colors are read from: the color identity for a type line
      holding "Land" (a land creature included), the colors otherwise. */
  function ColorField(typeLine: string): (field: string)
    ensures field == "color_identity" <==> exists i :: JavaLang.OccursAt(typeLine, "Land", i)
    ensures field == "colors" <==> !exists i :: JavaLang.OccursAt(typeLine, "Land", i)
  {
    if JavaLang.Contains(typeLine, "Land") then "color_identity" else "colors"
  }

  /** A land creature is built as a creature, but its colors come from its color identity. */
  lemma LandCreature()
    ensures ArchetypeOf("Land Creature") == CreatureCard
    ensures ColorField("Land Creature") == "color_identity"
  {
    assert JavaLang.OccursAt("Land Creature", "Creature", 5);
    assert JavaLang.OccursAt("Land Creature", "Land", 0);
  }

  // ---------------------------------------------------------------------------
  // Output file names
  // ---------------------------------------------------------------------------

  /** The characters `[a-zA-Z0-9.\-, ]` that a file name keeps. */
  predicate SlugSafe(c: char) {
    ('a' <= c <= 'z') || ('A' <= c <= 'Z') || ('0' <= c <= '9') || c == '.' || c == '-' || c == ',' || c == ' '
  }

  /** `replaceAll("[^a-zA-Z0-9.\\-, ]", "_")`: every character outside the class becomes
      `_`, one `_` per character, so the length is kept. */
  function Slug(name: string): (r: string)
    ensures |r| == |name|
    ensures forall i :: 0 <= i < |name| ==> SlugSafe(name[i]) ==> r[i] == name[i]
    ensures forall i :: 0 <= i < |name| ==> !SlugSafe(name[i]) ==> r[i] == '_'
  {
    seq(|name|, i requires 0 <= i < |name| => if SlugSafe(name[i]) then name[i] else '_')
  }

  /** Applying the slug twice is applying it once. */
  lemma SlugIdempotent(name: string)
    ensures Slug(Slug(name)) == Slug(name)
  {
  }

  /** A name is its own slug exactly when each of its characters is safe or `_`; the
      slugs are exactly these names. */
  lemma SlugFixedIff(name: string)
    ensures Slug(name) == name <==> forall i :: 0 <= i < |name| ==> SlugSafe(name[i]) || name[i] == '_'
  {
    if Slug(name) == name {
      assert forall i :: 0 <= i < |name| ==> Slug(name)[i] == name[i];
    }
  }

  /** Parentheses become underscores, while spaces, digits and letters stay. */
  lemma SlugExample()
    ensures Slug("Lightning Bolt (M10)") == "Lightning Bolt _M10_"
  {
  }
}
