# Deck builder and layer properties, modelled in Dafny

This project models two parts of a trading-card renderer written in Java.

The first part is the deck builder's entry point, `Main.java`. It reads command-line
options of the form `--key=value` and reads a deck list of lines such as `4x Lightning Bolt`.
It fetches the cards in batches of five names per request. For each card it:

- lower-cases the words of the type line;
- picks the card's kind (creature, land or spell) and the field its colors come from;
- cuts the oracle text into styled runs and symbol glyph groups;
- names the rendered image after a slug of the card name.

The second part is `LayerProperty.java`. It holds the registry from a template element's tag
name to the layer property the element defines. It also holds the three parsers registered
there: the text style of a layer (font, italic font, capitalization, color, size, and the
`shadow` and `outline` children) and the wrap and bounds rectangles.

The files:

- `results.dfy` (module `Results`) holds `Option` and `Result`. A Java runtime exception the
  code does not catch is a `Failure` carrying `NumberFormat` or `IndexOutOfBounds`.
- `java_lang.dfy` (module `JavaLang`) holds the parts of the Java library the code relies on:
  - `Integer.parseInt`, `Integer.decode` and `Integer.toString`, with 32-bit range checks;
  - `String.indexOf` and `contains`;
  - `String.split` with a one-character separator, which drops trailing empty pieces;
  - `toLowerCase(Locale.ROOT)`.
- `oracle_text.dfy` (module `OracleText`) is the oracle-text tokenizer, in three layers:
  - a lexer (`Lex`) cuts the text into lexemes: one per character, and one per `{...}` escape;
  - a transition function (`Step`) is the `switch` of the source, one case per lexeme;
  - `Tokenize` folds the transitions and adds the final flush.

  `TokenizeOracle` is the source's loop, with its inner escape loop, proved equal to
  `Tokenize`. Lemmas then state what the output promises: the text is preserved, it fails
  exactly on an unterminated escape, and the runs are well formed.
- `deck_builder.dfy` (module `DeckBuilder`) covers options, deck lines, the card map,
  request batches, type tokens, archetype, color field and file-name slug. Each loop of the
  source modelled here (options, deck lines, batches, type strings) is a method proved equal
  to a function, and lemmas state that function's properties.
- `layer_property.dfy` (module `LayerProperties`) covers the registry, `WRAP`/`BOUNDS` and
  `STYLE`:
  - the registry is a class whose `map` field `register` updates in place;
  - `WRAP`/`BOUNDS` parse a rectangle;
  - `STYLE` parsing is a method over the element's attributes and children, proved equal to
    a function. The style class's own `build`, `merge` and `Style.EMPTY` are parameters.

In the tokenizer every space ends a run (`Main.java:208-217`). So `"Flying (Reminder text.)"`
gives three runs: `"Flying "`, then `"(Reminder "` and `"text.)"` in italics. Lemma
`SpaceSplitsWords` shows the rule on a short input. An unterminated `{` makes `charAt`
(`Main.java:202`) throw `StringIndexOutOfBoundsException`; the model gives
`Failure(IndexOutOfBounds)`.

## Model

| member | source | states |
|---|---|---|
| JavaLang.ParseInt | src/main/java/dev/hephaestus/proximity/xml/LayerProperty.java:53-56 | `Integer.parseInt` gives only 32-bit values, and the empty string (a missing attribute) fails |
| JavaLang.SignedDigits | src/main/java/dev/hephaestus/deckbuilder/Main.java:67 | a digit string parses exactly when it is non-empty, all its characters are digits of the radix and its signed value fits in an `int`; the value is then that signed value |
| JavaLang.ParseIntRoundTrip | src/main/java/dev/hephaestus/deckbuilder/Main.java:67 | `parseInt` reads back every `int` that `Integer.toString` writes |
| JavaLang.Decode | src/main/java/dev/hephaestus/proximity/xml/LayerProperty.java:33-35 | `Integer.decode` gives only 32-bit values, and the empty string fails |
| JavaLang.DecodeDecimalRoundTrip | src/main/java/dev/hephaestus/proximity/xml/LayerProperty.java:26 | `decode` reads back every `int` written in decimal, sign included |
| JavaLang.DecodeHexRoundTrip | src/main/java/dev/hephaestus/proximity/xml/LayerProperty.java:26 | `decode` reads hexadecimal digits after any of the prefixes `0x`, `0X` and `#` |
| JavaLang.DecodeOctalRoundTrip | src/main/java/dev/hephaestus/proximity/xml/LayerProperty.java:26 | `decode` reads a leading `0` as the octal prefix |
| JavaLang.IndexOf | src/main/java/dev/hephaestus/deckbuilder/Main.java:70 | -1 exactly when the character is absent; otherwise the position of its first occurrence |
| JavaLang.Split | src/main/java/dev/hephaestus/deckbuilder/Main.java:122 | no piece of `split` holds the separator |
| JavaLang.JoinFields | src/main/java/dev/hephaestus/deckbuilder/Main.java:122 | cutting at every separator and joining again gives back the string |
| JavaLang.FieldsJoin | src/main/java/dev/hephaestus/deckbuilder/Main.java:122 | joining pieces free of the separator and cutting again gives back the pieces |
| JavaLang.SplitJoin | src/main/java/dev/hephaestus/deckbuilder/Main.java:122 | the pieces of `split`, joined again, are the string with all its trailing separators removed: a prefix followed only by separators, not itself ending in one |
| JavaLang.SplitEmptyIff | src/main/java/dev/hephaestus/deckbuilder/Main.java:122 | `split` returns no piece exactly for a non-empty string made only of separators |
| JavaLang.SplitFirst | src/main/java/dev/hephaestus/deckbuilder/Main.java:122 | the first piece of `split` is everything before the first separator, or the whole string when there is none |
| JavaLang.Lower | src/main/java/dev/hephaestus/deckbuilder/Main.java:123 | lower-casing keeps the length, maps each ASCII capital to its lower-case letter and keeps every other character |
| JavaLang.LowerJoin | src/main/java/dev/hephaestus/deckbuilder/Main.java:122-124 | lower-casing each word, then joining, equals joining, then lower-casing |
| OracleText.LexLexical | src/main/java/dev/hephaestus/deckbuilder/Main.java:189-207 | an escape's payload never holds `}` |
| OracleText.LexUnlex | src/main/java/dev/hephaestus/deckbuilder/Main.java:149-219 | the lexemes spell out the oracle text, characters and escapes with their braces |
| OracleText.UnlexLex | src/main/java/dev/hephaestus/deckbuilder/Main.java:149-219 | lexing the text that lexical lexemes write gives back those lexemes |
| OracleText.LexFailsIffUnclosed | src/main/java/dev/hephaestus/deckbuilder/Main.java:201-204 | lexing fails exactly when some `{` has no `}` after it |
| OracleText.LexFault | src/main/java/dev/hephaestus/deckbuilder/Main.java:202 | a lexing failure is always the out-of-bounds `charAt` |
| OracleText.LexWithoutEscapes | src/main/java/dev/hephaestus/deckbuilder/Main.java:149-219 | text without `{` lexes to one lexeme per character |
| OracleText.Step | src/main/java/dev/hephaestus/deckbuilder/Main.java:152-219 | the effect of each case:<br>• `(` turns italics on and stays pending;<br>• `)` emits the pending text plus `)` as an italic run and turns italics off;<br>• a space emits the pending text plus the space in the current style;<br>• a newline flushes, then emits `"\n"`;<br>• an escape flushes, then emits the payload's glyphs;<br>• any other character is appended to the pending text |
| OracleText.Tokenize | src/main/java/dev/hephaestus/deckbuilder/Main.java:149-230 | the tokenizer succeeds exactly when its lexing does |
| OracleText.TokenizeOracle | src/main/java/dev/hephaestus/deckbuilder/Main.java:143-230 | the source's loop, with the inner escape loop and the final flush, returns exactly the tokenizer's result |
| OracleText.ScanEscape | src/main/java/dev/hephaestus/deckbuilder/Main.java:189-207 | the `{` case flushes, reads up to the next `}` and appends the glyphs. Scanning continues after the `}`, or the case fails at the end of the text |
| OracleText.ReadSymbol | src/main/java/dev/hephaestus/deckbuilder/Main.java:200-204 | the payload loop collects exactly the characters up to the next `}` or the end of the text |
| OracleText.ScanChar | src/main/java/dev/hephaestus/deckbuilder/Main.java:152-219 | the switch on a character other than `{` makes exactly the transition of its lexeme |
| OracleText.StepPreserves | src/main/java/dev/hephaestus/deckbuilder/Main.java:152-219 | each transition adds its visible characters to the runs and pending text, and adds its payload's glyphs |
| OracleText.ScanKeepsText | src/main/java/dev/hephaestus/deckbuilder/Main.java:149-220 | scanning keeps every visible character, in order, in the runs and then the pending text |
| OracleText.ScanKeepsGlyphs | src/main/java/dev/hephaestus/deckbuilder/Main.java:149-220 | the glyph groups scanning adds are the lookups of the payloads, in order |
| OracleText.TokenizePreservesText | src/main/java/dev/hephaestus/deckbuilder/Main.java:149-230 | the runs spell out the oracle text with every escape removed, and the glyph groups are the payloads' lookups in order |
| OracleText.NoEscapeTextPreserved | src/main/java/dev/hephaestus/deckbuilder/Main.java:149-230 | without `{` the tokenizer succeeds; its runs spell out the text exactly and it emits no glyphs |
| OracleText.TokenizeFailsIffUnclosed | src/main/java/dev/hephaestus/deckbuilder/Main.java:201-204 | the tokenizer fails exactly on a `{` with no `}` after it, never truncating |
| OracleText.StepWellFormed | src/main/java/dev/hephaestus/deckbuilder/Main.java:152-219 | every transition keeps the runs well formed and the pending text free of space, `)` and newline |
| OracleText.TokenizeRunsWellFormed | src/main/java/dev/hephaestus/deckbuilder/Main.java:149-230 | every run is non-empty. A space, `)` or newline can only end it. A run with a newline is exactly `"\n"`, and a run with a parenthesis is italic |
| OracleText.SpaceSplitsWords | src/main/java/dev/hephaestus/deckbuilder/Main.java:208-217 | `"a b"` gives the plain runs `"a "` and `"b"` |
| OracleText.SymbolAlone | src/main/java/dev/hephaestus/deckbuilder/Main.java:189-207 | `"{T}"` gives the one glyph group for `T` |
| OracleText.OpenEscapeFails | src/main/java/dev/hephaestus/deckbuilder/Main.java:201-204 | `"Pay {2"` fails with the out-of-bounds read |
| DeckBuilder.SplitOption | src/main/java/dev/hephaestus/deckbuilder/Main.java:304-305 | the key is the text before the first `=`. The value is everything after that `=` (possibly empty or holding more `=`), or `null` when there is no `=` |
| DeckBuilder.ParseArgs | src/main/java/dev/hephaestus/deckbuilder/Main.java:299-310 | the option loop builds exactly the map of one `put` per `--` argument, in order |
| DeckBuilder.OptionsKeys | src/main/java/dev/hephaestus/deckbuilder/Main.java:302-306 | a key is present exactly when some `--` argument has it; other arguments are ignored |
| DeckBuilder.OptionsLastWins | src/main/java/dev/hephaestus/deckbuilder/Main.java:305 | the value kept for a key is that of the last `--` argument with that key |
| DeckBuilder.MatchLineSpec | src/main/java/dev/hephaestus/deckbuilder/Main.java:61-66 | a line matches `([0-9]+)x (.+)` as a whole with given groups exactly when the matcher returns those groups |
| DeckBuilder.CardName | src/main/java/dev/hephaestus/deckbuilder/Main.java:70 | a name without `(` is kept. A name with `(` is cut one character before the first `(`. A name starting with `(` makes `substring` fail |
| DeckBuilder.ParseLineCount | src/main/java/dev/hephaestus/deckbuilder/Main.java:67 | the count is the decimal value of the digits and never the default 1. A count above `Integer.MAX_VALUE` fails with NumberFormatException |
| DeckBuilder.ReadDeck | src/main/java/dev/hephaestus/deckbuilder/Main.java:58-74 | the line loop returns exactly the card map of the deck list, or the first line's exception |
| DeckBuilder.DeckStopsAt | src/main/java/dev/hephaestus/deckbuilder/Main.java:63-77 | the first line that throws ends the reading with its exception (only an IOException is caught) |
| DeckBuilder.DeckFailureKept | src/main/java/dev/hephaestus/deckbuilder/Main.java:63-77 | later lines never undo a failure |
| DeckBuilder.DeckFailsIff | src/main/java/dev/hephaestus/deckbuilder/Main.java:63-77 | reading fails exactly when some line throws |
| DeckBuilder.DeckKeys | src/main/java/dev/hephaestus/deckbuilder/Main.java:70 | a name is in the card map exactly when some line names it; non-matching lines add nothing |
| DeckBuilder.DeckLastWins | src/main/java/dev/hephaestus/deckbuilder/Main.java:70 | the count kept for a name is that of the last line naming it |
| DeckBuilder.Batches | src/main/java/dev/hephaestus/deckbuilder/Main.java:79-88 | the batching loops produce exactly the consecutive batches of five names |
| DeckBuilder.ChunksFlatten | src/main/java/dev/hephaestus/deckbuilder/Main.java:83-88 | the batches, put together, are the names: none lost, none repeated, order kept |
| DeckBuilder.ChunksSizes | src/main/java/dev/hephaestus/deckbuilder/Main.java:83-88 | every batch holds one to five names, all but the last hold five, and there are ⌈n/5⌉ batches |
| DeckBuilder.TypeHead | src/main/java/dev/hephaestus/deckbuilder/Main.java:122 | the part before the first em dash: a prefix of the type line without em dash, followed by an em dash or the end |
| DeckBuilder.TypeTokensFailIff | src/main/java/dev/hephaestus/deckbuilder/Main.java:122 | the type tokens fail exactly for a non-empty type line made only of em dashes |
| DeckBuilder.TypeStrings | src/main/java/dev/hephaestus/deckbuilder/Main.java:120-124 | the loop that adds each word lower-cased builds exactly the type tokens, or fails when the type line is only em dashes |
| DeckBuilder.TypeTokensSplit | src/main/java/dev/hephaestus/deckbuilder/Main.java:122-123 | the tokens are the pieces `split(" ")` gives for the part before the first em dash, each lower-cased; the last token is empty only when that part is empty |
| DeckBuilder.TypeTokensWords | src/main/java/dev/hephaestus/deckbuilder/Main.java:120-124 | joined with spaces, the tokens spell the lower-cased part before the em dash, up to its trailing spaces. No token holds a space, an em dash or an ASCII capital |
| DeckBuilder.ArchetypeOf | src/main/java/dev/hephaestus/deckbuilder/Main.java:232-238 | the card is a creature exactly when "Creature" occurs in the type line. It is a land exactly when "Land" occurs and "Creature" does not. Otherwise it is a spell |
| DeckBuilder.ColorField | src/main/java/dev/hephaestus/deckbuilder/Main.java:116 | colors come from `color_identity` exactly when "Land" occurs in the type line, else from `colors` |
| DeckBuilder.LandCreature | src/main/java/dev/hephaestus/deckbuilder/Main.java:116-235 | a "Land Creature" is built as a creature but takes its colors from its color identity |
| DeckBuilder.Slug | src/main/java/dev/hephaestus/deckbuilder/Main.java:267 | the slug keeps the length and every character of `[a-zA-Z0-9.\-, ]`, and puts `_` for every other character |
| DeckBuilder.SlugIdempotent | src/main/java/dev/hephaestus/deckbuilder/Main.java:267 | the slug of a slug is the slug |
| DeckBuilder.SlugFixedIff | src/main/java/dev/hephaestus/deckbuilder/Main.java:267 | a name is its own slug exactly when each character is safe or `_` |
| DeckBuilder.SlugExample | src/main/java/dev/hephaestus/deckbuilder/Main.java:267 | "Lightning Bolt (M10)" becomes "Lightning Bolt _M10_" |
| LayerProperties.Registry.constructor | src/main/java/dev/hephaestus/proximity/xml/LayerProperty.java:15 | the registry starts empty |
| LayerProperties.Registry.Get | src/main/java/dev/hephaestus/proximity/xml/LayerProperty.java:84-86 | a lookup finds the property registered under exactly that tag name, or nothing (`null`) |
| LayerProperties.Registry.Register | src/main/java/dev/hephaestus/proximity/xml/LayerProperty.java:73-79 | `register` returns its property. Afterwards every given tag name maps to it, overwriting, and every other tag name keeps its property |
| LayerProperties.StaticInit | src/main/java/dev/hephaestus/proximity/xml/LayerProperty.java:17-79 | static initialisation registers STYLE as "Style", WRAP as "Wrap" and "wrap", and BOUNDS as "Bounds". Each field holds what `register` returned |
| LayerProperties.StaticLookups | src/main/java/dev/hephaestus/proximity/xml/LayerProperty.java:47-71 | exactly four tag names are registered. Lookups are case-sensitive: "wrap" finds WRAP, but "bounds" and "style" find nothing |
| LayerProperties.ParseRectFields | src/main/java/dev/hephaestus/proximity/xml/LayerProperty.java:52-57 | the rectangle parses exactly when `x`, `y`, `width` and `height` all parse, and its fields are their values. Every failure is a NumberFormatException |
| LayerProperties.ParseRectRoundTrip | src/main/java/dev/hephaestus/proximity/xml/LayerProperty.java:64-69 | four coordinates written with `Integer.toString` parse back to the rectangle, whatever else the element holds |
| LayerProperties.ParseRectMissing | src/main/java/dev/hephaestus/proximity/xml/LayerProperty.java:53-56 | a missing coordinate attribute makes the rectangle fail with NumberFormatException |
| LayerProperties.ParseStyle | src/main/java/dev/hephaestus/proximity/xml/LayerProperty.java:19-46 | the source's `STYLE.parse` (attributes, then children, then build and merge) returns exactly the style function's result |
| LayerProperties.ReadAttributes | src/main/java/dev/hephaestus/proximity/xml/LayerProperty.java:20-27 | the setter calls on the element's own attributes build exactly the attribute builder, ending at the first color or size that does not parse |
| LayerProperties.ReadChild | src/main/java/dev/hephaestus/proximity/xml/LayerProperty.java:30-42 | the switch on a child's tag sets the shadow or the outline from the decoded attributes, fails on the first that does not decode, and ignores other tags |
| LayerProperties.DecodeFault | src/main/java/dev/hephaestus/proximity/xml/LayerProperty.java:33-35 | every failure of `Integer.decode` is a NumberFormatException |
| LayerProperties.ChildrenFailIff | src/main/java/dev/hephaestus/proximity/xml/LayerProperty.java:30-42 | the children fail exactly when some `shadow` or `outline` child has an attribute that does not decode |
| LayerProperties.ChildrenKeepAttributes | src/main/java/dev/hephaestus/proximity/xml/LayerProperty.java:30-42 | the children change nothing but the shadow and the outline |
| LayerProperties.LastShadowWins | src/main/java/dev/hephaestus/proximity/xml/LayerProperty.java:32-36 | the shadow comes from the last `shadow` child |
| LayerProperties.ShadowKept | src/main/java/dev/hephaestus/proximity/xml/LayerProperty.java:32-36 | without a `shadow` child the shadow is left as it was |
| LayerProperties.LastOutlineWins | src/main/java/dev/hephaestus/proximity/xml/LayerProperty.java:37-40 | the outline comes from the last `outline` child |
| LayerProperties.OutlineKept | src/main/java/dev/hephaestus/proximity/xml/LayerProperty.java:37-40 | without an `outline` child the outline is left as it was |
| LayerProperties.OtherChildIgnored | src/main/java/dev/hephaestus/proximity/xml/LayerProperty.java:31-41 | a child with any other tag can be removed without changing the outcome |
| LayerProperties.AttributesRead | src/main/java/dev/hephaestus/proximity/xml/LayerProperty.java:22-27 | the builder gets:<br>• the font, or "" when missing;<br>• the italic font and capitalization when present;<br>• the decoded color and parsed size when present.<br>It fails exactly when a present color or size does not parse |
| LayerProperties.StyleUnderParent | src/main/java/dev/hephaestus/proximity/xml/LayerProperty.java:44-45 | a root element's style is its built style. Under a parent it is the parent's style (or `Style.EMPTY`) merged with the built style. The parent never causes a failure |

## Left out

- Reading files, the template resource, JSON and HTTP are left out. This covers `getCardInfo` and its request to the card service, the `not_found` report, the rate-limit sleep before each request (`Main.java:90-102`), writing the PNG files and the progress bar. All are I/O, clocks or concurrency. The deck list comes in as a sequence of lines, and the batches' input order as a sequence of names.
- `HashMap` iteration order is not modelled. `Batches` takes the names in whatever order `cards.keySet()` yields them.
- The `computeIfPresent` update from the service's reply is left out. It depends on the network reply; its pure parts are modelled separately (`TypeTokens`, `ArchetypeOf`, `ColorField`, the tokenizer).
- `Symbols.symbol`, `Template.getStyle`, `Style.italic`, `Color.of`, `TypeContainer` and the card constructors belong to other classes. The tokenizer takes the two oracle styles and a lookup function as parameters. The style class's `build`, `merge` and `Style.EMPTY` are parameters with no law assumed.
- The `"cards"` check at `Main.java:37` is not modelled beyond `OptionsKeys`. A bare `--cards` gives a `null` path and fails only inside file I/O.
- `XMLUtil.apply` and `XMLUtil.iterate` are not part of this model. `apply` is taken to call the setter only when the attribute is present. `iterate` is taken to visit the child elements in order. A missing attribute read with `getAttribute` is the empty string.
- LayerProperties.ParseStyle: the `kerning` attribute (`Float.parseFloat`, `LayerProperty.java:28`) is not read, so a malformed kerning that throws NumberFormatException in the source succeeds here. Floating-point parsing is out of scope.
- LayerProperties.AttributesRead: the same omission of `kerning` applies to the attribute reading it describes.
- LayerProperties.StyleOf: the capitalization is kept as the attribute text. `Style.Capitalization.parse` is not part of this model.
- LayerProperties.ParseRect: `Rectangle` and `Rectangle2D.Double` are both modelled as four `int`s; the conversion to `double` is exact for every `int`.
- JavaLang.Lower: only ASCII letters are mapped. `toLowerCase(Locale.ROOT)` on other scripts is not modelled.
- JavaLang.DigitValue: only ASCII digits and letters are accepted. Java's `Character.digit` also accepts other Unicode digits.
- JavaLang.IndexOf: positions are counted in Unicode code points, while Java's `String.indexOf` counts UTF-16 units; the two differ once a character outside the Basic Multilingual Plane comes before the one searched for.
- DeckBuilder.CardName: the cut one character before the first `(` is one code point here. The source's `substring(0, indexOf('(') - 1)` cuts one UTF-16 unit. For a name such as `A😀(B)`, whose character just before `(` lies outside the Basic Multilingual Plane, the source keeps a lone high surrogate (`"A\uD83D"`), while the model gives `"A"`.
- DeckBuilder.Slug: works on Unicode code points. Java's regular expression also replaces each code point with one `_`, but Java strings count UTF-16 units, so the "same length" statement is in code points.
- DeckBuilder.IsLineTerminator: the regular expression's `.` is taken to exclude exactly Java's line terminators. Lines from `readLine` never hold `\n` or `\r` anyway.
