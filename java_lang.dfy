/** The parts of java.lang that the card builder relies on, stated exactly enough to
    reason about its edge cases: 32-bit integer parsing (`Integer.parseInt`,
    `Integer.decode`), and the string operations `indexOf`, `contains`, `split` on a
    one-character separator and `toLowerCase`. */
module JavaLang {
  import opened Results

  // ---------------------------------------------------------------------------
  // 32-bit integers and digits
  // ---------------------------------------------------------------------------

  const IntMin: int := -0x8000_0000
  const IntMax: int := 0x7fff_ffff

  /** The values a Java `int` can hold. */
  predicate InInt(n: int) {
    IntMin <= n <= IntMax
  }

  type Radix = r: nat | 2 <= r <= 36 witness 10

  /** `Character.digit(c, radix)` restricted to ASCII: `0`-`9`, then letters of either case
      for the digits from ten upwards; `None` when `c` is no digit of the radix. */
  function DigitValue(c: char, radix: Radix): (d: Option<nat>)
    ensures d.Some? ==> d.value < radix
    ensures '0' <= c <= '9' && (c as int - '0' as int) < radix ==> d == Some(c as int - '0' as int)
  {
    var v :=
      if '0' <= c <= '9' then c as int - '0' as int
      else if 'a' <= c <= 'z' then c as int - 'a' as int + 10
      else if 'A' <= c <= 'Z' then c as int - 'A' as int + 10
      else radix as int;
    if v < radix then Some(v) else None
  }

  predicate AllDigits(ds: string, radix: Radix) {
    forall i :: 0 <= i < |ds| ==> DigitValue(ds[i], radix).Some?
  }

  /** The number that the digit string `ds` denotes in the radix, most significant first. */
  function DigitsValue(ds: string, radix: Radix): nat
    requires AllDigits(ds, radix)
  {
    if ds == [] then 0
    else DigitsValue(ds[..|ds| - 1], radix) * radix + DigitValue(ds[|ds| - 1], radix).value
  }

  /** The lower-case digit character for `d`, as `Character.forDigit` gives it. */
  function DigitChar(d: nat): (c: char)
    requires d < 36
    ensures forall radix: Radix :: d < radix ==> DigitValue(c, radix) == Some(d)
  {
    if d < 10 then ('0' as int + d) as char else ('a' as int + d - 10) as char
  }

  /** The shortest digit string of `n` in the radix (`Integer.toString(n, radix)` for n >= 0). */
  function Digits(n: nat, radix: Radix): (ds: string)
    ensures 1 <= |ds| && AllDigits(ds, radix)
    ensures n != 0 ==> ds[0] != '0'
  {
    if n < radix then [DigitChar(n)]
    else
      DivMod(n, radix);
      Digits(n / radix, radix) + [DigitChar(n % radix)]
  }

  /** Reading back the digits that `Digits` writes gives the number it started from. */
  lemma {:induction false} DigitsRoundTrip(n: nat, radix: Radix)
    ensures DigitsValue(Digits(n, radix), radix) == n
  {
    if n < radix {
      assert Digits(n, radix) == [DigitChar(n)];
      assert DigitsValue([DigitChar(n)], radix) == n;
    } else {
      var q, d := n / radix, n % radix;
      var ds, c := Digits(q, radix), DigitChar(d);
      assert Digits(n, radix) == ds + [c];
      DivMod(n, radix);
      DigitsRoundTrip(q, radix);
      DigitsValueSnoc(ds, c, radix);
    }
  }

  lemma DivMod(n: nat, radix: Radix)
    ensures n == (n / radix) * radix + n % radix
    ensures n >= radix ==> 1 <= n / radix < n
  {
  }

  /** One more digit at the end multiplies the value by the radix and adds that digit. */
  lemma DigitsValueSnoc(ds: string, c: char, radix: Radix)
    requires AllDigits(ds, radix) && DigitValue(c, radix).Some?
    ensures AllDigits(ds + [c], radix)
    ensures DigitsValue(ds + [c], radix) == DigitsValue(ds, radix) * radix + DigitValue(c, radix).value
  {
    assert (ds + [c])[..|ds|] == ds;
  }

  /** `Integer.toString(n)`: an optional minus sign and the decimal digits. */
  function ToDecimal(n: int): (s: string)
    ensures 1 <= |s|
  {
    if n < 0 then "-" + Digits(-n, 10) else Digits(n, 10)
  }

  /** The common tail of `parseInt` and `decode`: a non-empty run of digits of the radix,
      negated when a minus sign preceded it, that must fit in an `int`. */
  function SignedDigits(negative: bool, ds: string, radix: Radix): (r: Result<int>)
    ensures r.Success? <==> ds != [] && AllDigits(ds, radix) && InInt(if negative then -(DigitsValue(ds, radix) as int) else DigitsValue(ds, radix))
    ensures r.Success? ==> r.value == if negative then -(DigitsValue(ds, radix) as int) else DigitsValue(ds, radix)
  {
    if ds == [] || !AllDigits(ds, radix) then Failure(NumberFormat)
    else
      var v := if negative then -(DigitsValue(ds, radix) as int) else DigitsValue(ds, radix);
      if InInt(v) then Success(v) else Failure(NumberFormat)
  }

  /** `Integer.parseInt(s)`: an optional `+` or `-`, then one or more decimal digits, whose
      value must fit in an `int`; anything else is a NumberFormatException. */
  function ParseInt(s: string): (r: Result<int>)
    ensures r.Success? ==> InInt(r.value)
    ensures s == [] ==> r == Failure(NumberFormat)
  {
    var signed := |s| > 0 && (s[0] == '-' || s[0] == '+');
    var negative := |s| > 0 && s[0] == '-';
    SignedDigits(negative, s[if signed then 1 else 0..], 10)
  }

  /** What `Integer.toString` writes, `Integer.parseInt` reads back. */
  lemma ParseIntRoundTrip(n: int)
    requires InInt(n)
    ensures ParseInt(ToDecimal(n)) == Success(n)
  {
    if n < 0 {
      ParseNegative(-n);
    } else {
      ParseNonNegative(n);
    }
  }

  lemma ParseNonNegative(n: nat)
    requires n <= IntMax
    ensures ParseInt(Digits(n, 10)) == Success(n)
  {
    var ds := Digits(n, 10);
    assert DigitValue(ds[0], 10).Some?;
    assert ds[0] != '-' && ds[0] != '+' && ds[0..] == ds;
    DigitsRoundTrip(n, 10);
    assert SignedDigits(false, ds, 10) == Success(n);
  }

  lemma ParseNegative(m: nat)
    requires 0 < m <= -IntMin
    ensures ParseInt("-" + Digits(m, 10)) == Success(-(m as int))
  {
    var ds := Digits(m, 10);
    var s := "-" + ds;
    assert s[0] == '-' && s[1..] == ds;
    DigitsRoundTrip(m, 10);
    assert SignedDigits(true, ds, 10) == Success(-(m as int));
  }

  predicate StartsWith(s: string, prefix: string) {
    |prefix| <= |s| && s[..|prefix|] == prefix
  }

  /** `Integer.decode(s)`: an optional sign; then `0x`, `0X` or `#` for hexadecimal, or a
      leading `0` followed by more characters for octal, else decimal; then one or more digits
      of that radix (a second sign is refused), whose signed value must fit in an `int`. */
  function Decode(s: string): (r: Result<int>)
    ensures r.Success? ==> InInt(r.value)
    ensures s == [] ==> r == Failure(NumberFormat)
  {
    if s == [] then Failure(NumberFormat)
    else
      var negative := s[0] == '-';
      var i := if s[0] == '-' || s[0] == '+' then 1 else 0;
      var rest := s[i..];
      if StartsWith(rest, "0x") || StartsWith(rest, "0X") then SignedDigits(negative, rest[2..], 16)
      else if StartsWith(rest, "#") then SignedDigits(negative, rest[1..], 16)
      else if StartsWith(rest, "0") && |rest| > 1 then SignedDigits(negative, rest[1..], 8)
      else SignedDigits(negative, rest, 10)
  }

  /** `Integer.decode` reads back what `Integer.toString` writes. */
  lemma DecodeDecimalRoundTrip(n: int)
    requires InInt(n)
    ensures Decode(ToDecimal(n)) == Success(n)
  {
    var s := ToDecimal(n);
    var ds := Digits(if n < 0 then -n else n, 10);
    DigitsRoundTrip(if n < 0 then -n else n, 10);
    DecimalHasNoPrefix(ds);
    if n < 0 {
      assert s[1..] == ds;
    }
  }

  /** The decimal digits `Integer.toString` writes never look like a radix prefix. */
  lemma DecimalHasNoPrefix(ds: string)
    requires 1 <= |ds| && AllDigits(ds, 10)
    requires |ds| > 1 ==> ds[0] != '0'
    ensures !StartsWith(ds, "0x") && !StartsWith(ds, "0X") && !StartsWith(ds, "#")
    ensures !(StartsWith(ds, "0") && |ds| > 1)
  {
    assert DigitValue(ds[0], 10).Some?;
    if |ds| > 1 {
      assert DigitValue(ds[1], 10).Some?;
      assert ds[..2] == [ds[0], ds[1]];
    }
    assert ds[..1] == [ds[0]];
  }

  /** `Integer.decode` reads a hexadecimal literal written with any of its three prefixes. */
  lemma DecodeHexRoundTrip(n: nat, prefix: string)
    requires n <= IntMax
    requires prefix == "0x" || prefix == "0X" || prefix == "#"
    ensures Decode(prefix + Digits(n, 16)) == Success(n)
  {
    var s := prefix + Digits(n, 16);
    assert s[|prefix|..] == Digits(n, 16);
    assert s[..|prefix|] == prefix;
    assert s[0] == prefix[0];
    DigitsRoundTrip(n, 16);
  }

  /** `Integer.decode` reads a leading `0` as the octal prefix. */
  lemma DecodeOctalRoundTrip(n: nat)
    requires n <= IntMax
    ensures Decode("0" + Digits(n, 8)) == Success(n)
  {
    var ds := Digits(n, 8);
    var s := "0" + ds;
    assert s[0..] == s && s[1..] == ds && s[1] == ds[0];
    assert DigitValue(ds[0], 8).Some?;
    assert s[..2] != "0x" && s[..2] != "0X" && s[..1] != "#";
    assert Decode(s) == SignedDigits(false, ds, 8);
    DigitsRoundTrip(n, 8);
  }

  // ---------------------------------------------------------------------------
  // Strings
  // ---------------------------------------------------------------------------

  /** `s.indexOf(c)`: the first position of `c`, or -1. */
  function IndexOf(s: string, c: char): (k: int)
    ensures -1 <= k < |s|
    ensures k == -1 <==> c !in s
    ensures k >= 0 ==> s[k] == c && c !in s[..k]
  {
    if s == [] then -1
    else if s[0] == c then 0
    else
      var k := IndexOf(s[1..], c);
      if k == -1 then -1 else k + 1
  }

  /** A position holding `c` with no `c` before it is what `indexOf` returns. */
  lemma IndexOfFirst(s: string, c: char, k: nat)
    requires k < |s| && s[k] == c && c !in s[..k]
    ensures IndexOf(s, c) == k
  {
    assert c in s;
    var r := IndexOf(s, c);
    forall j | 0 <= j < k ensures s[j] != c {
      assert s[..k][j] == s[j];
    }
    forall j | 0 <= j < r ensures s[j] != c {
      assert s[..r][j] == s[j];
    }
  }

  predicate OccursAt(s: string, sub: string, i: int) {
    0 <= i && i + |sub| <= |s| && s[i..i + |sub|] == sub
  }

  /** `s.contains(sub)`. */
  function Contains(s: string, sub: string): (b: bool)
    ensures b <==> exists i :: OccursAt(s, sub, i)
    decreases |s|
  {
    if |s| < |sub| then false
    else if s[..|sub|] == sub then assert OccursAt(s, sub, 0); true
    else
      var b := Contains(s[1..], sub);
      if b then
        var i :| OccursAt(s[1..], sub, i);
        assert OccursAt(s, sub, i + 1);
        true
      else
        assert forall i | OccursAt(s, sub, i) :: i >= 1 && OccursAt(s[1..], sub, i - 1);
        false
  }

  /** Every piece of `s` between occurrences of `sep`, empty pieces included. */
  function Fields(s: string, sep: char): (fs: seq<string>)
    ensures 1 <= |fs|
    ensures forall i :: 0 <= i < |fs| ==> sep !in fs[i]
  {
    if s == [] then [[]]
    else if s[0] == sep then [[]] + Fields(s[1..], sep)
    else
      var rest := Fields(s[1..], sep);
      [[s[0]] + rest[0]] + rest[1..]
  }

  /** The pieces put back together with `sep` between them. */
  function Join(fs: seq<string>, sep: char): string {
    if fs == [] then []
    else if |fs| == 1 then fs[0]
    else fs[0] + [sep] + Join(fs[1..], sep)
  }

  /** Cutting at every separator and joining again gives back the string. */
  lemma {:induction false} JoinFields(s: string, sep: char)
    ensures Join(Fields(s, sep), sep) == s
  {
    if s != [] {
      JoinFields(s[1..], sep);
      var rest := Fields(s[1..], sep);
      if s[0] != sep {
        if |rest| == 1 {
        } else {
          assert ([[s[0]] + rest[0]] + rest[1..])[1..] == rest[1..];
          calc {
            Join(Fields(s, sep), sep);
            [s[0]] + rest[0] + [sep] + Join(rest[1..], sep);
            [s[0]] + Join(rest, sep);
          }
        }
      } else {
        assert ([[]] + rest)[1..] == rest;
      }
    }
  }

  /** Joining pieces that hold no separator and cutting again gives back the pieces. */
  lemma {:induction false} FieldsJoin(fs: seq<string>, sep: char)
    requires 1 <= |fs|
    requires forall i :: 0 <= i < |fs| ==> sep !in fs[i]
    ensures Fields(Join(fs, sep), sep) == fs
    decreases |fs|, |fs[0]|
  {
    if fs[0] == [] {
      if |fs| > 1 {
        FieldsJoin(fs[1..], sep);
        FieldsJoinEmptyHead(fs, sep);
      }
    } else {
      var tail := [fs[0][1..]] + fs[1..];
      forall i | 0 <= i < |tail| ensures sep !in tail[i] {
        if i == 0 { assert fs[0] == [fs[0][0]] + fs[0][1..]; }
      }
      FieldsJoin(tail, sep);
      FieldsJoinCharHead(fs, sep);
    }
  }

  /** The step of `FieldsJoin` for an empty first piece. */
  lemma FieldsJoinEmptyHead(fs: seq<string>, sep: char)
    requires 1 < |fs| && fs[0] == []
    requires Fields(Join(fs[1..], sep), sep) == fs[1..]
    ensures Fields(Join(fs, sep), sep) == fs
  {
    assert Join(fs, sep) == [sep] + Join(fs[1..], sep);
    assert [[]] + fs[1..] == fs;
  }

  /** The step of `FieldsJoin` for a first piece that starts with a character. */
  lemma FieldsJoinCharHead(fs: seq<string>, sep: char)
    requires 1 <= |fs| && fs[0] != [] && sep !in fs[0]
    requires Fields(Join([fs[0][1..]] + fs[1..], sep), sep) == [fs[0][1..]] + fs[1..]
    ensures Fields(Join(fs, sep), sep) == fs
  {
    var tail := [fs[0][1..]] + fs[1..];
    JoinHead(fs, sep);
    var s := Join(fs, sep);
    assert s[0] == fs[0][0] && s[1..] == Join(tail, sep);
    assert fs[0][0] != sep by { assert fs[0][0] in fs[0]; }
    assert Fields(s, sep) == [[fs[0][0]] + tail[0]] + tail[1..];
    assert [fs[0][0]] + tail[0] == fs[0] && tail[1..] == fs[1..];
    assert [fs[0]] + fs[1..] == fs;
  }

  /** Joining pieces whose first one is non-empty starts with that piece's first character,
      followed by the join of the pieces with that character cut off. */
  lemma JoinHead(fs: seq<string>, sep: char)
    requires 1 <= |fs| && fs[0] != []
    ensures Join(fs, sep) == [fs[0][0]] + Join([fs[0][1..]] + fs[1..], sep)
  {
    var tail := [fs[0][1..]] + fs[1..];
    assert fs[0] == [fs[0][0]] + fs[0][1..];
    assert tail[1..] == fs[1..];
  }

  /** Drops the empty pieces at the end, as `String.split` does with no limit. */
  function DropTrailingEmpty(fs: seq<string>): (r: seq<string>)
    ensures |r| <= |fs| && r == fs[..|r|]
    ensures r != [] ==> r[|r| - 1] != []
    ensures forall i :: |r| <= i < |fs| ==> fs[i] == []
  {
    if fs == [] || fs[|fs| - 1] != [] then fs else DropTrailingEmpty(fs[..|fs| - 1])
  }

  /** `s.split(sep)` for a one-character separator: when `sep` does not occur, the whole
      string (so `""` gives `[""]`); otherwise the pieces without the empty ones at the end
      (so a string made only of separators gives no piece at all). */
  function Split(s: string, sep: char): (r: seq<string>)
    ensures forall i :: 0 <= i < |r| ==> sep !in r[i]
  {
    if sep !in s then [s] else DropTrailingEmpty(Fields(s, sep))
  }

  /** What `split` returns, joined again, is `s` without its trailing separators: a prefix of
      `s` followed only by separators, and ending in none. */
  lemma SplitJoin(s: string, sep: char)
    ensures StartsWith(s, Join(Split(s, sep), sep))
    ensures forall i :: |Join(Split(s, sep), sep)| <= i < |s| ==> s[i] == sep
    ensures var j := Join(Split(s, sep), sep); j == [] || j[|j| - 1] != sep
  {
    if sep in s {
      var fs := Fields(s, sep);
      JoinFields(s, sep);
      var r := DropTrailingEmpty(fs);
      JoinDropped(fs, |r|, sep);
      if r != [] {
        JoinLast(r, sep);
        var last := r[|r| - 1];
        assert last[|last| - 1] in last;
      }
    }
  }

  /** A join whose last piece is non-empty ends with that piece's last character. */
  lemma {:induction false} JoinLast(fs: seq<string>, sep: char)
    requires fs != [] && fs[|fs| - 1] != []
    ensures Join(fs, sep) != []
    ensures Join(fs, sep)[|Join(fs, sep)| - 1] == fs[|fs| - 1][|fs[|fs| - 1]| - 1]
    decreases |fs|
  {
    if |fs| > 1 {
      JoinLast(fs[1..], sep);
    }
  }

  /** Joining a prefix of the pieces whose dropped rest is empty pieces only loses separators. */
  lemma {:induction false} JoinDropped(fs: seq<string>, n: nat, sep: char)
    requires n <= |fs|
    requires forall i :: n <= i < |fs| ==> fs[i] == []
    ensures StartsWith(Join(fs, sep), Join(fs[..n], sep))
    ensures forall i :: |Join(fs[..n], sep)| <= i < |Join(fs, sep)| ==> Join(fs, sep)[i] == sep
    decreases |fs|
  {
    if n < |fs| {
      var m := |fs| - 1;
      JoinDropped(fs[..m], n, sep);
      assert fs[..m][..n] == fs[..n];
      JoinSnoc(fs[..m], sep);
      assert fs[..m] + [fs[m]] == fs;
    } else {
      assert fs[..n] == fs;
    }
  }

  /** Appending an empty piece to a non-empty list of pieces appends one separator. */
  lemma {:induction false} JoinSnoc(fs: seq<string>, sep: char)
    ensures fs != [] ==> Join(fs + [[]], sep) == Join(fs, sep) + [sep]
    ensures fs == [] ==> Join(fs + [[]], sep) == []
  {
    if |fs| > 1 {
      JoinSnoc(fs[1..], sep);
      assert (fs + [[]])[1..] == fs[1..] + [[]];
    } else if |fs| == 1 {
      assert fs + [[]] == [fs[0], []];
      assert Join([fs[0], []], sep) == fs[0] + [sep] + Join([[]], sep);
    }
  }

  /** `split` gives no piece at all exactly when the string is non-empty and made only of
      separators (then indexing its first piece fails). */
  lemma SplitEmptyIff(s: string, sep: char)
    ensures Split(s, sep) == [] <==> s != [] && forall i :: 0 <= i < |s| ==> s[i] == sep
  {
    if sep in s {
      var fs := Fields(s, sep);
      FieldsAllEmpty(s, sep);
      var r := DropTrailingEmpty(fs);
      assert Split(s, sep) == r;
      if r != [] {
        assert fs[|r| - 1] == r[|r| - 1];
        assert !(forall i :: 0 <= i < |fs| ==> fs[i] == []);
        assert !(forall i :: 0 <= i < |s| ==> s[i] == sep);
      } else {
        assert forall i :: 0 <= i < |fs| ==> fs[i] == [];
        assert forall i :: 0 <= i < |s| ==> s[i] == sep;
        assert s != [];
      }
    } else {
      assert Split(s, sep) == [s];
      if s != [] {
        assert s[0] in s;
      }
    }
  }

  /** All pieces are empty exactly when every character is the separator. */
  lemma {:induction false} FieldsAllEmpty(s: string, sep: char)
    ensures (forall i :: 0 <= i < |Fields(s, sep)| ==> Fields(s, sep)[i] == [])
        <==> (forall i :: 0 <= i < |s| ==> s[i] == sep)
  {
    if s != [] {
      FieldsAllEmpty(s[1..], sep);
      var rest := Fields(s[1..], sep);
      if s[0] == sep {
        var fs := Fields(s, sep);
        assert fs == [[]] + rest;
        forall i | 0 <= i < |rest| ensures fs[i + 1] == rest[i] { }
        forall i | 0 <= i < |s| - 1 ensures s[i + 1] == s[1..][i] { }
        assert (forall i :: 0 <= i < |fs| ==> fs[i] == []) <==> (forall i :: 0 <= i < |rest| ==> rest[i] == []);
        assert (forall i :: 0 <= i < |s| ==> s[i] == sep) <==> (forall i :: 0 <= i < |s[1..]| ==> s[1..][i] == sep);
      } else {
        assert Fields(s, sep)[0] != [];
      }
    }
  }

  /** The first piece of `split` is everything before the first separator. */
  lemma {:induction false} FirstField(s: string, sep: char)
    ensures Fields(s, sep)[0] == if sep in s then s[..IndexOf(s, sep)] else s
  {
    if s != [] && s[0] != sep {
      var rest := s[1..];
      assert s == [s[0]] + rest;
      assert Fields(s, sep)[0] == [s[0]] + Fields(rest, sep)[0];
      FirstField(rest, sep);
      if sep in s {
        assert sep in rest;
        var k := IndexOf(rest, sep);
        assert IndexOf(s, sep) == k + 1;
        assert s[..k + 1] == [s[0]] + rest[..k];
      } else {
        assert sep !in rest;
      }
    }
  }

  /** The first piece `split` returns, when it returns any, is the first of all pieces. */
  lemma SplitFirst(s: string, sep: char)
    requires Split(s, sep) != []
    ensures Split(s, sep)[0] == if sep in s then s[..IndexOf(s, sep)] else s
  {
    FirstField(s, sep);
  }

  predicate IsAsciiUpper(c: char) {
    'A' <= c <= 'Z'
  }

  /** `toLowerCase(Locale.ROOT)` on ASCII letters; every other character is kept. */
  function Lower(s: string): (r: string)
    ensures |r| == |s|
    ensures forall i :: 0 <= i < |s| ==> !IsAsciiUpper(r[i])
    ensures forall i :: 0 <= i < |s| ==> (r[i] == s[i] <==> !IsAsciiUpper(s[i]))
    ensures forall i :: 0 <= i < |s| && IsAsciiUpper(s[i]) ==> r[i] as int == s[i] as int + 32
  {
    seq(|s|, i requires 0 <= i < |s| => if IsAsciiUpper(s[i]) then (s[i] as int + 32) as char else s[i])
  }

  /** Lower-casing works character by character, so it distributes over concatenation. */
  lemma LowerConcat(a: string, b: string)
    ensures Lower(a + b) == Lower(a) + Lower(b)
  {
    assert forall i :: 0 <= i < |a| ==> (a + b)[i] == a[i];
    assert forall i :: 0 <= i < |b| ==> (a + b)[|a| + i] == b[i];
  }

  /** Each piece lower-cased. */
  function LowerEach(fs: seq<string>): seq<string> {
    seq(|fs|, i requires 0 <= i < |fs| => Lower(fs[i]))
  }

  /** Lower-casing the pieces and then joining them with a separator that is no upper-case
      letter is lower-casing the joined string. */
  lemma {:induction false} LowerJoin(fs: seq<string>, sep: char)
    requires !IsAsciiUpper(sep)
    ensures Join(LowerEach(fs), sep) == Lower(Join(fs, sep))
  {
    if |fs| > 1 {
      LowerJoin(fs[1..], sep);
      assert LowerEach(fs)[1..] == LowerEach(fs[1..]);
      LowerConcat(fs[0] + [sep], Join(fs[1..], sep));
      LowerConcat(fs[0], [sep]);
    }
  }
}
