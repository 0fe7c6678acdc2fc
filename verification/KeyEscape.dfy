/**
 Escaping of secret keys: `convert` writes a rune that a Kubernetes secret key may not hold
 as `_Uhhhh_`, and `reverse` reads such escapes back.

 A Dafny `char` is a Unicode scalar value, so a `string` is a Go string of valid UTF-8 seen
 as its runes.
 */
module KeyEscape {
  import opened Wrappers

  // ---------------------------------------------------------------- characters

  predicate IsAsciiAlnum(c: char) {
    '0' <= c <= '9' || 'a' <= c <= 'z' || 'A' <= c <= 'Z'
  }

  /** `unicode.IsLetter` or `unicode.IsNumber`: any table that holds of ASCII letters and digits. */
  type LetterOrNumber = t: char -> bool | forall c :: IsAsciiAlnum(c) ==> t(c) witness (c: char) => true

  predicate Legal(t: LetterOrNumber, c: char) {
    t(c) || c == '-' || c == '.' || c == '_'
  }

  /** The ten digits and the 26 letters of either case are permitted under any table. */
  lemma AsciiIsLegal(t: LetterOrNumber, i: nat)
    requires i < 26
    ensures Legal(t, ('a' as int + i) as char) && Legal(t, ('A' as int + i) as char)
    ensures i < 10 ==> Legal(t, ('0' as int + i) as char)
  {
    assert IsAsciiAlnum(('a' as int + i) as char) && IsAsciiAlnum(('A' as int + i) as char);
    assert i < 10 ==> IsAsciiAlnum(('0' as int + i) as char);
  }

  predicate AllLegal(t: LetterOrNumber, s: string) {
    forall i :: 0 <= i < |s| ==> Legal(t, s[i])
  }

  predicate IsHexDigit(c: char) {
    '0' <= c <= '9' || 'a' <= c <= 'f' || 'A' <= c <= 'F'
  }

  predicate AllHex(s: string) {
    forall i :: 0 <= i < |s| ==> IsHexDigit(s[i])
  }

  // ---------------------------------------------------------------- hexadecimal

  function HexDigit(d: nat): char
    requires d < 16
  {
    "0123456789abcdef"[d]
  }

  function DigitValue(c: char): nat
    requires IsHexDigit(c)
  {
    if '0' <= c <= '9' then c as int - '0' as int
    else if 'a' <= c <= 'f' then c as int - 'a' as int + 10
    else c as int - 'A' as int + 10
  }

  function Pow16(w: nat): nat {
    if w == 0 then 1 else 16 * Pow16(w - 1)
  }

  /** The low `w` hexadecimal digits of `n`, lower case. */
  function Hex(n: nat, w: nat): string {
    if w == 0 then [] else Hex(n / 16, w - 1) + [HexDigit(n % 16)]
  }

  function HexValue(s: string): nat
    requires AllHex(s)
  {
    if s == [] then 0 else 16 * HexValue(s[..|s| - 1]) + DigitValue(s[|s| - 1])
  }

  const LOWER_DIGITS := "0123456789abcdef"
  const UPPER_DIGITS := "0123456789ABCDEF"

  /** Each hexadecimal digit, of either case, is worth its place, and the lower-case ones are printed. */
  lemma DigitIsWorthItsPlace(d: nat)
    requires d < 16
    ensures IsHexDigit(LOWER_DIGITS[d]) && DigitValue(LOWER_DIGITS[d]) == d && HexDigit(d) == LOWER_DIGITS[d]
    ensures IsHexDigit(UPPER_DIGITS[d]) && DigitValue(UPPER_DIGITS[d]) == d
  {
  }

  /** There are no other hexadecimal digits. */
  lemma NoOtherDigits(c: char)
    requires IsHexDigit(c)
    ensures c in LOWER_DIGITS || c in UPPER_DIGITS
  {
    var v := DigitValue(c);
    assert v < 16 && (LOWER_DIGITS[v] == c || UPPER_DIGITS[v] == c);
  }

  lemma {:induction false} HexIsHex(n: nat, w: nat)
    ensures |Hex(n, w)| == w && AllHex(Hex(n, w))
  {
    if w > 0 {
      HexIsHex(n / 16, w - 1);
    }
  }

  lemma {:induction false} HexValueOfHex(n: nat, w: nat)
    requires n < Pow16(w)
    ensures AllHex(Hex(n, w)) && HexValue(Hex(n, w)) == n
  {
    HexIsHex(n, w);
    if w > 0 {
      HexIsHex(n / 16, w - 1);
      HexValueOfHex(n / 16, w - 1);
      assert Hex(n, w)[..w - 1] == Hex(n / 16, w - 1);
    }
  }

  lemma {:induction false} HexValueBound(s: string)
    requires AllHex(s)
    ensures HexValue(s) < Pow16(|s|)
  {
    if s != [] {
      HexValueBound(s[..|s| - 1]);
    }
  }

  lemma SmallPowers()
    ensures Pow16(4) == 0x10000 && Pow16(5) == 0x10_0000
  {
    assert Pow16(2) == 256;
    assert Pow16(3) == 4096;
  }

  // ---------------------------------------------------------------- convert

  /** `ExternalSecretConversionStrategy`; any string but the two names leaves keys alone. */
  datatype ConversionStrategy = Default | Unicode | OtherConversion

  /** How many digits `%04x` prints: at least four, and as many as the number needs. */
  function HexWidth(c: char): nat {
    if c as int < 0x10000 then 4 else if c as int < 0x10_0000 then 5 else 6
  }

  function Escape(c: char): string {
    "_U" + Hex(c as int, HexWidth(c)) + "_"
  }

  function ConvertRune(t: LetterOrNumber, strategy: ConversionStrategy, c: char): string {
    if Legal(t, c) then [c]
    else match strategy
      case Default => "_"
      case Unicode => Escape(c)
      case OtherConversion => [c]
  }

  function Convert(t: LetterOrNumber, strategy: ConversionStrategy, s: string): string {
    if s == [] then [] else ConvertRune(t, strategy, s[0]) + Convert(t, strategy, s[1..])
  }

  /** `strings.Join(parts, "")`. */
  function Join(parts: seq<string>): string {
    if parts == [] then [] else parts[0] + Join(parts[1..])
  }

  lemma {:induction false} JoinOfRunes(t: LetterOrNumber, strategy: ConversionStrategy, s: string, parts: seq<string>)
    requires |parts| == |s| && forall i :: 0 <= i < |s| ==> parts[i] == ConvertRune(t, strategy, s[i])
    ensures Join(parts) == Convert(t, strategy, s)
  {
    if s != [] {
      JoinOfRunes(t, strategy, s[1..], parts[1..]);
    }
  }

  /** `convert`: fills one slot for each rune, then joins the slots. */
  method ConvertKey(t: LetterOrNumber, strategy: ConversionStrategy, str: string) returns (r: string)
    ensures r == Convert(t, strategy, str)
  {
    var newName := new string[|str|];
    for rk := 0 to |str|
      invariant forall i :: 0 <= i < rk ==> newName[i] == ConvertRune(t, strategy, str[i])
    {
      var rv := str[rk];
      if !t(rv) && rv != '-' && rv != '.' && rv != '_' {
        match strategy
        case Default => newName[rk] := "_";
        case Unicode => newName[rk] := "_U" + Hex(rv as int, HexWidth(rv)) + "_";
        case OtherConversion => newName[rk] := [rv];
      } else {
        newName[rk] := [rv];
      }
    }
    JoinOfRunes(t, strategy, str, newName[..]);
    r := Join(newName[..]);
  }

  lemma {:induction false} EscapeShape(t: LetterOrNumber, c: char)
    ensures var e := Escape(c);
            && |e| == HexWidth(c) + 3 && e[0] == '_' && e[1] == 'U' && e[|e| - 1] == '_'
            && e[2..|e| - 1] == Hex(c as int, HexWidth(c)) && AllHex(e[2..|e| - 1])
            && AllLegal(t, e)
  {
    HexIsHex(c as int, HexWidth(c));
  }

  /** Whatever the strategy Default or Unicode leaves behind holds only permitted characters. */
  lemma {:induction false} ConvertIsLegal(t: LetterOrNumber, strategy: ConversionStrategy, s: string)
    requires strategy != OtherConversion
    ensures AllLegal(t, Convert(t, strategy, s))
  {
    if s != [] {
      EscapeShape(t, s[0]);
      ConvertIsLegal(t, strategy, s[1..]);
    }
  }

  /** Default replaces each forbidden rune in place; an unknown strategy changes nothing. */
  lemma {:induction false} ConvertInPlace(t: LetterOrNumber, s: string, i: nat)
    requires i < |s|
    ensures |Convert(t, Default, s)| == |s| && Convert(t, Default, s)[i] == if Legal(t, s[i]) then s[i] else '_'
    ensures Convert(t, OtherConversion, s) == s
  {
    if |s| > 1 {
      ConvertInPlace(t, s[1..], if i == 0 then 0 else i - 1);
    } else {
      assert s[1..] == [];
    }
  }

  lemma HexOneMore(n: nat, w: nat)
    requires w > 0
    ensures Hex(n, w) == Hex(n / 16, w - 1) + [HexDigit(n % 16)]
  {
  }

  /** Escapes are in lower case, padded to four digits, and longer only if they have to be. */
  lemma EscapeExamples()
    ensures Escape('[') == "_U" + "005b" + "_" == "_U005b_"
    ensures Escape('\U{1F600}') == "_U" + "1f600" + "_" == "_U1f600_"
  {
    PaddedExample();
    LongExample();
  }

  lemma PaddedExample()
    ensures Hex(0x5b, 4) == "005b"
  {
    HexOneMore(0, 1);
    HexOneMore(0, 2);
    HexOneMore(0x5, 3);
    HexOneMore(0x5b, 4);
  }

  lemma LongExample()
    ensures Hex(0x1f600, 5) == "1f600"
  {
    HexOneMore(1, 1);
    HexOneMore(0x1f, 2);
    HexOneMore(0x1f6, 3);
    HexOneMore(0x1f60, 4);
    HexOneMore(0x1f600, 5);
  }

  // ---------------------------------------------------------------- the escape pattern

  /**
   The length of the match of `_U([0-9a-fA-F]{4,5})_` at the head of `s`, or 0. Five digits are
   tried first; `_` is no digit, so at most one of the two lengths can match.
   */
  function MatchLength(s: string): (n: nat)
    ensures n == 0 || (n in {7, 8} && n <= |s| && s[0] == '_' && s[1] == 'U' && s[n - 1] == '_' && AllHex(s[2..n - 1]))
  {
    if |s| >= 8 && s[0] == '_' && s[1] == 'U' && AllHex(s[2..7]) && s[7] == '_' then 8
    else if |s| >= 7 && s[0] == '_' && s[1] == 'U' && AllHex(s[2..6]) && s[6] == '_' then 7
    else 0
  }

  /** `fmt.Sprintf("%c", n)`: a number that is no scalar value prints as U+FFFD. */
  function FormatRune(n: int): char {
    if 0 <= n < 0xD800 || 0xE000 <= n <= 0x10FFFF then n as char else '\U{FFFD}'
  }

  /**
   `strconv.ParseInt(s, 16, 32)`: an optional sign and at least one digit, within 32 bits.
   */
  function ParseInt32(s: string): Option<int> {
    var signed := s != [] && (s[0] == '+' || s[0] == '-');
    var digits := if signed then s[1..] else s;
    if digits == [] || !AllHex(digits) then None
    else
      var n: int := if signed && s[0] == '-' then 0 - HexValue(digits) else HexValue(digits);
      if -0x8000_0000 <= n < 0x8000_0000 then Some(n) else None
  }

  /** The text of a match parses, so the branch of `reverse` that skips a match is never taken. */
  lemma {:induction false} MatchedDigitsParse(digits: string)
    requires AllHex(digits) && 4 <= |digits| <= 5
    ensures ParseInt32(digits) == Some(HexValue(digits))
    ensures HexValue(digits) < if |digits| == 4 then 0x10000 else 0x10_0000
  {
    HexValueBound(digits);
    SmallPowers();
  }

  /** Left-to-right reading: every leftmost match becomes its rune, every other rune stays. */
  function Scan(s: string): string {
    if s == [] then []
    else
      var n := MatchLength(s);
      if n == 0 then [s[0]] + Scan(s[1..])
      else [FormatRune(HexValue(s[2..n - 1]))] + Scan(s[n..])
  }

  /** Whatever has the form of an escape is matched, with four or five digits of either case. */
  lemma EscapeFormMatches(digits: string, rest: string)
    requires AllHex(digits) && 4 <= |digits| <= 5
    ensures MatchLength("_U" + digits + "_" + rest) == |digits| + 3
  {
    var s := "_U" + digits + "_" + rest;
    assert s[2..2 + |digits|] == digits;
    if |digits| == 4 && |s| >= 8 {
      assert s[2..7][4] == '_';
    }
  }

  /** An escape at the head is read as the rune of its number. */
  lemma {:induction false} ScanEscapeForm(digits: string, rest: string)
    requires AllHex(digits) && 4 <= |digits| <= 5
    ensures Scan("_U" + digits + "_" + rest) == [FormatRune(HexValue(digits))] + Scan(rest)
  {
    var s := "_U" + digits + "_" + rest;
    EscapeFormMatches(digits, rest);
    assert s[2..2 + |digits|] == digits;
    assert s[|digits| + 3..] == rest;
  }

  lemma {:induction false} ScanLiteral(c: char, rest: string)
    requires c != '_'
    ensures Scan([c] + rest) == [c] + Scan(rest)
  {
    assert ([c] + rest)[1..] == rest;
  }

  lemma {:induction false} OneMoreDigit(s: string, c: char)
    requires AllHex(s) && IsHexDigit(c)
    ensures AllHex(s + [c]) && HexValue(s + [c]) == 16 * HexValue(s) + DigitValue(c)
  {
    assert (s + [c])[..|s|] == s;
  }

  lemma FourDigits(a: char, b: char, c: char, d: char)
    requires IsHexDigit(a) && IsHexDigit(b) && IsHexDigit(c) && IsHexDigit(d)
    ensures AllHex([a, b, c, d])
    ensures HexValue([a, b, c, d]) == 4096 * DigitValue(a) + 256 * DigitValue(b) + 16 * DigitValue(c) + DigitValue(d)
  {
    OneMoreDigit([], a);
    OneMoreDigit([a], b);
    OneMoreDigit([a, b], c);
    OneMoreDigit([a, b, c], d);
    assert [] + [a] == [a] && [a] + [b] == [a, b] && [a, b] + [c] == [a, b, c] && [a, b, c] + [d] == [a, b, c, d];
  }

  /** Upper-case digits count like lower-case ones. */
  lemma UpperCaseExample()
    ensures Scan("a" + ("_U" + "005B" + "_" + "b")) == "a" + ("[" + "b")
  {
    FourDigits('0', '0', '5', 'B');
    ScanLiteral('a', "_U" + "005B" + "_" + "b");
    ScanEscapeForm("005B", "b");
    ScanLiteral('b', "");
  }

  /** The number of a surrogate reads as U+FFFD. */
  lemma {:induction false} SurrogateExample(rest: string)
    ensures Scan("_U" + "d800" + "_" + rest) == "\U{FFFD}" + Scan(rest)
  {
    FourDigits('d', '8', '0', '0');
    ScanEscapeForm("d800", rest);
  }

  /** A `_` that closed one escape does not open the next. */
  lemma SharedUnderscoreExample()
    ensures Scan("_U" + "0041" + "_" + "U") == "A" + "U"
  {
    FourDigits('0', '0', '4', '1');
    ScanEscapeForm("0041", "U");
    ScanLiteral('U', "");
  }

  /** One row of `FindAllStringSubmatchIndex`: the match and its first group. */
  datatype Match = Match(start: nat, end: nat, groupStart: nat, groupEnd: nat)

  function AllMatches(s: string, from: nat): seq<Match>
    requires from <= |s|
    decreases |s| - from
  {
    if from == |s| then []
    else
      var n := MatchLength(s[from..]);
      if n == 0 then AllMatches(s, from + 1)
      else [Match(from, from + n, from + 2, from + n - 1)] + AllMatches(s, from + n)
  }

  /** Where the search goes on after match `i` (from the start for `i == -1`). */
  function After(matches: seq<Match>, i: int): nat
    requires -1 <= i < |matches|
  {
    if i < 0 then 0 else matches[i].end
  }

  ghost predicate MatchHere(s: string, m: Match) {
    && m.start < m.end <= |s|
    && MatchLength(s[m.start..]) == m.end - m.start
    && m.groupStart == m.start + 2 && m.groupEnd == m.end - 1
  }

  /** The reading of `s` from `p` on, in terms of the first match found from there. */
  ghost predicate ReadsUpTo(s: string, p: nat, m: Match) {
    && p <= m.start <= |s|
    && Scan(s[p..]) == s[p..m.start] + Scan(s[m.start..])
  }

  lemma {:induction false} NoMatchLeft(s: string, p: nat)
    requires p <= |s| && AllMatches(s, p) == []
    ensures Scan(s[p..]) == s[p..]
    decreases |s| - p
  {
    if p < |s| {
      assert MatchLength(s[p..]) == 0;
      assert s[p..][1..] == s[p + 1..];
      NoMatchLeft(s, p + 1);
    }
  }

  lemma SkipOne(s: string, p: nat, m: Match)
    requires p < |s| && MatchLength(s[p..]) == 0 && ReadsUpTo(s, p + 1, m)
    ensures ReadsUpTo(s, p, m)
  {
    assert s[p..][1..] == s[p + 1..];
    assert s[p..m.start] == [s[p]] + s[p + 1..m.start];
  }

  lemma {:induction false} NextMatch(s: string, p: nat)
    requires p <= |s| && AllMatches(s, p) != []
    ensures MatchHere(s, AllMatches(s, p)[0])
    ensures ReadsUpTo(s, p, AllMatches(s, p)[0])
    ensures AllMatches(s, AllMatches(s, p)[0].end) == AllMatches(s, p)[1..]
    decreases |s| - p
  {
    var ms := AllMatches(s, p);
    if MatchLength(s[p..]) == 0 {
      assert ms == AllMatches(s, p + 1);
      NextMatch(s, p + 1);
      SkipOne(s, p, ms[0]);
    } else {
      assert ms[0].start == p && s[p..p] == [];
    }
  }

  lemma {:induction false} MatchesAreChained(s: string, from: nat, i: nat)
    requires from <= |s|
    requires i < |AllMatches(s, from)|
    ensures MatchHere(s, AllMatches(s, from)[i])
    ensures AllMatches(s, AllMatches(s, from)[i].end) == AllMatches(s, from)[i + 1..]
    decreases i
  {
    NextMatch(s, from);
    if i > 0 {
      MatchesAreChained(s, AllMatches(s, from)[0].end, i - 1);
    }
  }

  /** `PushSecretConversionStrategy`; any string but `ReverseUnicode` leaves keys alone. */
  datatype ReverseStrategy = ReverseUnicode | OtherReverse

  function Reversed(strategy: ReverseStrategy, s: string): string {
    if strategy.ReverseUnicode? then Scan(s) else s
  }

  /** `str` is `s` read from `p` on, with everything before `p` untouched. */
  ghost predicate ReadFrom(s: string, p: nat, str: string) {
    p <= |s| && str == s[..p] + Scan(s[p..])
  }

  lemma {:induction false} MatchInContext(s: string, i: nat)
    requires i < |AllMatches(s, 0)|
    ensures var ms := AllMatches(s, 0);
            MatchHere(s, ms[i]) && ReadsUpTo(s, After(ms, i - 1), ms[i])
  {
    if i > 0 {
      MatchesAreChained(s, 0, i - 1);
    }
    NextMatch(s, After(AllMatches(s, 0), i - 1));
  }

  lemma {:induction false} NothingAfterLastMatch(s: string)
    ensures var ms := AllMatches(s, 0); ReadFrom(s, After(ms, |ms| - 1), s)
  {
    var ms := AllMatches(s, 0);
    if ms != [] {
      MatchesAreChained(s, 0, |ms| - 1);
    }
    NoMatchLeft(s, After(ms, |ms| - 1));
  }

  function Splice(str: string, m: Match, rune: int): string
    requires m.start <= m.end <= |str|
  {
    str[..m.start] + [FormatRune(rune)] + str[m.end..]
  }

  lemma {:induction false} ReadFromStart(s: string, str: string)
    requires ReadFrom(s, 0, str)
    ensures str == Scan(s)
  {
    assert s[0..] == s;
  }

  lemma SliceOfPrefix(s: string, end: nat, lo: nat, hi: nat)
    requires lo <= hi <= end <= |s|
    ensures s[..end][lo..hi] == s[lo..hi]
  {
  }

  lemma SliceOfSuffix(s: string, start: nat, lo: nat, hi: nat)
    requires lo <= hi && start + hi <= |s|
    ensures s[start..][lo..hi] == s[start + lo..start + hi]
  {
  }

  lemma SuffixOfSuffix(s: string, start: nat, n: nat)
    requires start + n <= |s|
    ensures s[start..][n..] == s[start + n..]
  {
  }

  lemma SpliceDigits(s: string, m: Match, str: string)
    requires MatchHere(s, m) && ReadFrom(s, m.end, str)
    ensures str[m.groupStart..m.groupEnd] == s[m.start..][2..MatchLength(s[m.start..]) - 1]
    ensures ParseInt32(str[m.groupStart..m.groupEnd]) == Some(HexValue(s[m.start..][2..MatchLength(s[m.start..]) - 1]))
  {
    var digits := str[m.groupStart..m.groupEnd];
    assert str[..m.end] == s[..m.end];
    SliceOfPrefix(str, m.end, m.groupStart, m.groupEnd);
    SliceOfPrefix(s, m.end, m.groupStart, m.groupEnd);
    SliceOfSuffix(s, m.start, 2, m.end - m.start - 1);
    MatchedDigitsParse(digits);
  }

  lemma Reassociate(a: string, b: string, c: string, d: string)
    ensures a + b + c + d == a + (b + (c + d))
  {
  }

  lemma SpliceText(s: string, previous: nat, m: Match, str: string, rune: int)
    requires m.start < m.end <= |s| && ReadsUpTo(s, previous, m) && ReadFrom(s, m.end, str)
    requires Scan(s[m.start..]) == [FormatRune(rune)] + Scan(s[m.end..])
    ensures ReadFrom(s, previous, Splice(str, m, rune))
  {
    assert str[m.end..] == Scan(s[m.end..]);
    assert str[..m.start] == s[..m.start] == s[..previous] + s[previous..m.start];
    Reassociate(s[..previous], s[previous..m.start], [FormatRune(rune)], Scan(s[m.end..]));
  }

  /** One splice: replacing match `m` extends the part that is read back to `previous`. */
  lemma SpliceOne(s: string, previous: nat, m: Match, str: string)
    requires MatchHere(s, m) && ReadsUpTo(s, previous, m)
    requires ReadFrom(s, m.end, str)
    ensures ParseInt32(str[m.groupStart..m.groupEnd]).Some?
    ensures ReadFrom(s, previous, Splice(str, m, ParseInt32(str[m.groupStart..m.groupEnd]).value))
  {
    SpliceDigits(s, m, str);
    ScanMatch(s, m);
    SpliceText(s, previous, m, str, HexValue(s[m.start..][2..m.end - m.start - 1]));
  }

  lemma ScanMatch(s: string, m: Match)
    requires MatchHere(s, m)
    ensures AllHex(s[m.start..][2..m.end - m.start - 1])
    ensures Scan(s[m.start..]) == [FormatRune(HexValue(s[m.start..][2..m.end - m.start - 1]))] + Scan(s[m.end..])
  {
    SuffixOfSuffix(s, m.start, m.end - m.start);
  }

  /** The loop body of `reverse`: splicing match `i` keeps everything from match `i` on read. */
  lemma {:induction false} StepBack(s: string, i: nat, str: string)
    requires i < |AllMatches(s, 0)| && ReadFrom(s, After(AllMatches(s, 0), i), str)
    ensures var m := AllMatches(s, 0)[i];
            && m.start <= m.groupStart <= m.groupEnd <= m.end <= |str|
            && ParseInt32(str[m.groupStart..m.groupEnd]).Some?
            && ReadFrom(s, After(AllMatches(s, 0), i - 1),
                        Splice(str, m, ParseInt32(str[m.groupStart..m.groupEnd]).value))
  {
    MatchInContext(s, i);
    SpliceOne(s, After(AllMatches(s, 0), i - 1), AllMatches(s, 0)[i], str);
  }

  /**
   `reverse`: all match positions are taken from the original string first, then the matches are
   spliced out from the right. The result is the left-to-right reading of the original.
   */
  method ReverseKey(strategy: ReverseStrategy, original: string) returns (str: string)
    ensures str == Reversed(strategy, original)
  {
    str := original;
    if strategy.ReverseUnicode? {
      var matches := AllMatches(original, 0);
      NothingAfterLastMatch(original);
      var i := |matches| - 1;
      while i >= 0
        invariant -1 <= i < |matches|
        invariant ReadFrom(original, After(matches, i), str)
      {
        var m := matches[i];
        StepBack(original, i, str);
        var unicodeHex := str[m.groupStart..m.groupEnd];
        var unicodeInt := ParseInt32(unicodeHex);
        if unicodeInt.Some? {
          str := Splice(str, m, unicodeInt.value);
        } else {
          assert false;
        }
        i := i - 1;
      }
      ReadFromStart(original, str);
    }
  }
}
