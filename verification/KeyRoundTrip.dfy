/**
 When `reverse` undoes `convert`: exactly for the keys in which nothing reads as an escape after
 conversion that was not an escape put there, and whose escaped runes fit in five digits.
 */
module KeyRoundTrip {
  import opened KeyEscape

  function Unicoded(t: LetterOrNumber, s: string): string {
    Convert(t, Unicode, s)
  }

  /** Converting a key and reversing the result. */
  function RoundTrip(t: LetterOrNumber, s: string): string {
    Scan(Unicoded(t, s))
  }

  /** `s` starts with `_U`, `digits` hexadecimal digits, and something that converts to a text starting with `_`. */
  predicate FakeEscapeOf(t: LetterOrNumber, s: string, digits: nat) {
    && |s| > 2 + digits && s[0] == '_' && s[1] == 'U' && AllHex(s[2..2 + digits])
    && (s[2 + digits] == '_' || !Legal(t, s[2 + digits]))
  }

  predicate FakeEscape(t: LetterOrNumber, s: string) {
    FakeEscapeOf(t, s, 4) || FakeEscapeOf(t, s, 5)
  }

  predicate SmallOrLegal(t: LetterOrNumber, c: char) {
    Legal(t, c) || c as int <= 0xF_FFFF
  }

  /** The keys that survive the round trip. */
  predicate Clean(t: LetterOrNumber, s: string) {
    && (forall i :: 0 <= i < |s| ==> !FakeEscape(t, s[i..]))
    && (forall i :: 0 <= i < |s| ==> SmallOrLegal(t, s[i]))
  }

  // ---------------------------------------------------------------- reading a converted key

  lemma LegalUnlessUnderscore(t: LetterOrNumber, s: string)
    requires Unicoded(t, s) != [] && Unicoded(t, s)[0] != '_'
    ensures s != [] && Unicoded(t, s)[0] == s[0]
    ensures Unicoded(t, s) == [s[0]] + Unicoded(t, s[1..])
  {
    if !Legal(t, s[0]) {
      EscapeShape(t, s[0]);
    }
  }

  lemma ConsSlices(s: string, c: char, tail: string, k: nat)
    requires s == [c] + tail && 0 < k <= |s|
    ensures s[..k] == [c] + tail[..k - 1] && s[k..] == tail[k - 1..]
    ensures forall j :: 0 <= j < |tail| ==> tail[j] == s[j + 1]
  {
  }

  /** The part of a converted text that is still what it was converted from. */
  ghost predicate KeptUntil(t: LetterOrNumber, s: string, y: string, k: nat) {
    k <= |s| && k <= |y| && s[..k] == y[..k] && y[k..] == Unicoded(t, s[k..])
  }

  lemma KeptOneMore(t: LetterOrNumber, c: char, s: string, y: string, k: nat)
    requires KeptUntil(t, s, y, k)
    ensures KeptUntil(t, [c] + s, [c] + y, k + 1)
  {
    ConsSlices([c] + s, c, s, k + 1);
    ConsSlices([c] + y, c, y, k + 1);
  }

  lemma NoUnderscoreInTail(y: string, c: char, tail: string, k: nat)
    requires y == [c] + tail && 0 < k <= |y| && forall j :: 0 <= j < k ==> y[j] != '_'
    ensures forall j :: 0 <= j < k - 1 ==> tail[j] != '_'
  {
    ConsSlices(y, c, tail, k);
  }

  lemma KeptFromStart(t: LetterOrNumber, s: string)
    ensures KeptUntil(t, s, Unicoded(t, s), 0)
  {
    assert s[0..] == s && Unicoded(t, s)[0..] == Unicoded(t, s);
  }

  /** As long as a converted text shows no `_`, it still is the text it was converted from. */
  lemma {:induction false} ConvertKeepsUntilUnderscore(t: LetterOrNumber, s: string, k: nat)
    requires k <= |Unicoded(t, s)|
    requires forall j :: 0 <= j < k ==> Unicoded(t, s)[j] != '_'
    ensures KeptUntil(t, s, Unicoded(t, s), k)
  {
    if k == 0 {
      KeptFromStart(t, s);
    } else {
      LegalUnlessUnderscore(t, s);
      NoUnderscoreInTail(Unicoded(t, s), s[0], Unicoded(t, s[1..]), k);
      ConvertKeepsUntilUnderscore(t, s[1..], k - 1);
      KeptOneMore(t, s[0], s[1..], Unicoded(t, s[1..]), k - 1);
      assert s == [s[0]] + s[1..];
    }
  }

  lemma {:induction false} ConvertKeepsLegalPrefix(t: LetterOrNumber, s: string, k: nat)
    requires k <= |s| && forall i :: 0 <= i < k ==> Legal(t, s[i])
    ensures k <= |Unicoded(t, s)| && forall i :: 0 <= i < k ==> Unicoded(t, s)[i] == s[i]
    ensures Unicoded(t, s)[k..] == Unicoded(t, s[k..])
  {
    var y := Unicoded(t, s);
    if k == 0 {
      assert s[0..] == s && y[0..] == y;
    } else {
      var tail := Unicoded(t, s[1..]);
      ConsSlices(s, s[0], s[1..], k);
      ConvertKeepsLegalPrefix(t, s[1..], k - 1);
      ConsSlices(y, s[0], tail, k);
    }
  }

  lemma ConvertedHead(t: LetterOrNumber, s: string)
    ensures |Unicoded(t, s)| == 0 <==> s == []
    ensures s != [] ==> Unicoded(t, s)[0] == if Legal(t, s[0]) then s[0] else '_'
  {
    if s != [] {
      EscapeShape(t, s[0]);
    }
  }

  lemma FakeEscapeMatches(t: LetterOrNumber, s: string, digits: nat)
    requires digits in {4, 5} && FakeEscapeOf(t, s, digits)
    ensures MatchLength(Unicoded(t, s)) == digits + 3
  {
    var k := 2 + digits;
    assert forall i :: 0 <= i < digits ==> s[2 + i] == s[2..k][i];
    ConvertKeepsLegalPrefix(t, s, k);
    ConvertedHead(t, s[k..]);
    var y := Unicoded(t, s);
    assert y[k] == y[k..][0] == '_';
    assert y[2..k] == s[2..k];
    if digits == 5 {
      assert y[2..7] == s[2..7];
    } else {
      assert y[2..6] == s[2..6];
      assert |y| >= 8 ==> y[2..7][4] == '_';
    }
  }

  lemma MatchedTextHasNoUnderscore(y: string, tail: string)
    requires MatchLength(y) > 0 && tail == y[1..]
    ensures forall j :: 0 <= j < MatchLength(y) - 2 ==> tail[j] != '_'
  {
    var n := MatchLength(y);
    forall j | 0 <= j < n - 2
      ensures tail[j] != '_'
    {
      assert tail[j] == y[j + 1];
      assert j > 0 ==> y[j + 1] == y[2..n - 1][j - 1];
    }
  }

  lemma MatchedTextIsCopied(t: LetterOrNumber, s: string, y: string, n: nat)
    requires s != [] && Legal(t, s[0]) && y == Unicoded(t, s) && 7 <= n <= |y|
    requires forall j :: 0 <= j < n - 2 ==> Unicoded(t, s[1..])[j] != '_'
    ensures |s| >= n - 1 && s[1..n - 1] == y[1..n - 1]
    ensures y[n - 1..] == Unicoded(t, s[n - 1..])
  {
    var tail := Unicoded(t, s[1..]);
    assert y == [s[0]] + tail;
    ConvertKeepsUntilUnderscore(t, s[1..], n - 2);
    ConsSlices(y, s[0], tail, n - 1);
    ConsSlices(s, s[0], s[1..], n - 1);
    assert s[1..n - 1] == s[..n - 1][1..] && y[1..n - 1] == y[..n - 1][1..];
  }

  lemma MatchIsFakeEscape(t: LetterOrNumber, s: string)
    requires s != [] && Legal(t, s[0]) && MatchLength(Unicoded(t, s)) > 0
    ensures FakeEscapeOf(t, s, MatchLength(Unicoded(t, s)) - 3)
  {
    var y := Unicoded(t, s);
    var n := MatchLength(y);
    assert y == [s[0]] + Unicoded(t, s[1..]);
    MatchedTextHasNoUnderscore(y, Unicoded(t, s[1..]));
    MatchedTextIsCopied(t, s, y, n);
    ConvertedHead(t, s[n - 1..]);
    assert y[n - 1..][0] == y[n - 1] == '_';
    assert s[2..n - 1] == s[1..n - 1][1..] == y[1..n - 1][1..] == y[2..n - 1];
    assert s[1] == s[1..n - 1][0] == y[1];
  }

  /** A legal rune at the head of a key starts a match after conversion exactly if it starts a fake escape. */
  lemma MatchIffFakeEscape(t: LetterOrNumber, s: string)
    requires s != [] && Legal(t, s[0])
    ensures MatchLength(Unicoded(t, s)) > 0 <==> FakeEscape(t, s)
  {
    if FakeEscapeOf(t, s, 4) {
      FakeEscapeMatches(t, s, 4);
    } else if FakeEscapeOf(t, s, 5) {
      FakeEscapeMatches(t, s, 5);
    } else if MatchLength(Unicoded(t, s)) > 0 {
      MatchIsFakeEscape(t, s);
    }
  }

  lemma LegalHeadStays(t: LetterOrNumber, s: string)
    requires s != [] && Legal(t, s[0]) && !FakeEscape(t, s)
    ensures RoundTrip(t, s) == [s[0]] + RoundTrip(t, s[1..])
  {
    MatchIffFakeEscape(t, s);
    assert Unicoded(t, s)[1..] == Unicoded(t, s[1..]);
  }

  lemma {:induction false} EscapeMatches(t: LetterOrNumber, c: char, rest: string)
    requires c as int <= 0xF_FFFF
    ensures Scan(Escape(c) + rest) == [c] + Scan(rest)
  {
    EscapeShape(t, c);
    SmallPowers();
    var w := HexWidth(c);
    HexValueOfHex(c as int, w);
    var y := Escape(c) + rest;
    assert y[2..2 + w] == Hex(c as int, w);
    if w == 4 {
      assert |y| >= 8 ==> y[2..7][4] == '_';
    }
    assert MatchLength(y) == w + 3;
    assert y[w + 3..] == rest;
  }

  lemma IllegalHeadStays(t: LetterOrNumber, s: string)
    requires s != [] && !Legal(t, s[0]) && s[0] as int <= 0xF_FFFF
    ensures RoundTrip(t, s) == [s[0]] + RoundTrip(t, s[1..])
  {
    EscapeMatches(t, s[0], Unicoded(t, s[1..]));
  }

  lemma CleanTail(t: LetterOrNumber, s: string)
    requires s != []
    ensures Clean(t, s) <==> !FakeEscape(t, s) && SmallOrLegal(t, s[0]) && Clean(t, s[1..])
  {
    assert s[0..] == s;
    assert forall i :: 0 <= i < |s| - 1 ==> s[1..][i..] == s[i + 1..] && s[1..][i] == s[i + 1];
    if Clean(t, s[1..]) && !FakeEscape(t, s) && SmallOrLegal(t, s[0]) {
      forall i | 0 <= i < |s|
        ensures !FakeEscape(t, s[i..]) && SmallOrLegal(t, s[i])
      {
        if i > 0 {
          assert s[1..][i - 1..] == s[i..];
          assert s[1..][i - 1] == s[i];
        }
      }
    }
  }

  lemma {:induction false} CleanRoundTrips(t: LetterOrNumber, s: string)
    requires Clean(t, s)
    ensures RoundTrip(t, s) == s
  {
    if s != [] {
      CleanTail(t, s);
      if Legal(t, s[0]) {
        LegalHeadStays(t, s);
      } else {
        IllegalHeadStays(t, s);
      }
      CleanRoundTrips(t, s[1..]);
    }
  }

  // ---------------------------------------------------------------- the other direction

  lemma DecodedRune(y: string)
    requires MatchLength(y) > 0
    ensures var n := MatchLength(y);
            var d := FormatRune(HexValue(y[2..n - 1]));
            d as int <= 0xF_FFFF && HexWidth(d) + 3 <= n
  {
    MatchedDigitsParse(y[2..MatchLength(y) - 1]);
  }

  /** Reading never makes up a rune above 0xFFFFF. */
  lemma {:induction false} ScanMakesSmallRunes(t: LetterOrNumber, y: string)
    requires AllLegal(t, y)
    ensures forall i :: 0 <= i < |Scan(y)| ==> SmallOrLegal(t, Scan(y)[i])
  {
    if y != [] {
      var n := MatchLength(y);
      if n > 0 {
        DecodedRune(y);
      }
      ScanMakesSmallRunes(t, y[if n == 0 then 1 else n..]);
    }
  }

  lemma ConvertHasLength(t: LetterOrNumber, c: char, s: string)
    ensures |Unicoded(t, [c] + s)| == (if Legal(t, c) then 1 else HexWidth(c) + 3) + |Unicoded(t, s)|
  {
    EscapeShape(t, c);
    assert ([c] + s)[1..] == s;
  }

  /** Reading and converting again never makes a text longer. */
  lemma {:induction false} ConvertedLengthShrinks(t: LetterOrNumber, y: string)
    ensures |Unicoded(t, Scan(y))| <= |y| || !AllLegal(t, y)
  {
    if y != [] && AllLegal(t, y) {
      var n := MatchLength(y);
      var m := if n == 0 then 1 else n;
      ConvertedLengthShrinks(t, y[m..]);
      ConvertHasLength(t, Scan(y)[0], Scan(y[m..]));
      if n > 0 {
        DecodedRune(y);
      }
    }
  }

  /** A fake escape at the head is lost: its `_` could only come back from a shorter text. */
  lemma FakeEscapeDiffers(t: LetterOrNumber, s: string)
    requires s != [] && FakeEscape(t, s)
    ensures RoundTrip(t, s) != s
  {
    var y := Unicoded(t, s);
    MatchIffFakeEscape(t, s);
    ConvertIsLegal(t, Unicode, s);
    var n := MatchLength(y);
    ConvertedLengthShrinks(t, y[n..]);
    ConvertHasLength(t, Scan(y)[0], Scan(y[n..]));
    assert Scan(y)[0] == '_' ==> |Unicoded(t, Scan(y))| < |y|;
  }

  lemma {:induction false} RoundTripIsClean(t: LetterOrNumber, s: string)
    requires RoundTrip(t, s) == s
    ensures Clean(t, s)
  {
    if s != [] {
      ConvertIsLegal(t, Unicode, s);
      ScanMakesSmallRunes(t, Unicoded(t, s));
      assert SmallOrLegal(t, s[0]);
      if FakeEscape(t, s) {
        FakeEscapeDiffers(t, s);
      } else if Legal(t, s[0]) {
        LegalHeadStays(t, s);
      } else {
        IllegalHeadStays(t, s);
      }
      assert RoundTrip(t, s)[1..] == RoundTrip(t, s[1..]);
      RoundTripIsClean(t, s[1..]);
      CleanTail(t, s);
    }
  }

  /** `reverse(ReverseUnicode, convert(Unicode, s)) == s` exactly for the clean keys. */
  lemma {:induction false} RoundTripIff(t: LetterOrNumber, s: string)
    ensures Reversed(ReverseUnicode, Convert(t, Unicode, s)) == s <==> Clean(t, s)
  {
    if Clean(t, s) {
      CleanRoundTrips(t, s);
    } else if RoundTrip(t, s) == s {
      RoundTripIsClean(t, s);
    }
  }

  /** Keys without the text `_U` and without illegal runes above 0xFFFFF survive. */
  lemma {:induction false} NoMarkerRoundTrips(t: LetterOrNumber, s: string)
    requires forall i :: 0 <= i < |s| - 1 ==> !(s[i] == '_' && s[i + 1] == 'U')
    requires forall i :: 0 <= i < |s| ==> SmallOrLegal(t, s[i])
    ensures Reversed(ReverseUnicode, Convert(t, Unicode, s)) == s
  {
    forall i | 0 <= i < |s|
      ensures !FakeEscape(t, s[i..])
    {
      if i + 1 < |s| {
        assert s[i..][0] == s[i] && s[i..][1] == s[i + 1];
      }
    }
    CleanRoundTrips(t, s);
  }

  /**
   Both conditions matter: `_U0041!` turns into `AU0021_` when `!` is escaped, and a rune of six
   digits stays escaped.
   */
  lemma RoundTripLosses(t: LetterOrNumber)
    requires !Legal(t, '!') && !Legal(t, '\U{10FFFF}')
    ensures RoundTrip(t, "_U0041!") != "_U0041!"
    ensures RoundTrip(t, "\U{10FFFF}") != "\U{10FFFF}"
  {
    var s := "_U0041!";
    assert s[2..6] == "0041";
    assert FakeEscapeOf(t, s, 4);
    assert s[0..] == s;
    RoundTripIff(t, s);
    RoundTripIff(t, "\U{10FFFF}");
  }
}
