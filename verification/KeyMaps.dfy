/**
 `ConvertKeys`, `ReverseKeys` and `ValidateKeys`: the key functions lifted to whole secrets. A Go
 map is walked in an arbitrary order, here by picking any key not yet visited.
 */
module KeyMaps {
  import opened Wrappers
  import opened KeyEscape
  import opened KeyRoundTrip

  ghost predicate InjectiveOn(f: string -> string, keys: set<string>) {
    forall a, b :: a in keys && b in keys && a != b ==> f(a) != f(b)
  }

  ghost function Image(f: string -> string, keys: set<string>): set<string> {
    set k | k in keys :: f(k)
  }

  /** `m` is `original` with every key `k` replaced by `f(k)`, and no two keys sharing a name. */
  ghost predicate Renamed<V>(f: string -> string, original: map<string, V>, m: map<string, V>) {
    && InjectiveOn(f, original.Keys)
    && m.Keys == Image(f, original.Keys)
    && (forall k :: k in original.Keys ==> m[f(k)] == original[k])
  }

  /** Two keys of `original` would share the name `n`. */
  ghost predicate Collision<V>(f: string -> string, original: map<string, V>, n: string) {
    exists a, b :: a in original && b in original && a != b && f(a) == n && f(b) == n
  }

  function Converter(t: LetterOrNumber, strategy: ConversionStrategy): string -> string {
    s => Convert(t, strategy, s)
  }

  function Reverser(strategy: ReverseStrategy): string -> string {
    s => Reversed(strategy, s)
  }

  /** The loop invariant of both conversions: the keys in `visited` are renamed, and nothing else is there. */
  ghost predicate RenamedSoFar<V>(f: string -> string, original: map<string, V>, visited: set<string>, out: map<string, V>) {
    && visited <= original.Keys
    && InjectiveOn(f, visited)
    && out.Keys == Image(f, visited)
    && (forall k :: k in visited ==> out[f(k)] == original[k])
  }

  lemma RenameOne<V>(f: string -> string, original: map<string, V>, visited: set<string>, out: map<string, V>, k: string)
    requires RenamedSoFar(f, original, visited, out) && k in original && k !in visited
    ensures f(k) in out ==> Collision(f, original, f(k))
    ensures f(k) !in out ==> RenamedSoFar(f, original, visited + {k}, out[f(k) := original[k]])
  {
    var n := f(k);
    if n in out {
      var a :| a in visited && f(a) == n;
    } else {
      forall m | m in out.Keys + {n}
        ensures m in Image(f, visited + {k})
      {
        if m == n {
          assert k in visited + {k};
        } else {
          var a :| a in visited && f(a) == m;
          assert a in visited + {k};
        }
      }
      assert Image(f, visited + {k}) <= out.Keys + {n};
    }
  }

  lemma CollisionIsNotInjective<V>(f: string -> string, original: map<string, V>, n: string)
    requires Collision(f, original, n)
    ensures !InjectiveOn(f, original.Keys)
  {
    var a, b :| a in original && b in original && a != b && f(a) == n && f(b) == n;
    assert a in original.Keys && b in original.Keys;
  }

  method ConvertKeys<V>(t: LetterOrNumber, strategy: ConversionStrategy, original: map<string, V>)
    returns (r: Result<map<string, V>, string>)
    ensures r.Success? <==> InjectiveOn(Converter(t, strategy), original.Keys)
    ensures r.Success? ==> Renamed(Converter(t, strategy), original, r.value)
    ensures r.Failure? ==> Collision(Converter(t, strategy), original, r.error)
  {
    ghost var f := Converter(t, strategy);
    var out: map<string, V> := map[];
    var rest := original.Keys;
    while rest != {}
      invariant rest <= original.Keys
      invariant RenamedSoFar(f, original, original.Keys - rest, out)
      decreases rest
    {
      var k :| k in rest;
      var key := ConvertKey(t, strategy, k);
      assert key == f(k);
      RenameOne(f, original, original.Keys - rest, out, k);
      if key in out {
        CollisionIsNotInjective(f, original, key);
        return Failure(key);
      }
      out := out[key := original[k]];
      assert original.Keys - (rest - {k}) == (original.Keys - rest) + {k};
      rest := rest - {k};
    }
    assert original.Keys - rest == original.Keys;
    r := Success(out);
  }

  method ReverseKeys<V>(strategy: ReverseStrategy, original: map<string, V>)
    returns (r: Result<map<string, V>, string>)
    ensures r.Success? <==> InjectiveOn(Reverser(strategy), original.Keys)
    ensures r.Success? ==> Renamed(Reverser(strategy), original, r.value)
    ensures r.Failure? ==> Collision(Reverser(strategy), original, r.error)
  {
    ghost var f := Reverser(strategy);
    var out: map<string, V> := map[];
    var rest := original.Keys;
    while rest != {}
      invariant rest <= original.Keys
      invariant RenamedSoFar(f, original, original.Keys - rest, out)
      decreases rest
    {
      var k :| k in rest;
      var key := ReverseKey(strategy, k);
      assert key == f(k);
      RenameOne(f, original, original.Keys - rest, out, k);
      if key in out {
        CollisionIsNotInjective(f, original, key);
        return Failure(key);
      }
      out := out[key := original[k]];
      assert original.Keys - (rest - {k}) == (original.Keys - rest) + {k};
      rest := rest - {k};
    }
    assert original.Keys - rest == original.Keys;
    r := Success(out);
  }

  // ---------------------------------------------------------------- round trip of whole secrets

  /** Two renamings in a row are one renaming by the composed function. */
  lemma RenamedTwice<V>(f: string -> string, g: string -> string, r: string -> string,
                        original: map<string, V>, m: map<string, V>, back: map<string, V>)
    requires Renamed(f, original, m) && Renamed(g, m, back)
    requires forall k :: r(k) == g(f(k))
    ensures Renamed(r, original, back)
  {
    forall k | k in original.Keys
      ensures f(k) in m && r(k) in back && back[r(k)] == original[k]
    {
      assert f(k) in Image(f, original.Keys);
      assert g(f(k)) in Image(g, m.Keys);
    }
    forall n | n in back.Keys
      ensures n in Image(r, original.Keys)
    {
      var c :| c in m.Keys && g(c) == n;
      var k :| k in original.Keys && f(k) == c;
      assert r(k) == n;
    }
    assert back.Keys == Image(r, original.Keys);
    forall a, b | a in original.Keys && b in original.Keys && a != b
      ensures r(a) != r(b)
    {
      assert f(a) != f(b) && f(a) in m.Keys && f(b) in m.Keys;
    }
  }

  lemma InjectiveIfUndone(f: string -> string, g: string -> string, keys: set<string>)
    ensures (forall k :: k in keys ==> g(f(k)) == k) ==> InjectiveOn(f, keys)
  {
  }

  lemma CleanKeyRestored(t: LetterOrNumber, k: string)
    ensures Reverser(ReverseUnicode)(Converter(t, Unicode)(k)) == k <==> Clean(t, k)
  {
    RoundTripIff(t, k);
  }

  /** Clean keys neither collide when they are converted nor when they are reversed. */
  lemma CleanKeysNeverCollide<V>(t: LetterOrNumber, original: map<string, V>)
    requires forall k :: k in original ==> Clean(t, k)
    ensures InjectiveOn(Converter(t, Unicode), original.Keys)
    ensures forall m: map<string, V> :: Renamed(Converter(t, Unicode), original, m) ==>
              InjectiveOn(Reverser(ReverseUnicode), m.Keys)
  {
    var f, g := Converter(t, Unicode), Reverser(ReverseUnicode);
    forall k | k in original
      ensures g(f(k)) == k
    {
      CleanKeyRestored(t, k);
    }
    InjectiveIfUndone(f, g, original.Keys);
    forall m: map<string, V> | Renamed(f, original, m)
      ensures InjectiveOn(g, m.Keys)
    {
      UndoingIsInjective(f, g, original, m);
    }
  }

  lemma UndoingIsInjective<V>(f: string -> string, g: string -> string, original: map<string, V>, m: map<string, V>)
    requires Renamed(f, original, m) && forall k :: k in original ==> g(f(k)) == k
    ensures InjectiveOn(g, m.Keys)
  {
    forall a, b | a in m.Keys && b in m.Keys && a != b
      ensures g(a) != g(b)
    {
      var ka :| ka in original && f(ka) == a;
      var kb :| kb in original && f(kb) == b;
    }
  }

  /** Two texts that agree up to the choice of hexadecimal digits. */
  ghost predicate SameShape(y: string, z: string) {
    && |y| == |z|
    && forall i :: 0 <= i < |y| ==> y[i] == z[i] || (IsHexDigit(y[i]) && IsHexDigit(z[i]))
  }

  lemma HexSlices(y: string, z: string, lo: nat, hi: nat)
    requires SameShape(y, z) && lo <= hi <= |y|
    ensures AllHex(y[lo..hi]) ==> AllHex(z[lo..hi])
  {
    if AllHex(y[lo..hi]) {
      forall i | 0 <= i < hi - lo
        ensures IsHexDigit(z[lo..hi][i])
      {
        assert y[lo..hi][i] == y[lo + i];
      }
    }
  }

  lemma SameShapeSameMatch(y: string, z: string)
    requires SameShape(y, z)
    ensures MatchLength(y) == MatchLength(z)
  {
    if |y| >= 7 {
      HexSlices(y, z, 2, 6);
      HexSlices(z, y, 2, 6);
    }
    if |y| >= 8 {
      HexSlices(y, z, 2, 7);
      HexSlices(z, y, 2, 7);
    }
  }

  lemma {:induction false} LiteralKeepsShape(y: string, z: string)
    requires y != [] && z != [] && y[0] == z[0] && SameShape(y[1..], z[1..]) && MatchLength(y) == 0
    ensures SameShape(y, z) && Scan(z) == [z[0]] + Scan(z[1..])
  {
    forall i | 0 <= i < |y|
      ensures y[i] == z[i] || (IsHexDigit(y[i]) && IsHexDigit(z[i]))
    {
      if i > 0 {
        assert y[i] == y[1..][i - 1] && z[i] == z[1..][i - 1];
      }
    }
    SameShapeSameMatch(y, z);
  }

  lemma ShapesConcatenate(a: string, b: string, c: string, d: string)
    ensures SameShape(a, c) && SameShape(b, d) ==> SameShape(a + b, c + d)
  {
  }

  /** How much length the first rune of a reading takes when it is converted, against what it was read from. */
  lemma {:induction false} HeadLength(t: LetterOrNumber, y: string)
    requires y != [] && AllLegal(t, y)
    ensures var m := if MatchLength(y) == 0 then 1 else MatchLength(y);
            && Scan(y) == [Scan(y)[0]] + Scan(y[m..])
            && Unicoded(t, Scan(y)) == ConvertRune(t, Unicode, Scan(y)[0]) + Unicoded(t, Scan(y[m..]))
            && |ConvertRune(t, Unicode, Scan(y)[0])| <= m
  {
    var m := if MatchLength(y) == 0 then 1 else MatchLength(y);
    assert Scan(y)[1..] == Scan(y[m..]);
    if MatchLength(y) > 0 {
      DecodedRune(y);
      EscapeShape(t, Scan(y)[0]);
    }
  }

  /** If reading and converting again loses no length, only hexadecimal digits were respelled. */
  lemma {:induction false} FullLengthKeepsShape(t: LetterOrNumber, y: string)
    requires AllLegal(t, y) && |Unicoded(t, Scan(y))| == |y|
    ensures SameShape(y, Unicoded(t, Scan(y)))
    ensures Scan(Unicoded(t, Scan(y))) == Scan(y)
  {
    if y != [] {
      var n := MatchLength(y);
      HeadLength(t, y);
      if n == 0 {
        ConvertedLengthShrinks(t, y[1..]);
        FullLengthKeepsShape(t, y[1..]);
        var z := Unicoded(t, Scan(y));
        assert z[1..] == Unicoded(t, Scan(y[1..]));
        LiteralKeepsShape(y, z);
      } else {
        ConvertedLengthShrinks(t, y[n..]);
        FullLengthKeepsShape(t, y[n..]);
        MatchKeepsShape(t, y, Scan(y)[0], Unicoded(t, Scan(y[n..])));
      }
    }
  }

  lemma {:induction false} MatchKeepsShape(t: LetterOrNumber, y: string, d: char, rest: string)
    requires MatchLength(y) > 0 && Scan(y) == [d] + Scan(y[MatchLength(y)..])
    requires d == FormatRune(HexValue(y[2..MatchLength(y) - 1]))
    requires |ConvertRune(t, Unicode, d)| == MatchLength(y)
    requires SameShape(y[MatchLength(y)..], rest) && Scan(rest) == Scan(y[MatchLength(y)..])
    ensures SameShape(y, ConvertRune(t, Unicode, d) + rest)
    ensures Scan(ConvertRune(t, Unicode, d) + rest) == Scan(y)
  {
    MatchIsEscaped(t, y, d);
    EscapedShape(t, y, d, rest);
    EscapeMatches(t, d, rest);
  }

  lemma MatchIsEscaped(t: LetterOrNumber, y: string, d: char)
    requires MatchLength(y) > 0 && d == FormatRune(HexValue(y[2..MatchLength(y) - 1]))
    requires |ConvertRune(t, Unicode, d)| == MatchLength(y)
    ensures d as int <= 0xF_FFFF && HexWidth(d) + 3 == MatchLength(y) && ConvertRune(t, Unicode, d) == Escape(d)
  {
    DecodedRune(y);
    EscapeShape(t, d);
  }

  lemma EscapedShape(t: LetterOrNumber, y: string, d: char, rest: string)
    requires MatchLength(y) > 0 && HexWidth(d) + 3 == MatchLength(y) && SameShape(y[MatchLength(y)..], rest)
    ensures SameShape(y, Escape(d) + rest)
  {
    var n := MatchLength(y);
    EscapeOverMatch(t, y, d);
    ShapesConcatenate(y[..n], y[n..], Escape(d), rest);
    assert y == y[..n] + y[n..];
  }

  lemma EscapeOverMatch(t: LetterOrNumber, y: string, d: char)
    requires MatchLength(y) > 0 && HexWidth(d) + 3 == MatchLength(y)
    ensures SameShape(y[..MatchLength(y)], Escape(d))
  {
    EscapeShape(t, d);
    var n := MatchLength(y);
    var e := Escape(d);
    forall i | 0 <= i < n
      ensures y[i] == e[i] || (IsHexDigit(y[i]) && IsHexDigit(e[i]))
    {
      if 2 <= i < n - 1 {
        assert y[i] == y[2..n - 1][i - 2] && e[i] == e[2..n - 1][i - 2];
      }
    }
  }

  /** A key of greatest weight. */
  lemma HeaviestKey(weight: string -> nat, keys: set<string>) returns (m: string)
    requires keys != {}
    ensures m in keys && forall k :: k in keys ==> weight(k) <= weight(m)
  {
    var first :| first in keys;
    m := first;
    if keys != {first} {
      var other := HeaviestKey(weight, keys - {first});
      if weight(other) > weight(first) {
        m := other;
      }
      forall k | k in keys
        ensures weight(k) <= weight(m)
      {
        assert k == first || k in keys - {first};
      }
    }
  }

  /** Makes nothing heavier, and is idempotent where it keeps the weight. */
  ghost predicate Settles(r: string -> string, weight: string -> nat) {
    && (forall k :: weight(r(k)) <= weight(k))
    && (forall k :: weight(r(k)) == weight(k) ==> r(r(k)) == r(k))
  }

  /** A heaviest member is the image of one of the same weight. */
  lemma HeaviestIsFixed(r: string -> string, weight: string -> nat, keys: set<string>, m: string)
    requires Settles(r, weight) && m in Image(r, keys)
    requires forall k :: k in keys ==> weight(k) <= weight(m)
    ensures r(m) == m
  {
    var k :| k in keys && r(k) == m;
    assert weight(k) == weight(m);
  }

  lemma OntoWithout(r: string -> string, keys: set<string>, m: string)
    requires m in keys && r(m) == m && keys <= Image(r, keys)
    ensures keys - {m} <= Image(r, keys - {m})
  {
    forall n | n in keys - {m}
      ensures n in Image(r, keys - {m})
    {
      assert n in Image(r, keys);
      var j :| j in keys && r(j) == n;
      assert j in keys - {m};
    }
  }

  /** A settling function that maps a finite set onto itself moves no member of it. */
  lemma {:induction false} OntoMeansFixed(r: string -> string, weight: string -> nat, keys: set<string>)
    requires keys <= Image(r, keys) && Settles(r, weight)
    ensures forall k :: k in keys ==> r(k) == k
    decreases |keys|
  {
    if keys != {} {
      var m := HeaviestKey(weight, keys);
      HeaviestIsFixed(r, weight, keys, m);
      OntoWithout(r, keys, m);
      OntoMeansFixed(r, weight, keys - {m});
      assert forall k :: k in keys ==> k == m || k in keys - {m};
    }
  }

  lemma RoundTripWeight(t: LetterOrNumber, k: string)
    ensures |Unicoded(t, RoundTrip(t, k))| <= |Unicoded(t, k)|
    ensures |Unicoded(t, RoundTrip(t, k))| == |Unicoded(t, k)| ==> RoundTrip(t, RoundTrip(t, k)) == RoundTrip(t, k)
  {
    ConvertIsLegal(t, Unicode, k);
    ConvertedLengthShrinks(t, Unicoded(t, k));
    if |Unicoded(t, RoundTrip(t, k))| == |Unicoded(t, k)| {
      FullLengthKeepsShape(t, Unicoded(t, k));
    }
  }

  lemma RoundTripOntoMeansFixed(t: LetterOrNumber, r: string -> string, keys: set<string>)
    requires forall k :: r(k) == RoundTrip(t, k)
    requires keys <= Image(r, keys)
    ensures forall k :: k in keys ==> r(k) == k
  {
    var weight: string -> nat := k => |Unicoded(t, k)|;
    forall k: string
      ensures weight(r(k)) <= weight(k)
      ensures weight(r(k)) == weight(k) ==> r(r(k)) == r(k)
    {
      RoundTripWeight(t, k);
    }
    OntoMeansFixed(r, weight, keys);
  }

  /** Back where it started, exactly if every key is: provided the renaming cannot permute keys. */
  lemma RestoredIff<V>(r: string -> string, original: map<string, V>, back: map<string, V>)
    requires Renamed(r, original, back)
    requires original.Keys <= Image(r, original.Keys) ==> forall k :: k in original.Keys ==> r(k) == k
    ensures back == original <==> forall k :: k in original.Keys ==> r(k) == k
  {
    if forall k :: k in original.Keys ==> r(k) == k {
      assert Image(r, original.Keys) == original.Keys by {
        forall k | k in original.Keys
          ensures k in Image(r, original.Keys)
        {
          assert r(k) == k;
        }
      }
      forall k | k in original.Keys
        ensures back[k] == original[k]
      {
        assert r(k) == k;
      }
    }
  }

  /**
   Converting a secret and reversing the result restores the secret exactly if every key is clean:
   keys that are not clean cannot trade places either.
   */
  lemma SecretRoundTripIff<V>(t: LetterOrNumber, original: map<string, V>, converted: map<string, V>, back: map<string, V>)
    requires Renamed(Converter(t, Unicode), original, converted)
    requires Renamed(Reverser(ReverseUnicode), converted, back)
    ensures back == original <==> forall k :: k in original ==> Clean(t, k)
  {
    var r: string -> string := k => RoundTrip(t, k);
    if original.Keys <= Image(r, original.Keys) {
      RoundTripOntoMeansFixed(t, r, original.Keys);
    }
    RenamedTwice(Converter(t, Unicode), Reverser(ReverseUnicode), r, original, converted, back);
    RestoredIff(r, original, back);
    forall k | k in original.Keys
      ensures Clean(t, k) <==> r(k) == k
    {
      RoundTripIff(t, k);
    }
  }

  // ---------------------------------------------------------------- lengths and validation

  /** How many bytes UTF-8 takes for a rune, and for a string (`len` of a Go string). */
  function RuneBytes(c: char): nat {
    if c as int < 0x80 then 1 else if c as int < 0x800 then 2 else if c as int < 0x1_0000 then 3 else 4
  }

  function ByteLength(s: string): nat {
    if s == [] then 0 else RuneBytes(s[0]) + ByteLength(s[1..])
  }

  const UTF8_LIMITS := [0, 0x80, 0x800, 0x1_0000, 0x11_0000]

  /** A rune takes as many bytes as it needs (RFC 3629, section 3), and no more. */
  lemma RuneBytesAreLeast(c: char)
    ensures 1 <= RuneBytes(c) <= 4 && UTF8_LIMITS[RuneBytes(c) - 1] <= c as int < UTF8_LIMITS[RuneBytes(c)]
  {
  }

  lemma {:induction false} ByteLengthSplit(a: string, b: string)
    ensures ByteLength(a + b) == ByteLength(a) + ByteLength(b)
  {
    if a == [] {
      assert a + b == b;
    } else {
      assert (a + b)[1..] == a[1..] + b;
      ByteLengthSplit(a[1..], b);
    }
  }

  lemma {:induction false} AsciiLength(s: string)
    requires forall i :: 0 <= i < |s| ==> s[i] as int < 0x80
    ensures ByteLength(s) == |s|
  {
    if s != [] {
      AsciiLength(s[1..]);
    }
  }

  lemma EscapeBytes(t: LetterOrNumber, c: char)
    ensures ByteLength(Escape(c)) == HexWidth(c) + 3
  {
    EscapeShape(t, c);
    var e := Escape(c);
    forall i | 0 <= i < |e|
      ensures e[i] as int < 0x80
    {
      if 2 <= i < |e| - 1 {
        assert e[i] == e[2..|e| - 1][i - 2];
      }
    }
    AsciiLength(e);
  }

  lemma ConvertedRuneBytes(t: LetterOrNumber, c: char)
    ensures ByteLength(ConvertRune(t, Default, c)) <= RuneBytes(c)
    ensures ByteLength(ConvertRune(t, Unicode, c)) <= 9
  {
    EscapeBytes(t, c);
    assert ByteLength([c]) == RuneBytes(c) + ByteLength([]);
    assert ByteLength("_") == 1 + ByteLength([]);
  }

  /** Default never makes a key longer; Unicode writes at most nine bytes for each rune. */
  lemma {:induction false} ConvertedBytes(t: LetterOrNumber, s: string)
    ensures ByteLength(Convert(t, Default, s)) <= ByteLength(s)
    ensures ByteLength(Convert(t, Unicode, s)) <= 9 * |s|
  {
    if s != [] {
      ConvertedRuneBytes(t, s[0]);
      ConvertedBytes(t, s[1..]);
      ByteLengthSplit(ConvertRune(t, Default, s[0]), Convert(t, Default, s[1..]));
      ByteLengthSplit(ConvertRune(t, Unicode, s[0]), Convert(t, Unicode, s[1..]));
    }
  }

  const MAX_KEY_LENGTH := 253

  /** What `ValidateKeys` can report of a key. */
  datatype KeyError = TooLong(key: string) | InvalidCharacter(key: string, c: char)

  predicate ValidKey(t: LetterOrNumber, k: string) {
    ByteLength(k) <= MAX_KEY_LENGTH && AllLegal(t, k)
  }

  /** The error is the right one for this key: the length is looked at first, then each rune in turn. */
  ghost predicate ExplainsKey(t: LetterOrNumber, e: KeyError) {
    match e
    case TooLong(k) => ByteLength(k) > MAX_KEY_LENGTH
    case InvalidCharacter(k, c) =>
      ByteLength(k) <= MAX_KEY_LENGTH && exists i :: 0 <= i < |k| && k[i] == c && !Legal(t, c) && forall j :: 0 <= j < i ==> Legal(t, k[j])
  }

  /** A secret's data: the Go map that `ValidateKeys` deletes from while it walks it. */
  class SecretData<V> {
    var data: map<string, V>

    constructor (data: map<string, V>)
      ensures this.data == data
    {
      this.data := data;
    }

    method ValidateKeys(t: LetterOrNumber) returns (err: Option<KeyError>)
      modifies this
      ensures err.None? <==> forall k :: k in old(data) && k != "" ==> ValidKey(t, k)
      ensures err.None? ==> data == old(data) - {""}
      ensures err.Some? ==> data == old(data) || data == old(data) - {""}
      ensures err.Some? ==> err.value.key in old(data) && err.value.key != "" && ExplainsKey(t, err.value)
    {
      var rest := data.Keys;
      ghost var original := data;
      while rest != {}
        invariant rest <= original.Keys
        invariant data == if "" in rest then original else original - {""}
        invariant forall k :: k in original && k !in rest && k != "" ==> ValidKey(t, k)
        decreases rest
      {
        var key :| key in rest;
        rest := rest - {key};
        if ByteLength(key) == 0 {
          assert key == "";
          data := data - {key};
          continue;
        }
        if ByteLength(key) > MAX_KEY_LENGTH {
          return Some(TooLong(key));
        }
        for i := 0 to |key|
          invariant forall j :: 0 <= j < i ==> Legal(t, key[j])
        {
          var c := key[i];
          if !t(c) && c != '-' && c != '.' && c != '_' {
            return Some(InvalidCharacter(key, c));
          }
        }
      }
      err := None;
    }
  }

  /** A key of permitted ASCII characters is valid up to 253 of them. */
  lemma LongestValidKey(t: LetterOrNumber, k: string)
    requires forall i :: 0 <= i < |k| ==> IsAsciiAlnum(k[i]) || k[i] in "-._"
    ensures ValidKey(t, k) <==> |k| <= 253
  {
    AsciiLength(k);
  }

  /** Whatever key conversion leaves, validation can only complain about its length. */
  lemma {:induction false} ConvertedKeysFailOnLengthOnly(t: LetterOrNumber, strategy: ConversionStrategy, k: string)
    requires strategy != OtherConversion
    ensures ValidKey(t, Convert(t, strategy, k)) <==> ByteLength(Convert(t, strategy, k)) <= MAX_KEY_LENGTH
    ensures |k| <= 28 ==> strategy == Unicode ==> ValidKey(t, Convert(t, strategy, k))
    ensures ByteLength(k) <= MAX_KEY_LENGTH ==> strategy == Default ==> ValidKey(t, Convert(t, strategy, k))
  {
    ConvertIsLegal(t, strategy, k);
    ConvertedBytes(t, k);
  }

  /** 28 runes is the best bound: 29 runes of six digits each need 261 bytes. */
  lemma {:induction false} TwentyNineRunesCanBeTooLong(t: LetterOrNumber, k: string)
    requires !Legal(t, '\U{10FFFF}') && |k| == 29 && forall i :: 0 <= i < |k| ==> k[i] == '\U{10FFFF}'
    ensures !ValidKey(t, Convert(t, Unicode, k))
  {
    LongEscapes(t, k);
  }

  lemma {:induction false} LongEscapes(t: LetterOrNumber, k: string)
    requires !Legal(t, '\U{10FFFF}') && forall i :: 0 <= i < |k| ==> k[i] == '\U{10FFFF}'
    ensures ByteLength(Convert(t, Unicode, k)) == 9 * |k|
  {
    if k != [] {
      EscapeBytes(t, k[0]);
      ByteLengthSplit(Escape(k[0]), Convert(t, Unicode, k[1..]));
      LongEscapes(t, k[1..]);
    }
  }
}
