/**
 `RewriteMerge`: the JSON objects stored under the keys of a secret are laid over each other, keys
 with a priority last, and every field that was there already is recorded as a conflict.
 */
module JsonMerge {
  import opened Wrappers
  import opened Sequences

  // ---------------------------------------------------------------- sorted keys

  /** Go's `<` on strings. UTF-8 keeps the order of runes, so comparing runes compares bytes. */
  predicate Less(a: string, b: string) {
    b != [] && (a == [] || a[0] < b[0] || (a[0] == b[0] && Less(a[1..], b[1..])))
  }

  lemma {:induction false} LessTotal(a: string, b: string)
    ensures a == b || Less(a, b) || Less(b, a)
    ensures !(Less(a, b) && Less(b, a)) && !Less(a, a)
  {
    if a != [] && b != [] {
      LessTotal(a[1..], b[1..]);
      if a[0] == b[0] && a[1..] == b[1..] {
        assert a == [a[0]] + a[1..] == b;
      }
    }
    if a != [] {
      LessTotal(a[1..], a[1..]);
    }
  }

  lemma {:induction false} LessTransitive(a: string, b: string, c: string)
    requires Less(a, b) && Less(b, c)
    ensures Less(a, c)
  {
    if a != [] && a[0] == b[0] == c[0] {
      LessTransitive(a[1..], b[1..], c[1..]);
    }
  }

  /** `a` and `b` agree before `i`, where `a` ends or has the smaller rune. */
  ghost predicate DiffersAt(a: string, b: string, i: int) {
    0 <= i <= |a| && i < |b| && a[..i] == b[..i] && (i < |a| ==> a[i] < b[i])
  }

  lemma DiffersLater(a: string, b: string, i: int)
    requires a != [] && b != [] && a[0] == b[0] && i >= 0
    ensures DiffersAt(a, b, i + 1) <==> DiffersAt(a[1..], b[1..], i)
  {
    if i <= |a| - 1 && i < |b| - 1 {
      assert a[..i + 1] == [a[0]] + a[1..][..i] && b[..i + 1] == [b[0]] + b[1..][..i];
      assert a[..i + 1][1..] == a[1..][..i] && b[..i + 1][1..] == b[1..][..i];
    }
  }

  lemma {:induction false} SmallerDiffers(a: string, b: string) returns (i: int)
    requires Less(a, b)
    ensures DiffersAt(a, b, i)
  {
    i := 0;
    if a != [] && a[0] == b[0] {
      var rest := SmallerDiffers(a[1..], b[1..]);
      DiffersLater(a, b, rest);
      i := rest + 1;
    }
  }

  lemma {:induction false} DiffersSmaller(a: string, b: string, i: int)
    requires DiffersAt(a, b, i)
    ensures Less(a, b)
    decreases i
  {
    if i > 0 {
      assert a[0] == a[..i][0] == b[..i][0] == b[0];
      DiffersLater(a, b, i - 1);
      DiffersSmaller(a[1..], b[1..], i - 1);
    }
  }

  /** The order is that of dictionaries: at the first difference, the smaller rune or the end comes first. */
  lemma {:induction false} LessIff(a: string, b: string)
    ensures Less(a, b) <==> exists i :: DiffersAt(a, b, i)
  {
    if Less(a, b) {
      var i := SmallerDiffers(a, b);
    }
    if i :| DiffersAt(a, b, i) {
      DiffersSmaller(a, b, i);
    }
  }

  ghost predicate Sorted(ks: seq<string>) {
    forall i, j :: 0 <= i < j < |ks| ==> Less(ks[i], ks[j])
  }

  ghost function Elements<T>(s: seq<T>): set<T> {
    set x | x in s
  }

  function Insert(k: string, ks: seq<string>): seq<string> {
    if ks == [] || Less(k, ks[0]) then [k] + ks else [ks[0]] + Insert(k, ks[1..])
  }

  /** `sort.Strings` on distinct strings. */
  function SortStrings(ks: seq<string>): seq<string> {
    if ks == [] then [] else Insert(ks[|ks| - 1], SortStrings(ks[..|ks| - 1]))
  }

  lemma {:induction false} InsertSorted(k: string, ks: seq<string>)
    requires Sorted(ks) && k !in ks
    ensures Sorted(Insert(k, ks)) && Elements(Insert(k, ks)) == Elements(ks) + {k}
  {
    if ks == [] {
    } else if Less(k, ks[0]) {
      forall j | 0 <= j < |ks|
        ensures Less(k, ks[j])
      {
        if j > 0 {
          LessTransitive(k, ks[0], ks[j]);
        }
      }
    } else {
      LessTotal(k, ks[0]);
      InsertSorted(k, ks[1..]);
      var rest := Insert(k, ks[1..]);
      forall j | 0 <= j < |rest|
        ensures Less(ks[0], rest[j])
      {
        assert rest[j] in Elements(rest);
        assert rest[j] == k || rest[j] in ks[1..];
      }
      assert Elements(ks) == Elements(ks[1..]) + {ks[0]};
      assert Elements([ks[0]] + rest) == Elements(rest) + {ks[0]};
    }
  }

  /** A set of keys in byte order. */
  ghost function SortedKeys(keys: set<string>): seq<string> {
    if keys == {} then [] else var k :| k in keys; Insert(k, SortedKeys(keys - {k}))
  }

  lemma {:induction false} SortedKeysSorted(keys: set<string>)
    ensures Sorted(SortedKeys(keys)) && Elements(SortedKeys(keys)) == keys
  {
    if keys != {} {
      var k :| k in keys && SortedKeys(keys) == Insert(k, SortedKeys(keys - {k}));
      SortedKeysSorted(keys - {k});
      assert k !in Elements(SortedKeys(keys - {k}));
      InsertSorted(k, SortedKeys(keys - {k}));
    }
  }

  /** There is only one way to sort a set. */
  lemma {:induction false} SortedIsUnique(a: seq<string>, b: seq<string>)
    requires Sorted(a) && Sorted(b) && Elements(a) == Elements(b)
    ensures a == b
  {
    assert a != [] ==> a[0] in Elements(a);
    assert b != [] ==> b[0] in Elements(b);
    if a != [] {
      SameHead(a, b);
      TailElements(a);
      TailElements(b);
      SortedIsUnique(a[1..], b[1..]);
    }
  }

  lemma SameHead(a: seq<string>, b: seq<string>)
    requires a != [] && b != [] && Sorted(a) && Sorted(b) && a[0] in b && b[0] in a
    ensures a[0] == b[0]
  {
    var i :| 0 <= i < |b| && b[i] == a[0];
    var j :| 0 <= j < |a| && a[j] == b[0];
    LessTotal(a[0], b[0]);
  }

  lemma TailElements(a: seq<string>)
    requires a != [] && Sorted(a)
    ensures Sorted(a[1..]) && Elements(a[1..]) == Elements(a) - {a[0]}
  {
    forall x | x in Elements(a) - {a[0]}
      ensures x in a[1..]
    {
      var i :| 0 <= i < |a| && a[i] == x;
      assert a[1..][i - 1] == x;
    }
    forall x | x in a[1..]
      ensures x != a[0]
    {
      var i :| 0 <= i < |a| - 1 && a[1..][i] == x;
      LessTotal(a[0], a[i + 1]);
    }
  }

  // ---------------------------------------------------------------- the operation

  datatype PriorityPolicy = Strict | IgnoreNotFound
  datatype ConflictPolicy = ErrorOnConflict | IgnoreConflicts

  /** `Extract` is also what the empty string means; any other text selects no case at all. */
  datatype MergeStrategy = Extract | JSON | OtherStrategy

  datatype MergeOperation = MergeOperation(
    into: string,
    priority: seq<string>,
    priorityPolicy: PriorityPolicy,
    conflictPolicy: ConflictPolicy,
    strategy: MergeStrategy)

  /** The JSON library: parsing an object, writing one, and `GetByteValue` on one value. */
  datatype Codec<!V, !J> = Codec(
    parse: V -> Option<map<string, J>>,
    marshal: map<string, J> -> Option<V>,
    byteValue: J -> Option<V>)

  datatype MergeError =
    | KeyNotFound(key: string)
    | NotAnObject(key: string)
    | MergeConflicts(fields: seq<string>)
    | NoByteValue(field: string)
    | MissingInto
    | NotMarshalled

  /** Non-priority keys in byte order, then the priority keys as they are listed. */
  ghost function VisitOrder(op: MergeOperation, keys: set<string>): seq<string> {
    SortedKeys(keys - Elements(op.priority)) + op.priority
  }

  ghost predicate SortsTo(ks: seq<string>, keys: set<string>) {
    Elements(ks) == keys && Sorted(SortStrings(ks)) && Elements(SortStrings(ks)) == keys
  }

  lemma SortOneMore(ks: seq<string>, keys: set<string>, k: string)
    requires SortsTo(ks, keys) && k !in keys
    ensures SortsTo(ks + [k], keys + {k})
  {
    assert (ks + [k])[..|ks|] == ks;
    assert k !in Elements(SortStrings(ks));
    InsertSorted(k, SortStrings(ks));
    assert Elements(ks + [k]) == Elements(ks) + {k};
  }

  lemma {:induction false} SortsToSortedKeys(ks: seq<string>, keys: set<string>)
    requires SortsTo(ks, keys)
    ensures SortStrings(ks) == SortedKeys(keys)
  {
    SortedKeysSorted(keys);
    SortedIsUnique(SortStrings(ks), SortedKeys(keys));
  }

  /** The keys come out in the same order however the map is walked. */
  method SortKeysWithPriority<V>(op: MergeOperation, original: map<string, V>) returns (keys: seq<string>)
    ensures keys == VisitOrder(op, original.Keys)
  {
    keys := [];
    var rest := original.Keys;
    ghost var priority := Elements(op.priority);
    while rest != {}
      invariant rest <= original.Keys
      invariant SortsTo(keys, original.Keys - rest - priority)
      decreases rest
    {
      var k :| k in rest;
      if k !in op.priority {
        SortOneMore(keys, original.Keys - rest - priority, k);
        assert original.Keys - rest - priority + {k} == original.Keys - (rest - {k}) - priority;
        keys := keys + [k];
      } else {
        assert original.Keys - rest - priority == original.Keys - (rest - {k}) - priority;
      }
      rest := rest - {k};
    }
    assert original.Keys - rest == original.Keys;
    SortsToSortedKeys(keys, original.Keys - priority);
    keys := SortStrings(keys);
    keys := keys + op.priority;
  }

  // ---------------------------------------------------------------- overlaying objects

  /** All objects laid over each other in visiting order, the last one on top. */
  ghost function Overlay<J>(obj: string -> map<string, J>, ks: seq<string>): map<string, J> {
    if ks == [] then map[] else Overlay(obj, ks[..|ks| - 1]) + obj(ks[|ks| - 1])
  }

  /** Every field once for each time it was met again. */
  ghost function Clashes<J>(obj: string -> map<string, J>, ks: seq<string>): multiset<string> {
    if ks == [] then multiset{}
    else
      var front := ks[..|ks| - 1];
      Clashes(obj, front) + multiset(Overlay(obj, front).Keys * obj(ks[|ks| - 1]).Keys)
  }

  ghost function FieldCount<J>(obj: string -> map<string, J>, ks: seq<string>): nat {
    if ks == [] then 0 else FieldCount(obj, ks[..|ks| - 1]) + |obj(ks[|ks| - 1])|
  }

  lemma OverlaySize<J>(a: map<string, J>, b: map<string, J>)
    ensures |a + b| + |a.Keys * b.Keys| == |a| + |b|
  {
    assert (a + b).Keys == a.Keys + b.Keys;
    assert |a.Keys + b.Keys| + |a.Keys * b.Keys| == |a.Keys| + |b.Keys|;
  }

  /** Nothing is lost: each field of each visited object is in the merged map or a conflict. */
  lemma {:induction false} MergeConserves<J>(obj: string -> map<string, J>, ks: seq<string>)
    ensures FieldCount(obj, ks) == |Overlay(obj, ks)| + |Clashes(obj, ks)|
  {
    if ks != [] {
      var front := ks[..|ks| - 1];
      MergeConserves(obj, front);
      OverlaySize(Overlay(obj, front), obj(ks[|ks| - 1]));
    }
  }

  /** `i` is the last visit that has field `f`. */
  ghost predicate LastHolder<J>(obj: string -> map<string, J>, ks: seq<string>, f: string, i: int) {
    && 0 <= i < |ks| && f in obj(ks[i])
    && forall j :: i < j < |ks| ==> f !in obj(ks[j])
  }

  /** The merged map has a field that is visited, with the value of its last visit. */
  lemma {:induction false} LastVisitWins<J>(obj: string -> map<string, J>, ks: seq<string>, f: string, i: int)
    requires LastHolder(obj, ks, f, i)
    ensures f in Overlay(obj, ks) && Overlay(obj, ks)[f] == obj(ks[i])[f]
  {
    var n := |ks| - 1;
    if i < n {
      assert f !in obj(ks[n]);
      LastVisitWins(obj, ks[..n], f, i);
    }
  }

  /** And it has no others. */
  lemma {:induction false} LastVisit<J>(obj: string -> map<string, J>, ks: seq<string>, f: string) returns (i: int)
    requires f in Overlay(obj, ks)
    ensures LastHolder(obj, ks, f, i) && Overlay(obj, ks)[f] == obj(ks[i])[f]
  {
    var n := |ks| - 1;
    if f in obj(ks[n]) {
      i := n;
    } else {
      i := LastVisit(obj, ks[..n], f);
    }
  }

  lemma {:induction false} VisitedIsMerged<J>(obj: string -> map<string, J>, ks: seq<string>, f: string, i: int)
    requires 0 <= i < |ks| && f in obj(ks[i])
    ensures f in Overlay(obj, ks)
  {
    if i < |ks| - 1 {
      VisitedIsMerged(obj, ks[..|ks| - 1], f, i);
    }
  }

  ghost predicate PairwiseDisjoint<J>(obj: string -> map<string, J>, ks: seq<string>) {
    forall i, j :: 0 <= i < j < |ks| ==> obj(ks[i]).Keys !! obj(ks[j]).Keys
  }

  lemma {:induction false} CommonFieldIffShared<J>(obj: string -> map<string, J>, front: seq<string>, last: map<string, J>)
    ensures Overlay(obj, front).Keys * last.Keys == {} <==> forall i :: 0 <= i < |front| ==> obj(front[i]).Keys !! last.Keys
  {
    var common := Overlay(obj, front).Keys * last.Keys;
    if common != {} {
      var f :| f in common;
      var i := LastVisit(obj, front, f);
      assert f in obj(front[i]).Keys * last.Keys;
    } else {
      forall i | 0 <= i < |front|
        ensures obj(front[i]).Keys !! last.Keys
      {
        forall f | f in obj(front[i])
          ensures f !in last
        {
          VisitedIsMerged(obj, front, f, i);
          assert f !in common;
        }
      }
    }
  }

  lemma EmptySum(a: multiset<string>, b: set<string>)
    ensures a + multiset(b) == multiset{} <==> a == multiset{} && b == {}
  {
    if b != {} {
      var x :| x in b;
      assert x in a + multiset(b);
    }
    if a != multiset{} {
      var x :| x in a;
      assert x in a + multiset(b);
    }
  }

  lemma DisjointFromAllBefore<J>(obj: string -> map<string, J>, ks: seq<string>)
    requires ks != []
    ensures var front, last := ks[..|ks| - 1], obj(ks[|ks| - 1]);
            PairwiseDisjoint(obj, ks) <==>
              PairwiseDisjoint(obj, front) && forall i :: 0 <= i < |front| ==> obj(front[i]).Keys !! last.Keys
  {
  }

  /** There are no conflicts exactly if no two visited objects share a field. */
  lemma {:induction false} NoClashesIffDisjoint<J>(obj: string -> map<string, J>, ks: seq<string>)
    ensures Clashes(obj, ks) == multiset{} <==> PairwiseDisjoint(obj, ks)
  {
    if ks != [] {
      var front, last := ks[..|ks| - 1], obj(ks[|ks| - 1]);
      NoClashesIffDisjoint(obj, front);
      CommonFieldIffShared(obj, front, last);
      EmptySum(Clashes(obj, front), Overlay(obj, front).Keys * last.Keys);
      DisjointFromAllBefore(obj, ks);
    }
  }

  // ---------------------------------------------------------------- permuting the visits

  lemma {:induction false} FieldCountSplit<J>(obj: string -> map<string, J>, a: seq<string>, b: seq<string>)
    ensures FieldCount(obj, a + b) == FieldCount(obj, a) + FieldCount(obj, b)
  {
    if b == [] {
      assert a + b == a;
    } else {
      assert (a + b)[..|a + b| - 1] == a + b[..|b| - 1];
      FieldCountSplit(obj, a, b[..|b| - 1]);
    }
  }

  lemma {:induction false} FieldCountOneMore<J>(obj: string -> map<string, J>, front: seq<string>, k: string)
    ensures FieldCount(obj, front + [k]) == FieldCount(obj, front) + |obj(k)|
  {
    assert (front + [k])[..|front|] == front;
  }

  lemma {:induction false} FieldCountBetween<J>(obj: string -> map<string, J>, a: seq<string>, k: string, b: seq<string>)
    ensures FieldCount(obj, a + [k] + b) == FieldCount(obj, a + b) + |obj(k)|
  {
    FieldCountSplit(obj, a + [k], b);
    FieldCountOneMore(obj, a, k);
    FieldCountSplit(obj, a, b);
  }

  lemma {:induction false} FieldCountWithout<J>(obj: string -> map<string, J>, ks: seq<string>, i: nat)
    requires i < |ks|
    ensures FieldCount(obj, ks) == FieldCount(obj, Without(ks, i)) + |obj(ks[i])|
  {
    SplitAt(ks, i);
    FieldCountBetween(obj, ks[..i], ks[i], ks[i + 1..]);
  }

  lemma MultisetWithout<T>(s: seq<T>, i: nat)
    requires i < |s|
    ensures multiset(Without(s, i)) == multiset(s) - multiset{s[i]}
  {
    assert s == s[..i] + [s[i]] + s[i + 1..];
  }

  lemma Position<T>(s: seq<T>, x: T) returns (i: nat)
    requires x in multiset(s)
    ensures i < |s| && s[i] == x
  {
    i :| 0 <= i < |s| && s[i] == x;
  }

  lemma {:induction false} FieldCountPermutes<J>(obj: string -> map<string, J>, a: seq<string>, b: seq<string>)
    requires multiset(a) == multiset(b)
    ensures FieldCount(obj, a) == FieldCount(obj, b)
    decreases |a|
  {
    if a == [] {
      assert |b| == |multiset(b)| == 0;
    } else {
      assert a[0] in multiset(a);
      var i := Position(b, a[0]);
      MultisetWithout(a, 0);
      MultisetWithout(b, i);
      FieldCountWithout(obj, a, 0);
      FieldCountWithout(obj, b, i);
      FieldCountPermutes(obj, Without(a, 0), Without(b, i));
    }
  }

  lemma {:induction false} OverlayKeysPermute<J>(obj: string -> map<string, J>, a: seq<string>, b: seq<string>)
    requires multiset(a) == multiset(b)
    ensures Overlay(obj, a).Keys <= Overlay(obj, b).Keys
  {
    forall f | f in Overlay(obj, a).Keys
      ensures f in Overlay(obj, b).Keys
    {
      var i := LastVisit(obj, a, f);
      assert a[i] in multiset(a);
      var j := Position(b, a[i]);
      VisitedIsMerged(obj, b, f, j);
    }
  }

  lemma {:induction false} SameWinner<J>(obj: string -> map<string, J>, a: seq<string>, b: seq<string>, f: string)
    requires multiset(a) == multiset(b) && PairwiseDisjoint(obj, a)
    requires f in Overlay(obj, a) && f in Overlay(obj, b)
    ensures Overlay(obj, a)[f] == Overlay(obj, b)[f]
  {
    var i := LastVisit(obj, a, f);
    var j := LastVisit(obj, b, f);
    assert b[j] in multiset(b);
    var k := Position(a, b[j]);
    assert f in obj(a[i]).Keys * obj(a[k]).Keys;
    assert i == k;
  }

  /**
   If a visiting order has no conflicts, no permutation of it has any, by conservation: the fields
   to place and the fields placed are as many. And then the order does not matter.
   */
  lemma {:induction false} ConflictFreeMergePermutes<J>(obj: string -> map<string, J>, a: seq<string>, b: seq<string>)
    requires multiset(a) == multiset(b) && Clashes(obj, a) == multiset{}
    ensures Clashes(obj, b) == multiset{}
    ensures Overlay(obj, a) == Overlay(obj, b)
  {
    OverlayKeysPermute(obj, a, b);
    OverlayKeysPermute(obj, b, a);
    ClashCountPermutes(obj, a, b);
    NoClashesIffDisjoint(obj, a);
    forall f | f in Overlay(obj, a)
      ensures Overlay(obj, a)[f] == Overlay(obj, b)[f]
    {
      SameWinner(obj, a, b, f);
    }
  }

  lemma {:induction false} ClashCountPermutes<J>(obj: string -> map<string, J>, a: seq<string>, b: seq<string>)
    requires multiset(a) == multiset(b) && Overlay(obj, a).Keys == Overlay(obj, b).Keys
    ensures |Clashes(obj, a)| == |Clashes(obj, b)|
  {
    MergeConserves(obj, a);
    MergeConserves(obj, b);
    FieldCountPermutes(obj, a, b);
    assert |Overlay(obj, a)| == |Overlay(obj, a).Keys|;
    assert |Overlay(obj, b)| == |Overlay(obj, b).Keys|;
  }

  // ---------------------------------------------------------------- merge and RewriteMerge

  /** The object under a key; a key that is not there, or holds no object, contributes nothing. */
  function ObjectAt<V, J>(codec: Codec<V, J>, original: map<string, V>, k: string): map<string, J> {
    if k in original && codec.parse(original[k]).Some? then codec.parse(original[k]).value else map[]
  }

  function Objects<V, J>(codec: Codec<V, J>, original: map<string, V>): string -> map<string, J> {
    k => ObjectAt(codec, original, k)
  }

  predicate Readable<V, J>(codec: Codec<V, J>, op: MergeOperation, original: map<string, V>, k: string) {
    if k in original then codec.parse(original[k]).Some? else op.priorityPolicy.IgnoreNotFound?
  }

  ghost predicate AllReadable<V, J>(codec: Codec<V, J>, op: MergeOperation, original: map<string, V>) {
    forall k :: k in VisitOrder(op, original.Keys) ==> Readable(codec, op, original, k)
  }

  /** The state of `merge` after visiting the keys `ks`. */
  ghost predicate Merged<V, J>(codec: Codec<V, J>, op: MergeOperation, original: map<string, V>, ks: seq<string>,
                               mergedMap: map<string, J>, conflicts: seq<string>) {
    && (forall k :: k in ks ==> Readable(codec, op, original, k))
    && mergedMap == Overlay(Objects(codec, original), ks)
    && multiset(conflicts) == Clashes(Objects(codec, original), ks)
  }

  lemma VisitOne<V, J>(codec: Codec<V, J>, op: MergeOperation, original: map<string, V>, ks: seq<string>, n: nat,
                       mergedMap: map<string, J>, conflicts: seq<string>,
                       mergedMap': map<string, J>, conflicts': seq<string>)
    requires n < |ks| && Merged(codec, op, original, ks[..n], mergedMap, conflicts) && Readable(codec, op, original, ks[n])
    requires mergedMap' == mergedMap + ObjectAt(codec, original, ks[n])
    requires multiset(conflicts') == multiset(conflicts) + multiset(mergedMap.Keys * ObjectAt(codec, original, ks[n]).Keys)
    ensures Merged(codec, op, original, ks[..n + 1], mergedMap', conflicts')
  {
    OverlayNext(Objects(codec, original), ks, n);
    PrefixElements(ks, n);
  }

  lemma OverlayNext<J>(obj: string -> map<string, J>, ks: seq<string>, n: nat)
    requires n < |ks|
    ensures Overlay(obj, ks[..n + 1]) == Overlay(obj, ks[..n]) + obj(ks[n])
    ensures Clashes(obj, ks[..n + 1]) == Clashes(obj, ks[..n]) + multiset(Overlay(obj, ks[..n]).Keys * obj(ks[n]).Keys)
  {
    assert ks[..n + 1][..n] == ks[..n];
  }

  lemma PrefixElements<T>(s: seq<T>, n: nat)
    requires n < |s|
    ensures forall x :: x in s[..n + 1] <==> x in s[..n] || x == s[n]
  {
    assert s[..n + 1] == s[..n] + [s[n]];
  }

  lemma NothingToOverlay<J>(below: map<string, J>)
    ensures below + map[] == below && multiset(below.Keys * {}) == multiset{}
  {
    assert below.Keys * {} == {};
  }

  lemma VisitMissing<V, J>(codec: Codec<V, J>, op: MergeOperation, original: map<string, V>, ks: seq<string>, n: nat,
                           mergedMap: map<string, J>, conflicts: seq<string>)
    requires n < |ks| && Merged(codec, op, original, ks[..n], mergedMap, conflicts)
    requires ks[n] !in original && op.priorityPolicy.IgnoreNotFound?
    ensures Merged(codec, op, original, ks[..n + 1], mergedMap, conflicts)
  {
    OverlayNext(Objects(codec, original), ks, n);
    PrefixElements(ks, n);
    NothingToOverlay(Overlay(Objects(codec, original), ks[..n]));
  }

  /** The key is visited and cannot be read, and all those before it can. */
  ghost predicate FirstUnreadable<V, J>(codec: Codec<V, J>, op: MergeOperation, original: map<string, V>, ks: seq<string>, key: string) {
    exists n :: 0 <= n < |ks| && ks[n] == key && !Readable(codec, op, original, key) && forall k :: k in ks[..n] ==> Readable(codec, op, original, k)
  }

  /** `merge`: the first key that cannot be read ends it; otherwise all objects are overlaid. */
  method Merge<V, J>(codec: Codec<V, J>, op: MergeOperation, original: map<string, V>)
    returns (r: Result<(map<string, J>, seq<string>), MergeError>)
    ensures r.Success? ==> Merged(codec, op, original, VisitOrder(op, original.Keys), r.value.0, r.value.1)
    ensures r.Failure? ==> (r.error.KeyNotFound? && r.error.key !in original) || (r.error.NotAnObject? && r.error.key in original)
    ensures r.Failure? ==> FirstUnreadable(codec, op, original, VisitOrder(op, original.Keys), r.error.key)
  {
    var mergedMap: map<string, J> := map[];
    var conflicts: seq<string> := [];
    var keys := SortKeysWithPriority(op, original);
    for n := 0 to |keys|
      invariant Merged(codec, op, original, keys[..n], mergedMap, conflicts)
    {
      var key := keys[n];
      if key !in original {
        if op.priorityPolicy.IgnoreNotFound? {
          VisitMissing(codec, op, original, keys, n, mergedMap, conflicts);
          continue;
        }
        return Failure(KeyNotFound(key));
      }
      var parsed := codec.parse(original[key]);
      if parsed.None? {
        return Failure(NotAnObject(key));
      }
      ghost var below, before := mergedMap, conflicts;
      mergedMap, conflicts := OverlayOne(mergedMap, conflicts, parsed.value);
      VisitOne(codec, op, original, keys, n, below, before, mergedMap, conflicts);
    }
    assert keys[..|keys|] == keys;
    r := Success((mergedMap, conflicts));
  }

  /** The inner loop of `merge` after visiting the fields `seen` of an object: `added` are the new conflicts. */
  ghost predicate OverlaidSoFar<J>(below: map<string, J>, jsonMap: map<string, J>, seen: set<string>,
                                   mergedMap: map<string, J>, added: seq<string>) {
    && mergedMap.Keys == below.Keys + seen
    && (forall k :: k in seen && k in jsonMap ==> mergedMap[k] == jsonMap[k])
    && (forall k :: k in below && k !in seen ==> mergedMap[k] == below[k])
    && (forall i, j :: 0 <= i < j < |added| ==> added[i] != added[j])
    && Elements(added) == below.Keys * seen
  }

  lemma OverlayField<J>(below: map<string, J>, jsonMap: map<string, J>, seen: set<string>,
                        mergedMap: map<string, J>, added: seq<string>, k: string)
    requires OverlaidSoFar(below, jsonMap, seen, mergedMap, added) && k in jsonMap && k !in seen
    ensures OverlaidSoFar(below, jsonMap, seen + {k}, mergedMap[k := jsonMap[k]], if k in mergedMap then added + [k] else added)
  {
    assert Elements(added + [k]) == Elements(added) + {k};
    assert k !in Elements(added);
  }

  lemma {:induction false} DistinctMultiset(s: seq<string>)
    requires forall i, j :: 0 <= i < j < |s| ==> s[i] != s[j]
    ensures multiset(s) == multiset(Elements(s))
  {
    if s != [] {
      var front, last := s[..|s| - 1], s[|s| - 1];
      DistinctMultiset(front);
      assert s == front + [last];
      assert Elements(s) == Elements(front) + {last};
    }
  }

  lemma FullyOverlaid<J>(below: map<string, J>, jsonMap: map<string, J>, mergedMap: map<string, J>, added: seq<string>)
    requires OverlaidSoFar(below, jsonMap, jsonMap.Keys, mergedMap, added)
    ensures mergedMap == below + jsonMap
    ensures multiset(added) == multiset(below.Keys * jsonMap.Keys)
  {
    DistinctMultiset(added);
  }

  /** The inner loop of `merge`: one object's fields, in any order. */
  method OverlayOne<J>(below: map<string, J>, conflictsBefore: seq<string>, jsonMap: map<string, J>)
    returns (mergedMap: map<string, J>, conflicts: seq<string>)
    ensures mergedMap == below + jsonMap
    ensures multiset(conflicts) == multiset(conflictsBefore) + multiset(below.Keys * jsonMap.Keys)
  {
    mergedMap, conflicts := below, conflictsBefore;
    var rest := jsonMap.Keys;
    ghost var seen: set<string>, added: seq<string> := {}, [];
    assert below.Keys * {} == {};
    while rest != {}
      invariant seen + rest == jsonMap.Keys && seen !! rest
      invariant OverlaidSoFar(below, jsonMap, seen, mergedMap, added)
      invariant conflicts == conflictsBefore + added
      decreases rest
    {
      var k :| k in rest;
      OverlayField(below, jsonMap, seen, mergedMap, added, k);
      if k in mergedMap {
        conflicts, added := conflicts + [k], added + [k];
      }
      mergedMap := mergedMap[k := jsonMap[k]];
      rest, seen := rest - {k}, seen + {k};
    }
    FullyOverlaid(below, jsonMap, mergedMap, added);
  }

  ghost predicate MapsBytes<V, J>(codec: Codec<V, J>, m: map<string, J>, out: map<string, V>) {
    out.Keys == m.Keys && forall k :: k in m ==> codec.byteValue(m[k]) == Some(out[k])
  }

  /** What the strategy makes of the merged map. */
  ghost predicate StrategyAllows<V, J>(codec: Codec<V, J>, op: MergeOperation, original: map<string, V>,
                                       merged: map<string, J>, out: map<string, V>) {
    match op.strategy
    case Extract => MapsBytes(codec, merged, out)
    case JSON => op.into != "" && codec.marshal(merged).Some? && out == original[op.into := codec.marshal(merged).value]
    case OtherStrategy => out == map[]
  }

  /** Every visited key can be read, and there are no conflicts unless they are ignored. */
  ghost predicate MergeAccepts<V, J>(codec: Codec<V, J>, op: MergeOperation, original: map<string, V>) {
    && AllReadable(codec, op, original)
    && (op.conflictPolicy.ErrorOnConflict? ==> Clashes(Objects(codec, original), VisitOrder(op, original.Keys)) == multiset{})
  }

  /** What `RewriteMerge` may return with success. */
  ghost predicate RewriteMergeAllows<V, J>(codec: Codec<V, J>, op: MergeOperation, original: map<string, V>, out: map<string, V>) {
    && MergeAccepts(codec, op, original)
    && StrategyAllows(codec, op, original, Overlay(Objects(codec, original), VisitOrder(op, original.Keys)), out)
  }

  method ExtractBytes<V, J>(codec: Codec<V, J>, mergedMap: map<string, J>) returns (r: Result<map<string, V>, MergeError>)
    ensures r.Success? ==> MapsBytes(codec, mergedMap, r.value)
    ensures r.Failure? ==> forall out :: !MapsBytes(codec, mergedMap, out)
    ensures r.Failure? ==> r.error.NoByteValue? && r.error.field in mergedMap && codec.byteValue(mergedMap[r.error.field]).None?
  {
    var out: map<string, V> := map[];
    var rest := mergedMap.Keys;
    while rest != {}
      invariant rest <= mergedMap.Keys && out.Keys == mergedMap.Keys - rest
      invariant forall k :: k in out ==> codec.byteValue(mergedMap[k]) == Some(out[k])
      decreases rest
    {
      var k :| k in rest;
      var v := codec.byteValue(mergedMap[k]);
      if v.None? {
        return Failure(NoByteValue(k));
      }
      out := out[k := v.value];
      rest := rest - {k};
    }
    r := Success(out);
  }

  lemma NoConflictsRecorded(conflicts: seq<string>)
    ensures |conflicts| == 0 <==> multiset(conflicts) == multiset{}
  {
    if |conflicts| > 0 {
      assert conflicts[0] in multiset(conflicts);
    }
  }

  /** The part of `RewriteMerge` before the strategy is looked at. */
  method MergeOrConflict<V, J>(codec: Codec<V, J>, op: MergeOperation, original: map<string, V>)
    returns (r: Result<map<string, J>, MergeError>)
    ensures r.Success? <==> MergeAccepts(codec, op, original)
    ensures r.Failure? ==> ExplainsMerge(codec, op, original, r.error)
    ensures r.Failure? ==> r.error.KeyNotFound? || r.error.NotAnObject? || r.error.MergeConflicts?
    ensures r.Success? ==> r.value == Overlay(Objects(codec, original), VisitOrder(op, original.Keys))
  {
    var m := Merge(codec, op, original);
    if m.Failure? {
      return Failure(m.error);
    }
    var (mergedMap, conflicts) := m.value;
    NoConflictsRecorded(conflicts);
    if op.conflictPolicy != IgnoreConflicts {
      if |conflicts| > 0 {
        return Failure(MergeConflicts(conflicts));
      }
    }
    r := Success(mergedMap);
  }

  /** The error is the one that this merge has to report. */
  ghost predicate ExplainsMerge<V, J>(codec: Codec<V, J>, op: MergeOperation, original: map<string, V>, e: MergeError) {
    match e
    case KeyNotFound(key) => FirstUnreadable(codec, op, original, VisitOrder(op, original.Keys), key) && key !in original
    case NotAnObject(key) => FirstUnreadable(codec, op, original, VisitOrder(op, original.Keys), key) && key in original
    case MergeConflicts(fields) =>
      && AllReadable(codec, op, original) && op.conflictPolicy.ErrorOnConflict? && fields != []
      && multiset(fields) == Clashes(Objects(codec, original), VisitOrder(op, original.Keys))
    case NoByteValue(field) =>
      && MergeAccepts(codec, op, original) && op.strategy.Extract?
      && field in MergedMap(codec, op, original) && codec.byteValue(MergedMap(codec, op, original)[field]).None?
    case MissingInto => MergeAccepts(codec, op, original) && op.strategy.JSON? && op.into == ""
    case NotMarshalled =>
      && MergeAccepts(codec, op, original) && op.strategy.JSON? && op.into != ""
      && codec.marshal(MergedMap(codec, op, original)).None?
  }

  method RewriteMerge<V, J>(codec: Codec<V, J>, op: MergeOperation, original: map<string, V>)
    returns (r: Result<map<string, V>, MergeError>)
    ensures r.Success? ==> RewriteMergeAllows(codec, op, original, r.value)
    ensures r.Failure? ==> forall out :: !RewriteMergeAllows(codec, op, original, out)
    ensures r.Failure? ==> ExplainsMerge(codec, op, original, r.error)
  {
    var m := MergeOrConflict(codec, op, original);
    if m.Failure? {
      return Failure(m.error);
    }
    var mergedMap := m.value;
    match op.strategy
    case Extract =>
      r := ExtractBytes(codec, mergedMap);
    case JSON =>
      if op.into == "" {
        return Failure(MissingInto);
      }
      var mergedBytes := codec.marshal(mergedMap);
      if mergedBytes.None? {
        return Failure(NotMarshalled);
      }
      r := Success(original[op.into := mergedBytes.value]);
    case OtherStrategy =>
      r := Success(map[]);
  }

  // ---------------------------------------------------------------- who wins, and when order matters

  ghost predicate Holds<V, J>(codec: Codec<V, J>, original: map<string, V>, k: string, f: string) {
    f in ObjectAt(codec, original, k)
  }

  /** `i` is the rightmost priority key that holds `f`. */
  ghost predicate RightmostPriority<V, J>(codec: Codec<V, J>, op: MergeOperation, original: map<string, V>, f: string, i: int) {
    && 0 <= i < |op.priority| && Holds(codec, original, op.priority[i], f)
    && forall j :: i < j < |op.priority| ==> !Holds(codec, original, op.priority[j], f)
  }

  /** `k` is the last of the other keys, in byte order, that holds `f`. */
  ghost predicate LargestOther<V, J>(codec: Codec<V, J>, op: MergeOperation, original: map<string, V>, f: string, k: string) {
    && k in original && k !in op.priority && Holds(codec, original, k, f)
    && forall o :: o in original && o !in op.priority && Holds(codec, original, o, f) && o != k ==> Less(o, k)
  }

  ghost function MergedMap<V, J>(codec: Codec<V, J>, op: MergeOperation, original: map<string, V>): map<string, J> {
    Overlay(Objects(codec, original), VisitOrder(op, original.Keys))
  }

  /** A field has the value of the rightmost priority key that holds it. */
  lemma RightmostPriorityWins<V, J>(codec: Codec<V, J>, op: MergeOperation, original: map<string, V>, f: string, i: int)
    requires RightmostPriority(codec, op, original, f, i)
    ensures f in MergedMap(codec, op, original)
    ensures MergedMap(codec, op, original)[f] == ObjectAt(codec, original, op.priority[i])[f]
  {
    var ks := VisitOrder(op, original.Keys);
    var m := |ks| - |op.priority|;
    forall j | m + i < j < |ks|
      ensures f !in Objects(codec, original)(ks[j])
    {
      assert ks[j] == op.priority[j - m];
    }
    assert ks[m + i] == op.priority[i];
    LastVisitWins(Objects(codec, original), ks, f, m + i);
  }

  /** If no priority key holds a field, it has the value of the largest other key that does. */
  lemma LargestOtherWins<V, J>(codec: Codec<V, J>, op: MergeOperation, original: map<string, V>, f: string, k: string)
    requires forall p :: p in op.priority ==> !Holds(codec, original, p, f)
    requires LargestOther(codec, op, original, f, k)
    ensures f in MergedMap(codec, op, original)
    ensures MergedMap(codec, op, original)[f] == ObjectAt(codec, original, k)[f]
  {
    var others := SortedKeys(original.Keys - Elements(op.priority));
    SortedKeysSorted(original.Keys - Elements(op.priority));
    assert k in Elements(others);
    var n :| 0 <= n < |others| && others[n] == k;
    var ks := VisitOrder(op, original.Keys);
    forall j | n < j < |ks|
      ensures f !in Objects(codec, original)(ks[j])
    {
      if j < |others| {
        assert ks[j] == others[j] && others[j] in Elements(others);
        LessTotal(others[n], others[j]);
        assert Holds(codec, original, others[j], f) <==> f in Objects(codec, original)(ks[j]);
      } else {
        assert ks[j] == op.priority[j - |others|] && ks[j] in op.priority;
        assert !Holds(codec, original, ks[j], f);
      }
    }
    LastVisitWins(Objects(codec, original), ks, f, n);
  }

  /** Every merged field has a winner of one of the two kinds. */
  lemma MergedFieldHasWinner<V, J>(codec: Codec<V, J>, op: MergeOperation, original: map<string, V>, f: string) returns (i: int, k: string)
    requires f in MergedMap(codec, op, original)
    ensures RightmostPriority(codec, op, original, f, i)
         || ((forall p :: p in op.priority ==> !Holds(codec, original, p, f)) && LargestOther(codec, op, original, f, k))
  {
    var others := SortedKeys(original.Keys - Elements(op.priority));
    SortedKeysSorted(original.Keys - Elements(op.priority));
    var n := LastVisit(Objects(codec, original), others + op.priority, f);
    i, k := n - |others|, (others + op.priority)[n];
    if n < |others| {
      LastOtherIsLargest(codec, op, original, f, others, n);
      NoPriorityHolds(codec, op, original, f, others, n);
    } else {
      LastPriorityIsRightmost(codec, op, original, f, others, n);
    }
  }

  lemma NoPriorityHolds<V, J>(codec: Codec<V, J>, op: MergeOperation, original: map<string, V>, f: string, others: seq<string>, n: int)
    requires n < |others| && LastHolder(Objects(codec, original), others + op.priority, f, n)
    ensures forall p :: p in op.priority ==> !Holds(codec, original, p, f)
  {
    var ks, m := others + op.priority, |others|;
    forall p | p in op.priority
      ensures !Holds(codec, original, p, f)
    {
      var j :| 0 <= j < |op.priority| && op.priority[j] == p;
      assert ks[m + j] == p && f !in Objects(codec, original)(ks[m + j]);
    }
  }

  lemma LastPriorityIsRightmost<V, J>(codec: Codec<V, J>, op: MergeOperation, original: map<string, V>, f: string, others: seq<string>, n: int)
    requires |others| <= n && LastHolder(Objects(codec, original), others + op.priority, f, n)
    ensures RightmostPriority(codec, op, original, f, n - |others|)
  {
    var ks, m := others + op.priority, |others|;
    forall j | n - m < j < |op.priority|
      ensures !Holds(codec, original, op.priority[j], f)
    {
      assert ks[m + j] == op.priority[j] && f !in Objects(codec, original)(ks[m + j]);
    }
    assert ks[n] == op.priority[n - m] && f in Objects(codec, original)(ks[n]);
  }

  lemma LastOtherIsLargest<V, J>(codec: Codec<V, J>, op: MergeOperation, original: map<string, V>, f: string, others: seq<string>, n: int)
    requires Sorted(others) && Elements(others) == original.Keys - Elements(op.priority)
    requires 0 <= n < |others| && LastHolder(Objects(codec, original), others + op.priority, f, n)
    ensures LargestOther(codec, op, original, f, others[n])
  {
    var ks := others + op.priority;
    assert others[n] in Elements(others);
    forall o | o in original && o !in op.priority && Holds(codec, original, o, f) && o != others[n]
      ensures Less(o, others[n])
    {
      assert o in Elements(others);
      var i :| 0 <= i < |others| && others[i] == o;
      assert ks[i] == o && f in Objects(codec, original)(ks[i]);
    }
  }

  lemma VisitOrderPermutes(op: MergeOperation, other: MergeOperation, keys: set<string>)
    requires multiset(op.priority) == multiset(other.priority)
    ensures multiset(VisitOrder(op, keys)) == multiset(VisitOrder(other, keys))
  {
    forall k
      ensures k in op.priority <==> k in other.priority
    {
      assert k in op.priority <==> k in multiset(op.priority);
      assert k in other.priority <==> k in multiset(other.priority);
    }
    assert Elements(op.priority) == Elements(other.priority);
  }

  /** Unless conflicts are ignored, the order of the priority keys never matters to a merge that succeeds. */
  lemma PriorityOrderDoesNotMatter<V, J>(codec: Codec<V, J>, op: MergeOperation, priority: seq<string>,
                                         original: map<string, V>, out: map<string, V>)
    requires op.conflictPolicy.ErrorOnConflict? && multiset(op.priority) == multiset(priority)
    requires RewriteMergeAllows(codec, op, original, out)
    ensures RewriteMergeAllows(codec, op.(priority := priority), original, out)
  {
    var other := op.(priority := priority);
    var a, b := VisitOrder(op, original.Keys), VisitOrder(other, original.Keys);
    VisitOrderPermutes(op, other, original.Keys);
    ConflictFreeMergePermutes(Objects(codec, original), a, b);
    forall k | k in b
      ensures Readable(codec, other, original, k)
    {
      assert k in multiset(b);
      var i := Position(a, k);
      assert Readable(codec, op, original, k);
    }
  }

  lemma {:induction false} SharedFieldClashes<J>(obj: string -> map<string, J>, ks: seq<string>, i: int, j: int, f: string)
    requires 0 <= i < j < |ks| && f in obj(ks[i]) && f in obj(ks[j])
    ensures Clashes(obj, ks) != multiset{}
  {
    NoClashesIffDisjoint(obj, ks);
    assert f in obj(ks[i]).Keys * obj(ks[j]).Keys;
  }

  /** A priority key listed twice conflicts with itself, unless it has no fields. */
  lemma RepeatedPriorityConflicts<V, J>(codec: Codec<V, J>, op: MergeOperation, original: map<string, V>, i: nat, j: nat)
    requires i < j < |op.priority| && op.priority[i] == op.priority[j]
    requires ObjectAt(codec, original, op.priority[i]) != map[]
    ensures Clashes(Objects(codec, original), VisitOrder(op, original.Keys)) != multiset{}
  {
    var ks := VisitOrder(op, original.Keys);
    var m := |ks| - |op.priority|;
    assert ks[m + i] == op.priority[i] && ks[m + j] == op.priority[j];
    var f :| f in ObjectAt(codec, original, op.priority[i]);
    SharedFieldClashes(Objects(codec, original), ks, m + i, m + j, f);
  }
}
