/**
 `RewriteMap`: a list of rewrite steps applied one after the other. Regexp and Transform steps
 rename keys; where two keys get the same name, whichever the map walk visits last stays.
 */
module Rewrites {
  import opened Wrappers
  import opened Sequences
  import opened KeyMaps
  import opened JsonMerge

  /**
   A step of an ExternalSecret's rewrite list. For Regexp, `compiled` replaces all matches in a key,
   or is absent if the source does not compile. For Transform, `parsed` runs the template on a key,
   and may fail on some keys. A step with nothing set changes nothing.
   */
  datatype Rewrite<!V, !J> =
    | MergeStep(operation: MergeOperation)
    | RegexpStep(compiled: Option<string -> string>)
    | TransformStep(parsed: Option<string -> Option<string>>)
    | EmptyStep

  /** Each entry of `out` is an entry of `original` under its new name, and every new name is there. */
  ghost predicate LastWriteWins<V>(f: string -> string, original: map<string, V>, out: map<string, V>) {
    && out.Keys == Image(f, original.Keys)
    && forall n :: n in out ==> HasSource(f, original, n, out[n])
  }

  ghost predicate HasSource<V>(f: string -> string, original: map<string, V>, n: string, v: V) {
    exists k :: k in original && f(k) == n && original[k] == v
  }

  function Named(template: string -> Option<string>): string -> string {
    k => if template(k).Some? then template(k).value else ""
  }

  ghost predicate WrittenSoFar<V>(f: string -> string, original: map<string, V>, visited: set<string>, out: map<string, V>) {
    && visited <= original.Keys
    && out.Keys == Image(f, visited)
    && forall n :: n in out ==> HasSource(f, original, n, out[n])
  }

  lemma WriteOne<V>(f: string -> string, original: map<string, V>, visited: set<string>, out: map<string, V>, k: string)
    requires WrittenSoFar(f, original, visited, out) && k in original
    ensures WrittenSoFar(f, original, visited + {k}, out[f(k) := original[k]])
  {
    assert HasSource(f, original, f(k), original[k]);
    assert Image(f, visited + {k}) == Image(f, visited) + {f(k)} by {
      forall n | n in Image(f, visited) + {f(k)}
        ensures n in Image(f, visited + {k})
      {
        if n == f(k) {
          assert k in visited + {k};
        } else {
          var a :| a in visited && f(a) == n;
          assert a in visited + {k};
        }
      }
    }
  }

  method RewriteRegexp<V>(compiled: Option<string -> string>, original: map<string, V>) returns (r: Option<map<string, V>>)
    ensures r.Some? <==> compiled.Some?
    ensures r.Some? ==> LastWriteWins(compiled.value, original, r.value)
  {
    if compiled.None? {
      return None;
    }
    var out: map<string, V> := map[];
    var rest := original.Keys;
    while rest != {}
      invariant rest <= original.Keys
      invariant WrittenSoFar(compiled.value, original, original.Keys - rest, out)
      decreases rest
    {
      var key :| key in rest;
      WriteOne(compiled.value, original, original.Keys - rest, out, key);
      assert original.Keys - rest + {key} == original.Keys - (rest - {key});
      var newKey := (compiled.value)(key);
      out := out[newKey := original[key]];
      rest := rest - {key};
    }
    assert original.Keys - rest == original.Keys;
    r := Some(out);
  }

  /** The template runs on every key of the map. */
  ghost predicate RunsOnAll<V>(template: string -> Option<string>, original: map<string, V>) {
    forall k :: k in original.Keys ==> template(k).Some?
  }

  method RewriteTransform<V>(parsed: Option<string -> Option<string>>, original: map<string, V>) returns (r: Option<map<string, V>>)
    ensures r.Some? <==> parsed.Some? && RunsOnAll(parsed.value, original)
    ensures r.Some? ==> LastWriteWins(Named(parsed.value), original, r.value)
  {
    if parsed.None? {
      return None;
    }
    var template := parsed.value;
    ghost var f := Named(template);
    var out: map<string, V> := map[];
    var rest := original.Keys;
    while rest != {}
      invariant rest <= original.Keys
      invariant forall k :: k in original.Keys - rest ==> template(k).Some?
      invariant WrittenSoFar(f, original, original.Keys - rest, out)
      decreases rest
    {
      var key :| key in rest;
      var name := template(key);
      if name.None? {
        return None;
      }
      WriteOne(f, original, original.Keys - rest, out, key);
      assert original.Keys - rest + {key} == original.Keys - (rest - {key});
      out := out[name.value := original[key]];
      rest := rest - {key};
    }
    assert original.Keys - rest == original.Keys;
    r := Some(out);
  }

  // ---------------------------------------------------------------- steps and runs

  /** The outcomes a successful step may have, over all orders in which maps may be walked. */
  ghost predicate StepAllows<V, J>(codec: Codec<V, J>, op: Rewrite<V, J>, original: map<string, V>, out: map<string, V>) {
    match op
    case MergeStep(operation) => RewriteMergeAllows(codec, operation, original, out)
    case RegexpStep(compiled) => compiled.Some? && LastWriteWins(compiled.value, original, out)
    case TransformStep(parsed) =>
      parsed.Some? && RunsOnAll(parsed.value, original) && LastWriteWins(Named(parsed.value), original, out)
    case EmptyStep => out == original
  }

  /** The outcomes a whole list of steps may have. */
  ghost predicate RunAllows<V(!new), J>(codec: Codec<V, J>, ops: seq<Rewrite<V, J>>, original: map<string, V>, out: map<string, V>) {
    if ops == [] then out == original
    else exists mid :: RunAllows(codec, ops[..|ops| - 1], original, mid) && StepAllows(codec, Last(ops), mid, out)
  }

  method HandleRewriteOperation<V, J>(codec: Codec<V, J>, op: Rewrite<V, J>, original: map<string, V>) returns (r: Option<map<string, V>>)
    ensures r.Some? ==> StepAllows(codec, op, original, r.value)
    ensures r.None? ==> forall out :: !StepAllows(codec, op, original, out)
  {
    match op
    case MergeStep(operation) =>
      var m := RewriteMerge(codec, operation, original);
      r := if m.Success? then Some(m.value) else None;
    case RegexpStep(compiled) =>
      r := RewriteRegexp(compiled, original);
    case TransformStep(parsed) =>
      r := RewriteTransform(parsed, original);
    case EmptyStep =>
      r := Some(original);
  }

  /** The error case of a run: the steps before `i` went through, and step `i` cannot. */
  ghost predicate FailsAt<V(!new), J>(codec: Codec<V, J>, ops: seq<Rewrite<V, J>>, original: map<string, V>, i: nat) {
    i < |ops| && exists mid :: RunAllows(codec, ops[..i], original, mid) && forall out :: !StepAllows(codec, ops[i], mid, out)
  }

  method RewriteMap<V(!new), J>(codec: Codec<V, J>, operations: seq<Rewrite<V, J>>, original: map<string, V>)
    returns (r: Result<map<string, V>, nat>)
    ensures r.Success? ==> RunAllows(codec, operations, original, r.value)
    ensures r.Failure? ==> FailsAt(codec, operations, original, r.error)
  {
    var out := original;
    for i := 0 to |operations|
      invariant RunAllows(codec, operations[..i], original, out)
    {
      var next := HandleRewriteOperation(codec, operations[i], out);
      if next.None? {
        return Failure(i);
      }
      assert operations[..i + 1][..i] == operations[..i] && Last(operations[..i + 1]) == operations[i];
      out := next.value;
    }
    assert operations[..|operations|] == operations;
    r := Success(out);
  }

  // ---------------------------------------------------------------- renaming runs

  predicate IsRenaming<V, J>(op: Rewrite<V, J>) {
    op.RegexpStep? || op.TransformStep? || op.EmptyStep?
  }

  function StepName<V, J>(op: Rewrite<V, J>, k: string): string {
    match op
    case RegexpStep(Some(replace)) => replace(k)
    case TransformStep(Some(template)) => Named(template)(k)
    case _ => k
  }

  /** The name a key ends up with after all steps. */
  function FinalName<V, J>(ops: seq<Rewrite<V, J>>, k: string): string {
    if ops == [] then k else StepName(ops[|ops| - 1], FinalName(ops[..|ops| - 1], k))
  }

  lemma RenamedInTurn<V>(f: string -> string, g: string -> string, r: string -> string,
                         original: map<string, V>, mid: map<string, V>, out: map<string, V>)
    requires LastWriteWins(f, original, mid) && LastWriteWins(g, mid, out)
    requires forall k :: r(k) == g(f(k))
    ensures LastWriteWins(r, original, out)
  {
    forall n | n in out
      ensures HasSource(r, original, n, out[n]) && n in Image(r, original.Keys)
    {
      var m :| m in mid && g(m) == n && mid[m] == out[n];
      assert HasSource(f, original, m, mid[m]);
      var k :| k in original && f(k) == m && original[k] == mid[m];
      assert r(k) == n;
    }
    forall n | n in Image(r, original.Keys)
      ensures n in out.Keys
    {
      var k :| k in original.Keys && r(k) == n;
      assert f(k) in mid.Keys;
      assert g(f(k)) in Image(g, mid.Keys);
    }
  }

  lemma UnchangedIsIdentity<V>(f: string -> string, original: map<string, V>)
    requires forall k :: f(k) == k
    ensures LastWriteWins(f, original, original)
  {
    forall n | n in original.Keys
      ensures n in Image(f, original.Keys) && HasSource(f, original, n, original[n])
    {
      assert f(n) == n;
    }
  }

  lemma RenamingStep<V, J>(codec: Codec<V, J>, op: Rewrite<V, J>, original: map<string, V>, out: map<string, V>)
    requires IsRenaming(op) && StepAllows(codec, op, original, out)
    ensures LastWriteWins(k => StepName(op, k), original, out)
  {
    var f: string -> string := k => StepName(op, k);
    match op
    case RegexpStep(compiled) =>
      SameNames(compiled.value, f, original, out);
    case TransformStep(parsed) =>
      SameNames(Named(parsed.value), f, original, out);
    case EmptyStep =>
      UnchangedIsIdentity(f, original);
  }

  lemma SameNames<V>(f: string -> string, g: string -> string, original: map<string, V>, out: map<string, V>)
    requires LastWriteWins(f, original, out) && forall k :: f(k) == g(k)
    ensures LastWriteWins(g, original, out)
  {
    assert Image(f, original.Keys) == Image(g, original.Keys);
    forall n | n in out
      ensures HasSource(g, original, n, out[n])
    {
      assert HasSource(f, original, n, out[n]);
    }
  }

  /**
   Over any list of renaming steps that goes through, every output entry traces back to an input
   entry through the composed renaming, and every composed name is there.
   */
  lemma {:induction false} RenamingRun<V(!new), J>(codec: Codec<V, J>, ops: seq<Rewrite<V, J>>, original: map<string, V>, out: map<string, V>)
    requires (forall i :: 0 <= i < |ops| ==> IsRenaming(ops[i])) && RunAllows(codec, ops, original, out)
    ensures LastWriteWins(k => FinalName(ops, k), original, out)
  {
    if ops == [] {
      UnchangedIsIdentity(k => FinalName(ops, k), original);
    } else {
      var front, last := ops[..|ops| - 1], ops[|ops| - 1];
      var mid :| RunAllows(codec, front, original, mid) && StepAllows(codec, last, mid, out);
      RenamingRun(codec, front, original, mid);
      RenamingStep(codec, last, mid, out);
      RenamedInTurn(k => FinalName(front, k), k => StepName(last, k), k => FinalName(ops, k), original, mid, out);
    }
  }

  lemma InjectiveLeavesNoChoice<V>(f: string -> string, original: map<string, V>, out: map<string, V>)
    requires LastWriteWins(f, original, out) && InjectiveOn(f, original.Keys)
    ensures Renamed(f, original, out)
  {
    forall k | k in original.Keys
      ensures out[f(k)] == original[k]
    {
      assert HasSource(f, original, f(k), out[f(k)]);
      var j :| j in original && f(j) == f(k) && original[j] == out[f(k)];
    }
  }

  /** If the composed renaming is injective on the keys, the result is the renamed map whatever the order. */
  lemma {:induction false} InjectiveRenamingRun<V(!new), J>(codec: Codec<V, J>, ops: seq<Rewrite<V, J>>, original: map<string, V>,
                                                      out: map<string, V>, other: map<string, V>)
    requires forall i :: 0 <= i < |ops| ==> IsRenaming(ops[i])
    requires InjectiveOn(k => FinalName(ops, k), original.Keys)
    requires RunAllows(codec, ops, original, out) && RunAllows(codec, ops, original, other)
    ensures Renamed(k => FinalName(ops, k), original, out) && out == other
  {
    var f: string -> string := k => FinalName(ops, k);
    RenamingRun(codec, ops, original, out);
    RenamingRun(codec, ops, original, other);
    InjectiveLeavesNoChoice(f, original, out);
    InjectiveLeavesNoChoice(f, original, other);
    RenamedIsUnique(f, original, out, other);
  }

  lemma RenamedIsUnique<V>(f: string -> string, original: map<string, V>, a: map<string, V>, b: map<string, V>)
    requires Renamed(f, original, a) && Renamed(f, original, b)
    ensures a == b
  {
    forall n | n in a.Keys
      ensures a[n] == b[n]
    {
      var k :| k in original.Keys && f(k) == n;
    }
  }

  /** Where two keys get the same name, both outcomes are possible: the order then does matter. */
  lemma CollidingStepHasTwoOutcomes<V, J>(codec: Codec<V, J>, replace: string -> string, a: string, b: string, v: V, w: V)
    requires a != b && v != w && replace(a) == replace(b)
    ensures StepAllows(codec, RegexpStep(Some(replace)), map[a := v, b := w], map[replace(a) := v])
    ensures StepAllows(codec, RegexpStep(Some(replace)), map[a := v, b := w], map[replace(a) := w])
  {
    var original := map[a := v, b := w];
    assert a in original.Keys && b in original.Keys;
    assert Image(replace, original.Keys) == {replace(a)};
    assert HasSource(replace, original, replace(a), original[a]);
    assert HasSource(replace, original, replace(a), original[b]);
  }
}
