/**
 * How `update` turns its (possibly nested) argument into leaf writes: a key whose value
 * is an object recurses with the path extended by `key + "."`; any other key is written
 * at `path + key`. The model collects those writes as a set of (path, string) pairs.
 */
module Flatten {
  import opened Results
  import opened Paths
  import opened Data

  /** The leaf writes of an update argument `u` entered at `prefix`. */
  function Writes(u: Data, prefix: string): set<(string, string)>
    requires u.Obj?
    decreases u, 1
  {
    set k, w | k in u.fields && w in FieldWrites(u, prefix, k) :: w
  }

  /** The writes contributed by one key of the argument. */
  function FieldWrites(u: Data, prefix: string, k: string): set<(string, string)>
    requires u.Obj? && k in u.fields
    decreases u, 0
  {
    match u.fields[k]
    case Leaf(v) => {(prefix + k, v)}
    case Obj(_) => Writes(u.fields[k], prefix + k + ".")
  }

  /** The leaf writes of a top-level `update(u)` call. */
  function UpdateWrites(u: map<string, Data>): set<(string, string)> {
    Writes(Obj(u), "")
  }

  /** The paths the writes target. */
  function Targets(writes: set<(string, string)>): set<string> {
    set w | w in writes :: w.0
  }

  /** No path is written with two different strings. JavaScript lets the later key in
      enumeration order win (e.g. `{"a.b": x, a: {b: y}}`); within one group of writes the
      model does not track that order. */
  ghost predicate Unambiguous(writes: set<(string, string)>) {
    forall w1, w2 | w1 in writes && w2 in writes && w1.0 == w2.0 :: w1.1 == w2.1
  }

  /** Some write of the set: the model's stand-in for the engine's enumeration order. */
  ghost function Pick(writes: set<(string, string)>): (w: (string, string))
    requires writes != {}
    ensures w in writes
  {
    var w :| w in writes; w
  }

  /** The writes `_set` performs, one after another, in the order `Pick` chooses. */
  ghost function ApplyWrites(m: map<string, Data>, writes: set<(string, string)>): Result<map<string, Data>>
    decreases |writes|
  {
    if writes == {} then Ok(m)
    else
      var w := Pick(writes);
      var m' :- Put(m, w.0, Leaf(w.1));
      ApplyWrites(m', writes - {w})
  }

  /** Writes to known keys of a prefix-free key set succeed, whatever the strings, and
      leave every key writable and every string at a key. */
  lemma {:induction false} ApplyWritesSucceeds(m: map<string, Data>, keys: set<string>, writes: set<(string, string)>)
    requires PrefixFree(keys) && Targets(writes) <= keys && Open(m, keys)
    ensures ApplyWrites(m, writes).Ok? && Open(ApplyWrites(m, writes).value, keys)
    ensures Tidy(m, keys) ==> Tidy(ApplyWrites(m, writes).value, keys)
    decreases |writes|
  {
    if writes != {} {
      var w := Pick(writes);
      PutKey(m, keys, w.0, w.1);
      assert Targets(writes - {w}) <= Targets(writes);
      ApplyWritesSucceeds(Put(m, w.0, Leaf(w.1)).value, keys, writes - {w});
    }
  }

  /** Writes to known keys of a prefix-free key set, whatever their strings and order:
      every written key ends up holding a string, every other key keeps its value, and
      the object's own keys stay single segments. */
  lemma {:induction false} ApplyWritesFrame(m: map<string, Data>, keys: set<string>, writes: set<(string, string)>)
    requires PrefixFree(keys) && Targets(writes) <= keys && Open(m, keys)
    ensures ApplyWrites(m, writes).Ok?
    ensures var m' := ApplyWrites(m, writes).value;
      && (forall p | p in Targets(writes) :: Value(m', p).Some? && Value(m', p).value.Leaf?)
      && (forall k | k in keys && k !in Targets(writes) :: Value(m', k) == Value(m, k))
      && (Plain(m) ==> Plain(m'))
    decreases |writes|
  {
    if writes != {} {
      var w := Pick(writes);
      var rest := writes - {w};
      PutKey(m, keys, w.0, w.1);
      var m1 := Put(m, w.0, Leaf(w.1)).value;
      if Plain(m) {
        PutPlain(m, w.0, Leaf(w.1));
      }
      assert Targets(rest) <= Targets(writes);
      ApplyWritesFrame(m1, keys, rest);
      assert Targets(writes) == Targets(rest) + {w.0};
    }
  }

  /** Applying unambiguous writes to known keys of a prefix-free key set: it succeeds,
      each written key holds its string, each other key keeps its value, and the object
      stays open (and tidy, if it was). Which order the writes take does not matter. */
  lemma {:induction false} ApplyWritesEffect(m: map<string, Data>, keys: set<string>, writes: set<(string, string)>)
    requires PrefixFree(keys) && Unambiguous(writes) && Targets(writes) <= keys && Open(m, keys)
    ensures ApplyWrites(m, writes).Ok?
    ensures var m' := ApplyWrites(m, writes).value;
      && (forall w | w in writes :: Value(m', w.0) == Some(Leaf(w.1)))
      && (forall k | k in keys && k !in Targets(writes) :: Value(m', k) == Value(m, k))
      && Open(m', keys)
      && (Tidy(m, keys) ==> Tidy(m', keys))
    decreases |writes|
  {
    if writes != {} {
      var w := Pick(writes);
      var rest := writes - {w};
      PutKey(m, keys, w.0, w.1);
      var m1 := Put(m, w.0, Leaf(w.1)).value;
      assert Targets(rest) <= Targets(writes);
      ApplyWritesEffect(m1, keys, rest);
      assert w.0 !in Targets(rest);
      assert Targets(writes) == Targets(rest) + {w.0};
    }
  }

  /** Writes that already hold change nothing: the basis of idempotent updates. */
  lemma {:induction false} ApplyWritesSame(m: map<string, Data>, writes: set<(string, string)>)
    requires forall w | w in writes :: Value(m, w.0) == Some(Leaf(w.1))
    ensures ApplyWrites(m, writes) == Ok(m)
    decreases |writes|
  {
    if writes != {} {
      var w := Pick(writes);
      PutSame(m, w.0, w.1);
      ApplyWritesSame(m, writes - {w});
    }
  }

  /** The writes of an argument are the writes of its keys. */
  lemma WritesByKey(u: Data, prefix: string, w: (string, string))
    requires u.Obj?
    ensures w in Writes(u, prefix) <==> exists k :: k in u.fields && w in FieldWrites(u, prefix, k)
  {
  }

  /** A write of the flattened argument is a string of the argument, reached by some path
      of keys and written at the prefix followed by those keys joined with dots. */
  lemma {:induction false} WritesFromLeaves(u: Data, prefix: string, p: string, v: string)
    requires u.Obj? && (p, v) in Writes(u, prefix)
    ensures exists segs :: |segs| >= 1 && Lookup(u.fields, segs) == Some(Leaf(v)) && p == prefix + JoinDots(segs)
    decreases u
  {
    var m := u.fields;
    WritesByKey(u, prefix, (p, v));
    var k :| k in m && (p, v) in FieldWrites(u, prefix, k);
    match m[k]
    case Leaf(_) =>
      assert Lookup(m, [k]) == Some(Leaf(v));
      assert p == prefix + JoinDots([k]);
    case Obj(g) =>
      WritesFromLeaves(m[k], prefix + k + ".", p, v);
      var segs :| |segs| >= 1 && Lookup(g, segs) == Some(Leaf(v)) && p == prefix + k + "." + JoinDots(segs);
      var full := [k] + segs;
      assert full[1..] == segs;
      LookupStep(m, full);
      assert JoinDots(full) == k + "." + JoinDots(segs);
      assert p == prefix + JoinDots(full);
  }

  /** Conversely, every string of the argument is written at its dotted path. */
  lemma {:induction false} LeavesAreWritten(u: Data, prefix: string, segs: seq<string>, v: string)
    requires u.Obj? && |segs| >= 1 && Lookup(u.fields, segs) == Some(Leaf(v))
    ensures (prefix + JoinDots(segs), v) in Writes(u, prefix)
    decreases u
  {
    var m := u.fields;
    var k := segs[0];
    var p := prefix + JoinDots(segs);
    match m[k]
    case Leaf(_) =>
      assert (p, v) in FieldWrites(u, prefix, k);
      WritesByKey(u, prefix, (p, v));
    case Obj(g) =>
      LookupStep(m, segs);
      var tail := segs[1..];
      assert JoinDots(segs) == k + "." + JoinDots(tail);
      assert p == prefix + k + "." + JoinDots(tail);
      LeavesAreWritten(m[k], prefix + k + ".", tail, v);
      assert (p, v) in FieldWrites(u, prefix, k);
      WritesByKey(u, prefix, (p, v));
  }

  /** A tidy data object, fed back to `update`, writes exactly its keys with their strings:
      this is what lets a clone start from its parent's data. */
  lemma TidyWrites(m: map<string, Data>, keys: set<string>)
    requires Tidy(m, keys)
    ensures forall w :: w in UpdateWrites(m) <==> w.0 in keys && Value(m, w.0) == Some(Leaf(w.1))
  {
    forall w
      ensures w in UpdateWrites(m) <==> w.0 in keys && Value(m, w.0) == Some(Leaf(w.1))
    {
      if w in UpdateWrites(m) {
        WritesFromLeaves(Obj(m), "", w.0, w.1);
        var segs :| |segs| >= 1 && Lookup(m, segs) == Some(Leaf(w.1)) && w.0 == "" + JoinDots(segs);
        assert IsLeafAt(m, segs);
        assert w.0 == JoinDots(segs);
        SegmentsJoin(segs);
      }
      if w.0 in keys && Value(m, w.0) == Some(Leaf(w.1)) {
        var segs := Segments(w.0);
        JoinSegments(w.0);
        assert w.0 == "" + JoinDots(segs);
        LeavesAreWritten(Obj(m), "", segs, w.1);
      }
    }
  }

  /** A nested object key contributes the writes of its fields under `key + "."`:
      `update({a: {b: v}})` and `update({"a.b": v})` write the same thing. */
  lemma NestedWrites(k: string, g: map<string, Data>, prefix: string)
    ensures Writes(Obj(map[k := Obj(g)]), prefix) == Writes(Obj(g), prefix + k + ".")
  {
    var u := Obj(map[k := Obj(g)]);
    assert u.fields.Keys == {k};
    assert Writes(u, prefix) == FieldWrites(u, prefix, k);
  }

  /** A single leaf key writes its string at the prefix followed by the key; at the top
      level, one dotted key writes its string at that key. */
  lemma SingleWrite(p: string, v: string, prefix: string)
    ensures Writes(Obj(map[p := Leaf(v)]), prefix) == {(prefix + p, v)}
  {
    var u := Obj(map[p := Leaf(v)]);
    assert u.fields.Keys == {p};
    assert Writes(u, prefix) == FieldWrites(u, prefix, p);
  }

  /** The writes of two objects with no key in common are those of their union. */
  lemma WritesUnion(a: map<string, Data>, b: map<string, Data>)
    requires a.Keys !! b.Keys
    ensures UpdateWrites(a) + UpdateWrites(b) == UpdateWrites(a + b)
  {
    var u := Obj(a + b);
    forall w
      ensures w in UpdateWrites(a) + UpdateWrites(b) <==> w in UpdateWrites(a + b)
    {
      WritesByKey(Obj(a), "", w);
      WritesByKey(Obj(b), "", w);
      WritesByKey(u, "", w);
      forall k | k in a
        ensures FieldWrites(Obj(a), "", k) == FieldWrites(u, "", k)
      {
        assert (a + b)[k] == a[k];
      }
      forall k | k in b
        ensures FieldWrites(Obj(b), "", k) == FieldWrites(u, "", k)
      {
        assert (a + b)[k] == b[k];
      }
    }
  }

  /** An argument of strings only writes each key with its string. */
  lemma LeafWrites(m: map<string, Data>)
    requires forall k | k in m :: m[k].Leaf?
    ensures forall w :: w in UpdateWrites(m) <==> w.0 in m && m[w.0] == Leaf(w.1)
  {
    forall w
      ensures w in UpdateWrites(m) <==> w.0 in m && m[w.0] == Leaf(w.1)
    {
      WritesByKey(Obj(m), "", w);
      if w.0 in m && m[w.0] == Leaf(w.1) {
        assert "" + w.0 == w.0;
        assert w in FieldWrites(Obj(m), "", w.0);
      }
      if w in UpdateWrites(m) {
        var k :| k in m && w in FieldWrites(Obj(m), "", k);
        assert "" + k == k;
      }
    }
  }

  /** The string a path is written with. */
  ghost function WrittenValue(writes: set<(string, string)>, p: string): (v: string)
    requires p in Targets(writes)
    ensures (p, v) in writes
  {
    var w :| w in writes && w.0 == p; w.1
  }

  /** The argument written with dotted keys only: each written path maps to its string. */
  ghost function Dotted(writes: set<(string, string)>): (flat: map<string, Data>)
    requires Unambiguous(writes)
    ensures flat.Keys == Targets(writes)
    ensures forall w | w in writes :: flat[w.0] == Leaf(w.1)
  {
    map p | p in Targets(writes) :: Leaf(WrittenValue(writes, p))
  }

  /** Rewriting an argument with dotted keys only does not change what it writes. */
  lemma DottedSameWrites(u: map<string, Data>)
    requires Unambiguous(UpdateWrites(u))
    ensures UpdateWrites(Dotted(UpdateWrites(u))) == UpdateWrites(u)
  {
    var writes := UpdateWrites(u);
    var flat := Dotted(writes);
    var d := Obj(flat);
    forall w | w in UpdateWrites(flat)
      ensures w in writes
    {
      WritesByKey(d, "", w);
      var k :| k in flat && w in FieldWrites(d, "", k);
      assert "" + k == k;
      assert (k, WrittenValue(writes, k)) in writes;
    }
    forall w | w in writes
      ensures w in UpdateWrites(flat)
    {
      assert "" + w.0 == w.0;
      assert w in FieldWrites(d, "", w.0);
      WritesByKey(d, "", w);
    }
  }
}
