/**
 * `clone` and `map`. A clone starts from a copy of the parent's tree, `_map` and entries
 * with an empty data object, and is brought to life by one `update` with the parent's
 * data shallow-merged with the override (`Object.assign({}, parent, override)`: the
 * override's top-level keys replace the parent's whole). The merged object lists the
 * parent's keys first, each with the override's value where the override has that key,
 * and then the override's new keys, so the update performs the writes of the first group
 * before those of the second. Instances are values, so a clone shares nothing with its
 * parent.
 */
module Cloning {
  import opened Results
  import opened Paths
  import opened Data
  import opened Placeholders
  import opened Tree
  import opened Flatten
  import opened Template
  import opened Engine

  /** The instance `clone` builds before its update: the same tree, `_map` and entries,
      and no data. */
  function Fresh(i: Instance): Instance {
    i.(data := map[])
  }

  /** The keys `Object.assign({}, p, d)` takes from `p`, in their place, each with the
      value the override gives it if it gives one. */
  function Kept(p: map<string, Data>, d: map<string, Data>): map<string, Data> {
    map k | k in p :: if k in d then d[k] else p[k]
  }

  /** The keys `Object.assign({}, p, d)` appends after `p`'s: those only `d` has. */
  function Added(p: map<string, Data>, d: map<string, Data>): map<string, Data> {
    map k | k in d && k !in p :: d[k]
  }

  /** `clone(d)`: the fresh copy updated with `Object.assign({}, parent data, d)`, whose
      kept keys come before its added ones. */
  ghost function Clone(i: Instance, d: map<string, Data>): Result<Instance> {
    UpdateOrdered(Fresh(i), UpdateWrites(Kept(i.data, d)), UpdateWrites(Added(i.data, d)))
  }

  /** The clone of datum `n` is the first that throws. */
  ghost predicate FirstFailure(i: Instance, ds: seq<map<string, Data>>, n: nat) {
    n < |ds| && Clone(i, ds[n]).Err? && forall m | 0 <= m < n :: Clone(i, ds[m]).Ok?
  }

  /** A loop applying `f` to each element in order that stops at the first error: all the
      values if there is no error, otherwise the first error. */
  function MapResults<A, B>(f: A -> Result<B>, xs: seq<A>): (r: Result<seq<B>>)
    ensures r.Ok? <==> forall n | 0 <= n < |xs| :: f(xs[n]).Ok?
    ensures r.Ok? ==> |r.value| == |xs| && forall n | 0 <= n < |xs| :: r.value[n] == f(xs[n]).value
    ensures r.Err? ==> exists n | 0 <= n < |xs| :: f(xs[n]).Err? && (forall m | 0 <= m < n :: f(xs[m]).Ok?) && r.error == f(xs[n]).error
    decreases |xs|
  {
    if |xs| == 0 then Ok([])
    else if f(xs[0]).Err? then
      Err(f(xs[0]).error)
    else
      var rest := MapResults(f, xs[1..]);
      if rest.Err? then
        var n :| 0 <= n < |xs[1..]| && f(xs[1..][n]).Err? && (forall m | 0 <= m < n :: f(xs[1..][m]).Ok?) && rest.error == f(xs[1..][n]).error;
        assert f(xs[n + 1]).Err? && forall m | 0 <= m < n + 1 :: f(xs[m]).Ok?;
        Err(rest.error)
      else
        Ok([f(xs[0]).value] + rest.value)
  }

  /** `map(ds)`: one clone of the same parent per datum, in order; the first clone that
      throws ends the call with its error. */
  ghost function MapClones(i: Instance, ds: seq<map<string, Data>>): (r: Result<seq<Instance>>)
    ensures r.Ok? <==> forall n | 0 <= n < |ds| :: Clone(i, ds[n]).Ok?
    ensures r.Ok? ==> |r.value| == |ds| && forall n | 0 <= n < |ds| :: r.value[n] == Clone(i, ds[n]).value
    ensures r.Err? ==> exists n | 0 <= n < |ds| :: FirstFailure(i, ds, n) && r.error == Clone(i, ds[n]).error
  {
    var clone := d => Clone(i, d);
    var r := MapResults(clone, ds);
    if r.Err? then
      var n :| 0 <= n < |ds| && clone(ds[n]).Err? && (forall m | 0 <= m < n :: clone(ds[m]).Ok?) && r.error == clone(ds[n]).error;
      assert FirstFailure(i, ds, n);
      r
    else
      r
  }

  /** The fresh copy of a valid instance is valid: its nodes are where the parent's are. */
  lemma FreshValid(i: Instance)
    requires Valid(i)
    ensures Valid(Fresh(i))
  {
    EmptyOpen(i.index.Keys);
  }

  /** The two groups make up the merged object, and their writes make up its writes. */
  lemma MergeSplit(p: map<string, Data>, d: map<string, Data>)
    ensures Kept(p, d).Keys !! Added(p, d).Keys
    ensures Kept(p, d) + Added(p, d) == p + d
    ensures UpdateWrites(Kept(p, d)) + UpdateWrites(Added(p, d)) == UpdateWrites(p + d)
  {
    assert Kept(p, d) + Added(p, d) == p + d;
    WritesUnion(Kept(p, d), Added(p, d));
  }

  /** `clone` throws exactly when the merged data writes a path that no placeholder
      names, and reports those paths. */
  lemma CloneOutcome(i: Instance, d: map<string, Data>)
    requires Valid(i)
    ensures Clone(i, d).Err? <==> Unknown(i.index, UpdateWrites(i.data + d)) != {}
    ensures Clone(i, d).Err? ==> Clone(i, d).error == UnknownKeys(Unknown(i.index, UpdateWrites(i.data + d)))
  {
    FreshValid(i);
    MergeSplit(i.data, d);
    OrderedOutcome(Fresh(i), UpdateWrites(Kept(i.data, d)), UpdateWrites(Added(i.data, d)));
  }

  /** What a successful clone is: the parent's entries and `_map`, a valid instance, the
      merged strings at the written keys and nothing at the others; each entry the merge
      mentions shows its rendering, and every other entry still shows the parent's text. */
  lemma CloneSpec(i: Instance, d: map<string, Data>)
    requires Valid(i) && Unambiguous(UpdateWrites(i.data + d)) && Clone(i, d).Ok?
    ensures var c := Clone(i, d).value;
      var writes := UpdateWrites(i.data + d);
      && c.nodes == i.nodes && c.index == i.index
      && Valid(c)
      && (forall w | w in writes :: Value(c.data, w.0) == Some(Leaf(w.1)))
      && (forall k | k in i.index && k !in Targets(writes) :: Value(c.data, k) == None)
      && (forall j | 0 <= j < |i.nodes| && Mentions(i.nodes[j], Targets(writes)) ::
            Walk(c.tree, i.nodes[j].xpath) == Some(Text(Render(i.nodes[j].parts, c.data))))
      && (forall j | 0 <= j < |i.nodes| && !Mentions(i.nodes[j], Targets(writes)) ::
            Walk(c.tree, i.nodes[j].xpath) == Walk(i.tree, i.nodes[j].xpath))
  {
    CloneFrame(i, d);
    CloneMerged(i, d);
    CloneValid(i, d);
  }

  /** Every successful clone of a valid instance is valid. */
  lemma CloneValid(i: Instance, d: map<string, Data>)
    requires Valid(i) && Clone(i, d).Ok?
    ensures Valid(Clone(i, d).value)
  {
    FreshValid(i);
    OrderedValid(Fresh(i), UpdateWrites(Kept(i.data, d)), UpdateWrites(Added(i.data, d)));
  }

  /** The frame of a successful clone: the parent's entries and `_map`; a string at each
      path the merge writes and nothing at the other keys; each entry the merge mentions
      shows its rendering, and every other entry the parent's text. */
  lemma CloneFrame(i: Instance, d: map<string, Data>)
    requires Valid(i) && Clone(i, d).Ok?
    ensures var c := Clone(i, d).value;
      var writes := UpdateWrites(i.data + d);
      && c.nodes == i.nodes && c.index == i.index
      && (forall p | p in Targets(writes) :: Value(c.data, p).Some? && Value(c.data, p).value.Leaf?)
      && (forall k | k in i.index && k !in Targets(writes) :: Value(c.data, k) == None)
      && (forall j | 0 <= j < |i.nodes| && Mentions(i.nodes[j], Targets(writes)) ::
            Walk(c.tree, i.nodes[j].xpath) == Some(Text(Render(i.nodes[j].parts, c.data))))
      && (forall j | 0 <= j < |i.nodes| && !Mentions(i.nodes[j], Targets(writes)) ::
            Walk(c.tree, i.nodes[j].xpath) == Walk(i.tree, i.nodes[j].xpath))
  {
    var f := Fresh(i);
    var early := UpdateWrites(Kept(i.data, d));
    var late := UpdateWrites(Added(i.data, d));
    var writes := UpdateWrites(i.data + d);
    var c := Clone(i, d).value;
    FreshValid(i);
    MergeSplit(i.data, d);
    assert early + late == writes;
    OrderedFrame(f, early, late);
    OrderedTree(f, early, late);
    forall j | 0 <= j < |i.nodes|
      ensures j in Touched(i.index, writes) <==> Mentions(i.nodes[j], Targets(writes))
    {
      TouchedSpec(i.nodes, writes, j);
    }
    forall j | 0 <= j < |i.nodes| && !Mentions(i.nodes[j], Targets(writes))
      ensures Walk(c.tree, i.nodes[j].xpath) == Walk(i.tree, i.nodes[j].xpath)
    {
      UntouchedClear(i.tree, i.nodes, Touched(i.index, writes), j);
    }
    forall k | k in i.index && k !in Targets(writes)
      ensures Value(c.data, k) == None
    {
      LookupMissing(map[], Segments(k));
    }
  }

  /** When the merged data is unambiguous, every write it makes holds in the clone. */
  lemma CloneMerged(i: Instance, d: map<string, Data>)
    requires Valid(i) && Unambiguous(UpdateWrites(i.data + d)) && Clone(i, d).Ok?
    ensures forall w | w in UpdateWrites(i.data + d) :: Value(Clone(i, d).value.data, w.0) == Some(Leaf(w.1))
  {
    var early := UpdateWrites(Kept(i.data, d));
    var late := UpdateWrites(Added(i.data, d));
    var writes := UpdateWrites(i.data + d);
    FreshValid(i);
    MergeSplit(i.data, d);
    OrderedValues(Fresh(i), early, late);
    forall w | w in early && w.0 in Targets(late)
      ensures Value(Clone(i, d).value.data, w.0) == Some(Leaf(w.1))
    {
      var w' :| w' in late && w'.0 == w.0;
      assert w'.1 == w.1;
    }
  }

  /** `clone` performs the override's new keys after the parent's: with each group
      unambiguous, every write of the new keys holds, and so does every write of the
      parent's keys to a path the new keys do not write. */
  lemma CloneLaterWins(i: Instance, d: map<string, Data>)
    requires Valid(i) && Clone(i, d).Ok?
    requires Unambiguous(UpdateWrites(Kept(i.data, d))) && Unambiguous(UpdateWrites(Added(i.data, d)))
    ensures var c := Clone(i, d).value;
      var late := UpdateWrites(Added(i.data, d));
      && (forall w | w in late :: Value(c.data, w.0) == Some(Leaf(w.1)))
      && (forall w | w in UpdateWrites(Kept(i.data, d)) && w.0 !in Targets(late) :: Value(c.data, w.0) == Some(Leaf(w.1)))
  {
    FreshValid(i);
    OrderedValues(Fresh(i), UpdateWrites(Kept(i.data, d)), UpdateWrites(Added(i.data, d)));
  }

  /** Every clone is current: an entry naming a key that holds a string shows its
      rendering. */
  lemma CloneCurrent(i: Instance, d: map<string, Data>)
    requires Valid(i) && Clone(i, d).Ok?
    ensures Current(Clone(i, d).value)
  {
    var c := Clone(i, d).value;
    var writes := UpdateWrites(i.data + d);
    CloneFrame(i, d);
    forall j | 0 <= j < |c.nodes| && NamesString(c.nodes[j], c.data)
      ensures Walk(c.tree, c.nodes[j].xpath) == Some(Text(Render(c.nodes[j].parts, c.data)))
    {
      var k :| k in KeysOf(i.nodes[j].parts) && Value(c.data, k).Some? && Value(c.data, k).value.Leaf?;
      IndexEntries(i.nodes, k);
      assert j in Entries(i.index, k);
    }
  }

  /** A lookup in a shallow merge goes to the override when it has the first segment. */
  lemma MergeLookup(p: map<string, Data>, d: map<string, Data>, segs: seq<string>)
    requires |segs| >= 1
    ensures Lookup(p + d, segs) == if segs[0] in d then Lookup(d, segs) else Lookup(p, segs)
  {
  }

  /** Every top-level value of `d` is a string under a dot-free key of the template. */
  ghost predicate FlatOverride(d: map<string, Data>, keys: set<string>) {
    forall k | k in d :: d[k].Leaf? && '.' !in k && k in keys
  }

  /** A flat override holds strings one level down only. */
  lemma FlatLookup(d: map<string, Data>, keys: set<string>, segs: seq<string>, v: string)
    requires FlatOverride(d, keys) && |segs| >= 1 && Lookup(d, segs) == Some(Leaf(v))
    ensures segs == [segs[0]] && d[segs[0]] == Leaf(v)
  {
  }

  /** A key of a prefix-free key set whose first segment is a dot-free key is that key. */
  lemma FirstSegmentKey(keys: set<string>, t: string, k: string)
    requires PrefixFree(keys) && t in keys && k in keys && '.' !in t && Segments(k)[0] == t
    ensures k == t
  {
    SegmentsWithoutDot(t);
    var s := Segments(k);
    if |s| == 1 {
      assert s == Segments(t);
      SegmentsInjective(k, t);
    }
  }

  /** The writes of a flat override merged over tidy parent data: each override key with
      its string, and each other key with the parent's string. */
  lemma MergeWrites(p: map<string, Data>, d: map<string, Data>, keys: set<string>, w: (string, string))
    requires PrefixFree(keys) && Tidy(p, keys) && FlatOverride(d, keys)
    ensures w in UpdateWrites(p + d) <==>
      (w.0 in d && d[w.0] == Leaf(w.1)) || (w.0 !in d && w.0 in keys && Value(p, w.0) == Some(Leaf(w.1)))
  {
    var u := p + d;
    if w in UpdateWrites(u) {
      WritesFromLeaves(Obj(u), "", w.0, w.1);
      var segs :| |segs| >= 1 && Lookup(u, segs) == Some(Leaf(w.1)) && w.0 == "" + JoinDots(segs);
      assert w.0 == JoinDots(segs);
      MergeLookup(p, d, segs);
      if segs[0] in d {
        FlatLookup(d, keys, segs, w.1);
      } else {
        assert IsLeafAt(p, segs);
        SegmentsJoin(segs);
        if w.0 in d {
          SegmentsWithoutDot(w.0);
        }
      }
    }
    if w.0 in d && d[w.0] == Leaf(w.1) {
      var segs := [w.0];
      MergeLookup(p, d, segs);
      LeavesAreWritten(Obj(u), "", segs, w.1);
      assert "" + JoinDots(segs) == w.0;
    }
    if w.0 !in d && w.0 in keys && Value(p, w.0) == Some(Leaf(w.1)) {
      var segs := Segments(w.0);
      if segs[0] in d {
        FirstSegmentKey(keys, segs[0], w.0);
      }
      MergeLookup(p, d, segs);
      JoinSegments(w.0);
      LeavesAreWritten(Obj(u), "", segs, w.1);
      assert "" + JoinDots(segs) == w.0;
    }
  }

  /** Every entry names its first key, so a set of paths holding every key is mentioned
      by every entry. */
  lemma AllMentioned(i: Instance, paths: set<string>)
    requires Valid(i) && i.index.Keys <= paths
    ensures forall j | 0 <= j < |i.nodes| :: Mentions(i.nodes[j], paths)
  {
    forall j | 0 <= j < |i.nodes|
      ensures Mentions(i.nodes[j], paths)
    {
      var k := i.nodes[j].parts[1];
      assert KeysOf(i.nodes[j].parts)[0] == k;
      IndexEntries(i.nodes, k);
      assert j in Entries(i.index, k);
    }
  }

  /** A clone whose merged data writes every key shows every entry rendered: it is synced. */
  lemma CloneSynced(i: Instance, d: map<string, Data>)
    requires Valid(i) && Clone(i, d).Ok?
    requires i.index.Keys <= Targets(UpdateWrites(i.data + d))
    ensures Synced(Clone(i, d).value)
  {
    CloneFrame(i, d);
    AllMentioned(i, Targets(UpdateWrites(i.data + d)));
  }

  /** Every top-level value of `d` is a string under a key of the template; the key may
      be dotted, as in `clone({'a.b': 'x'})`. */
  ghost predicate LeafOverride(d: map<string, Data>, keys: set<string>) {
    forall k | k in d :: d[k].Leaf? && k in keys
  }

  /** The part of `d` that overrides keys `p` already has. */
  function Shallow(p: map<string, Data>, d: map<string, Data>): map<string, Data> {
    map k | k in d && k in p :: d[k]
  }

  /** The kept group of a string override is the parent's data with its overridden keys
      replaced, and that replacement is flat: the parent's keys are single segments. */
  lemma KeptShallow(i: Instance, d: map<string, Data>)
    requires Valid(i) && LeafOverride(d, i.index.Keys)
    ensures Kept(i.data, d) == i.data + Shallow(i.data, d)
    ensures FlatOverride(Shallow(i.data, d), i.index.Keys)
  {
    assert Kept(i.data, d) == i.data + Shallow(i.data, d);
  }

  /** The writes of `clone(d)` for a string override: the kept group writes each key the
      override replaces with the override's string, and each key the parent holds a string
      at with that string, even a dotted key the override names too; the added group writes
      each of the override's new keys with its string; neither group names a path twice,
      and every path is a key. */
  lemma OverrideGroups(i: Instance, d: map<string, Data>)
    requires Valid(i) && LeafOverride(d, i.index.Keys)
    ensures var early := UpdateWrites(Kept(i.data, d));
      var late := UpdateWrites(Added(i.data, d));
      && Unambiguous(early) && Unambiguous(late)
      && Unknown(i.index, early + late) == {}
      && KeptGroup(i.data, d, i.index.Keys, early)
      && AddedGroup(i.data, d, late)
  {
    var early := UpdateWrites(Kept(i.data, d));
    var late := UpdateWrites(Added(i.data, d));
    KeptShallow(i, d);
    MergeKnown(i, Shallow(i.data, d));
    AddedWrites(i, d);
    KeptGroupSpec(i, d);
    GroupsIn(i.index, early, late);
  }

  /** The added group of a string override writes each new key once, with its string. */
  lemma AddedWrites(i: Instance, d: map<string, Data>)
    requires LeafOverride(d, i.index.Keys)
    ensures var late := UpdateWrites(Added(i.data, d));
      && Unambiguous(late) && AddedGroup(i.data, d, late)
      && (forall w | w in late :: w.0 in i.index)
  {
    LeafWrites(Added(i.data, d));
  }

  /** The kept group of a string override, write by write. */
  lemma KeptGroupSpec(i: Instance, d: map<string, Data>)
    requires Valid(i) && LeafOverride(d, i.index.Keys)
    ensures KeptGroup(i.data, d, i.index.Keys, UpdateWrites(Kept(i.data, d)))
  {
    forall w
      ensures w in UpdateWrites(Kept(i.data, d)) <==> KeptWrite(i.data, d, i.index.Keys, w)
    {
      KeptWriteSpec(i, d, w);
    }
  }

  /** The writes of the kept group of a string override, one at a time. */
  ghost predicate KeptWrite(p: map<string, Data>, d: map<string, Data>, keys: set<string>, w: (string, string)) {
    || (w.0 in d && w.0 in p && d[w.0] == Leaf(w.1))
    || ((w.0 !in d || w.0 !in p) && w.0 in keys && Value(p, w.0) == Some(Leaf(w.1)))
  }

  ghost predicate KeptGroup(p: map<string, Data>, d: map<string, Data>, keys: set<string>, early: set<(string, string)>) {
    forall w :: w in early <==> KeptWrite(p, d, keys, w)
  }

  ghost predicate AddedGroup(p: map<string, Data>, d: map<string, Data>, late: set<(string, string)>) {
    forall w :: w in late <==> w.0 in d && w.0 !in p && d[w.0] == Leaf(w.1)
  }

  /** Writes that all name keys leave no path unknown. */
  lemma GroupsIn(index: map<string, seq<nat>>, early: set<(string, string)>, late: set<(string, string)>)
    requires Unknown(index, early) == {}
    requires forall w | w in late :: w.0 in index
    ensures Unknown(index, early + late) == {}
  {
    forall w | w in early
      ensures w.0 in index
    {
      assert w.0 !in index ==> w.0 in Unknown(index, early);
    }
  }

  /** One write of the kept group of a string override. */
  lemma KeptWriteSpec(i: Instance, d: map<string, Data>, w: (string, string))
    requires Valid(i) && LeafOverride(d, i.index.Keys)
    ensures w in UpdateWrites(Kept(i.data, d)) <==> KeptWrite(i.data, d, i.index.Keys, w)
  {
    KeptShallow(i, d);
    MergeWrites(i.data, Shallow(i.data, d), i.index.Keys, w);
  }

  /** `clone(d)` of a valid template with strings under some of its keys, dotted or not:
      it succeeds, each overridden key holds the override's string, whether or not the
      parent holds the same path under another top-level key, and every other key holds
      what the parent holds there. */
  lemma CloneValues(i: Instance, d: map<string, Data>)
    requires Valid(i) && LeafOverride(d, i.index.Keys)
    ensures Clone(i, d).Ok?
    ensures var c := Clone(i, d).value;
      && (forall k | k in i.index :: Value(c.data, k) == if k in d then Some(d[k]) else Value(i.data, k))
      && (forall k | k in i.index :: k in Targets(UpdateWrites(i.data + d)) <==> k in d || Value(i.data, k).Some?)
  {
    var early := UpdateWrites(Kept(i.data, d));
    var late := UpdateWrites(Added(i.data, d));
    var writes := UpdateWrites(i.data + d);
    FreshValid(i);
    OverrideGroups(i, d);
    MergeSplit(i.data, d);
    CloneOutcome(i, d);
    CloneFrame(i, d);
    OrderedValues(Fresh(i), early, late);
    forall k | k in i.index
      ensures Value(Clone(i, d).value.data, k) == if k in d then Some(d[k]) else Value(i.data, k)
      ensures k in Targets(writes) <==> k in d || Value(i.data, k).Some?
    {
      OverrideKey(i.data, d, i.index.Keys, early, late, k);
    }
  }

  /** One key of `CloneValues`: which group writes it, with which string. */
  lemma OverrideKey(p: map<string, Data>, d: map<string, Data>, keys: set<string>,
                    early: set<(string, string)>, late: set<(string, string)>, k: string)
    requires Scalar(p, keys) && LeafOverride(d, keys) && k in keys
    requires KeptGroup(p, d, keys, early) && AddedGroup(p, d, late)
    ensures k in Targets(early + late) <==> k in d || Value(p, k).Some?
    ensures k in d && k in p ==> (k, d[k].text) in early && k !in Targets(late)
    ensures k in d && k !in p ==> (k, d[k].text) in late
    ensures k !in d && Value(p, k).Some? ==> (k, Value(p, k).value.text) in early && k !in Targets(late)
  {
    if k in d {
      assert KeptWrite(p, d, keys, (k, d[k].text)) || (k, d[k].text) in late;
    } else if Value(p, k).Some? {
      assert KeptWrite(p, d, keys, (k, Value(p, k).value.text));
    }
    if k in Targets(early + late) {
      var w :| w in early + late && w.0 == k;
      assert w in early ==> KeptWrite(p, d, keys, w);
    }
  }

  /** `clone(d)` of a complete template with strings under some of its keys: it succeeds,
      each overridden key holds the override, every other key the parent's string, and
      every entry shows its rendering. */
  lemma CloneOverride(i: Instance, d: map<string, Data>)
    requires Valid(i) && Complete(i) && LeafOverride(d, i.index.Keys)
    ensures Clone(i, d).Ok?
    ensures var c := Clone(i, d).value;
      && c.nodes == i.nodes && c.index == i.index
      && (forall k | k in i.index :: Value(c.data, k) == if k in d then Some(d[k]) else Value(i.data, k))
      && Synced(c) && Complete(c)
  {
    CloneValues(i, d);
    CloneFrame(i, d);
    CloneSynced(i, d);
  }

  /** `clone({p: x})` for any key `p` of a complete template, dotted or not, shows `x` at
      `p`, even where the parent's data reaches `p` through a nested object. */
  lemma CloneOnePath(i: Instance, p: string, x: string)
    requires Valid(i) && Complete(i) && p in i.index
    ensures Clone(i, map[p := Leaf(x)]).Ok?
    ensures var c := Clone(i, map[p := Leaf(x)]).value;
      && Value(c.data, p) == Some(Leaf(x))
      && Synced(c)
  {
    var d := map[p := Leaf(x)];
    assert LeafOverride(d, i.index.Keys);
    CloneOverride(i, d);
    assert p in d && d[p] == Leaf(x);
  }

  /** A flat override merged over valid data writes only keys, each with one string. */
  lemma MergeKnown(i: Instance, d: map<string, Data>)
    requires Valid(i) && FlatOverride(d, i.index.Keys)
    ensures Unambiguous(UpdateWrites(i.data + d)) && Unknown(i.index, UpdateWrites(i.data + d)) == {}
  {
    var keys := i.index.Keys;
    var writes := UpdateWrites(i.data + d);
    forall w | w in writes
      ensures w.0 in keys
    {
      MergeWrites(i.data, d, keys, w);
    }
    forall w1, w2 | w1 in writes && w2 in writes && w1.0 == w2.0
      ensures w1.1 == w2.1
    {
      MergeWrites(i.data, d, keys, w1);
      MergeWrites(i.data, d, keys, w2);
    }
  }

  /** `clone()` of a current template is an exact copy: same tree, same entries and
      `_map`, and the same value at every key. Every instance `Parse`, `Update` and `Clone`
      build is current. */
  lemma CloneSelf(i: Instance)
    requires Valid(i) && Current(i)
    ensures Clone(i, map[]).Ok?
    ensures var c := Clone(i, map[]).value;
      && c.tree == i.tree && c.nodes == i.nodes && c.index == i.index
      && (forall k | k in i.index :: Value(c.data, k) == Value(i.data, k))
  {
    CloneValues(i, map[]);
    CloneFrame(i, map[]);
    CloneSameTree(i);
  }

  /** The tree half of `CloneSelf`: an entry `clone()` re-renders names a key holding a
      string, so it already shows that rendering. */
  lemma CloneSameTree(i: Instance)
    requires Valid(i) && Current(i) && Clone(i, map[]).Ok?
    requires forall k | k in i.index :: Value(Clone(i, map[]).value.data, k) == Value(i.data, k)
    ensures Clone(i, map[]).value.tree == i.tree
  {
    var c := Clone(i, map[]).value;
    var early := UpdateWrites(Kept(i.data, map[]));
    var late := UpdateWrites(Added(i.data, map[]));
    var writes := early + late;
    var touched := Touched(i.index, writes);
    OrderedForm(Fresh(i), early, late);
    assert c.tree == Rerender(i.tree, i.nodes, touched, Renderings(i.nodes, c.data), 0);
    MergeSplit(i.data, map[]);
    CloneFrame(i, map[]);
    forall j | 0 <= j < |i.nodes| && j in touched
      ensures Walk(i.tree, i.nodes[j].xpath) == Some(Text(Render(i.nodes[j].parts, c.data)))
    {
      TouchedSpec(i.nodes, writes, j);
      ShownAgain(i, c.data, Targets(writes), j);
    }
    RerenderShown(i.tree, i.nodes, touched, c.data);
  }

  /** An entry of a current instance that mentions a path holding a string, in data that
      agrees with the instance's at every key, already shows its rendering of that data. */
  lemma ShownAgain(i: Instance, data: map<string, Data>, paths: set<string>, j: nat)
    requires i.index == BuildIndex(i.nodes) && Current(i) && j < |i.nodes|
    requires forall k | k in i.index :: Value(data, k) == Value(i.data, k)
    requires forall p | p in paths :: Value(data, p).Some? && Value(data, p).value.Leaf?
    requires Mentions(i.nodes[j], paths)
    ensures Walk(i.tree, i.nodes[j].xpath) == Some(Text(Render(i.nodes[j].parts, data)))
  {
    var k :| k in paths && k in KeysOf(i.nodes[j].parts);
    IndexEntries(i.nodes, k);
    assert j in Entries(i.index, k);
    assert NamesString(i.nodes[j], i.data);
    EntryView(i.nodes, i.data, data, j);
  }
}
