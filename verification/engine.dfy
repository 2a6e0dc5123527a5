/**
 * `update`, which writes leaf values and re-renders the nodes that mention them. Its
 * argument's keys come in groups whose order is known: `update` itself knows nothing of
 * the order of its argument's keys (one group), while `clone` passes the parent's keys
 * before the override's new ones (two groups).
 */
module Engine {
  import opened Results
  import opened Paths
  import opened Data
  import opened Placeholders
  import opened Tree
  import opened Flatten
  import opened Template

  /** The entries `update` collects: every position `_map` lists for a written path.
      A set, so an entry is re-rendered once however often its keys are written. */
  function Touched(index: map<string, seq<nat>>, writes: set<(string, string)>): set<nat> {
    set w, j | w in writes && w.0 in index && j in index[w.0] :: j
  }

  /** Written paths that no placeholder named: `_map[path + key]` is `undefined` there. */
  function Unknown(index: map<string, seq<nat>>, writes: set<(string, string)>): set<string> {
    set w | w in writes && w.0 !in index :: w.0
  }

  /** Each entry's parts rendered against `data`, by position. */
  function Renderings(nodes: seq<Descriptor>, data: map<string, Data>): (texts: seq<string>)
    ensures |texts| == |nodes|
  {
    seq(|nodes|, k requires 0 <= k < |nodes| => Render(nodes[k].parts, data))
  }

  /** The top-level render loop: each touched entry's node receives its text (its parts
      rendered against the data). Entries are visited by position. */
  function Rerender(tree: Node, nodes: seq<Descriptor>, touched: set<nat>, texts: seq<string>, j: nat): Node
    requires j <= |nodes| == |texts|
    decreases |nodes| - j
  {
    if j == |nodes| then tree
    else Rerender(Step(tree, nodes, touched, texts, j), nodes, touched, texts, j + 1)
  }

  /** One turn of the render loop: entry `j`'s node gets its text if it is touched. */
  function Step(tree: Node, nodes: seq<Descriptor>, touched: set<nat>, texts: seq<string>, j: nat): Node
    requires j < |nodes| == |texts|
  {
    if j in touched then SetText(tree, nodes[j].xpath, texts[j]) else tree
  }

  /** `update` over an argument whose keys fall into two groups, every key of `late`'s
      group enumerated after every key of `early`'s: reject a write to a path that no
      placeholder names; otherwise perform the writes of `early`, then those of `late`, and
      re-render the touched entries once against the final data. */
  ghost function UpdateOrdered(i: Instance, early: set<(string, string)>, late: set<(string, string)>): Result<Instance> {
    var writes := early + late;
    var unknown := Unknown(i.index, writes);
    if unknown != {} then Err(UnknownKeys(unknown))
    else
      var mid :- ApplyWrites(i.data, early);
      var data :- ApplyWrites(mid, late);
      Ok(i.(data := data, tree := Rerender(i.tree, i.nodes, Touched(i.index, writes), Renderings(i.nodes, data), 0)))
  }

  /** `update(u)`: nothing fixes the order of `u`'s keys, so its writes form one group. */
  ghost function Update(i: Instance, u: map<string, Data>): Result<Instance> {
    UpdateOrdered(i, UpdateWrites(u), {})
  }

  /** Entry `d` names one of `paths`. */
  ghost predicate Mentions(d: Descriptor, paths: set<string>) {
    exists k :: k in paths && k in KeysOf(d.parts)
  }

  /** An entry is touched exactly when one of its keys is written. */
  lemma TouchedSpec(nodes: seq<Descriptor>, writes: set<(string, string)>, j: nat)
    ensures j in Touched(BuildIndex(nodes), writes) <==> j < |nodes| && Mentions(nodes[j], Targets(writes))
  {
    var index := BuildIndex(nodes);
    if j in Touched(index, writes) {
      var w :| w in writes && w.0 in index && j in index[w.0];
      IndexEntries(nodes, w.0);
      assert w.0 in Targets(writes);
    }
    if j < |nodes| && Mentions(nodes[j], Targets(writes)) {
      var k :| k in Targets(writes) && k in KeysOf(nodes[j].parts);
      var w :| w in writes && w.0 == k;
      IndexEntries(nodes, k);
      assert j in Entries(index, k);
    }
  }

  /** Paths `q` that lie on no touched entry's path from position `j` on. */
  predicate Clear(q: seq<nat>, nodes: seq<Descriptor>, touched: set<nat>, j: nat) {
    forall i | j <= i < |nodes| && i in touched :: !PrefixOf(q, nodes[i].xpath)
  }

  /** Re-rendering changes nothing off the touched paths. */
  lemma {:induction false} RerenderFrame(tree: Node, nodes: seq<Descriptor>, touched: set<nat>, texts: seq<string>, j: nat, q: seq<nat>)
    requires j <= |nodes| == |texts| && Clear(q, nodes, touched, j)
    ensures Walk(Rerender(tree, nodes, touched, texts, j), q) == Walk(tree, q)
    decreases |nodes| - j
  {
    if j < |nodes| {
      assert Clear(q, nodes, touched, j + 1);
      StepFrame(tree, nodes, touched, texts, j, q);
      RerenderFrame(Step(tree, nodes, touched, texts, j), nodes, touched, texts, j + 1, q);
    }
  }

  /** One turn of the loop changes nothing off the touched entry's path. */
  lemma StepFrame(tree: Node, nodes: seq<Descriptor>, touched: set<nat>, texts: seq<string>, j: nat, q: seq<nat>)
    requires j < |nodes| == |texts| && (j in touched ==> !PrefixOf(q, nodes[j].xpath))
    ensures Walk(Step(tree, nodes, touched, texts, j), q) == Walk(tree, q)
  {
    if j in touched {
      SetTextEffect(tree, nodes[j].xpath, texts[j], q);
    }
  }

  /** One turn of the loop keeps every text node a text node. */
  lemma StepKeepsText(tree: Node, nodes: seq<Descriptor>, touched: set<nat>, texts: seq<string>, j: nat, q: seq<nat>)
    requires j < |nodes| == |texts| && IsTextAt(tree, q)
    ensures IsTextAt(Step(tree, nodes, touched, texts, j), q)
  {
    if j in touched {
      SetTextKeepsText(tree, nodes[j].xpath, texts[j], q);
    }
  }

  /** Re-rendering keeps every text node a text node. */
  lemma {:induction false} RerenderKeepsText(tree: Node, nodes: seq<Descriptor>, touched: set<nat>, texts: seq<string>, j: nat, q: seq<nat>)
    requires j <= |nodes| == |texts| && IsTextAt(tree, q)
    ensures IsTextAt(Rerender(tree, nodes, touched, texts, j), q)
    decreases |nodes| - j
  {
    if j < |nodes| {
      StepKeepsText(tree, nodes, touched, texts, j, q);
      RerenderKeepsText(Step(tree, nodes, touched, texts, j), nodes, touched, texts, j + 1, q);
    }
  }

  /** Every entry's path leads to a text node. */
  predicate AllText(tree: Node, nodes: seq<Descriptor>) {
    forall i | 0 <= i < |nodes| :: IsTextAt(tree, nodes[i].xpath)
  }

  /** Entry `i`'s path lies on no other touched entry's path from position `j` on. */
  predicate Apart(nodes: seq<Descriptor>, touched: set<nat>, i: nat, j: nat)
    requires i < |nodes|
  {
    forall k | j <= k < |nodes| && k in touched && k != i :: !PrefixOf(nodes[i].xpath, nodes[k].xpath)
  }

  /** A touched entry's node ends up showing its text. */
  lemma {:induction false} RerenderHit(tree: Node, nodes: seq<Descriptor>, touched: set<nat>, texts: seq<string>, j: nat, i: nat)
    requires j <= i < |nodes| == |texts| && i in touched && IsTextAt(tree, nodes[i].xpath) && Apart(nodes, touched, i, j)
    ensures Walk(Rerender(tree, nodes, touched, texts, j), nodes[i].xpath) == Some(Text(texts[i]))
    decreases |nodes| - j
  {
    if i == j {
      HitAt(tree, nodes, touched, texts, i);
    } else {
      PassBy(tree, nodes, touched, texts, j, i);
      RerenderHit(Step(tree, nodes, touched, texts, j), nodes, touched, texts, j + 1, i);
    }
  }

  /** The turn of the loop that writes entry `i`, and every later one, leave its text in
      place. */
  lemma HitAt(tree: Node, nodes: seq<Descriptor>, touched: set<nat>, texts: seq<string>, i: nat)
    requires i < |nodes| == |texts| && i in touched && IsTextAt(tree, nodes[i].xpath) && Apart(nodes, touched, i, i)
    ensures Walk(Rerender(tree, nodes, touched, texts, i), nodes[i].xpath) == Some(Text(texts[i]))
  {
    var p := nodes[i].xpath;
    SetTextEffect(tree, p, texts[i], p);
    assert Clear(p, nodes, touched, i + 1);
    RerenderFrame(Step(tree, nodes, touched, texts, i), nodes, touched, texts, i + 1, p);
  }

  /** A turn of the loop before entry `i` keeps its node a text node and its path apart. */
  lemma PassBy(tree: Node, nodes: seq<Descriptor>, touched: set<nat>, texts: seq<string>, j: nat, i: nat)
    requires j < i < |nodes| == |texts| && IsTextAt(tree, nodes[i].xpath) && Apart(nodes, touched, i, j)
    ensures IsTextAt(Step(tree, nodes, touched, texts, j), nodes[i].xpath) && Apart(nodes, touched, i, j + 1)
  {
    StepFrame(tree, nodes, touched, texts, j, nodes[i].xpath);
  }

  /** Distinct text nodes never lie on each other's paths. */
  lemma TextApart(tree: Node, nodes: seq<Descriptor>, touched: set<nat>, i: nat)
    requires DistinctPaths(nodes) && AllText(tree, nodes) && i < |nodes|
    ensures Apart(nodes, touched, i, 0)
  {
    forall k | 0 <= k < |nodes| && k in touched && k != i
      ensures !PrefixOf(nodes[i].xpath, nodes[k].xpath)
    {
      assert nodes[i].xpath != nodes[k].xpath by {
        if k < i {
          assert nodes[k].xpath != nodes[i].xpath;
        }
      }
      TextPathsApart(tree, nodes[i].xpath, nodes[k].xpath);
    }
  }

  /** Re-rendering nodes that already show their text changes nothing. */
  lemma {:induction false} RerenderSame(tree: Node, nodes: seq<Descriptor>, touched: set<nat>, texts: seq<string>, j: nat)
    requires j <= |nodes| == |texts|
    requires forall i | j <= i < |nodes| && i in touched :: Walk(tree, nodes[i].xpath) == Some(Text(texts[i]))
    ensures Rerender(tree, nodes, touched, texts, j) == tree
    decreases |nodes| - j
  {
    if j < |nodes| {
      if j in touched {
        SetTextSame(tree, nodes[j].xpath, texts[j]);
      }
      assert Step(tree, nodes, touched, texts, j) == tree;
      RerenderSame(tree, nodes, touched, texts, j + 1);
    }
  }

  /** Re-rendering against data whose renderings the touched nodes already show changes
      nothing. */
  lemma RerenderShown(tree: Node, nodes: seq<Descriptor>, touched: set<nat>, data: map<string, Data>)
    requires forall j | 0 <= j < |nodes| && j in touched :: Walk(tree, nodes[j].xpath) == Some(Text(Render(nodes[j].parts, data)))
    ensures Rerender(tree, nodes, touched, Renderings(nodes, data), 0) == tree
  {
    RerenderSame(tree, nodes, touched, Renderings(nodes, data), 0);
  }

  /** With no unknown path, every written path is a key. */
  lemma KnownTargets(index: map<string, seq<nat>>, writes: set<(string, string)>)
    requires Unknown(index, writes) == {}
    ensures Targets(writes) <= index.Keys
  {
    forall p | p in Targets(writes)
      ensures p in index
    {
      var w :| w in writes && w.0 == p;
      assert w.0 !in index ==> w.0 in Unknown(index, writes);
    }
  }

  /** A successful ordered update is the data after both groups of writes, with the
      touched entries re-rendered. */
  lemma OrderedForm(i: Instance, early: set<(string, string)>, late: set<(string, string)>)
    requires UpdateOrdered(i, early, late).Ok?
    ensures Unknown(i.index, early + late) == {}
    ensures ApplyWrites(i.data, early).Ok? && ApplyWrites(ApplyWrites(i.data, early).value, late).Ok?
    ensures var data := ApplyWrites(ApplyWrites(i.data, early).value, late).value;
      UpdateOrdered(i, early, late).value
        == i.(data := data, tree := Rerender(i.tree, i.nodes, Touched(i.index, early + late), Renderings(i.nodes, data), 0))
  {
  }

  /** Both groups write known keys only. */
  lemma GroupsKnown(index: map<string, seq<nat>>, early: set<(string, string)>, late: set<(string, string)>)
    requires Unknown(index, early + late) == {}
    ensures Targets(early) <= index.Keys && Targets(late) <= index.Keys
    ensures Targets(early + late) == Targets(early) + Targets(late)
  {
    KnownTargets(index, early + late);
    assert Targets(early) <= Targets(early + late);
    assert Targets(late) <= Targets(early + late);
  }

  /** An ordered update throws exactly when some write names a path no placeholder names,
      reporting those paths; otherwise it succeeds. */
  lemma OrderedOutcome(i: Instance, early: set<(string, string)>, late: set<(string, string)>)
    requires Valid(i)
    ensures UpdateOrdered(i, early, late).Err? <==> Unknown(i.index, early + late) != {}
    ensures UpdateOrdered(i, early, late).Err? ==> UpdateOrdered(i, early, late).error == UnknownKeys(Unknown(i.index, early + late))
  {
    if Unknown(i.index, early + late) == {} {
      GroupsKnown(i.index, early, late);
      ApplyWritesSucceeds(i.data, i.index.Keys, early);
      ApplyWritesSucceeds(ApplyWrites(i.data, early).value, i.index.Keys, late);
    }
  }

  /** What any successful ordered update does to the data, whatever its strings: the
      entries and `_map` stay, every written key holds a string, every other key keeps its
      value, and the object's own keys stay single segments. */
  lemma OrderedFrame(i: Instance, early: set<(string, string)>, late: set<(string, string)>)
    requires Valid(i) && UpdateOrdered(i, early, late).Ok?
    ensures var i' := UpdateOrdered(i, early, late).value;
      && i'.nodes == i.nodes && i'.index == i.index
      && (forall p | p in Targets(early + late) :: Value(i'.data, p).Some? && Value(i'.data, p).value.Leaf?)
      && (forall k | k in i.index && k !in Targets(early + late) :: Value(i'.data, k) == Value(i.data, k))
      && Plain(i'.data)
  {
    var keys := i.index.Keys;
    OrderedForm(i, early, late);
    GroupsKnown(i.index, early, late);
    ApplyWritesSucceeds(i.data, keys, early);
    ApplyWritesFrame(i.data, keys, early);
    ApplyWritesFrame(ApplyWrites(i.data, early).value, keys, late);
  }

  /** With each group unambiguous, the later group wins: each of its paths holds its
      string, and each path only the earlier group writes holds that group's string. */
  lemma OrderedValues(i: Instance, early: set<(string, string)>, late: set<(string, string)>)
    requires Valid(i) && Unambiguous(early) && Unambiguous(late) && UpdateOrdered(i, early, late).Ok?
    ensures var i' := UpdateOrdered(i, early, late).value;
      && (forall w | w in late :: Value(i'.data, w.0) == Some(Leaf(w.1)))
      && (forall w | w in early && w.0 !in Targets(late) :: Value(i'.data, w.0) == Some(Leaf(w.1)))
  {
    var keys := i.index.Keys;
    OrderedForm(i, early, late);
    GroupsKnown(i.index, early, late);
    ApplyWritesEffect(i.data, keys, early);
    ApplyWritesEffect(ApplyWrites(i.data, early).value, keys, late);
  }

  /** A successful ordered update keeps the instance valid. */
  lemma OrderedValid(i: Instance, early: set<(string, string)>, late: set<(string, string)>)
    requires Valid(i) && UpdateOrdered(i, early, late).Ok?
    ensures Valid(UpdateOrdered(i, early, late).value)
  {
    var keys := i.index.Keys;
    var writes := early + late;
    OrderedForm(i, early, late);
    OrderedFrame(i, early, late);
    GroupsKnown(i.index, early, late);
    ApplyWritesSucceeds(i.data, keys, early);
    var mid := ApplyWrites(i.data, early).value;
    ApplyWritesSucceeds(mid, keys, late);
    var data := ApplyWrites(mid, late).value;
    var tree := Rerender(i.tree, i.nodes, Touched(i.index, writes), Renderings(i.nodes, data), 0);
    forall j | 0 <= j < |i.nodes|
      ensures IsTextAt(tree, i.nodes[j].xpath)
    {
      RerenderKeepsText(i.tree, i.nodes, Touched(i.index, writes), Renderings(i.nodes, data), 0, i.nodes[j].xpath);
    }
    assert Valid(i.(data := data, tree := tree));
  }

  /** What a successful ordered update does to the tree: every touched entry shows its
      parts rendered against the final data, and every path on no touched entry's path is
      as it was. */
  lemma OrderedTree(i: Instance, early: set<(string, string)>, late: set<(string, string)>)
    requires Valid(i) && UpdateOrdered(i, early, late).Ok?
    ensures var i' := UpdateOrdered(i, early, late).value;
      var touched := Touched(i.index, early + late);
      && (forall j | 0 <= j < |i.nodes| && j in touched ::
            Walk(i'.tree, i.nodes[j].xpath) == Some(Text(Render(i.nodes[j].parts, i'.data))))
      && (forall q | Clear(q, i.nodes, touched, 0) :: Walk(i'.tree, q) == Walk(i.tree, q))
  {
    var i' := UpdateOrdered(i, early, late).value;
    var touched := Touched(i.index, early + late);
    OrderedForm(i, early, late);
    forall j | 0 <= j < |i.nodes| && j in touched
      ensures Walk(i'.tree, i.nodes[j].xpath) == Some(Text(Render(i.nodes[j].parts, i'.data)))
    {
      TextApart(i.tree, i.nodes, touched, j);
      RerenderHit(i.tree, i.nodes, touched, Renderings(i.nodes, i'.data), 0, j);
    }
    forall q | Clear(q, i.nodes, touched, 0)
      ensures Walk(i'.tree, q) == Walk(i.tree, q)
    {
      RerenderFrame(i.tree, i.nodes, touched, Renderings(i.nodes, i'.data), 0, q);
    }
  }

  /** `update` throws exactly when it writes a path that no placeholder names, reporting
      those paths; otherwise it succeeds. */
  lemma UpdateOutcome(i: Instance, u: map<string, Data>)
    requires Valid(i)
    ensures Update(i, u).Err? <==> Unknown(i.index, UpdateWrites(u)) != {}
    ensures Update(i, u).Err? ==> Update(i, u).error == UnknownKeys(Unknown(i.index, UpdateWrites(u)))
  {
    OrderedOutcome(i, UpdateWrites(u), {});
    assert UpdateWrites(u) + {} == UpdateWrites(u);
  }

  /** A successful update is the written data with the touched entries re-rendered. */
  lemma UpdateForm(i: Instance, u: map<string, Data>)
    requires Update(i, u).Ok?
    ensures Unknown(i.index, UpdateWrites(u)) == {}
    ensures ApplyWrites(i.data, UpdateWrites(u)).Ok?
    ensures var data := ApplyWrites(i.data, UpdateWrites(u)).value;
      Update(i, u).value == i.(data := data, tree := Rerender(i.tree, i.nodes, Touched(i.index, UpdateWrites(u)), Renderings(i.nodes, data), 0))
  {
    OrderedForm(i, UpdateWrites(u), {});
    assert UpdateWrites(u) + {} == UpdateWrites(u);
  }

  /** What a successful update does to the data: written keys hold their strings and all
      other keys keep their values; the entries and `_map` stay as they were. */
  lemma UpdateData(i: Instance, u: map<string, Data>)
    requires Valid(i) && Unambiguous(UpdateWrites(u)) && Update(i, u).Ok?
    ensures var i' := Update(i, u).value;
      && i'.nodes == i.nodes && i'.index == i.index
      && (forall w | w in UpdateWrites(u) :: Value(i'.data, w.0) == Some(Leaf(w.1)))
      && (forall k | k in i.index && k !in Targets(UpdateWrites(u)) :: Value(i'.data, k) == Value(i.data, k))
  {
    var writes := UpdateWrites(u);
    UpdateForm(i, u);
    KnownTargets(i.index, writes);
    ApplyWritesEffect(i.data, i.index.Keys, writes);
  }

  /** Whatever its strings, a successful update keeps the entries and `_map`, puts a
      string at every written key and leaves every other key as it was. */
  lemma UpdateFrame(i: Instance, u: map<string, Data>)
    requires Valid(i) && Update(i, u).Ok?
    ensures var i' := Update(i, u).value;
      && i'.nodes == i.nodes && i'.index == i.index
      && (forall p | p in Targets(UpdateWrites(u)) :: Value(i'.data, p).Some? && Value(i'.data, p).value.Leaf?)
      && (forall k | k in i.index && k !in Targets(UpdateWrites(u)) :: Value(i'.data, k) == Value(i.data, k))
  {
    OrderedFrame(i, UpdateWrites(u), {});
    assert UpdateWrites(u) + {} == UpdateWrites(u);
  }

  /** A successful update keeps the instance valid. */
  lemma UpdateValid(i: Instance, u: map<string, Data>)
    requires Valid(i) && Update(i, u).Ok?
    ensures Valid(Update(i, u).value)
  {
    OrderedValid(i, UpdateWrites(u), {});
  }

  /** What a successful update does to the tree: every touched entry shows its parts
      rendered against the new data, and every path on no touched entry's path is as it was. */
  lemma UpdateTree(i: Instance, u: map<string, Data>)
    requires Valid(i) && Update(i, u).Ok?
    ensures var i' := Update(i, u).value;
      var touched := Touched(i.index, UpdateWrites(u));
      && (forall j | 0 <= j < |i.nodes| && j in touched ::
            Walk(i'.tree, i.nodes[j].xpath) == Some(Text(Render(i.nodes[j].parts, i'.data))))
      && (forall q | Clear(q, i.nodes, touched, 0) :: Walk(i'.tree, q) == Walk(i.tree, q))
  {
    OrderedTree(i, UpdateWrites(u), {});
    assert UpdateWrites(u) + {} == UpdateWrites(u);
  }

  /** An untouched entry's path lies on no touched entry's path. */
  lemma UntouchedClear(tree: Node, nodes: seq<Descriptor>, touched: set<nat>, j: nat)
    requires DistinctPaths(nodes) && AllText(tree, nodes) && j < |nodes| && j !in touched
    ensures Clear(nodes[j].xpath, nodes, touched, 0)
  {
    forall n | 0 <= n < |nodes| && n in touched
      ensures !PrefixOf(nodes[j].xpath, nodes[n].xpath)
    {
      assert nodes[j].xpath != nodes[n].xpath by {
        if n < j {
          assert nodes[n].xpath != nodes[j].xpath;
        }
      }
      TextPathsApart(tree, nodes[j].xpath, nodes[n].xpath);
    }
  }

  /** The keys of an untouched entry are not written. */
  lemma UntouchedKeys(nodes: seq<Descriptor>, writes: set<(string, string)>, j: nat)
    requires j < |nodes| && j !in Touched(BuildIndex(nodes), writes)
    ensures forall k | k in KeysOf(nodes[j].parts) :: k in BuildIndex(nodes) && k !in Targets(writes)
  {
    TouchedSpec(nodes, writes, j);
    forall k | k in KeysOf(nodes[j].parts)
      ensures k in BuildIndex(nodes) && k !in Targets(writes)
    {
      IndexEntries(nodes, k);
      assert j in Entries(BuildIndex(nodes), k);
    }
  }

  /** An untouched entry's node keeps its text, and its rendering does not change either. */
  lemma UntouchedKept(i: Instance, u: map<string, Data>, j: nat)
    requires Valid(i) && Update(i, u).Ok?
    requires j < |i.nodes| && j !in Touched(i.index, UpdateWrites(u))
    ensures var i' := Update(i, u).value;
      && Walk(i'.tree, i.nodes[j].xpath) == Walk(i.tree, i.nodes[j].xpath)
      && Render(i.nodes[j].parts, i'.data) == Render(i.nodes[j].parts, i.data)
      && (forall k | k in KeysOf(i.nodes[j].parts) :: Value(i'.data, k) == Value(i.data, k))
  {
    var writes := UpdateWrites(u);
    var touched := Touched(i.index, writes);
    var d := i.nodes[j];
    UpdateFrame(i, u);
    UpdateTree(i, u);
    UntouchedClear(i.tree, i.nodes, touched, j);
    UntouchedKeys(i.nodes, writes, j);
    RenderFrame(d.parts, Update(i, u).value.data, i.data);
  }

  /** An update keeps every node in step with the data. */
  lemma UpdateKeepsSynced(i: Instance, u: map<string, Data>)
    requires Valid(i) && Update(i, u).Ok? && Synced(i)
    ensures Synced(Update(i, u).value)
  {
    var writes := UpdateWrites(u);
    var i' := Update(i, u).value;
    UpdateFrame(i, u);
    UpdateTree(i, u);
    forall j | 0 <= j < |i.nodes|
      ensures Walk(i'.tree, i.nodes[j].xpath) == Some(Text(Render(i.nodes[j].parts, i'.data)))
    {
      if j !in Touched(i.index, writes) {
        UntouchedKept(i, u, j);
      }
    }
  }

  /** An update keeps current every entry that names a key holding a string. */
  lemma UpdateKeepsCurrent(i: Instance, u: map<string, Data>)
    requires Valid(i) && Update(i, u).Ok? && Current(i)
    ensures Current(Update(i, u).value)
  {
    var writes := UpdateWrites(u);
    var i' := Update(i, u).value;
    UpdateFrame(i, u);
    UpdateTree(i, u);
    forall j | 0 <= j < |i.nodes| && NamesString(i.nodes[j], i'.data)
      ensures Walk(i'.tree, i.nodes[j].xpath) == Some(Text(Render(i.nodes[j].parts, i'.data)))
    {
      if j !in Touched(i.index, writes) {
        UntouchedKept(i, u, j);
        var k :| k in KeysOf(i.nodes[j].parts) && Value(i'.data, k).Some? && Value(i'.data, k).value.Leaf?;
        assert NamesString(i.nodes[j], i.data);
      }
    }
  }

  /** An update keeps every key bound to a string. */
  lemma UpdateKeepsComplete(i: Instance, u: map<string, Data>)
    requires Valid(i) && Update(i, u).Ok? && Complete(i)
    ensures Complete(Update(i, u).value)
  {
    UpdateFrame(i, u);
  }

  /** `update()` and `update({})` change nothing. */
  lemma UpdateEmpty(i: Instance)
    ensures Update(i, map[]) == Ok(i)
  {
    assert UpdateWrites(map[]) == {};
    var none: set<(string, string)> := {};
    assert none + none == none;
    assert Touched(i.index, {}) == {};
    RerenderSame(i.tree, i.nodes, {}, Renderings(i.nodes, i.data), 0);
    assert Update(i, map[]) == UpdateOrdered(i, {}, {});
  }

  /** Repeating an update changes nothing further. */
  lemma UpdateIdempotent(i: Instance, u: map<string, Data>)
    requires Valid(i) && Unambiguous(UpdateWrites(u)) && Update(i, u).Ok?
    ensures Update(Update(i, u).value, u) == Update(i, u)
  {
    var i' := Update(i, u).value;
    var writes := UpdateWrites(u);
    UpdateShape(i, u);
    assert writes + {} == writes;
    assert Unknown(i'.index, writes) == {} by {
      UpdateForm(i, u);
    }
    assert ApplyWrites(i'.data, writes) == Ok(i'.data) by {
      UpdateData(i, u);
      ApplyWritesSame(i'.data, writes);
    }
    assert Rerender(i'.tree, i'.nodes, Touched(i'.index, writes), Renderings(i'.nodes, i'.data), 0) == i'.tree by {
      UpdateTree(i, u);
      RerenderShown(i'.tree, i'.nodes, Touched(i'.index, writes), i'.data);
    }
    assert ApplyWrites(i'.data, {}) == Ok(i'.data);
  }

  /** A nested argument and its dotted flattening update alike. */
  lemma UpdateDotted(i: Instance, u: map<string, Data>)
    requires Unambiguous(UpdateWrites(u))
    ensures Update(i, Dotted(UpdateWrites(u))) == Update(i, u)
  {
    DottedSameWrites(u);
  }

  /** `update({a: {b: v}})` is `update({"a.b": v})`. */
  lemma UpdateNested(i: Instance, a: string, b: string, v: string)
    ensures Update(i, map[a := Obj(map[b := Leaf(v)])]) == Update(i, map[a + "." + b := Leaf(v)])
  {
    NestedWrites(a, map[b := Leaf(v)], "");
    SingleWrite(b, v, "" + a + ".");
    SingleWrite(a + "." + b, v, "");
    assert "" + a + "." + b == a + "." + b;
    assert "" + (a + "." + b) == a + "." + b;
  }

  /** Two instances over the same entries that no template operation can tell apart: the
      same value at every key and the same node at every entry's path. */
  ghost predicate SameView(a: Instance, b: Instance) {
    && a.nodes == b.nodes && a.index == b.index
    && (forall k | k in a.index :: Value(a.data, k) == Value(b.data, k))
    && (forall j | 0 <= j < |a.nodes| :: Walk(a.tree, a.nodes[j].xpath) == Walk(b.tree, b.nodes[j].xpath))
  }

  /** An entry renders alike against two data objects that agree at every key. */
  lemma EntryView(nodes: seq<Descriptor>, a: map<string, Data>, b: map<string, Data>, j: nat)
    requires j < |nodes|
    requires forall k | k in BuildIndex(nodes) :: Value(a, k) == Value(b, k)
    ensures Render(nodes[j].parts, a) == Render(nodes[j].parts, b)
  {
    forall k | k in KeysOf(nodes[j].parts)
      ensures Value(a, k) == Value(b, k)
    {
      IndexEntries(nodes, k);
      assert j in Entries(BuildIndex(nodes), k);
    }
    RenderFrame(nodes[j].parts, a, b);
  }

  /** What a synced template shows depends only on the values at its keys. */
  lemma SyncedView(a: Instance, b: Instance)
    requires a.index == BuildIndex(a.nodes) && Synced(a) && Synced(b)
    requires a.nodes == b.nodes && a.index == b.index
    requires forall k | k in a.index :: Value(a.data, k) == Value(b.data, k)
    ensures SameView(a, b)
  {
    forall j | 0 <= j < |a.nodes|
      ensures Walk(a.tree, a.nodes[j].xpath) == Walk(b.tree, b.nodes[j].xpath)
    {
      EntryView(a.nodes, a.data, b.data, j);
    }
  }

  /** After two updates the second of which writes every path the first did, each key
      holds the value the second alone would give it. */
  lemma LastValuesWin(i: Instance, u1: map<string, Data>, u2: map<string, Data>)
    requires Valid(i)
    requires Unambiguous(UpdateWrites(u1)) && Unambiguous(UpdateWrites(u2))
    requires Targets(UpdateWrites(u1)) <= Targets(UpdateWrites(u2))
    requires Update(i, u1).Ok? && Update(i, u2).Ok?
    ensures Update(Update(i, u1).value, u2).Ok?
    ensures forall k | k in i.index :: Value(Update(Update(i, u1).value, u2).value.data, k) == Value(Update(i, u2).value.data, k)
  {
    var i1 := Update(i, u1).value;
    var w1, w2 := UpdateWrites(u1), UpdateWrites(u2);
    UpdateData(i, u1);
    UpdateValid(i, u1);
    UpdateOutcome(i1, u2);
    UpdateOutcome(i, u2);
    var a := Update(i1, u2).value;
    var b := Update(i, u2).value;
    UpdateData(i1, u2);
    UpdateData(i, u2);
    forall k | k in i.index
      ensures Value(a.data, k) == Value(b.data, k)
    {
      if k in Targets(w2) {
        var w :| w in w2 && w.0 == k;
      } else {
        assert k !in Targets(w1);
      }
    }
  }

  /** A successful update keeps the entries and `_map`. */
  lemma UpdateShape(i: Instance, u: map<string, Data>)
    requires Update(i, u).Ok?
    ensures Update(i, u).value.nodes == i.nodes && Update(i, u).value.index == i.index
  {
    UpdateForm(i, u);
  }

  /** The last write wins: after `update(u1)`, an `update(u2)` that writes at least the
      same paths leaves the template as `update(u2)` alone would. */
  lemma LastWriteWins(i: Instance, u1: map<string, Data>, u2: map<string, Data>)
    requires Valid(i)
    requires Unambiguous(UpdateWrites(u1)) && Unambiguous(UpdateWrites(u2))
    requires Targets(UpdateWrites(u1)) <= Targets(UpdateWrites(u2))
    requires Update(i, u1).Ok?
    ensures Update(Update(i, u1).value, u2).Ok? <==> Update(i, u2).Ok?
    ensures Update(i, u2).Ok? ==> SameView(Update(Update(i, u1).value, u2).value, Update(i, u2).value)
  {
    var i1 := Update(i, u1).value;
    UpdateShape(i, u1);
    UpdateValid(i, u1);
    UpdateOutcome(i1, u2);
    UpdateOutcome(i, u2);
    if Update(i, u2).Ok? {
      LastViewWins(i, u1, u2);
    }
  }

  /** The view half of `LastWriteWins`, once both second updates are known to succeed. */
  lemma LastViewWins(i: Instance, u1: map<string, Data>, u2: map<string, Data>)
    requires Valid(i)
    requires Unambiguous(UpdateWrites(u1)) && Unambiguous(UpdateWrites(u2))
    requires Targets(UpdateWrites(u1)) <= Targets(UpdateWrites(u2))
    requires Update(i, u1).Ok? && Update(i, u2).Ok?
    ensures Update(Update(i, u1).value, u2).Ok?
    ensures SameView(Update(Update(i, u1).value, u2).value, Update(i, u2).value)
  {
    var i1 := Update(i, u1).value;
    LastValuesWin(i, u1, u2);
    var a := Update(i1, u2).value;
    var b := Update(i, u2).value;
    UpdateShape(i, u1);
    UpdateShape(i1, u2);
    UpdateShape(i, u2);
    forall j | 0 <= j < |a.nodes|
      ensures Walk(a.tree, a.nodes[j].xpath) == Walk(b.tree, b.nodes[j].xpath)
    {
      LastEntryWins(i, u1, u2, j);
    }
  }

  /** One entry of `LastViewWins`: an entry the second update touches shows its rendering
      of the same values either way; any other entry neither update touches, so it keeps
      the text it had. */
  lemma LastEntryWins(i: Instance, u1: map<string, Data>, u2: map<string, Data>, j: nat)
    requires Valid(i)
    requires Unambiguous(UpdateWrites(u1)) && Unambiguous(UpdateWrites(u2))
    requires Targets(UpdateWrites(u1)) <= Targets(UpdateWrites(u2))
    requires Update(i, u1).Ok? && Update(i, u2).Ok?
    requires j < |i.nodes|
    ensures Update(Update(i, u1).value, u2).Ok?
    ensures Walk(Update(Update(i, u1).value, u2).value.tree, i.nodes[j].xpath) == Walk(Update(i, u2).value.tree, i.nodes[j].xpath)
  {
    var i1 := Update(i, u1).value;
    var w1, w2 := UpdateWrites(u1), UpdateWrites(u2);
    LastValuesWin(i, u1, u2);
    UpdateShape(i, u1);
    UpdateValid(i, u1);
    var a := Update(i1, u2).value;
    var b := Update(i, u2).value;
    var x := i.nodes[j].xpath;
    TouchedSpec(i.nodes, w2, j);
    if j in Touched(i.index, w2) {
      UpdateTree(i1, u2);
      UpdateTree(i, u2);
      UpdateShape(i1, u2);
      EntryView(i.nodes, a.data, b.data, j);
    } else {
      TouchedSpec(i.nodes, w1, j);
      assert j !in Touched(i.index, w1);
      UntouchedKept(i1, u2, j);
      UntouchedKept(i, u1, j);
      UntouchedKept(i, u2, j);
    }
  }
}
