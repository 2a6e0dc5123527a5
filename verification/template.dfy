/**
 * What the constructor's `_parse` builds from the element's subtree: the list of text
 * nodes that hold placeholders (`_nodes`), the index from key to those nodes (`_map`),
 * and the initial data object, in which every key is bound to its own placeholder text
 * so that the element at first renders unchanged. Also the text a node is re-rendered to.
 */
module Template {
  import opened Results
  import opened Paths
  import opened Data
  import opened Placeholders
  import opened Tree

  /** One entry of `_nodes`: the split text of a text node and the child offsets that lead
      to it from the template's element. */
  datatype Descriptor = Descriptor(parts: seq<string>, xpath: seq<nat>)

  /** A template: its subtree, `_data`, `_map` (key to positions in `_nodes`) and `_nodes`. */
  datatype Instance = Instance(tree: Node, data: map<string, Data>, index: map<string, seq<nat>>, nodes: seq<Descriptor>)

  /** `_parse` records a text node when it is not blank and its split has more than one part. */
  predicate Recorded(t: string) {
    !IsBlank(t) && |Split(t)| >= 2
  }

  /** `d` describes node `n`: a recorded text node whose split is `d.parts`. */
  predicate Describes(d: Descriptor, n: Node) {
    n.Text? && Recorded(n.content) && d.parts == Split(n.content)
  }

  /** The entries `_parse(n, xpath)` appends to `_nodes`, in order. */
  function Descriptors(n: Node, xpath: seq<nat>): seq<Descriptor>
    decreases n, 1
  {
    if n.Element? then ChildrenFrom(n, xpath, 0) else []
  }

  /** The entries contributed by the children of `n` from offset `i` on. */
  function ChildrenFrom(n: Node, xpath: seq<nat>, i: nat): seq<Descriptor>
    requires n.Element? && i <= |n.children|
    decreases n, 0, |n.children| - i
  {
    if i == |n.children| then []
    else ChildDescriptors(n.children[i], xpath + [i]) + ChildrenFrom(n, xpath, i + 1)
  }

  /** One child: an element is parsed recursively, a recorded text node becomes an entry,
      anything else is skipped. */
  function ChildDescriptors(c: Node, path: seq<nat>): seq<Descriptor>
    decreases c, 2
  {
    match c
    case Element(_) => Descriptors(c, path)
    case Text(t) => if Recorded(t) then [Descriptor(Split(t), path)] else []
    case Other => []
  }

  /** The position reached by `d` below `xpath`. */
  predicate Below(d: Descriptor, xpath: seq<nat>) {
    |d.xpath| > |xpath| && d.xpath[..|xpath|] == xpath
  }

  /** Every entry of `_parse(n, xpath)` lies below `xpath` and describes the node its path
      leads to. */
  lemma {:induction false} DescriptorsSound(n: Node, xpath: seq<nat>, d: Descriptor)
    requires d in Descriptors(n, xpath)
    ensures Below(d, xpath)
    ensures Walk(n, d.xpath[|xpath|..]).Some? && Describes(d, Walk(n, d.xpath[|xpath|..]).value)
    decreases n, 1
  {
    ChildrenSound(n, xpath, 0, d);
  }

  lemma {:induction false} ChildrenSound(n: Node, xpath: seq<nat>, i: nat, d: Descriptor)
    requires n.Element? && i <= |n.children| && d in ChildrenFrom(n, xpath, i)
    ensures Below(d, xpath) && i <= d.xpath[|xpath|] < |n.children|
    ensures Walk(n, d.xpath[|xpath|..]).Some? && Describes(d, Walk(n, d.xpath[|xpath|..]).value)
    decreases n, 0, |n.children| - i
  {
    var c := n.children[i];
    var path := xpath + [i];
    if d in ChildDescriptors(c, path) {
      ChildSound(c, path, d);
      var rel := d.xpath[|xpath|..];
      assert d.xpath[..|path|] == path;
      assert d.xpath[..|xpath|] == d.xpath[..|path|][..|xpath|];
      assert rel[0] == i;
      assert rel[1..] == d.xpath[|path|..];
    } else {
      ChildrenSound(n, xpath, i + 1, d);
    }
  }

  lemma {:induction false} ChildSound(c: Node, path: seq<nat>, d: Descriptor)
    requires d in ChildDescriptors(c, path)
    ensures |d.xpath| >= |path| && d.xpath[..|path|] == path
    ensures Walk(c, d.xpath[|path|..]).Some? && Describes(d, Walk(c, d.xpath[|path|..]).value)
    decreases c, 2
  {
    if c.Element? {
      DescriptorsSound(c, path, d);
    } else {
      assert d.xpath[|path|..] == [];
    }
  }

  /** Conversely `_parse` finds every recorded text node below `n`. */
  lemma {:induction false} DescriptorsComplete(n: Node, xpath: seq<nat>, q: seq<nat>)
    requires |q| >= 1 && IsTextAt(n, q) && Recorded(Walk(n, q).value.content)
    ensures Descriptor(Split(Walk(n, q).value.content), xpath + q) in Descriptors(n, xpath)
    decreases n, 1
  {
    var c := n.children[q[0]];
    ChildComplete(c, xpath + [q[0]], q[1..]);
    assert xpath + [q[0]] + q[1..] == xpath + q;
    ChildrenContain(n, xpath, 0, q[0]);
  }

  lemma {:induction false} ChildComplete(c: Node, path: seq<nat>, r: seq<nat>)
    requires IsTextAt(c, r) && Recorded(Walk(c, r).value.content)
    ensures Descriptor(Split(Walk(c, r).value.content), path + r) in ChildDescriptors(c, path)
    decreases c, 2
  {
    if |r| == 0 {
      assert path + r == path;
    } else {
      DescriptorsComplete(c, path, r);
    }
  }

  /** The entries of child `j` are among those of the children from `i` on, for `i <= j`. */
  lemma {:induction false} ChildrenContain(n: Node, xpath: seq<nat>, i: nat, j: nat)
    requires n.Element? && i <= j < |n.children|
    ensures forall d | d in ChildDescriptors(n.children[j], xpath + [j]) :: d in ChildrenFrom(n, xpath, i)
    decreases j - i
  {
    if i < j {
      ChildrenContain(n, xpath, i + 1, j);
    }
  }

  /** No two entries share a path. */
  predicate DistinctPaths(ds: seq<Descriptor>) {
    forall a, b | 0 <= a < b < |ds| :: ds[a].xpath != ds[b].xpath
  }

  lemma {:induction false} DescriptorsDistinct(n: Node, xpath: seq<nat>)
    ensures DistinctPaths(Descriptors(n, xpath))
    decreases n, 1
  {
    if n.Element? {
      ChildrenDistinct(n, xpath, 0);
    }
  }

  lemma {:induction false} ChildrenDistinct(n: Node, xpath: seq<nat>, i: nat)
    requires n.Element? && i <= |n.children|
    ensures DistinctPaths(ChildrenFrom(n, xpath, i))
    decreases n, 0, |n.children| - i
  {
    if i < |n.children| {
      var c := n.children[i];
      var path := xpath + [i];
      var here := ChildDescriptors(c, path);
      var rest := ChildrenFrom(n, xpath, i + 1);
      if c.Element? {
        DescriptorsDistinct(c, path);
      }
      ChildrenDistinct(n, xpath, i + 1);
      forall a, b | 0 <= a < |here| && 0 <= b < |rest|
        ensures here[a].xpath != rest[b].xpath
      {
        ChildSound(c, path, here[a]);
        ChildrenSound(n, xpath, i + 1, rest[b]);
        assert here[a].xpath[|xpath|] == path[|xpath|];
      }
      var all := here + rest;
      forall a, b | 0 <= a < b < |all|
        ensures all[a].xpath != all[b].xpath
      {
        if b < |here| {
          assert all[a] == here[a] && all[b] == here[b];
        } else if a >= |here| {
          assert all[a] == rest[a - |here|] && all[b] == rest[b - |here|];
        } else {
          assert all[a] == here[a] && all[b] == rest[b - |here|];
        }
      }
    }
  }

  /** `text.trim().length > 0` never rejects a text that holds a placeholder, so a text
      node is recorded exactly when the pattern matches somewhere in it. */
  lemma RecordedIffPlaceholder(t: string)
    ensures Recorded(t) <==> HasPlaceholder(t)
  {
    SplitFindsPlaceholder(t);
    if HasPlaceholder(t) {
      var q: nat, n: nat :| q <= |t| && MatchesAt(t[q..], n);
      assert t[q] == t[q..][0] == '{';
      assert !JsWhitespace(t[q]);
    }
  }

  // ----- `_map`: key to the positions of the entries that mention it -----

  /** `_map[k]`, or no positions for a key never registered. */
  function Entries(index: map<string, seq<nat>>, k: string): seq<nat> {
    if k in index then index[k] else []
  }

  /** `_map[key].push(j)` for each key occurrence of entry `j`, in order. */
  function Register(index: map<string, seq<nat>>, keys: seq<string>, j: nat): map<string, seq<nat>>
    decreases |keys|
  {
    if |keys| == 0 then index
    else Register(index[keys[0] := Entries(index, keys[0]) + [j]], keys[1..], j)
  }

  /** `_map` after `_parse` has pushed all of `nodes`. */
  function BuildIndex(nodes: seq<Descriptor>): map<string, seq<nat>>
    decreases |nodes|
  {
    if |nodes| == 0 then map[]
    else
      var last := |nodes| - 1;
      Register(BuildIndex(nodes[..last]), KeysOf(nodes[last].parts), last)
  }

  /** `j` repeated `c` times. */
  function Repeat(j: nat, c: nat): (r: seq<nat>)
    ensures |r| == c
    ensures forall i :: 0 <= i < c ==> r[i] == j
  {
    seq(c, _ => j)
  }

  lemma {:induction false} RepeatMultiset(j: nat, c: nat)
    ensures multiset(Repeat(j, c)) == multiset{}[j := c]
    decreases c
  {
    if c > 0 {
      RepeatMultiset(j, c - 1);
      assert Repeat(j, c) == Repeat(j, c - 1) + [j];
    }
  }

  /** Registering entry `j` adds its keys to `_map`. */
  lemma {:induction false} RegisterKeys(index: map<string, seq<nat>>, keys: seq<string>, j: nat, k: string)
    ensures k in Register(index, keys, j) <==> k in index || k in keys
    decreases |keys|
  {
    if |keys| > 0 {
      var index' := index[keys[0] := Entries(index, keys[0]) + [j]];
      RegisterKeys(index', keys[1..], j, k);
      assert k in keys <==> k == keys[0] || k in keys[1..];
    }
  }

  /** Registering entry `j` appends `j` to a key's list once per occurrence of the key. */
  lemma {:induction false} RegisterEntries(index: map<string, seq<nat>>, keys: seq<string>, j: nat, k: string)
    ensures Entries(Register(index, keys, j), k) == Entries(index, k) + Repeat(j, multiset(keys)[k])
    decreases |keys|
  {
    if |keys| > 0 {
      var index' := index[keys[0] := Entries(index, keys[0]) + [j]];
      RegisterEntries(index', keys[1..], j, k);
      var c := multiset(keys[1..])[k];
      assert multiset(keys)[k] == (if keys[0] == k then 1 else 0) + c by {
        assert keys == [keys[0]] + keys[1..];
      }
      if keys[0] == k {
        assert Repeat(j, c + 1) == [j] + Repeat(j, c);
        assert Entries(index, k) + [j] + Repeat(j, c) == Entries(index, k) + ([j] + Repeat(j, c));
      } else {
        assert Entries(index', k) == Entries(index, k);
      }
    }
  }

  /** The keys named by the entries. */
  ghost function KeySet(nodes: seq<Descriptor>): set<string> {
    set j, k | 0 <= j < |nodes| && k in KeysOf(nodes[j].parts) :: k
  }

  /** Building the index over one more entry appends that entry once per occurrence of
      the key in it. */
  lemma IndexStep(nodes: seq<Descriptor>, k: string)
    requires |nodes| > 0
    ensures var last := |nodes| - 1;
      Entries(BuildIndex(nodes), k)
        == Entries(BuildIndex(nodes[..last]), k) + Repeat(last, multiset(KeysOf(nodes[last].parts))[k])
  {
    var last := |nodes| - 1;
    RegisterEntries(BuildIndex(nodes[..last]), KeysOf(nodes[last].parts), last, k);
  }

  /** Appending `c` copies of `j` adds `c` to the count of `j` and nothing else. */
  lemma CountAppend(before: seq<nat>, j: nat, c: nat, i: nat)
    ensures multiset(before + Repeat(j, c))[i] == multiset(before)[i] + (if i == j then c else 0)
  {
    RepeatMultiset(j, c);
    assert multiset(before + Repeat(j, c)) == multiset(before) + multiset(Repeat(j, c));
  }

  /** `_map[k]` holds each entry once per occurrence of `k` in it, and nothing else. */
  lemma {:induction false} IndexCounts(nodes: seq<Descriptor>, k: string, j: nat)
    ensures multiset(Entries(BuildIndex(nodes), k))[j] == if j < |nodes| then multiset(KeysOf(nodes[j].parts))[k] else 0
    decreases |nodes|
  {
    if |nodes| > 0 {
      var last := |nodes| - 1;
      var init := nodes[..last];
      IndexCounts(init, k, j);
      IndexStep(nodes, k);
      CountAppend(Entries(BuildIndex(init), k), last, multiset(KeysOf(nodes[last].parts))[k], j);
      if j < last {
        assert init[j] == nodes[j];
      }
    }
  }

  /** `_map[k]` lists exactly the entries that mention `k`. */
  lemma IndexEntries(nodes: seq<Descriptor>, k: string)
    ensures forall j: nat :: j in Entries(BuildIndex(nodes), k) <==> j < |nodes| && k in KeysOf(nodes[j].parts)
  {
    forall j: nat
      ensures j in Entries(BuildIndex(nodes), k) <==> j < |nodes| && k in KeysOf(nodes[j].parts)
    {
      IndexCounts(nodes, k, j);
      assert j in Entries(BuildIndex(nodes), k) <==> j in multiset(Entries(BuildIndex(nodes), k));
      if j < |nodes| {
        assert k in KeysOf(nodes[j].parts) <==> k in multiset(KeysOf(nodes[j].parts));
      }
    }
  }

  /** A key is in `_map` exactly when some entry names it. */
  lemma {:induction false} IndexMembership(nodes: seq<Descriptor>, k: string)
    ensures k in BuildIndex(nodes) <==> k in KeySet(nodes)
    decreases |nodes|
  {
    if |nodes| > 0 {
      var last := |nodes| - 1;
      var init := nodes[..last];
      var keys := KeysOf(nodes[last].parts);
      IndexMembership(init, k);
      RegisterKeys(BuildIndex(init), keys, last, k);
      if k in KeySet(nodes) {
        var j :| 0 <= j < |nodes| && k in KeysOf(nodes[j].parts);
        if j < last {
          assert init[j] == nodes[j];
          assert k in KeySet(init);
        }
      }
      if k in KeySet(init) {
        var j :| 0 <= j < |init| && k in KeysOf(init[j].parts);
        assert init[j] == nodes[j];
        assert k in KeySet(nodes);
      }
      if k in keys {
        assert k in KeySet(nodes);
      }
    }
  }

  /** The keys of `_map` are the keys the entries name. */
  lemma IndexKeys(nodes: seq<Descriptor>)
    ensures BuildIndex(nodes).Keys == KeySet(nodes)
  {
    forall k
      ensures k in BuildIndex(nodes) <==> k in KeySet(nodes)
    {
      IndexMembership(nodes, k);
    }
  }

  // ----- the initial data object -----

  /** `_set(_data, key, "{key}")` for each key occurrence, in order. */
  function SeedKeys(m: map<string, Data>, keys: seq<string>): Result<map<string, Data>>
    decreases |keys|
  {
    if |keys| == 0 then Ok(m)
    else
      var m' :- Put(m, keys[0], Leaf(Brace(keys[0])));
      SeedKeys(m', keys[1..])
  }

  /** The seeding `_parse` does, entry by entry. */
  function Seed(m: map<string, Data>, nodes: seq<Descriptor>): Result<map<string, Data>>
    decreases |nodes|
  {
    if |nodes| == 0 then Ok(m)
    else
      var m' :- SeedKeys(m, KeysOf(nodes[0].parts));
      Seed(m', nodes[1..])
  }

  /** With prefix-free keys, seeding succeeds and binds each seeded key to its own
      placeholder text, leaving the other keys alone. */
  lemma {:induction false} SeedKeysEffect(m: map<string, Data>, keys: set<string>, ks: seq<string>)
    requires PrefixFree(keys) && Open(m, keys)
    requires forall i | 0 <= i < |ks| :: ks[i] in keys
    ensures SeedKeys(m, ks).Ok?
    ensures var m' := SeedKeys(m, ks).value;
      && (forall k | k in ks :: Value(m', k) == Some(Leaf(Brace(k))))
      && (forall k | k in keys && k !in ks :: Value(m', k) == Value(m, k))
      && Open(m', keys)
      && (Tidy(m, keys) ==> Tidy(m', keys))
    decreases |ks|
  {
    if |ks| > 0 {
      PutKey(m, keys, ks[0], Brace(ks[0]));
      var m1 := Put(m, ks[0], Leaf(Brace(ks[0]))).value;
      SeedKeysEffect(m1, keys, ks[1..]);
      assert SeedKeys(m, ks) == SeedKeys(m1, ks[1..]);
      var m' := SeedKeys(m1, ks[1..]).value;
      forall k | k in ks
        ensures Value(m', k) == Some(Leaf(Brace(k)))
      {
        if k !in ks[1..] {
          assert ks == [ks[0]] + ks[1..];
        }
      }
      forall k | k in keys && k !in ks
        ensures Value(m', k) == Value(m, k)
      {
        assert k != ks[0] && k !in ks[1..];
      }
    }
  }

  lemma KeySetFront(nodes: seq<Descriptor>, k: string)
    requires |nodes| > 0
    ensures k in KeySet(nodes) <==> k in KeysOf(nodes[0].parts) || k in KeySet(nodes[1..])
  {
    if k in KeySet(nodes) {
      var j :| 0 <= j < |nodes| && k in KeysOf(nodes[j].parts);
      if j > 0 {
        assert nodes[1..][j - 1] == nodes[j];
      }
    }
    if k in KeySet(nodes[1..]) {
      var j :| 0 <= j < |nodes[1..]| && k in KeysOf(nodes[1..][j].parts);
      assert nodes[1..][j] == nodes[j + 1];
    }
    if k in KeysOf(nodes[0].parts) {
      assert k in KeySet(nodes);
    }
  }

  lemma {:induction false} SeedEffect(m: map<string, Data>, keys: set<string>, nodes: seq<Descriptor>)
    requires PrefixFree(keys) && Open(m, keys) && KeySet(nodes) <= keys
    ensures Seed(m, nodes).Ok?
    ensures var m' := Seed(m, nodes).value;
      && (forall k | k in KeySet(nodes) :: Value(m', k) == Some(Leaf(Brace(k))))
      && (forall k | k in keys && k !in KeySet(nodes) :: Value(m', k) == Value(m, k))
      && Open(m', keys)
      && (Tidy(m, keys) ==> Tidy(m', keys))
    decreases |nodes|
  {
    if |nodes| > 0 {
      var ks := KeysOf(nodes[0].parts);
      forall k | k in KeySet(nodes[1..]) || k in ks
        ensures k in KeySet(nodes)
      {
        KeySetFront(nodes, k);
      }
      forall i | 0 <= i < |ks|
        ensures ks[i] in keys
      {
        KeySetFront(nodes, ks[i]);
      }
      SeedKeysEffect(m, keys, ks);
      var m1 := SeedKeys(m, ks).value;
      SeedEffect(m1, keys, nodes[1..]);
      forall k | k in keys
        ensures k in KeySet(nodes) <==> k in ks || k in KeySet(nodes[1..])
      {
        KeySetFront(nodes, k);
      }
    }
  }

  /** Seeding only adds single segments to the object's own keys. */
  lemma {:induction false} SeedKeysPlain(m: map<string, Data>, ks: seq<string>)
    requires Plain(m) && SeedKeys(m, ks).Ok?
    ensures Plain(SeedKeys(m, ks).value)
    decreases |ks|
  {
    if |ks| > 0 {
      PutPlain(m, ks[0], Leaf(Brace(ks[0])));
      SeedKeysPlain(Put(m, ks[0], Leaf(Brace(ks[0]))).value, ks[1..]);
    }
  }

  lemma {:induction false} SeedPlain(m: map<string, Data>, nodes: seq<Descriptor>)
    requires Plain(m) && Seed(m, nodes).Ok?
    ensures Plain(Seed(m, nodes).value)
    decreases |nodes|
  {
    if |nodes| > 0 {
      SeedKeysPlain(m, KeysOf(nodes[0].parts));
      SeedPlain(SeedKeys(m, KeysOf(nodes[0].parts)).value, nodes[1..]);
    }
  }

  // ----- rendering -----

  /** How string concatenation shows a value: `undefined`, the string itself, or the
      default object tag. */
  function Shown(v: Option<Data>): string {
    match v
    case None => "undefined"
    case Some(Leaf(s)) => s
    case Some(Obj(_)) => "[object Object]"
  }

  /** What a key stands for in the data object. */
  function Reader(data: map<string, Data>): string -> string {
    k => Shown(Value(data, k))
  }

  /** The text of `parts` from a literal (`odd` false) or a key (`odd` true) on: literals
      kept, each key replaced by how its value shows. */
  function Shows(parts: seq<string>, data: map<string, Data>, odd: bool): string
    decreases |parts|
  {
    if |parts| == 0 then ""
    else (if odd then Shown(Value(data, parts[0])) else parts[0]) + Shows(parts[1..], data, !odd)
  }

  /** The text an entry is re-rendered to. */
  function Render(parts: seq<string>, data: map<string, Data>): string {
    Shows(parts, data, false)
  }

  /** Rendering is `Fill` with each key read from the data: the same scheme that rebuilds
      the text from its split. */
  lemma {:induction false} ShowsFill(parts: seq<string>, data: map<string, Data>, odd: bool)
    ensures Shows(parts, data, odd) == Fill(parts, Reader(data), odd)
    decreases |parts|
  {
    if |parts| > 0 {
      ShowsFill(parts[1..], data, !odd);
    }
  }

  /** A rendering depends only on the values of the keys it names. */
  lemma RenderFrame(parts: seq<string>, d1: map<string, Data>, d2: map<string, Data>)
    requires forall k | k in KeysOf(parts) :: Value(d1, k) == Value(d2, k)
    ensures Render(parts, d1) == Render(parts, d2)
  {
    forall i | 0 <= i < |parts| && (i % 2 == 0) == false
      ensures Reader(d1)(parts[i]) == Reader(d2)(parts[i])
    {
      KeysOfMembership(parts, parts[i]);
    }
    FillCongruence(parts, Reader(d1), Reader(d2), false);
    ShowsFill(parts, d1, false);
    ShowsFill(parts, d2, false);
  }

  /** With every key bound to its own placeholder, a split text renders to itself. */
  lemma RenderSeeded(t: string, data: map<string, Data>)
    requires forall k | k in KeysOf(Split(t)) :: Value(data, k) == Some(Leaf(Brace(k)))
    ensures Render(Split(t), data) == t
  {
    var parts := Split(t);
    forall i | 0 <= i < |parts| && (i % 2 == 0) == false
      ensures Reader(data)(parts[i]) == Brace(parts[i])
    {
      KeysOfMembership(parts, parts[i]);
    }
    FillCongruence(parts, Reader(data), Brace, false);
    ShowsFill(parts, data, false);
    JoinSplit(t);
  }

  /** The re-render loop as written: keys read left to right with `_get`, each read seeing
      the empty objects earlier reads created. Gives the text and the data object after. */
  function RenderReads(parts: seq<string>, data: map<string, Data>, odd: bool): Result<(string, map<string, Data>)>
    decreases |parts|
  {
    if |parts| == 0 then Ok(("", data))
    else
      var head :- ReadPart(parts[0], data, odd);
      var rest :- RenderReads(parts[1..], head.1, !odd);
      Ok((head.0 + rest.0, rest.1))
  }

  /** One part of the loop: a literal is copied; a key is read with `_get`, which may add
      empty objects to the data on its way. */
  function ReadPart(part: string, data: map<string, Data>, odd: bool): Result<(string, map<string, Data>)> {
    if odd then
      var got :- Get(data, part);
      Ok((Shown(got.1), got.0))
    else Ok((part, data))
  }

  /** Reading the keys of a prefix-free set through `_get` succeeds, produces the text
      `Render` describes, and leaves every key's value (and openness) as it was: the
      objects `_get` creates are invisible to the template. */
  lemma RenderReadsAgrees(parts: seq<string>, data: map<string, Data>, keys: set<string>, odd: bool)
    requires PrefixFree(keys) && Open(data, keys)
    requires forall i | 0 <= i < |parts| && (i % 2 == 0) == odd :: parts[i] in keys
    ensures RenderReads(parts, data, odd).Ok?
    ensures var r := RenderReads(parts, data, odd).value;
      && r.0 == Shows(parts, data, odd)
      && (forall k | k in keys :: Value(r.1, k) == Value(data, k))
      && Open(r.1, keys)
  {
    KeysInPositions(parts, keys, odd);
    RenderReadsKeep(parts, data, keys, odd);
    RenderReadsText(parts, data, keys, odd);
  }

  /** Every key position of `parts` (odd positions when `odd` is false, even ones when it
      is true) holds a member of `keys`; stated part by part. */
  predicate KeysIn(parts: seq<string>, keys: set<string>, odd: bool)
    decreases |parts|
  {
    |parts| == 0 || ((odd ==> parts[0] in keys) && KeysIn(parts[1..], keys, !odd))
  }

  /** The part-by-part statement follows from the positional one. */
  lemma {:induction false} KeysInPositions(parts: seq<string>, keys: set<string>, odd: bool)
    requires forall i | 0 <= i < |parts| && (i % 2 == 0) == odd :: parts[i] in keys
    ensures KeysIn(parts, keys, odd)
    decreases |parts|
  {
    if |parts| > 0 {
      forall i | 0 <= i < |parts| - 1 && (i % 2 == 0) == !odd
        ensures parts[1..][i] in keys
      {
        assert parts[1..][i] == parts[i + 1];
      }
      KeysInPositions(parts[1..], keys, !odd);
    }
  }

  /** The text half of `RenderReadsAgrees`: the reads produce the pure rendering. */
  lemma {:induction false} RenderReadsText(parts: seq<string>, data: map<string, Data>, keys: set<string>, odd: bool)
    requires PrefixFree(keys) && Open(data, keys) && KeysIn(parts, keys, odd)
    ensures RenderReads(parts, data, odd).Ok?
    ensures RenderReads(parts, data, odd).value.0 == Shows(parts, data, odd)
    decreases |parts|
  {
    if |parts| > 0 {
      ReadPartKeep(parts[0], data, keys, odd);
      var head := ReadPart(parts[0], data, odd).value;
      RenderReadsText(parts[1..], head.1, keys, !odd);
      RenderReadsStep(parts, data, odd);
      ShowsKeys(parts[1..], head.1, data, keys, !odd);
    }
  }

  /** One turn of the loop: the part's text followed by the rest's, read from the data
      the part's read left. */
  lemma RenderReadsStep(parts: seq<string>, data: map<string, Data>, odd: bool)
    requires |parts| > 0 && ReadPart(parts[0], data, odd).Ok?
    requires RenderReads(parts[1..], ReadPart(parts[0], data, odd).value.1, !odd).Ok?
    ensures var head := ReadPart(parts[0], data, odd).value;
      var rest := RenderReads(parts[1..], head.1, !odd).value;
      RenderReads(parts, data, odd) == Ok((head.0 + rest.0, rest.1))
  {
  }

  /** The state half of `RenderReadsAgrees`: the reads succeed and change no key. */
  lemma {:induction false} RenderReadsKeep(parts: seq<string>, data: map<string, Data>, keys: set<string>, odd: bool)
    requires PrefixFree(keys) && Open(data, keys) && KeysIn(parts, keys, odd)
    ensures RenderReads(parts, data, odd).Ok?
    ensures var m := RenderReads(parts, data, odd).value.1;
      && (forall k | k in keys :: Value(m, k) == Value(data, k))
      && Open(m, keys)
    decreases |parts|
  {
    if |parts| > 0 {
      ReadPartKeep(parts[0], data, keys, odd);
      RenderReadsKeep(parts[1..], ReadPart(parts[0], data, odd).value.1, keys, !odd);
    }
  }

  /** One part read against a prefix-free set that holds it when it is a key: the read
      succeeds, gives the part or the key's shown value, and changes no key. */
  lemma ReadPartKeep(part: string, data: map<string, Data>, keys: set<string>, odd: bool)
    requires PrefixFree(keys) && Open(data, keys) && (odd ==> part in keys)
    ensures ReadPart(part, data, odd).Ok?
    ensures var r := ReadPart(part, data, odd).value;
      && r.0 == (if odd then Shown(Value(data, part)) else part)
      && (forall k | k in keys :: Value(r.1, k) == Value(data, k))
      && Open(r.1, keys)
  {
    if odd {
      GetKey(data, keys, part);
    }
  }

  /** Two data objects that agree at the keys show the same text. */
  lemma {:induction false} ShowsKeys(parts: seq<string>, d1: map<string, Data>, d2: map<string, Data>, keys: set<string>, odd: bool)
    requires KeysIn(parts, keys, odd)
    requires forall k | k in keys :: Value(d1, k) == Value(d2, k)
    ensures Shows(parts, d1, odd) == Shows(parts, d2, odd)
    decreases |parts|
  {
    if |parts| > 0 {
      ShowsKeys(parts[1..], d1, d2, keys, !odd);
    }
  }

  /** One `_get` of a key of a prefix-free set: it succeeds, returns the key's value, and
      leaves every key's value and openness as they were. */
  lemma GetKey(data: map<string, Data>, keys: set<string>, p: string)
    requires PrefixFree(keys) && Open(data, keys) && p in keys
    ensures Get(data, p).Ok?
    ensures var m1 := Get(data, p).value.0;
      && Get(data, p).value.1 == Value(data, p)
      && (forall k | k in keys :: Value(m1, k) == Value(data, k))
      && Open(m1, keys)
  {
    var segs := Segments(p);
    NotBlockedPrefix(data, segs, |segs| - 1);
    GetPathEffect(data, segs, segs);
    var m1 := Get(data, p).value.0;
    forall k | k in keys
      ensures Value(m1, k) == Value(data, k)
    {
      GetPathEffect(data, segs, Segments(k));
    }
    forall k | k in keys
      ensures !Blocked(m1, Segments(k))
    {
      var sk := Segments(k);
      forall i | 0 < i < |sk|
        ensures !IsLeafAt(m1, sk[..i])
      {
        GetPathAddsObjects(data, segs, sk[..i]);
      }
    }
  }

  // ----- parsing and the invariants of an instance -----

  /** The constructor's `_parse` on the template element `root`, starting from an empty
      data object and an empty `_map`. */
  function Parse(root: Node): Result<Instance> {
    var nodes := Descriptors(root, []);
    var data :- Seed(map[], nodes);
    Ok(Instance(root, data, BuildIndex(nodes), nodes))
  }

  /** The shape every operation keeps: `_map` indexes `_nodes`, the keys are prefix-free
      and can all be written, strings sit only at keys, no key holds an object, the data
      object's own keys are single segments, and each entry's path leads to a distinct
      text node of the tree and names at least one key. */
  ghost predicate Valid(i: Instance) {
    && i.index == BuildIndex(i.nodes)
    && PrefixFree(i.index.Keys)
    && Open(i.data, i.index.Keys)
    && Tidy(i.data, i.index.Keys)
    && Scalar(i.data, i.index.Keys)
    && Plain(i.data)
    && DistinctPaths(i.nodes)
    && (forall j | 0 <= j < |i.nodes| ::
          |i.nodes[j].xpath| >= 1 && IsTextAt(i.tree, i.nodes[j].xpath) && |i.nodes[j].parts| >= 2)
  }

  /** Every recorded node shows its parts rendered against the current data. */
  predicate Synced(i: Instance) {
    forall j | 0 <= j < |i.nodes| :: Walk(i.tree, i.nodes[j].xpath) == Some(Text(Render(i.nodes[j].parts, i.data)))
  }

  /** Every key holds a string. */
  predicate Complete(i: Instance) {
    forall k | k in i.index :: Value(i.data, k).Some? && Value(i.data, k).value.Leaf?
  }

  /** Entry `d` names a key that holds a string. */
  ghost predicate NamesString(d: Descriptor, data: map<string, Data>) {
    exists k :: k in KeysOf(d.parts) && Value(data, k).Some? && Value(data, k).value.Leaf?
  }

  /** Every entry that names a key holding a string shows its parts rendered against the
      data. `_parse` makes every entry show its rendering; a clone's entries whose keys the
      merge never wrote keep the parent's text while their keys hold nothing. */
  ghost predicate Current(i: Instance) {
    forall j | 0 <= j < |i.nodes| && NamesString(i.nodes[j], i.data) ::
      Walk(i.tree, i.nodes[j].xpath) == Some(Text(Render(i.nodes[j].parts, i.data)))
  }

  /** The empty data object is open and tidy for any keys. */
  lemma EmptyOpen(keys: set<string>)
    ensures Open(map[], keys) && Tidy(map[], keys)
  {
    forall segs: seq<string> | |segs| >= 1
      ensures !IsLeafAt(map[], segs)
    {
      LookupMissing(map[], segs);
    }
  }

  /** With prefix-free keys, parsing succeeds; the result is valid and shows the element
      unchanged, every key being bound to its own placeholder (so every key holds a
      string, and every node shows its text rendered against the data). */
  lemma ParseSpec(root: Node)
    requires PrefixFree(KeySet(Descriptors(root, [])))
    ensures Parse(root).Ok?
    ensures var i := Parse(root).value;
      && i.tree == root
      && Valid(i) && Synced(i)
      && (forall k | k in i.index :: Value(i.data, k) == Some(Leaf(Brace(k))))
  {
    ParseValid(root);
    ParseSynced(root);
  }

  /** The validity half of `ParseSpec`. */
  lemma ParseValid(root: Node)
    requires PrefixFree(KeySet(Descriptors(root, [])))
    ensures Parse(root).Ok? && Parse(root).value.tree == root && Valid(Parse(root).value)
  {
    var nodes := Descriptors(root, []);
    DescriptorsDistinct(root, []);
    ParseShape(root);
    SeededValid(root, nodes);
    assert Parse(root) == Ok(Instance(root, Seed(map[], nodes).value, BuildIndex(nodes), nodes));
  }

  /** Seeding the keys of entries that lead to distinct text nodes, when those keys are
      prefix-free, gives a valid instance. */
  lemma SeededValid(root: Node, nodes: seq<Descriptor>)
    requires PrefixFree(KeySet(nodes)) && DistinctPaths(nodes)
    requires forall j | 0 <= j < |nodes| ::
      |nodes[j].xpath| >= 1 && IsTextAt(root, nodes[j].xpath) && |nodes[j].parts| >= 2
    ensures Seed(map[], nodes).Ok?
    ensures Valid(Instance(root, Seed(map[], nodes).value, BuildIndex(nodes), nodes))
  {
    var keys := KeySet(nodes);
    EmptyOpen(keys);
    SeedEffect(map[], keys, nodes);
    SeedPlain(map[], nodes);
    IndexKeys(nodes);
  }

  /** Every recorded entry has a non-empty path to a text node and at least one key. */
  lemma ParseShape(root: Node)
    ensures forall j | 0 <= j < |Descriptors(root, [])| ::
      |Descriptors(root, [])[j].xpath| >= 1 && IsTextAt(root, Descriptors(root, [])[j].xpath)
      && |Descriptors(root, [])[j].parts| >= 2
  {
    var nodes := Descriptors(root, []);
    forall j | 0 <= j < |nodes|
      ensures |nodes[j].xpath| >= 1 && IsTextAt(root, nodes[j].xpath) && |nodes[j].parts| >= 2
    {
      DescriptorsSound(root, [], nodes[j]);
      assert nodes[j].xpath[0..] == nodes[j].xpath;
    }
  }

  /** A parsed template is current: every entry shows its rendering. */
  lemma ParseCurrent(root: Node)
    requires PrefixFree(KeySet(Descriptors(root, [])))
    ensures Parse(root).Ok? && Current(Parse(root).value)
  {
    ParseSynced(root);
  }

  /** The data half of `ParseSpec`. */
  lemma ParseSynced(root: Node)
    requires PrefixFree(KeySet(Descriptors(root, [])))
    ensures Parse(root).Ok?
    ensures var i := Parse(root).value;
      && Synced(i)
      && (forall k | k in i.index :: Value(i.data, k) == Some(Leaf(Brace(k))))
  {
    var nodes := Descriptors(root, []);
    ParseData(root);
    var data := Seed(map[], nodes).value;
    var i := Instance(root, data, BuildIndex(nodes), nodes);
    assert Parse(root) == Ok(i);
    forall j | 0 <= j < |i.nodes|
      ensures Walk(i.tree, i.nodes[j].xpath) == Some(Text(Render(i.nodes[j].parts, i.data)))
    {
      ParseEntry(root, data, j);
    }
    forall k | k in i.index
      ensures Value(i.data, k) == Some(Leaf(Brace(k)))
    {
      IndexMembership(nodes, k);
    }
  }

  /** Seeding the empty object with the recorded entries succeeds, puts each key's own
      placeholder at it, and leaves the object open and tidy. */
  lemma ParseData(root: Node)
    requires PrefixFree(KeySet(Descriptors(root, [])))
    ensures Seed(map[], Descriptors(root, [])).Ok?
    ensures var data := Seed(map[], Descriptors(root, [])).value;
      var keys := KeySet(Descriptors(root, []));
      && Open(data, keys) && Tidy(data, keys)
      && (forall k | k in keys :: Value(data, k) == Some(Leaf(Brace(k))))
  {
    var keys := KeySet(Descriptors(root, []));
    EmptyOpen(keys);
    SeedEffect(map[], keys, Descriptors(root, []));
  }

  /** Each recorded entry, rendered against the seeded data, shows its node's own text. */
  lemma ParseEntry(root: Node, data: map<string, Data>, j: nat)
    requires j < |Descriptors(root, [])|
    requires forall k | k in KeySet(Descriptors(root, [])) :: Value(data, k) == Some(Leaf(Brace(k)))
    ensures var d := Descriptors(root, [])[j];
      && |d.xpath| >= 1 && IsTextAt(root, d.xpath) && |d.parts| >= 2
      && Walk(root, d.xpath) == Some(Text(Render(d.parts, data)))
  {
    var nodes := Descriptors(root, []);
    var d := nodes[j];
    DescriptorsSound(root, [], d);
    assert d.xpath[0..] == d.xpath;
    var t := Walk(root, d.xpath).value.content;
    forall k | k in KeysOf(Split(t))
      ensures Value(data, k) == Some(Leaf(Brace(k)))
    {
      assert k in KeySet(nodes);
    }
    RenderSeeded(t, data);
  }

  /** A text node below the root is recorded exactly when a placeholder occurs in it. */
  lemma ParseFinds(root: Node, q: seq<nat>)
    requires |q| >= 1 && IsTextAt(root, q)
    ensures (exists j :: 0 <= j < |Descriptors(root, [])| && Descriptors(root, [])[j].xpath == q)
        <==> HasPlaceholder(Walk(root, q).value.content)
  {
    var nodes := Descriptors(root, []);
    var t := Walk(root, q).value.content;
    if HasPlaceholder(t) {
      FoundIfPlaceholder(root, q);
    }
    if j :| 0 <= j < |nodes| && nodes[j].xpath == q {
      PlaceholderIfFound(root, q, j);
    }
  }

  /** A text node below the root with a placeholder in it is recorded. */
  lemma FoundIfPlaceholder(root: Node, q: seq<nat>)
    requires |q| >= 1 && IsTextAt(root, q) && HasPlaceholder(Walk(root, q).value.content)
    ensures exists j :: 0 <= j < |Descriptors(root, [])| && Descriptors(root, [])[j].xpath == q
  {
    var nodes := Descriptors(root, []);
    var t := Walk(root, q).value.content;
    RecordedIffPlaceholder(t);
    DescriptorsComplete(root, [], q);
    assert [] + q == q;
    var j :| 0 <= j < |nodes| && nodes[j] == Descriptor(Split(t), q);
  }

  /** A recorded text node has a placeholder in it. */
  lemma PlaceholderIfFound(root: Node, q: seq<nat>, j: nat)
    requires IsTextAt(root, q) && j < |Descriptors(root, [])| && Descriptors(root, [])[j].xpath == q
    ensures HasPlaceholder(Walk(root, q).value.content)
  {
    var nodes := Descriptors(root, []);
    RecordedIffPlaceholder(Walk(root, q).value.content);
    DescriptorsSound(root, [], nodes[j]);
    assert nodes[j].xpath[0..] == q;
  }
}
