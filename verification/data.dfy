/**
 * The engine's data object and update argument: nested records whose leaves are strings.
 * `_delve` walks the segments of a dotted path, creating missing intermediate objects;
 * `_get` and `_set` read and write the last segment there.
 */
module Data {
  import opened Results
  import opened Paths

  datatype Data = Leaf(text: string) | Obj(fields: map<string, Data>)

  /** The value at the end of `segs`, without creating anything; `None` is JavaScript's
      `undefined`. The empty path denotes the object itself. */
  function Lookup(m: map<string, Data>, segs: seq<string>): Option<Data>
    decreases |segs|
  {
    if |segs| == 0 then Some(Obj(m))
    else if segs[0] !in m then None
    else
      match m[segs[0]]
      case Obj(f) => Lookup(f, segs[1..])
      case Leaf(s) => if |segs| == 1 then Some(Leaf(s)) else None
  }

  /** The value a dotted key path denotes. */
  function Value(m: map<string, Data>, path: string): Option<Data> {
    Lookup(m, Segments(path))
  }

  predicate IsLeafAt(m: map<string, Data>, segs: seq<string>) {
    Lookup(m, segs).Some? && Lookup(m, segs).value.Leaf?
  }

  /** Some proper prefix of `segs` ends on a string: walking on would write to a string. */
  ghost predicate Blocked(m: map<string, Data>, segs: seq<string>) {
    exists i :: 0 < i < |segs| && IsLeafAt(m, segs[..i])
  }

  /** `q` is neither a prefix nor an extension of `segs` (and differs from it). */
  predicate Unrelated(q: seq<string>, segs: seq<string>) {
    q != segs && !ProperPrefix(q, segs) && !ProperPrefix(segs, q)
  }

  /** `_delve` then `obj[key] = value`: missing intermediates become `{}`; meeting a string
      before the last segment is a TypeError (strict mode forbids writing to a primitive). */
  function SetPath(m: map<string, Data>, segs: seq<string>, v: Data): Result<map<string, Data>>
    requires |segs| >= 1
    decreases |segs|
  {
    if |segs| == 1 then Ok(m[segs[0] := v])
    else
      var child := if segs[0] in m then m[segs[0]] else Obj(map[]);
      match child
      case Leaf(_) => Err(PathConflict)
      case Obj(f) =>
        var f' :- SetPath(f, segs[1..], v);
        Ok(m[segs[0] := Obj(f')])
  }

  /** `_delve` then `obj[key]`: returns the possibly extended object and the value read.
      Missing intermediates are created even here. A string met as the last intermediate
      is read from (giving `undefined`); one met earlier makes the creation step throw. */
  function GetPath(m: map<string, Data>, segs: seq<string>): Result<(map<string, Data>, Option<Data>)>
    requires |segs| >= 1
    decreases |segs|
  {
    if |segs| == 1 then Ok((m, if segs[0] in m then Some(m[segs[0]]) else None))
    else
      var child := if segs[0] in m then m[segs[0]] else Obj(map[]);
      match child
      case Leaf(_) => if |segs| == 2 then Ok((m, None)) else Err(PathConflict)
      case Obj(f) =>
        var got :- GetPath(f, segs[1..]);
        Ok((m[segs[0] := Obj(got.0)], got.1))
  }

  /** `_set(obj, path, value)`. */
  function Put(m: map<string, Data>, path: string, v: Data): Result<map<string, Data>> {
    SetPath(m, Segments(path), v)
  }

  /** `_get(obj, path)`. */
  function Get(m: map<string, Data>, path: string): Result<(map<string, Data>, Option<Data>)> {
    GetPath(m, Segments(path))
  }

  /** One step of a lookup into a nested object. */
  lemma LookupStep(m: map<string, Data>, segs: seq<string>)
    requires |segs| >= 1 && segs[0] in m && m[segs[0]].Obj?
    ensures Lookup(m, segs) == Lookup(m[segs[0]].fields, segs[1..])
  {
  }

  /** Lookups below a missing key find nothing. */
  lemma LookupMissing(m: map<string, Data>, segs: seq<string>)
    requires |segs| >= 1 && segs[0] !in m
    ensures Lookup(m, segs) == None
  {
  }

  /** Prefix-relatedness is decided segment by segment. */
  lemma UnrelatedTail(q: seq<string>, segs: seq<string>)
    requires |q| >= 1 && |segs| >= 1 && q[0] == segs[0] && Unrelated(q, segs)
    ensures Unrelated(q[1..], segs[1..])
  {
  }

  /** A path is blocked one level down exactly when it is blocked here (the first
      segment naming an object). */
  lemma BlockedStep(m: map<string, Data>, segs: seq<string>)
    requires |segs| >= 2 && segs[0] in m && m[segs[0]].Obj?
    ensures Blocked(m, segs) <==> Blocked(m[segs[0]].fields, segs[1..])
  {
    var f := m[segs[0]].fields;
    forall i | 1 < i < |segs|
      ensures IsLeafAt(m, segs[..i]) <==> IsLeafAt(f, segs[1..][..i - 1])
    {
      assert segs[..i][1..] == segs[1..][..i - 1];
      LookupStep(m, segs[..i]);
    }
    assert Lookup(m, segs[..1]) == Some(Obj(f));
    if Blocked(m, segs) {
      var i :| 0 < i < |segs| && IsLeafAt(m, segs[..i]);
      assert IsLeafAt(f, segs[1..][..i - 1]);
    }
    if Blocked(f, segs[1..]) {
      var j :| 0 < j < |segs| - 1 && IsLeafAt(f, segs[1..][..j]);
      assert IsLeafAt(m, segs[..j + 1]);
    }
  }

  /** A path below a missing key is never blocked. */
  lemma NotBlockedMissing(m: map<string, Data>, segs: seq<string>)
    requires |segs| >= 1 && segs[0] !in m
    ensures !Blocked(m, segs)
  {
    forall i | 0 < i < |segs|
      ensures !IsLeafAt(m, segs[..i])
    {
      LookupMissing(m, segs[..i]);
    }
  }

  /** `_set` succeeds exactly when no proper prefix of the path holds a string. */
  lemma {:induction false} SetPathSucceeds(m: map<string, Data>, segs: seq<string>, v: Data)
    requires |segs| >= 1
    ensures SetPath(m, segs, v).Ok? <==> !Blocked(m, segs)
    decreases |segs|
  {
    if |segs| > 1 {
      if segs[0] !in m {
        NotBlockedMissing(m, segs);
        NotBlockedMissing(map[], segs[1..]);
        SetPathSucceeds(map[], segs[1..], v);
      } else if m[segs[0]].Leaf? {
        assert segs[..1] == [segs[0]];
        assert IsLeafAt(m, segs[..1]);
      } else {
        BlockedStep(m, segs);
        SetPathSucceeds(m[segs[0]].fields, segs[1..], v);
      }
    }
  }

  /** What `_set` leaves behind: the value at the path, objects on every proper prefix,
      nothing below a string value, and every unrelated path as it was. */
  lemma {:induction false} SetPathEffect(m: map<string, Data>, segs: seq<string>, v: Data, q: seq<string>)
    requires |segs| >= 1 && SetPath(m, segs, v).Ok?
    ensures var m' := SetPath(m, segs, v).value;
      && Lookup(m', segs) == Some(v)
      && (ProperPrefix(q, segs) ==> Lookup(m', q).Some? && Lookup(m', q).value.Obj?)
      && (ProperPrefix(segs, q) && v.Leaf? ==> Lookup(m', q) == None)
      && (Unrelated(q, segs) ==> Lookup(m', q) == Lookup(m, q))
    decreases |segs|
  {
    var m' := SetPath(m, segs, v).value;
    if |segs| == 1 {
      if |q| >= 1 && q[0] == segs[0] && |q| > 1 {
        assert ProperPrefix(segs, q);
      }
    } else {
      var f := if segs[0] in m then m[segs[0]].fields else map[];
      var f' := SetPath(f, segs[1..], v).value;
      assert m' == m[segs[0] := Obj(f')];
      if |q| >= 1 && q[0] == segs[0] {
        SetPathEffect(f, segs[1..], v, q[1..]);
        LookupStep(m', q);
        if ProperPrefix(q, segs) && |q| > 1 {
          assert q[1..] == segs[1..][..|q| - 1];
        }
        if ProperPrefix(segs, q) {
          assert segs[1..] == q[1..][..|segs| - 1];
        }
        if Unrelated(q, segs) {
          UnrelatedTail(q, segs);
          if segs[0] in m {
            LookupStep(m, q);
          } else {
            LookupMissing(f, q[1..]);
            LookupMissing(m, q);
          }
        }
      }
      SetPathEffect(f, segs[1..], v, segs[1..]);
      LookupStep(m', segs);
    }
  }

  /** Writing the value a path already holds changes nothing. */
  lemma {:induction false} SetPathSame(m: map<string, Data>, segs: seq<string>, v: Data)
    requires |segs| >= 1 && Lookup(m, segs) == Some(v)
    ensures SetPath(m, segs, v) == Ok(m)
    decreases |segs|
  {
    if |segs| == 1 {
      assert m[segs[0] := m[segs[0]]] == m;
    } else {
      LookupStep(m, segs);
      SetPathSame(m[segs[0]].fields, segs[1..], v);
      assert m[segs[0] := m[segs[0]]] == m;
    }
  }

  /** `_get` fails exactly when a string sits before the last intermediate; it returns the
      looked-up value; it changes nothing except on the path's proper prefixes, and
      nothing at all when the value exists. */
  lemma {:induction false} GetPathEffect(m: map<string, Data>, segs: seq<string>, q: seq<string>)
    requires |segs| >= 1
    ensures GetPath(m, segs).Ok? <==> !Blocked(m, segs[..|segs| - 1])
    ensures GetPath(m, segs).Ok? ==>
      && GetPath(m, segs).value.1 == Lookup(m, segs)
      && (!ProperPrefix(q, segs) ==> Lookup(GetPath(m, segs).value.0, q) == Lookup(m, q))
      && (Lookup(m, segs).Some? ==> GetPath(m, segs).value.0 == m)
    decreases |segs|
  {
    if |segs| > 1 {
      var init := segs[..|segs| - 1];
      if segs[0] !in m {
        NotBlockedMissing(m, init);
        if |segs| > 2 {
          NotBlockedMissing(map[], init[1..]);
        }
        assert init[1..] == segs[1..][..|segs| - 2];
        GetPathEffect(map[], segs[1..], if |q| >= 1 then q[1..] else q);
        LookupMissing(m, segs);
        var g := GetPath(map[], segs[1..]).value;
        var m' := m[segs[0] := Obj(g.0)];
        if |q| >= 1 && q[0] == segs[0] {
          LookupStep(m', q);
          LookupMissing(m, q);
          if |q| > 1 && ProperPrefix(q[1..], segs[1..]) {
            assert q == [q[0]] + q[1..];
            assert segs[..|q|] == [segs[0]] + segs[1..][..|q| - 1];
          }
          if |q| == 1 {
            assert ProperPrefix(q, segs);
          }
        }
      } else if m[segs[0]].Leaf? {
        assert segs[..1] == init[..1];
        assert IsLeafAt(m, init[..1]);
        if |segs| == 2 {
          assert !Blocked(m, init);
        }
      } else {
        var f := m[segs[0]].fields;
        if |segs| > 2 {
          BlockedStep(m, init);
        } else {
          assert !Blocked(m, init);
          assert !Blocked(f, segs[1..][..0]);
        }
        assert init[1..] == segs[1..][..|segs| - 2];
        GetPathEffect(f, segs[1..], if |q| >= 1 then q[1..] else q);
        LookupStep(m, segs);
        if GetPath(m, segs).Ok? {
          var g := GetPath(f, segs[1..]).value;
          var m' := m[segs[0] := Obj(g.0)];
          if |q| >= 1 && q[0] == segs[0] {
            LookupStep(m', q);
            LookupStep(m, q);
            if |q| > 1 && ProperPrefix(q[1..], segs[1..]) {
              assert q == [q[0]] + q[1..];
              assert segs[..|q|] == [segs[0]] + segs[1..][..|q| - 1];
            }
            if |q| == 1 {
              assert ProperPrefix(q, segs);
            }
          }
        }
      }
    }
  }

  /** `_get` only ever adds objects: wherever the value at a path changes, an object now
      sits there. In particular it never creates, removes or alters a string. */
  lemma {:induction false} GetPathAddsObjects(m: map<string, Data>, segs: seq<string>, q: seq<string>)
    requires |segs| >= 1 && GetPath(m, segs).Ok?
    ensures var m' := GetPath(m, segs).value.0;
      Lookup(m', q) == Lookup(m, q) || (Lookup(m', q).Some? && Lookup(m', q).value.Obj?)
    decreases |segs|
  {
    if |segs| > 1 && |q| >= 1 && q[0] == segs[0] {
      var m' := GetPath(m, segs).value.0;
      if segs[0] !in m {
        GetPathAddsObjects(map[], segs[1..], q[1..]);
        LookupStep(m', q);
        LookupMissing(m, q);
      } else if m[segs[0]].Obj? {
        GetPathAddsObjects(m[segs[0]].fields, segs[1..], q[1..]);
        LookupStep(m', q);
        LookupStep(m, q);
      }
    }
  }

  /** A path that is not blocked has no blocked prefix. */
  lemma NotBlockedPrefix(m: map<string, Data>, segs: seq<string>, n: nat)
    requires n <= |segs| && !Blocked(m, segs)
    ensures !Blocked(m, segs[..n])
  {
    forall i | 0 < i < n
      ensures !IsLeafAt(m, segs[..n][..i])
    {
      assert segs[..n][..i] == segs[..i];
    }
  }

  /** `_get(_set(obj, p, v), p)` is `v`, and the read creates nothing further. */
  lemma GetAfterPut(m: map<string, Data>, p: string, v: Data)
    requires Put(m, p, v).Ok?
    ensures Get(Put(m, p, v).value, p) == Ok((Put(m, p, v).value, Some(v)))
  {
    var segs := Segments(p);
    var m' := Put(m, p, v).value;
    SetPathEffect(m, segs, v, segs);
    GetPathEffect(m', segs, segs);
    var init := segs[..|segs| - 1];
    forall i | 0 < i < |init|
      ensures !IsLeafAt(m', init[..i])
    {
      assert init[..i] == segs[..i];
      SetPathEffect(m, segs, v, segs[..i]);
    }
  }

  /** Setting one path leaves the value at every unrelated path as it was. */
  lemma PutFrame(m: map<string, Data>, p: string, v: Data, q: string)
    requires Put(m, p, v).Ok? && Unrelated(Segments(q), Segments(p))
    ensures Value(Put(m, p, v).value, q) == Value(m, q)
  {
    SetPathEffect(m, Segments(p), v, Segments(q));
  }

  /** Keys that never clash in the data object: no key's segments properly prefix another's
      (as `a` and `a.b` would; see `ProperPrefixIsDottedExtension`). */
  ghost predicate PrefixFree(keys: set<string>) {
    forall a, b | a in keys && b in keys :: !ProperPrefix(Segments(a), Segments(b))
  }

  /** Every key can still be written: no string sits on the way to any of them. */
  ghost predicate Open(m: map<string, Data>, keys: set<string>) {
    forall k | k in keys :: !Blocked(m, Segments(k))
  }

  /** Every string in the object sits at the path of a key. */
  ghost predicate Tidy(m: map<string, Data>, keys: set<string>) {
    forall segs | IsLeafAt(m, segs) :: |segs| >= 1 && DotFree(segs) && JoinDots(segs) in keys
  }

  /** The object's own keys are single segments: `_delve` never creates any other. */
  predicate Plain(m: map<string, Data>) {
    forall k | k in m :: '.' !in k
  }

  /** Every key holds a string or nothing, never an object. */
  ghost predicate Scalar(m: map<string, Data>, keys: set<string>) {
    forall k | k in keys :: Value(m, k).None? || Value(m, k).value.Leaf?
  }

  /** `_set` adds at most the path's first segment to the object's own keys. */
  lemma PutPlain(m: map<string, Data>, p: string, v: Data)
    requires Plain(m) && Put(m, p, v).Ok?
    ensures Plain(Put(m, p, v).value)
  {
    var segs := Segments(p);
    assert '.' !in segs[0];
    assert Put(m, p, v).value.Keys == m.Keys + {segs[0]};
  }

  lemma ProperPrefixTransitive<T>(a: seq<T>, b: seq<T>, c: seq<T>)
    requires ProperPrefix(a, b) && ProperPrefix(b, c)
    ensures ProperPrefix(a, c)
  {
    assert c[..|a|] == c[..|b|][..|a|];
  }

  /** Writing a string at one key of a prefix-free key set: the write succeeds, the key
      holds the string, every other key keeps its value, and the object stays open and tidy. */
  lemma PutKey(m: map<string, Data>, keys: set<string>, p: string, v: string)
    requires PrefixFree(keys) && p in keys && Open(m, keys)
    ensures Put(m, p, Leaf(v)).Ok?
    ensures var m' := Put(m, p, Leaf(v)).value;
      && Value(m', p) == Some(Leaf(v))
      && (forall k | k in keys && k != p :: Value(m', k) == Value(m, k))
      && Open(m', keys)
      && (Tidy(m, keys) ==> Tidy(m', keys))
  {
    var sp := Segments(p);
    SetPathSucceeds(m, sp, Leaf(v));
    var m' := Put(m, p, Leaf(v)).value;
    SetPathEffect(m, sp, Leaf(v), sp);
    forall k | k in keys && k != p
      ensures Value(m', k) == Value(m, k)
    {
      if Segments(k) == sp {
        SegmentsInjective(k, p);
      }
      SetPathEffect(m, sp, Leaf(v), Segments(k));
    }
    forall k | k in keys
      ensures !Blocked(m', Segments(k))
    {
      var sk := Segments(k);
      forall i | 0 < i < |sk|
        ensures !IsLeafAt(m', sk[..i])
      {
        var q := sk[..i];
        assert ProperPrefix(q, sk);
        SetPathEffect(m, sp, Leaf(v), q);
        if ProperPrefix(sp, q) {
          ProperPrefixTransitive(sp, q, sk);
        }
      }
    }
    if Tidy(m, keys) {
      forall segs | IsLeafAt(m', segs)
        ensures |segs| >= 1 && DotFree(segs) && JoinDots(segs) in keys
      {
        SetPathEffect(m, sp, Leaf(v), segs);
        if segs == sp {
          JoinSegments(p);
        }
      }
    }
  }

  /** Putting a string where it already is changes nothing. */
  lemma PutSame(m: map<string, Data>, p: string, v: string)
    requires Value(m, p) == Some(Leaf(v))
    ensures Put(m, p, Leaf(v)) == Ok(m)
  {
    SetPathSame(m, Segments(p), Leaf(v));
  }
}
