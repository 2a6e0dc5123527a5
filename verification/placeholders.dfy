/**
 * The placeholder pattern `/\{([^\\\}]+)\}/g` and what `String.split` makes of it:
 * a leftmost, non-overlapping scan for `{`, one or more characters that are neither
 * `}` nor `\`, then `}`. The captured key is kept verbatim (no trimming, no `=default`
 * handling), so the split alternates literal text (even positions) and keys (odd positions).
 * The module also holds the blank-text test `_parse` applies before it splits a text.
 */
module Placeholders {
  import opened Results

  /** A character of the class `[^\\\}]`. */
  predicate KeyChar(c: char) {
    c != '}' && c != '\\'
  }

  /** A key the pattern can capture: one or more key characters. A `{` is allowed. */
  predicate ValidKey(k: string) {
    |k| > 0 && forall i :: 0 <= i < |k| ==> KeyChar(k[i])
  }

  /** The pattern matches at the very start of `s`, capturing the `n` characters `s[1..n+1]`. */
  ghost predicate MatchesAt(s: string, n: nat) {
    n + 2 <= |s| && s[0] == '{' && s[n + 1] == '}' && ValidKey(s[1..n + 1])
  }

  /** Some match of the pattern starts somewhere in `s`. */
  ghost predicate HasPlaceholder(s: string) {
    exists q: nat, n: nat :: q <= |s| && MatchesAt(s[q..], n)
  }

  /** The placeholder text that stands for `key`; also the value a key is seeded with. */
  function Brace(key: string): string {
    "{" + key + "}"
  }

  /** Length of the longest prefix of `t` made of key characters (the greedy `+`). */
  function KeyRun(t: string): (n: nat)
    ensures n <= |t|
    ensures forall i :: 0 <= i < n ==> KeyChar(t[i])
    ensures n < |t| ==> !KeyChar(t[n])
  {
    if |t| == 0 || !KeyChar(t[0]) then 0 else 1 + KeyRun(t[1..])
  }

  /** At most one key length makes the pattern match at a given position. */
  lemma MatchUnique(s: string, n: nat, m: nat)
    requires MatchesAt(s, n) && MatchesAt(s, m)
    ensures n == m
  {
  }

  /** The length of the key when the pattern matches at the start of `s`; greedy matching
      cannot backtrack usefully, because every shorter key would end on a key character. */
  function PlaceholderAt(s: string): (r: Option<nat>)
    ensures r.Some? ==> MatchesAt(s, r.value)
    ensures r.None? ==> forall n: nat :: !MatchesAt(s, n)
  {
    if |s| == 0 || s[0] != '{' then None
    else
      var n := KeyRun(s[1..]);
      if 1 <= n && n + 2 <= |s| && s[n + 1] == '}' then
        assert s[1..n + 1] == s[1..][..n];
        Some(n)
      else
        None
  }

  /** `text.split(_RGX)`: literals at even positions, captured keys at odd positions. */
  function Split(s: string): (parts: seq<string>)
    ensures |parts| % 2 == 1
    ensures forall i :: 0 <= i < |parts| && i % 2 == 1 ==> ValidKey(parts[i])
    decreases |s|
  {
    if |s| == 0 then [""]
    else
      match PlaceholderAt(s)
      case Some(n) =>
        var rest := Split(s[n + 2..]);
        KeyPairShape(s[1..n + 1], rest);
        ["", s[1..n + 1]] + rest
      case None =>
        var r := Split(s[1..]);
        LiteralShape(s[0], r);
        [[s[0]] + r[0]] + r[1..]
  }

  /** A key pair in front of an alternating split keeps it alternating. */
  lemma KeyPairShape(k: string, rest: seq<string>)
    requires ValidKey(k) && |rest| % 2 == 1
    requires forall i :: 0 <= i < |rest| && i % 2 == 1 ==> ValidKey(rest[i])
    ensures |["", k] + rest| % 2 == 1
    ensures forall i :: 0 <= i < |["", k] + rest| && i % 2 == 1 ==> ValidKey((["", k] + rest)[i])
  {
    var parts := ["", k] + rest;
    forall i | 0 <= i < |parts| && i % 2 == 1
      ensures ValidKey(parts[i])
    {
      if i >= 2 {
        assert parts[i] == rest[i - 2];
      }
    }
  }

  /** A character added to the first literal leaves the keys where they were. */
  lemma LiteralShape(c: char, r: seq<string>)
    requires |r| % 2 == 1
    requires forall i :: 0 <= i < |r| && i % 2 == 1 ==> ValidKey(r[i])
    ensures |[[c] + r[0]] + r[1..]| % 2 == 1
    ensures forall i :: 0 <= i < |[[c] + r[0]] + r[1..]| && i % 2 == 1 ==> ValidKey(([[c] + r[0]] + r[1..])[i])
  {
    var parts := [[c] + r[0]] + r[1..];
    forall i | 0 <= i < |parts| && i % 2 == 1
      ensures ValidKey(parts[i])
    {
      assert parts[i] == r[i];
    }
  }

  /** Concatenates `parts`, passing the entries at key positions through `f`; `odd` says
      whether `parts[0]` sits at a key position. This is the shape of the re-render loop. */
  function Fill(parts: seq<string>, f: string -> string, odd: bool): string
    decreases |parts|
  {
    if |parts| == 0 then ""
    else (if odd then f(parts[0]) else parts[0]) + Fill(parts[1..], f, !odd)
  }

  /** The inverse of `Split`: literals re-joined with every key wrapped back in braces. */
  function Join(parts: seq<string>): string {
    Fill(parts, Brace, false)
  }

  /** `Fill` only consults `f` at key positions, so two functions that agree there give
      the same text. */
  lemma {:induction false} FillCongruence(parts: seq<string>, f: string -> string, g: string -> string, odd: bool)
    requires forall i :: 0 <= i < |parts| && (i % 2 == 0) == odd ==> f(parts[i]) == g(parts[i])
    ensures Fill(parts, f, odd) == Fill(parts, g, odd)
    decreases |parts|
  {
    if |parts| > 0 {
      forall i | 0 <= i < |parts| - 1 && (i % 2 == 0) == !odd
        ensures f(parts[1..][i]) == g(parts[1..][i])
      {
        assert parts[1..][i] == parts[i + 1];
      }
      FillCongruence(parts[1..], f, g, !odd);
    }
  }

  /** The keys of a split, in order of occurrence (repeats kept). */
  function KeysOf(parts: seq<string>): (keys: seq<string>)
    ensures |keys| == |parts| / 2
    ensures forall i :: 0 <= i < |keys| ==> keys[i] == parts[2 * i + 1]
    decreases |parts|
  {
    if |parts| < 2 then [] else [parts[1]] + KeysOf(parts[2..])
  }

  /** A key occurs in `KeysOf(parts)` exactly when it sits at some odd position of `parts`. */
  lemma {:induction false} KeysOfMembership(parts: seq<string>, k: string)
    ensures k in KeysOf(parts) <==> exists i :: 0 <= i < |parts| && i % 2 == 1 && parts[i] == k
    decreases |parts|
  {
    if |parts| >= 2 {
      var rest := parts[2..];
      KeysOfMembership(rest, k);
      assert KeysOf(parts) == [parts[1]] + KeysOf(rest);
      if i :| 0 <= i < |parts| && i % 2 == 1 && parts[i] == k && i != 1 {
        assert rest[i - 2] == k;
      }
      if i :| 0 <= i < |rest| && i % 2 == 1 && rest[i] == k {
        assert parts[i + 2] == k;
      }
    }
  }

  /** Two literal-first unfoldings of `Fill`. */
  lemma FillPair(a: string, b: string, rest: seq<string>, f: string -> string)
    ensures Fill([a, b] + rest, f, false) == a + f(b) + Fill(rest, f, false)
  {
    var p := [a, b] + rest;
    assert p[1..] == [b] + rest;
    assert ([b] + rest)[1..] == rest;
  }

  /** A character prepended to the first literal comes out first. */
  lemma FillLiteralHead(c: char, r: seq<string>, f: string -> string)
    requires |r| >= 1
    ensures Fill([[c] + r[0]] + r[1..], f, false) == [c] + Fill(r, f, false)
  {
    var p := [[c] + r[0]] + r[1..];
    assert p[1..] == r[1..];
  }

  /** Text that starts with a placeholder is that placeholder followed by the rest. */
  lemma PlaceholderPrefix(s: string, n: nat)
    requires MatchesAt(s, n)
    ensures s == Brace(s[1..n + 1]) + s[n + 2..]
  {
  }

  /** Splitting and re-joining gives the original text back. */
  lemma {:induction false} JoinSplit(s: string)
    ensures Join(Split(s)) == s
    decreases |s|
  {
    if |s| == 0 {
      assert Split(s) == [""];
      assert Join([""]) == "" + Fill([], Brace, true);
    } else {
      match PlaceholderAt(s)
      case Some(n) =>
        var key, rest := s[1..n + 1], s[n + 2..];
        assert Split(s) == ["", key] + Split(rest);
        JoinSplit(rest);
        FillPair("", key, Split(rest), Brace);
        PlaceholderPrefix(s, n);
      case None =>
        var r := Split(s[1..]);
        JoinSplit(s[1..]);
        FillLiteralHead(s[0], r, Brace);
    }
  }

  /** `parts.length < 2` exactly when no placeholder occurs in the text. */
  lemma {:induction false} SplitFindsPlaceholder(s: string)
    ensures HasPlaceholder(s) <==> |Split(s)| > 1
    decreases |s|
  {
    if |s| == 0 {
    } else {
      match PlaceholderAt(s)
      case Some(n) =>
        assert s[0..] == s;
        assert MatchesAt(s[0..], n);
      case None =>
        SplitFindsPlaceholder(s[1..]);
        if HasPlaceholder(s) {
          var q: nat, n: nat :| q <= |s| && MatchesAt(s[q..], n);
          assert s[1..][q - 1..] == s[q..];
          assert HasPlaceholder(s[1..]);
        }
        if HasPlaceholder(s[1..]) {
          var q: nat, n: nat :| q <= |s[1..]| && MatchesAt(s[1..][q..], n);
          assert s[1..][q..] == s[q + 1..];
          assert MatchesAt(s[q + 1..], n);
        }
    }
  }

  /** A split the engine could have produced from text: odd length, valid keys, and
      literals free of `{` (a sufficient condition for the scan to find exactly these keys). */
  predicate PlainParts(parts: seq<string>) {
    && |parts| % 2 == 1
    && (forall i :: 0 <= i < |parts| && i % 2 == 1 ==> ValidKey(parts[i]))
    && (forall i :: 0 <= i < |parts| && i % 2 == 0 ==> '{' !in parts[i])
  }

  /** A literal prefix without `{` merges into the first literal of the split. */
  lemma {:induction false} SplitLiteralPrefix(l: string, t: string)
    requires '{' !in l
    ensures Split(l + t) == [l + Split(t)[0]] + Split(t)[1..]
    decreases |l|
  {
    if |l| == 0 {
      assert l + t == t;
      assert l + Split(t)[0] == Split(t)[0];
      assert Split(t) == [Split(t)[0]] + Split(t)[1..];
    } else {
      var s := l + t;
      var r := Split(t);
      assert s[1..] == l[1..] + t;
      SplitLiteralPrefix(l[1..], t);
      SplitLiteralStep(s);
      assert [s[0]] + (l[1..] + r[0]) == l + r[0];
    }
  }

  /** Text that does not start with `{` splits into its first character joined to the
      first literal of the rest. */
  lemma SplitLiteralStep(s: string)
    requires |s| > 0 && s[0] != '{'
    ensures Split(s) == [[s[0]] + Split(s[1..])[0]] + Split(s[1..])[1..]
  {
    assert PlaceholderAt(s) == None;
  }

  /** A placeholder at the start of the text is split off as an empty literal and its key. */
  lemma SplitKeyPrefix(k: string, t: string)
    requires ValidKey(k)
    ensures Split(Brace(k) + t) == ["", k] + Split(t)
  {
    var s := Brace(k) + t;
    assert s[1..|k| + 1] == k;
    assert s[|k| + 1] == '}';
    assert MatchesAt(s, |k|);
    var r := PlaceholderAt(s);
    assert r.Some? ;
    MatchUnique(s, r.value, |k|);
    assert s[|k| + 2..] == t;
  }

  /** A plain split of more than one part is a literal without `{`, a valid key, and a
      plain split. */
  lemma PlainTail(parts: seq<string>)
    requires PlainParts(parts) && |parts| > 1
    ensures |parts| >= 3 && parts == [parts[0], parts[1]] + parts[2..]
    ensures '{' !in parts[0] && ValidKey(parts[1]) && PlainParts(parts[2..])
  {
    var rest := parts[2..];
    forall i | 0 <= i < |rest| && i % 2 == 1
      ensures ValidKey(rest[i])
    {
      assert rest[i] == parts[i + 2];
    }
    forall i | 0 <= i < |rest| && i % 2 == 0
      ensures '{' !in rest[i]
    {
      assert rest[i] == parts[i + 2];
    }
  }

  /** Splitting the join of a plain split gives the same parts back. */
  lemma {:induction false} SplitJoin(parts: seq<string>)
    requires PlainParts(parts)
    ensures Split(Join(parts)) == parts
    decreases |parts|
  {
    if |parts| == 1 {
      assert Fill(parts[1..], Brace, true) == "" by {
        assert parts[1..] == [];
      }
      assert Join(parts) == parts[0] + "";
      SplitLiteralPrefix(parts[0], "");
    } else {
      PlainTail(parts);
      var l, k, rest := parts[0], parts[1], parts[2..];
      SplitJoin(rest);
      FillPair(l, k, rest, Brace);
      assert Join(parts) == l + (Brace(k) + Join(rest));
      SplitLiteralPrefix(l, Brace(k) + Join(rest));
      SplitKeyPrefix(k, Join(rest));
      assert l + "" == l;
    }
  }

  /** A character `String.prototype.trim` removes: the ECMAScript WhiteSpace and
      LineTerminator code points. */
  predicate JsWhitespace(c: char) {
    || ('\U{0009}' <= c <= '\U{000D}')
    || c == '\U{0020}' || c == '\U{00A0}' || c == '\U{1680}'
    || ('\U{2000}' <= c <= '\U{200A}')
    || c == '\U{2028}' || c == '\U{2029}' || c == '\U{202F}' || c == '\U{205F}'
    || c == '\U{3000}' || c == '\U{FEFF}'
  }

  /** `text.trim().length == 0`. */
  predicate IsBlank(t: string) {
    forall i :: 0 <= i < |t| ==> JsWhitespace(t[i])
  }
}
