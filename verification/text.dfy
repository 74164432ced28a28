/** The string helpers the credential parser and the address splitter rely
    on: Go's `strings.TrimSpace`, `strings.Split`, `strings.SplitN(s, sep, 2)`
    and `strings.Join`, on strings seen as sequences of Unicode scalar values. */
module Text {
  import opened Wrappers

  /** The Unicode White_Space property, which is the set `unicode.IsSpace`
      accepts and therefore what `strings.TrimSpace` strips. */
  predicate IsSpace(c: char) {
    || ('\t' <= c <= '\r')
    || c == ' '
    || c == '\U{0085}'
    || c == '\U{00A0}'
    || c == '\U{1680}'
    || ('\U{2000}' <= c <= '\U{200A}')
    || c == '\U{2028}'
    || c == '\U{2029}'
    || c == '\U{202F}'
    || c == '\U{205F}'
    || c == '\U{3000}'
  }

  predicate AllSpace(s: string) {
    forall i :: 0 <= i < |s| ==> IsSpace(s[i])
  }

  /** Neither end of `s` is whitespace. */
  predicate IsTrimmed(s: string) {
    s == [] || (!IsSpace(s[0]) && !IsSpace(s[|s| - 1]))
  }

  /** `s` is `t` with whitespace on both sides, `t` starting at `lo`. */
  ghost predicate PadsAt(s: string, lo: nat, t: string) {
    && lo + |t| <= |s|
    && s[lo..lo + |t|] == t
    && AllSpace(s[..lo])
    && AllSpace(s[lo + |t|..])
  }

  ghost predicate Pads(s: string, t: string) {
    exists lo: nat :: PadsAt(s, lo, t)
  }

  lemma PadsAtSplits(s: string, lo: nat, t: string)
    requires PadsAt(s, lo, t)
    ensures s == s[..lo] + t + s[lo + |t|..]
  {
  }

  /** Go's `strings.TrimRightFunc(s, unicode.IsSpace)`. */
  function TrimRight(s: string): (r: string)
    ensures |r| <= |s| && r == s[..|r|]
    ensures AllSpace(s[|r|..])
    ensures r == [] || !IsSpace(r[|r| - 1])
  {
    if |s| > 0 && IsSpace(s[|s| - 1]) then
      var r := TrimRight(s[..|s| - 1]);
      assert s[|r|..] == s[..|s| - 1][|r|..] + [s[|s| - 1]];
      r
    else
      s
  }

  /** Go's `strings.TrimSpace`: drop the leading whitespace, then trim the
      trailing whitespace of what is left. */
  function TrimSpace(s: string): (r: string)
    ensures IsTrimmed(r)
    ensures r == [] <==> AllSpace(s)
    decreases |s|
  {
    if |s| > 0 && IsSpace(s[0]) then
      var r := TrimSpace(s[1..]);
      assert AllSpace(s) <==> AllSpace(s[1..]) by {
        assert forall i :: 1 <= i < |s| ==> s[i] == s[1..][i - 1];
      }
      r
    else
      var r := TrimRight(s);
      assert r == [] ==> AllSpace(s) by {
        assert r == [] ==> s[|r|..] == s;
      }
      r
  }

  /** Whitespace in front of a string does not change its trimmed form. */
  lemma {:induction false} TrimSpaceLeftPadded(a: string, x: string)
    requires AllSpace(a)
    ensures TrimSpace(a + x) == TrimSpace(x)
    decreases |a|
  {
    if a != [] {
      assert (a + x)[1..] == a[1..] + x;
      assert (a + x)[0] == a[0];
      TrimSpaceLeftPadded(a[1..], x);
    } else {
      assert a + x == x;
    }
  }

  lemma {:induction false} TrimRightPadded(x: string, b: string)
    requires AllSpace(b)
    ensures TrimRight(x + b) == TrimRight(x)
    decreases |b|
  {
    if b != [] {
      var y := x + b;
      assert y[..|y| - 1] == x + b[..|b| - 1];
      assert y[|y| - 1] == b[|b| - 1];
      TrimRightPadded(x, b[..|b| - 1]);
    } else {
      assert x + b == x;
    }
  }

  /** Whitespace after a string does not change its trimmed form. */
  lemma {:induction false} TrimSpaceRightPadded(x: string, b: string)
    requires AllSpace(b)
    ensures TrimSpace(x + b) == TrimSpace(x)
    decreases |x|
  {
    if x == [] {
      assert x + b == b;
    } else if IsSpace(x[0]) {
      assert (x + b)[1..] == x[1..] + b;
      assert (x + b)[0] == x[0];
      TrimSpaceRightPadded(x[1..], b);
    } else {
      assert (x + b)[0] == x[0];
      TrimRightPadded(x, b);
    }
  }

  lemma TrimSpacePadded(a: string, x: string, b: string)
    requires AllSpace(a) && AllSpace(b)
    ensures TrimSpace(a + x + b) == TrimSpace(x)
  {
    assert a + x + b == a + (x + b);
    TrimSpaceLeftPadded(a, x + b);
    TrimSpaceRightPadded(x, b);
  }

  /** A trimmed string is its own trimmed form. */
  lemma TrimSpaceOfTrimmed(t: string)
    requires IsTrimmed(t)
    ensures TrimSpace(t) == t
  {
  }

  /** One more whitespace character in front keeps `t` padded. */
  lemma PadsAtCons(c: char, s: string, lo: nat, t: string)
    requires IsSpace(c) && PadsAt(s, lo, t)
    ensures PadsAt([c] + s, lo + 1, t)
  {
    var s' := [c] + s;
    assert s'[..lo + 1] == [c] + s[..lo];
    assert s'[lo + 1..lo + 1 + |t|] == s[lo..lo + |t|];
    assert s'[lo + 1 + |t|..] == s[lo + |t|..];
  }

  lemma TrimRightPadsAt(s: string)
    ensures PadsAt(s, 0, TrimRight(s))
  {
  }

  /** Where `TrimSpace(s)` starts inside `s`. */
  lemma {:induction false} TrimSpaceStart(s: string) returns (lo: nat)
    ensures PadsAt(s, lo, TrimSpace(s))
    decreases |s|
  {
    if |s| > 0 && IsSpace(s[0]) {
      var lo' := TrimSpaceStart(s[1..]);
      PadsAtCons(s[0], s[1..], lo', TrimSpace(s[1..]));
      assert [s[0]] + s[1..] == s;
      lo := lo' + 1;
    } else {
      TrimRightPadsAt(s);
      lo := 0;
    }
  }

  /** `TrimSpace(s)` is what is left of `s` once whitespace is cut from both
      ends. */
  lemma TrimSpacePads(s: string)
    ensures Pads(s, TrimSpace(s))
  {
    var lo := TrimSpaceStart(s);
  }

  /** `TrimSpace(s)` is the only trimmed string that `s` pads with whitespace. */
  lemma TrimSpaceUnique(s: string, t: string)
    requires IsTrimmed(t)
    requires Pads(s, t)
    ensures TrimSpace(s) == t
  {
    var lo: nat :| PadsAt(s, lo, t);
    PadsAtSplits(s, lo, t);
    TrimSpacePadded(s[..lo], t, s[lo + |t|..]);
    TrimSpaceOfTrimmed(t);
  }

  lemma SpaceLacks(a: string, c: char)
    requires AllSpace(a) && !IsSpace(c)
    ensures c !in a
  {
  }

  lemma InConcat(a: string, t: string, b: string, c: char)
    ensures c in a + t + b <==> c in a || c in t || c in b
  {
    var s := a + t + b;
    if c in s {
      var k :| 0 <= k < |s| && s[k] == c;
      if k < |a| {
        assert a[k] == c;
      } else if k < |a| + |t| {
        assert t[k - |a|] == c;
      } else {
        assert b[k - |a| - |t|] == c;
      }
    }
  }

  /** Trimming only removes whitespace, so other characters survive it. */
  lemma TrimSpaceKeeps(s: string, c: char)
    requires !IsSpace(c)
    ensures c in TrimSpace(s) <==> c in s
  {
    var t := TrimSpace(s);
    TrimSpacePads(s);
    var lo: nat :| PadsAt(s, lo, t);
    var a, b := s[..lo], s[lo + |t|..];
    SpaceLacks(a, c);
    SpaceLacks(b, c);
    InConcat(a, t, b, c);
    PadsAtSplits(s, lo, t);
  }

  /** Index of the first `c` in `s`. */
  function IndexOf(s: string, c: char): (r: Option<nat>)
    ensures r.None? <==> c !in s
    ensures r.Some? ==> r.value < |s| && s[r.value] == c && c !in s[..r.value]
  {
    if |s| == 0 then None
    else if s[0] == c then Some(0)
    else
      match IndexOf(s[1..], c)
      case None => None
      case Some(i) =>
        assert s[..i + 1] == [s[0]] + s[1..][..i];
        Some(i + 1)
  }

  /** Index of the last `c` in `s`. */
  function LastIndexOf(s: string, c: char): (r: Option<nat>)
    ensures r.None? <==> c !in s
    ensures r.Some? ==> r.value < |s| && s[r.value] == c && c !in s[r.value + 1..]
  {
    if |s| == 0 then None
    else if s[|s| - 1] == c then Some(|s| - 1)
    else
      var r := LastIndexOf(s[..|s| - 1], c);
      assert s == s[..|s| - 1] + [s[|s| - 1]];
      match r
      case None => None
      case Some(i) =>
        assert s[i + 1..] == s[..|s| - 1][i + 1..] + [s[|s| - 1]];
        Some(i)
  }

  /** Go's `strings.Join(parts, string(sep))`. */
  function Join(parts: seq<string>, sep: char): string
  {
    if |parts| == 0 then ""
    else if |parts| == 1 then parts[0]
    else parts[0] + [sep] + Join(parts[1..], sep)
  }

  /** Go's `strings.Split(s, string(sep))`: the pieces between separators,
      one more piece than there are separators. */
  function Split(s: string, sep: char): (parts: seq<string>)
    ensures |parts| >= 1
    ensures forall i :: 0 <= i < |parts| ==> sep !in parts[i]
    ensures Join(parts, sep) == s
    decreases |s|
  {
    match IndexOf(s, sep)
    case None => [s]
    case Some(i) =>
      var rest := Split(s[i + 1..], sep);
      var parts := [s[..i]] + rest;
      assert parts[1..] == rest;
      assert s == s[..i] + [sep] + s[i + 1..];
      parts
  }

  /** The first separator of `head + [sep] + tail` is the one after `head`. */
  lemma IndexOfAfter(head: string, tail: string, sep: char)
    requires sep !in head
    ensures IndexOf(head + [sep] + tail, sep) == Some(|head|)
  {
    var s := head + [sep] + tail;
    assert s[..|head|] == head;
    assert s[|head|] == sep;
  }

  /** The last `c` of `head + [c] + tail` is the one after `head`. */
  lemma LastIndexOfBefore(head: string, tail: string, c: char)
    requires c !in tail
    ensures LastIndexOf(head + [c] + tail, c) == Some(|head|)
  {
    var s := head + [c] + tail;
    assert s[|head| + 1..] == tail;
    assert s[|head|] == c;
  }

  /** Splitting at a separator preceded by separator-free text. */
  lemma SplitCons(head: string, tail: string, sep: char)
    requires sep !in head
    ensures Split(head + [sep] + tail, sep) == [head] + Split(tail, sep)
  {
    var s := head + [sep] + tail;
    IndexOfAfter(head, tail, sep);
    assert s[..|head|] == head;
    assert s[|head| + 1..] == tail;
  }

  /** Splitting undoes joining when no piece holds the separator. */
  lemma {:induction false} SplitJoin(parts: seq<string>, sep: char)
    requires |parts| >= 1
    requires forall i :: 0 <= i < |parts| ==> sep !in parts[i]
    ensures Split(Join(parts, sep), sep) == parts
    decreases |parts|
  {
    if |parts| > 1 {
      assert parts == [parts[0]] + parts[1..];
      assert Join(parts, sep) == parts[0] + [sep] + Join(parts[1..], sep);
      SplitCons(parts[0], Join(parts[1..], sep), sep);
      SplitJoin(parts[1..], sep);
    } else {
      assert Join(parts, sep) == parts[0];
      assert IndexOf(parts[0], sep) == None;
    }
  }

  lemma {:induction false} JoinAppend(parts: seq<string>, t: string, sep: char)
    requires |parts| >= 1
    ensures Join(parts + [t], sep) == Join(parts, sep) + [sep] + t
    decreases |parts|
  {
    var all := parts + [t];
    assert all[1..] == parts[1..] + [t];
    if |parts| > 1 {
      JoinAppend(parts[1..], t, sep);
    }
  }

  /** Appending a separator and separator-free text adds one piece. */
  lemma SplitAppend(s: string, t: string, sep: char)
    requires sep !in t
    ensures Split(s + [sep] + t, sep) == Split(s, sep) + [t]
  {
    var parts := Split(s, sep);
    JoinAppend(parts, t, sep);
    SplitJoin(parts + [t], sep);
  }

  /** Go's `strings.SplitN(s, string(sep), 2)`: the whole string when it
      holds no separator, otherwise the text before and after the first one. */
  function SplitAtFirst(s: string, sep: char): (parts: seq<string>)
    ensures 1 <= |parts| <= 2
    ensures |parts| == 2 <==> sep in s
    ensures |parts| == 1 ==> parts[0] == s
    ensures |parts| == 2 ==> sep !in parts[0] && parts[0] + [sep] + parts[1] == s
  {
    match IndexOf(s, sep)
    case None => [s]
    case Some(i) =>
      assert s == s[..i] + [sep] + s[i + 1..];
      [s[..i], s[i + 1..]]
  }

  /** The separator found is the first one: the tail may hold more. */
  lemma SplitAtFirstOf(head: string, tail: string, sep: char)
    requires sep !in head
    ensures SplitAtFirst(head + [sep] + tail, sep) == [head, tail]
  {
    var s := head + [sep] + tail;
    IndexOfAfter(head, tail, sep);
    assert s[..|head|] == head;
    assert s[|head| + 1..] == tail;
  }

  /** Text without the separator in front of a string that has one moves the
      split point but not the second half's end. */
  lemma SplitAtFirstPrefixed(a: string, t: string, b: string, sep: char)
    requires sep !in a
    requires sep in t
    ensures var p := SplitAtFirst(t, sep);
            SplitAtFirst(a + t + b, sep) == [a + p[0], p[1] + b]
  {
    var p := SplitAtFirst(t, sep);
    assert a + t + b == (a + p[0]) + [sep] + (p[1] + b);
    SplitAtFirstOf(a + p[0], p[1] + b, sep);
  }
}
