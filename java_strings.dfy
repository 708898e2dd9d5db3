/**
 * The few java.lang.String and java.util.regex operations the extraction
 * pipeline relies on, over Dafny strings (one `char` per code point).
 */
module JavaStrings {

  import opened Wrappers

  /** A member of the regex class `\s`, which Java defines as `[ \t\n\x0B\f\r]`. */
  predicate IsSpace(c: char) {
    c == ' ' || c == '\t' || c == '\n' || c == '\U{B}' || c == '\U{C}' || c == '\r'
  }

  /** A character `String.trim()` removes from either end: any code point up to U+0020. */
  predicate IsTrimmable(c: char) {
    c <= ' '
  }

  /** A line terminator, which the regex `.` does not match (no DOTALL, no UNIX_LINES). */
  predicate IsLineTerminator(c: char) {
    c == '\n' || c == '\r' || c == '\U{85}' || c == '\U{2028}' || c == '\U{2029}'
  }

  /** `p` occurs in `s` starting at position `k`. */
  predicate OccursAt(s: string, p: string, k: nat) {
    k + |p| <= |s| && s[k..k + |p|] == p
  }

  /** An occurrence inside a slice is an occurrence in the whole string. */
  lemma OccursInSlice(s: string, lo: nat, hi: nat, p: string, k: nat)
    requires lo <= hi <= |s| && OccursAt(s[lo..hi], p, k)
    ensures OccursAt(s, p, lo + k)
  {
    forall i | 0 <= i < |p|
      ensures s[lo + k + i] == p[i]
    {
      assert s[lo..hi][k..k + |p|][i] == p[i];
    }
  }

  /** `s.indexOf(p, from)`: the first position at or after `from` where `p` occurs. */
  function IndexOf(s: string, p: string, from: nat): (r: Option<nat>)
    requires from <= |s|
    decreases |s| - from
    ensures r.Some? ==> from <= r.value <= |s| && OccursAt(s, p, r.value)
    ensures r.Some? ==> forall k :: from <= k < r.value ==> !OccursAt(s, p, k)
    ensures r.None? ==> forall k :: from <= k <= |s| ==> !OccursAt(s, p, k)
  {
    if OccursAt(s, p, from) then Some(from)
    else if from == |s| then None
    else IndexOf(s, p, from + 1)
  }

  /** `s.contains(p)`, equivalently `s.indexOf(p) != -1`. */
  predicate Contains(s: string, p: string) {
    IndexOf(s, p, 0).Some?
  }

  /**
   * `s.replaceAll(p, rep)` for a pattern and a replacement without regex
   * metacharacters: every occurrence of `p`, found left to right and without
   * overlap, is replaced by `rep`.
   */
  function ReplaceAll(s: string, p: string, rep: string): (r: string)
    requires p != []
    decreases |s|
  {
    match IndexOf(s, p, 0)
    case None => s
    case Some(j) => s[..j] + rep + ReplaceAll(s[j + |p|..], p, rep)
  }

  /** `s.replaceAll("\\s+", " ")`: every maximal run of `\s` characters becomes one space. */
  function CollapseWs(s: string): (r: string)
    decreases |s|
    ensures |r| <= |s|
    ensures r == [] <==> s == []
    ensures r != [] ==> (IsSpace(r[0]) <==> IsSpace(s[0]))
    ensures r != [] ==> (IsSpace(r[|r| - 1]) <==> IsSpace(s[|s| - 1]))
    ensures Collapsed(r)
  {
    if s == [] then []
    else if IsSpace(s[0]) then
      var rest := CollapseWs(DropSpaces(s[1..]));
      CollapsedCons(' ', rest);
      [' '] + rest
    else
      var rest := CollapseWs(s[1..]);
      CollapsedCons(s[0], rest);
      [s[0]] + rest
  }

  /** The longest suffix of `s` that does not start with a `\s` character. */
  function DropSpaces(s: string): (r: string)
    decreases |s|
    ensures |r| <= |s| && r == s[|s| - |r|..]
    ensures forall i :: 0 <= i < |s| - |r| ==> IsSpace(s[i])
    ensures r == [] || !IsSpace(r[0])
  {
    if s != [] && IsSpace(s[0]) then DropSpaces(s[1..]) else s
  }

  /** Two `\s` characters stand side by side at `i` and `i + 1`. */
  predicate SpaceRun(s: string, i: nat) {
    i + 1 < |s| && IsSpace(s[i]) && IsSpace(s[i + 1])
  }

  /** Every `\s` character is a plain space and no two of them are adjacent. */
  predicate Collapsed(s: string) {
    (forall i :: 0 <= i < |s| && IsSpace(s[i]) ==> s[i] == ' ') &&
    (forall i :: 0 <= i < |s| ==> !SpaceRun(s, i))
  }

  lemma CollapsedCons(c: char, s: string)
    requires Collapsed(s)
    requires IsSpace(c) ==> c == ' ' && (s == [] || !IsSpace(s[0]))
    ensures Collapsed([c] + s)
  {
    var x := [c] + s;
    forall i | 0 < i < |x|
      ensures x[i] == s[i - 1] && !SpaceRun(x, i)
    {
      assert !SpaceRun(s, i - 1);
      if i + 1 < |x| {
        assert x[i + 1] == s[i];
      }
    }
    assert !SpaceRun(x, 0);
  }

  /** `s` with its leading trimmable characters removed. */
  function TrimLeft(s: string): (r: string)
    decreases |s|
    ensures |r| <= |s| && r == s[|s| - |r|..]
    ensures forall i :: 0 <= i < |s| - |r| ==> IsTrimmable(s[i])
    ensures r == [] || !IsTrimmable(r[0])
  {
    if s != [] && IsTrimmable(s[0]) then TrimLeft(s[1..]) else s
  }

  /** `s` with its trailing trimmable characters removed. */
  function TrimRight(s: string): (r: string)
    decreases |s|
    ensures |r| <= |s| && r == s[..|r|]
    ensures forall i :: |r| <= i < |s| ==> IsTrimmable(s[i])
    ensures r == [] || !IsTrimmable(r[|r| - 1])
  {
    if s != [] && IsTrimmable(s[|s| - 1]) then TrimRight(s[..|s| - 1]) else s
  }

  /** `s.trim()`. */
  function Trim(s: string): (r: string)
    ensures r == [] || (!IsTrimmable(r[0]) && !IsTrimmable(r[|r| - 1]))
    ensures r == [] <==> forall i :: 0 <= i < |s| ==> IsTrimmable(s[i])
  {
    TrimRight(TrimLeft(s))
  }

  /**
   * `trim()` returns a piece of its input: what it removes in front and
   * behind is trimmable.
   */
  lemma {:induction false} TrimIsSlice(s: string)
    ensures exists i, j :: (0 <= i <= j <= |s| && Trim(s) == s[i..j] &&
      (forall k :: 0 <= k < i ==> IsTrimmable(s[k])) &&
      (forall k :: j <= k < |s| ==> IsTrimmable(s[k])))
  {
    var left := TrimLeft(s);
    var i := |s| - |left|;
    var r := TrimRight(left);
    assert r == s[i..i + |r|];
    forall k | i + |r| <= k < |s| ensures IsTrimmable(s[k]) { assert s[k] == left[k - i]; }
  }

  /** The characters of `s` that are not `\s` characters, in order. */
  function NonSpace(s: string): (r: string)
    ensures |r| <= |s|
  {
    if s == [] then []
    else if IsSpace(s[0]) then NonSpace(s[1..])
    else [s[0]] + NonSpace(s[1..])
  }

  lemma {:induction false} NonSpaceAppend(a: string, b: string)
    ensures NonSpace(a + b) == NonSpace(a) + NonSpace(b)
  {
    if a == [] {
      assert a + b == b;
    } else {
      assert (a + b)[0] == a[0] && (a + b)[1..] == a[1..] + b;
      NonSpaceAppend(a[1..], b);
    }
  }

  lemma {:induction false} NonSpaceOfSpaces(s: string, n: nat)
    requires n <= |s|
    requires forall i :: 0 <= i < n ==> IsSpace(s[i])
    ensures NonSpace(s) == NonSpace(s[n..])
  {
    if n > 0 {
      NonSpaceOfSpaces(s[1..], n - 1);
      assert s[1..][n - 1..] == s[n..];
    }
  }

  /** Collapsing whitespace removes and adds no character other than whitespace. */
  lemma {:induction false} CollapseKeepsText(s: string)
    ensures NonSpace(CollapseWs(s)) == NonSpace(s)
    decreases |s|
  {
    if s == [] {
    } else if IsSpace(s[0]) {
      var t := DropSpaces(s[1..]);
      CollapseKeepsText(t);
      NonSpaceAppend(" ", CollapseWs(t));
      NonSpaceOfSpaces(s[1..], |s[1..]| - |t|);
    } else {
      CollapseKeepsText(s[1..]);
      NonSpaceAppend([s[0]], CollapseWs(s[1..]));
    }
  }

  /**
   * Whitespace is replaced, never deleted: a non-empty run `w` of `\s`
   * characters between two non-space characters (or an end of the string)
   * becomes exactly one space, and the text on either side collapses on its
   * own.
   */
  lemma {:induction false} CollapseSplit(a: string, w: string, b: string)
    requires w != [] && forall i :: 0 <= i < |w| ==> IsSpace(w[i])
    requires a == [] || !IsSpace(a[|a| - 1])
    requires b == [] || !IsSpace(b[0])
    ensures CollapseWs(a + w + b) == CollapseWs(a) + " " + CollapseWs(b)
    decreases |a|, 1
  {
    if a == [] {
      TailOfJoin(a, w, b);
      DropSpacesBefore(w[1..], b);
      assert CollapseWs(a) + " " == [' '];
    } else if IsSpace(a[0]) {
      CollapseSplitSpace(a, w, b);
    } else {
      CollapseSplitChar(a, w, b);
    }
  }

  /** `CollapseSplit` when `a` starts with `\s`: the leading run collapses on both sides alike. */
  lemma {:induction false} CollapseSplitSpace(a: string, w: string, b: string)
    requires w != [] && forall i :: 0 <= i < |w| ==> IsSpace(w[i])
    requires a != [] && IsSpace(a[0]) && !IsSpace(a[|a| - 1])
    requires b == [] || !IsSpace(b[0])
    ensures CollapseWs(a + w + b) == CollapseWs(a) + " " + CollapseWs(b)
    decreases |a|, 0
  {
    var d := DropSpaces(a[1..]);
    DropSpacesKeepsLast(a[1..]);
    CollapseLeadingRun(a, w, b);
    CollapseSplit(d, w, b);
    ConsAround(' ', CollapseWs(d), CollapseWs(b), CollapseWs(a + w + b), CollapseWs(a));
  }

  /** A leading run of `\s` characters in `a` collapses the same way whatever follows `a`. */
  lemma {:induction false} CollapseLeadingRun(a: string, w: string, b: string)
    requires a != [] && IsSpace(a[0]) && !IsSpace(a[|a| - 1])
    ensures CollapseWs(a + w + b) == [' '] + CollapseWs(DropSpaces(a[1..]) + w + b)
  {
    var d := DropSpaces(a[1..]);
    TailOfJoin(a, w, b);
    DropSpacesKeepsLast(a[1..]);
    TailOfJoin(d, w, b);
    DropSpacesPrefix(a[1..], w + b);
  }

  /** `CollapseSplit` when `a` starts with a non-space character, which both sides keep. */
  lemma {:induction false} CollapseSplitChar(a: string, w: string, b: string)
    requires w != [] && forall i :: 0 <= i < |w| ==> IsSpace(w[i])
    requires a != [] && !IsSpace(a[0]) && !IsSpace(a[|a| - 1])
    requires b == [] || !IsSpace(b[0])
    ensures CollapseWs(a + w + b) == CollapseWs(a) + " " + CollapseWs(b)
    decreases |a|, 0
  {
    TailOfJoin(a, w, b);
    CollapseSplit(a[1..], w, b);
    ConsAround(a[0], CollapseWs(a[1..]), CollapseWs(b), CollapseWs(a + w + b), CollapseWs(a));
  }

  /**
   * Regrouping for `CollapseSplit`, stated over plain strings so that the
   * solver does not meet the `CollapseWs` contracts while it regroups.
   */
  lemma {:induction false} ConsAround(c: char, x: string, y: string, whole: string, head: string)
    requires whole == [c] + (x + " " + y) && head == [c] + x
    ensures whole == head + " " + y
  {
  }

  /** The head and the tail of a join `a + w + b` whose first part is not empty. */
  lemma {:induction false} TailOfJoin(a: string, w: string, b: string)
    requires a + w != []
    ensures a + (w + b) == a + w + b
    ensures (a + w + b)[0] == (a + w)[0]
    ensures a != [] ==> (a + w + b)[1..] == a[1..] + (w + b) == a[1..] + w + b
    ensures a == [] ==> a + w + b == w + b && (w + b)[0] == w[0] && (w + b)[1..] == w[1..] + b
  {
  }

  /** What `DropSpaces` leaves of a string ending in a non-space character still ends in it. */
  lemma {:induction false} DropSpacesKeepsLast(x: string)
    requires x != [] && !IsSpace(x[|x| - 1])
    ensures DropSpaces(x) != [] && DropSpaces(x)[|DropSpaces(x)| - 1] == x[|x| - 1]
  {
  }

  /** `DropSpaces` skips a run of `\s` characters up to the first non-space one. */
  lemma {:induction false} DropSpacesBefore(u: string, b: string)
    requires forall i :: 0 <= i < |u| ==> IsSpace(u[i])
    requires b == [] || !IsSpace(b[0])
    ensures DropSpaces(u + b) == b
    decreases |u|
  {
    if u == [] {
      assert u + b == b;
    } else {
      assert (u + b)[1..] == u[1..] + b;
      DropSpacesBefore(u[1..], b);
    }
  }

  /** `DropSpaces` stops inside a string that ends with a non-space character. */
  lemma {:induction false} DropSpacesPrefix(x: string, t: string)
    requires x != [] && !IsSpace(x[|x| - 1])
    ensures DropSpaces(x + t) == DropSpaces(x) + t
    decreases |x|
  {
    if IsSpace(x[0]) {
      assert (x + t)[1..] == x[1..] + t;
      DropSpacesPrefix(x[1..], t);
    }
  }

  /** A string that is already collapsed is left alone by `CollapseWs`. */
  lemma {:induction false} CollapseFixesCollapsed(s: string)
    requires Collapsed(s)
    ensures CollapseWs(s) == s
    decreases |s|
  {
    if s != [] {
      CollapsedSlice(s, 1, |s|);
      assert s[1..|s|] == s[1..];
      CollapseFixesCollapsed(s[1..]);
      if IsSpace(s[0]) {
        assert !SpaceRun(s, 0);
        assert DropSpaces(s[1..]) == s[1..];
      }
    }
  }

  /** Collapsing whitespace is idempotent. */
  lemma CollapseIdempotent(s: string)
    ensures CollapseWs(CollapseWs(s)) == CollapseWs(s)
  {
    CollapseFixesCollapsed(CollapseWs(s));
  }

  lemma CollapsedSlice(s: string, a: nat, b: nat)
    requires a <= b <= |s| && Collapsed(s)
    ensures Collapsed(s[a..b])
  {
    var t := s[a..b];
    forall i | 0 <= i < |t|
      ensures t[i] == s[a + i] && !SpaceRun(t, i)
    {
      assert !SpaceRun(s, a + i);
      if i + 1 < |t| {
        assert t[i + 1] == s[a + i + 1];
      }
    }
  }

  /** `s` has neither leading nor trailing trimmable characters. */
  predicate Trimmed(s: string) {
    s == [] || (!IsTrimmable(s[0]) && !IsTrimmable(s[|s| - 1]))
  }

  /** `trim()` changes nothing on a string that needs no trimming. */
  lemma TrimFixesTrimmed(s: string)
    requires Trimmed(s)
    ensures Trim(s) == s
  {
  }

  /** Collapsing and then trimming, as `replaceAll("\\s+", " ").trim()` does. */
  function NormaliseWs(s: string): (r: string)
  {
    Trim(CollapseWs(s))
  }

  /** Trimming a collapsed string leaves it collapsed. */
  lemma TrimKeepsCollapsed(s: string)
    requires Collapsed(s)
    ensures Collapsed(Trim(s))
  {
    var t := TrimLeft(s);
    CollapsedSlice(s, |s| - |t|, |s|);
    assert t == s[|s| - |t|..|s|];
    CollapsedSlice(t, 0, |TrimRight(t)|);
    assert TrimRight(t) == t[0..|TrimRight(t)|];
  }

  /** Collapsing then trimming leaves a trimmed, collapsed string. */
  lemma NormaliseWsTidy(s: string)
    ensures Trimmed(NormaliseWs(s)) && Collapsed(NormaliseWs(s))
  {
    TrimKeepsCollapsed(CollapseWs(s));
  }

  /** A trimmed, collapsed string is left alone by collapsing then trimming. */
  lemma TidyFixed(u: string)
    requires Trimmed(u) && Collapsed(u)
    ensures NormaliseWs(u) == u
  {
    CollapseFixesCollapsed(u);
    TrimFixesTrimmed(u);
  }

  /** Collapsing then trimming twice is the same as doing it once. */
  lemma NormaliseWsIdempotent(s: string)
    ensures NormaliseWs(NormaliseWs(s)) == NormaliseWs(s)
  {
    NormaliseWsTidy(s);
    TidyFixed(NormaliseWs(s));
  }

  /** With no occurrence of `p` in `s`, `replaceAll` returns `s` unchanged. */
  lemma ReplaceAbsent(s: string, p: string, rep: string)
    requires p != [] && !Contains(s, p)
    ensures ReplaceAll(s, p, rep) == s
  {
  }

  /** `replaceAll` never lengthens a string when the replacement is no longer than the pattern. */
  lemma {:induction false} ReplaceShrinks(s: string, p: string, rep: string)
    requires p != [] && |rep| <= |p|
    ensures |ReplaceAll(s, p, rep)| <= |s|
    decreases |s|
  {
    match IndexOf(s, p, 0)
    case None =>
    case Some(j) =>
      ReplaceShrinks(s[j + |p|..], p, rep);
  }

  /** A character of the pattern that `s` lacks rules out every occurrence. */
  lemma MissingChar(s: string, p: string, c: char)
    requires c in p && c !in s
    ensures !Contains(s, p)
  {
    var i :| 0 <= i < |p| && p[i] == c;
    forall k | 0 <= k <= |s|
      ensures !OccursAt(s, p, k)
    {
      if k + |p| <= |s| {
        assert s[k..k + |p|][i] == s[k + i];
      }
    }
  }

  /**
   * A pattern whose first character is missing from `u` can only occur in
   * `u + t` inside `t`.
   */
  lemma AbsentAfterPrefix(u: string, t: string, p: string)
    requires p != [] && p[0] !in u && !Contains(t, p)
    ensures !Contains(u + t, p)
  {
    var s := u + t;
    forall k | 0 <= k <= |s|
      ensures !OccursAt(s, p, k)
    {
      if k + |p| <= |s| {
        assert s[k..k + |p|][0] == s[k];
        if k < |u| {
          assert s[k] == u[k];
        } else {
          assert s[k..k + |p|] == t[k - |u|..k - |u| + |p|];
          assert !OccursAt(t, p, k - |u|);
        }
      }
    }
  }

  /**
   * When `p` does not occur before the end of `a`, `replaceAll` on
   * `a + p + b` replaces that occurrence first and carries on with `b`.
   */
  lemma ReplaceFirst(a: string, p: string, b: string, rep: string)
    requires p != []
    requires forall k :: 0 <= k < |a| ==> !OccursAt(a + p + b, p, k)
    ensures ReplaceAll(a + p + b, p, rep) == a + rep + ReplaceAll(b, p, rep)
  {
    var s := a + p + b;
    assert OccursAt(s, p, |a|) by {
      assert s[|a|..|a| + |p|] == p;
    }
    assert IndexOf(s, p, 0) == Some(|a|);
    assert s[..|a|] == a;
    assert s[|a| + |p|..] == b;
  }

  /** `ReplaceFirst` for an `a` that lacks the first character of `p`. */
  lemma ReplaceFirstChar(a: string, p: string, b: string, rep: string)
    requires p != [] && p[0] !in a
    ensures ReplaceAll(a + p + b, p, rep) == a + rep + ReplaceAll(b, p, rep)
  {
    var s := a + p + b;
    forall k | 0 <= k < |a|
      ensures !OccursAt(s, p, k)
    {
      assert s[k] == a[k];
      assert k + |p| <= |s| ==> s[k..k + |p|][0] == s[k];
    }
    ReplaceFirst(a, p, b, rep);
  }

  /**
   * `ReplaceFirst` for an `a` that lacks some character `p[i]` of the
   * pattern, which also does not occur earlier in the pattern.
   */
  lemma ReplaceFirstAnchor(a: string, p: string, b: string, rep: string, i: nat)
    requires i < |p| && p[i] !in a && p[i] !in p[..i]
    ensures ReplaceAll(a + p + b, p, rep) == a + rep + ReplaceAll(b, p, rep)
  {
    var s := a + p + b;
    forall k | 0 <= k < |a|
      ensures !OccursAt(s, p, k)
    {
      if k + |p| <= |s| {
        assert s[k..k + |p|][i] == s[k + i];
        if k + i < |a| {
          assert s[k + i] == a[k + i];
        } else {
          assert s[k + i] == p[..i][k + i - |a|];
        }
      }
    }
    ReplaceFirst(a, p, b, rep);
  }

  /**
   * When the replacement is non-empty and shares no character with the
   * pattern, no occurrence of the pattern is left after `replaceAll`.
   */
  lemma {:induction false} ReplaceLeavesNone(s: string, p: string, rep: string)
    requires p != [] && rep != []
    requires forall k :: 0 <= k < |rep| ==> rep[k] !in p
    ensures !Contains(ReplaceAll(s, p, rep), p)
    decreases |s|
  {
    match IndexOf(s, p, 0)
    case None =>
    case Some(j) =>
      var pre, tail := s[..j], s[j + |p|..];
      var rest := ReplaceAll(tail, p, rep);
      assert ReplaceAll(s, p, rep) == pre + rep + rest;
      ReplaceLeavesNone(tail, p, rep);
      assert IndexOf(rest, p, 0).None?;
      forall k | 0 <= k && k + |p| <= |pre|
        ensures !OccursAt(pre, p, k)
      {
        assert pre[k..k + |p|] == s[k..k + |p|];
        assert !OccursAt(s, p, k);
      }
      JoinFree(pre, rep, rest, p);
  }

  /**
   * Joining two strings free of `p` around a piece that shares no character
   * with `p` leaves a string free of `p`.
   */
  lemma JoinFree(a: string, m: string, b: string, p: string)
    requires p != [] && m != []
    requires forall k :: 0 <= k < |m| ==> m[k] !in p
    requires forall k :: 0 <= k && k + |p| <= |a| ==> !OccursAt(a, p, k)
    requires forall k :: 0 <= k <= |b| ==> !OccursAt(b, p, k)
    ensures forall k :: 0 <= k <= |a + m + b| ==> !OccursAt(a + m + b, p, k)
  {
    var r := a + m + b;
    forall k | 0 <= k <= |r|
      ensures !OccursAt(r, p, k)
    {
      if k + |p| <= |a| {
        assert r[k..k + |p|] == a[k..k + |p|];
        assert !OccursAt(a, p, k);
      } else if k + |p| <= |r| {
        var w := r[k..k + |p|];
        if k < |a| {
          assert w[|a| - k] == m[0];
          assert m[0] !in p;
        } else if k < |a| + |m| {
          assert w[0] == m[k - |a|];
          assert m[k - |a|] !in p;
        } else {
          var k' := k - |a| - |m|;
          assert w == b[k'..k' + |p|];
          assert !OccursAt(b, p, k');
        }
      }
    }
  }

  lemma CollapsedAppend(a: string, b: string)
    requires Collapsed(a) && Collapsed(b)
    requires a == [] || b == [] || !IsSpace(a[|a| - 1]) || !IsSpace(b[0])
    ensures Collapsed(a + b)
  {
    var c := a + b;
    forall i | 0 <= i < |c|
      ensures c[i] == (if i < |a| then a[i] else b[i - |a|]) && !SpaceRun(c, i)
    {
      if i + 1 < |a| {
        assert !SpaceRun(a, i);
      } else if i >= |a| {
        assert !SpaceRun(b, i - |a|);
      }
    }
  }

  /** A `replaceAll` whose replacement holds no `\s` character keeps a collapsed string collapsed. */
  lemma {:induction false} ReplaceKeepsCollapsed(s: string, p: string, rep: string)
    requires p != [] && rep != []
    requires forall k :: 0 <= k < |rep| ==> !IsSpace(rep[k])
    requires Collapsed(s)
    ensures Collapsed(ReplaceAll(s, p, rep))
    decreases |s|
  {
    match IndexOf(s, p, 0)
    case None =>
    case Some(j) =>
      var pre, tail := s[..j], s[j + |p|..];
      var rest := ReplaceAll(tail, p, rep);
      assert ReplaceAll(s, p, rep) == pre + rep + rest;
      CollapsedSlice(s, j + |p|, |s|);
      assert tail == s[j + |p|..|s|];
      ReplaceKeepsCollapsed(tail, p, rep);
      CollapsedSlice(s, 0, j);
      assert pre == s[0..j];
      CollapsedAround(pre, rep, rest);
  }

  /** A non-empty piece without `\s` characters joins two collapsed strings into one. */
  lemma CollapsedAround(a: string, m: string, b: string)
    requires Collapsed(a) && Collapsed(b)
    requires m != [] && forall k :: 0 <= k < |m| ==> !IsSpace(m[k])
    ensures Collapsed(a + m + b)
  {
    assert Collapsed(m);
    CollapsedAppend(a, m);
    assert (a + m)[|a + m| - 1] == m[|m| - 1];
    CollapsedAppend(a + m, b);
  }

  /**
   * A `replaceAll` whose replacement holds only characters `trim()` keeps
   * leaves a last character that `trim()` keeps.
   */
  lemma {:induction false} ReplaceKeepsLast(s: string, p: string, rep: string)
    requires p != [] && rep != []
    requires forall k :: 0 <= k < |rep| ==> !IsTrimmable(rep[k])
    requires LastKept(s)
    ensures LastKept(ReplaceAll(s, p, rep))
    decreases |s|
  {
    match IndexOf(s, p, 0)
    case None =>
    case Some(j) =>
      var pre, tail := s[..j], s[j + |p|..];
      var rest := ReplaceAll(tail, p, rep);
      assert rest == [] || LastKept(rest) by {
        if tail != [] {
          assert tail[|tail| - 1] == s[|s| - 1];
          ReplaceKeepsLast(tail, p, rep);
        } else {
          assert IndexOf(tail, p, 0).None?;
        }
      }
      assert LastKept(rep) by {
        assert !IsTrimmable(rep[|rep| - 1]);
      }
      LastKeptJoin(pre, rep, rest);
      assert ReplaceAll(s, p, rep) == pre + rep + rest;
  }

  lemma LastKeptJoin(a: string, m: string, b: string)
    requires LastKept(m) && (b == [] || LastKept(b))
    ensures LastKept(a + m + b)
  {
    if b == [] {
      assert a + m + b == a + m;
    }
  }

  /** `s` is non-empty and `trim()` keeps its last character. */
  predicate LastKept(s: string) {
    s != [] && !IsTrimmable(s[|s| - 1])
  }

  /** `Trimmed` and `Collapsed` survive such a `replaceAll`. */
  lemma ReplaceKeepsTidy(s: string, p: string, rep: string)
    requires p != [] && rep != []
    requires forall k :: 0 <= k < |rep| ==> !IsTrimmable(rep[k])
    requires Trimmed(s) && Collapsed(s)
    ensures Trimmed(ReplaceAll(s, p, rep)) && Collapsed(ReplaceAll(s, p, rep))
  {
    ReplaceKeepsCollapsed(s, p, rep);
    if s != [] {
      ReplaceKeepsLast(s, p, rep);
    }
  }
}
