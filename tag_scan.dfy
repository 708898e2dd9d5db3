/**
 * `Pattern.compile("<NAME>(.*?)</NAME>").matcher(s)` and its `find()` loop,
 * for a literal tag name: find the opening tag, then the first closing tag
 * after it that the lazy `(.*?)` can reach without crossing a line
 * terminator.
 */
module TagScan {

  import opened Wrappers
  import opened JavaStrings

  /**
   * A literal markup tag pair, such as `<TITLE>` and `</TITLE>`: the pattern
   * `<TITLE>(.*?)</TITLE>` is the opening tag, a lazy group, the closing tag.
   */
  datatype Tag = Tag(open: string, close: string) {

    /** Both tags are non-empty and begin with '<', as every tag of the corpus does. */
    predicate Valid() {
      open != [] && open[0] == '<' && close != [] && close[0] == '<'
    }
  }

  /**
   * One successful `find()`: the whole match is `s[start..end]`, group 1 is
   * `s[capStart..capEnd]`.
   */
  datatype Match = Match(start: nat, capStart: nat, capEnd: nat, end: nat)

  /** `m` spans an opening tag, a group and a closing tag inside `s`. */
  predicate Shaped(s: string, m: Match, t: Tag) {
    m.start + |t.open| == m.capStart <= m.capEnd &&
    m.capEnd + |t.close| == m.end <= |s|
  }

  predicate NoTerminator(s: string) {
    forall k :: 0 <= k < |s| ==> !IsLineTerminator(s[k])
  }

  /**
   * `m` is a match of `<NAME>(.*?)</NAME>` in `s` as the regex engine
   * reports it: the opening tag, a group without line terminators, and the
   * closing tag at the first place the lazy group could stop.
   */
  predicate IsMatch(s: string, m: Match, t: Tag) {
    Shaped(s, m, t) &&
    OccursAt(s, t.open, m.start) &&
    OccursAt(s, t.close, m.capEnd) &&
    NoTerminator(s[m.capStart..m.capEnd]) &&
    forall k :: m.capStart <= k < m.capEnd ==> !OccursAt(s, t.close, k)
  }

  /**
   * Where the lazy `(.*?)` begun at `j` stops: the first position from `j` on
   * where `close` begins, provided no line terminator lies before it.
   */
  function LazyClose(s: string, j: nat, close: string): (r: Option<nat>)
    requires j <= |s|
    decreases |s| - j
    ensures r.Some? ==> j <= r.value && r.value + |close| <= |s|
  {
    if OccursAt(s, close, j) then Some(j)
    else if j == |s| || IsLineTerminator(s[j]) then None
    else LazyClose(s, j + 1, close)
  }

  /**
   * When the lazy `(.*?)` succeeds, the closing tag is where it stopped, and
   * nothing before it is a line terminator or the start of a closing tag.
   */
  lemma {:induction false} LazyCloseSome(s: string, j: nat, close: string)
    requires j <= |s| && LazyClose(s, j, close).Some?
    ensures OccursAt(s, close, LazyClose(s, j, close).value)
    ensures forall k :: j <= k < LazyClose(s, j, close).value ==> !IsLineTerminator(s[k])
    ensures forall k :: j <= k < LazyClose(s, j, close).value ==> !OccursAt(s, close, k)
    decreases |s| - j
  {
    if !OccursAt(s, close, j) {
      LazyCloseSome(s, j + 1, close);
    }
  }

  /**
   * When the lazy `(.*?)` fails, no closing tag can be reached from `j`
   * without crossing a line terminator.
   */
  lemma {:induction false} LazyCloseNone(s: string, j: nat, close: string, k: nat)
    requires j <= k <= |s| && NoTerminator(s[j..k])
    requires LazyClose(s, j, close).None?
    ensures !OccursAt(s, close, k)
    decreases k - j
  {
    if k > j {
      assert s[j] == s[j..k][0];
      assert NoTerminator(s[j + 1..k]) by {
        var u, w := s[j + 1..k], s[j..k];
        forall i | 0 <= i < |u| ensures !IsLineTerminator(u[i]) {
          assert u[i] == w[i + 1];
        }
      }
      LazyCloseNone(s, j + 1, close, k);
    }
  }

  /** The match that starts exactly at `i`, if there is one. */
  function MatchAt(s: string, i: nat, t: Tag): (r: Option<Match>)
    requires i <= |s|
    ensures r.Some? ==> r.value.start == i && Shaped(s, r.value, t)
  {
    if OccursAt(s, t.open, i) then
      match LazyClose(s, i + |t.open|, t.close)
      case None => None
      case Some(e) => Some(Match(i, i + |t.open|, e, e + |t.close|))
    else None
  }

  /** What `MatchAt` reports is a match in the regex engine's sense. */
  lemma MatchAtSound(s: string, i: nat, t: Tag)
    requires i <= |s| && MatchAt(s, i, t).Some?
    ensures IsMatch(s, MatchAt(s, i, t).value, t)
  {
    var m := MatchAt(s, i, t).value;
    LazyCloseSome(s, m.capStart, t.close);
    var c := s[m.capStart..m.capEnd];
    forall k | 0 <= k < |c|
      ensures !IsLineTerminator(c[k])
    {
      assert c[k] == s[m.capStart + k];
    }
  }

  /** `MatchAt` misses no match in the regex engine's sense. */
  lemma MatchAtComplete(s: string, m: Match, t: Tag)
    requires IsMatch(s, m, t)
    ensures MatchAt(s, m.start, t) == Some(m)
  {
    var c := t.close;
    var r := LazyClose(s, m.capStart, c);
    if r.None? {
      LazyCloseNone(s, m.capStart, c, m.capEnd);
    } else {
      LazyCloseSome(s, m.capStart, c);
      assert r.value <= m.capEnd;
      assert !(r.value < m.capEnd);
    }
  }

  /** `find()` resumed at `from`: the leftmost match that starts at or after `from`. */
  function FindNext(s: string, from: nat, t: Tag): (r: Option<Match>)
    requires from <= |s|
    decreases |s| - from
    ensures r.Some? ==> from <= r.value.start && Shaped(s, r.value, t)
  {
    if MatchAt(s, from, t).Some? then MatchAt(s, from, t)
    else if from == |s| then None
    else FindNext(s, from + 1, t)
  }

  /** What `find()` reports is the match starting where it says. */
  lemma {:induction false} FindNextAt(s: string, from: nat, t: Tag)
    requires from <= |s| && FindNext(s, from, t).Some?
    ensures FindNext(s, from, t).value.start <= |s|
    ensures MatchAt(s, FindNext(s, from, t).value.start, t) == FindNext(s, from, t)
    decreases |s| - from
  {
    if MatchAt(s, from, t).None? {
      FindNextAt(s, from + 1, t);
    }
  }

  /** What `find()` reports is a match in the regex engine's sense. */
  lemma FindNextSound(s: string, from: nat, t: Tag)
    requires from <= |s| && FindNext(s, from, t).Some?
    ensures IsMatch(s, FindNext(s, from, t).value, t)
  {
    FindNextAt(s, from, t);
    MatchAtSound(s, FindNext(s, from, t).value.start, t);
  }

  /**
   * `find()` reports the leftmost match: none starts between `from` and the
   * one reported, and when nothing is reported none starts anywhere after `from`.
   */
  lemma {:induction false} FindNextLeftmost(s: string, from: nat, t: Tag)
    requires from <= |s|
    ensures FindNext(s, from, t).Some? ==>
      forall i :: from <= i < FindNext(s, from, t).value.start ==> MatchAt(s, i, t).None?
    ensures FindNext(s, from, t).None? ==> forall i :: from <= i <= |s| ==> MatchAt(s, i, t).None?
    decreases |s| - from
  {
    if MatchAt(s, from, t).None? && from < |s| {
      FindNextLeftmost(s, from + 1, t);
    }
  }

  /**
   * The group-1 captures of the successive `find()` calls from `from`, in the
   * order they are found.
   */
  function CapturesFrom(s: string, from: nat, t: Tag): (r: seq<string>)
    requires t.Valid() && from <= |s|
    decreases |s| - from
  {
    match FindNext(s, from, t)
    case None => []
    case Some(m) => [s[m.capStart..m.capEnd]] + CapturesFrom(s, m.end, t)
  }

  /** The captures of a whole `while (matcher.find())` loop over `s`. */
  function Captures(s: string, t: Tag): seq<string>
    requires t.Valid()
  {
    CapturesFrom(s, 0, t)
  }

  /**
   * One turn of a `while (matcher.find())` loop: either nothing more is
   * found, or the match found lies ahead of `from`, and its group is the
   * next capture, after which scanning resumes at the match's end.
   */
  lemma FindLoopStep(s: string, from: nat, t: Tag)
    requires t.Valid() && from <= |s|
    ensures FindNext(s, from, t).None? ==> CapturesFrom(s, from, t) == []
    ensures FindNext(s, from, t).Some? ==>
      var m := FindNext(s, from, t).value;
      from < m.end <= |s| && m.capStart <= m.capEnd <= |s| &&
      CapturesFrom(s, from, t) == [s[m.capStart..m.capEnd]] + CapturesFrom(s, m.end, t)
  {
  }

  /** A capture holds no line terminator and no closing tag. */
  lemma CaptureClean(s: string, m: Match, t: Tag)
    requires t.Valid() && IsMatch(s, m, t)
    ensures NoTerminator(s[m.capStart..m.capEnd]) && !Contains(s[m.capStart..m.capEnd], t.close)
  {
    var c, close := s[m.capStart..m.capEnd], t.close;
    forall k | 0 <= k <= |c|
      ensures !OccursAt(c, close, k)
    {
      if OccursAt(c, close, k) {
        OccursInSlice(s, m.capStart, m.capEnd, close, k);
        assert false;
      }
    }
  }

  /** Every capture of the `find()` loop holds no line terminator and no closing tag. */
  lemma {:induction false} CapturesClean(s: string, from: nat, t: Tag)
    requires t.Valid() && from <= |s|
    ensures forall c :: c in CapturesFrom(s, from, t) ==> NoTerminator(c) && !Contains(c, t.close)
    decreases |s| - from
  {
    match FindNext(s, from, t)
    case None =>
    case Some(m) =>
      CapturesClean(s, m.end, t);
      FindNextSound(s, from, t);
      CaptureClean(s, m, t);
  }

  /** Text that cannot begin a tag: it holds no '<'. */
  predicate NoAngle(s: string) {
    forall k :: 0 <= k < |s| ==> s[k] != '<'
  }

  /** Text that can stand inside a capture and cannot begin a tag. */
  predicate Plain(s: string) {
    NoAngle(s) && NoTerminator(s)
  }

  /** Where no opening tag begins, `find()` moves on to the next position. */
  lemma NoMatchStep(s: string, from: nat, t: Tag)
    requires from < |s| && !OccursAt(s, t.open, from)
    ensures FindNext(s, from, t) == FindNext(s, from + 1, t)
  {
    assert MatchAt(s, from, t).None?;
  }

  /** `find()` passes over text without a '<' without finding anything there. */
  lemma {:induction false} FindNextSkips(s: string, from: nat, n: nat, t: Tag)
    requires t.Valid()
    requires from + n <= |s|
    requires NoAngle(s[from..from + n])
    ensures FindNext(s, from, t) == FindNext(s, from + n, t)
    decreases n
  {
    if n > 0 {
      var o := t.open;
      assert s[from] == s[from..from + n][0];
      assert from + |o| <= |s| ==> s[from..from + |o|][0] == s[from];
      assert NoAngle(s[from + 1..from + n]) by {
        var u, w := s[from + 1..from + n], s[from..from + n];
        forall k | 0 <= k < |u| ensures u[k] != '<' {
          assert u[k] == w[k + 1];
        }
      }
      NoMatchStep(s, from, t);
      FindNextSkips(s, from + 1, n - 1, t);
    }
  }

  /** The match of a block that starts at `p` and holds `n` characters between its tags. */
  function Block(p: nat, n: nat, t: Tag): (m: Match)
    ensures m.start == p && m.capEnd - m.capStart == n && m.end == p + |t.open| + n + |t.close|
  {
    Match(p, p + |t.open|, p + |t.open| + n, p + |t.open| + n + |t.close|)
  }

  /** A tagged block with plain content is a match, and `MatchAt` reports it. */
  lemma BlockMatch(s: string, p: nat, a: string, t: Tag)
    requires t.Valid()
    requires OccursAt(s, t.open, p)
    requires OccursAt(s, a, p + |t.open|)
    requires OccursAt(s, t.close, p + |t.open| + |a|)
    requires Plain(a)
    ensures MatchAt(s, p, t) == Some(Block(p, |a|, t))
  {
    var c := t.close;
    var q := p + |t.open|;
    assert s[q..q + |a|] == a;
    forall k | q <= k < q + |a|
      ensures !OccursAt(s, c, k)
    {
      assert s[k] == a[k - q];
      assert k + |c| <= |s| ==> s[k..k + |c|][0] == s[k];
    }
    MatchAtComplete(s, Block(p, |a|, t), t);
  }

  /** `find()` reports the match at `p` when it resumes there. */
  lemma FoundAt(s: string, p: nat, m: Match, t: Tag)
    requires p <= |s| && MatchAt(s, p, t) == Some(m)
    ensures FindNext(s, p, t) == Some(m)
  {
  }

  /** After `n` characters without a '<', `find()` reports the match that starts there. */
  lemma FoundAfterSkip(s: string, from: nat, n: nat, m: Match, t: Tag)
    requires t.Valid()
    requires from + n <= |s| && NoAngle(s[from..from + n])
    requires MatchAt(s, from + n, t) == Some(m)
    ensures FindNext(s, from, t) == Some(m)
  {
    FindNextSkips(s, from, n, t);
    FoundAt(s, from + n, m, t);
  }

  /**
   * At `from`, `s` holds the gap `gap`, without a '<', then the tagged block
   * `<NAME>a</NAME>` with plain content `a`.
   */
  predicate BlockAt(s: string, from: nat, gap: string, a: string, t: Tag) {
    NoAngle(gap) && Plain(a) &&
    OccursAt(s, gap, from) &&
    OccursAt(s, t.open, from + |gap|) &&
    OccursAt(s, a, from + |gap| + |t.open|) &&
    OccursAt(s, t.close, from + |gap| + |t.open| + |a|)
  }

  /** After tag-free text, `find()` reports the tagged block with plain content that follows. */
  lemma BlockFound(s: string, from: nat, gap: string, a: string, t: Tag)
    requires t.Valid() && BlockAt(s, from, gap, a, t)
    ensures FindNext(s, from, t) == Some(Block(from + |gap|, |a|, t))
  {
    BlockMatch(s, from + |gap|, a, t);
    assert NoAngle(s[from..from + |gap|]);
    FoundAfterSkip(s, from, |gap|, Block(from + |gap|, |a|, t), t);
  }

  /** One `find()` step of the capture loop: the group it reports, then the rest. */
  lemma CapturesStep(s: string, from: nat, m: Match, a: string, e: nat, t: Tag)
    requires t.Valid()
    requires from <= |s| && FindNext(s, from, t) == Some(m)
    requires m.capStart <= m.capEnd <= |s| && s[m.capStart..m.capEnd] == a && m.end == e
    ensures e <= |s|
    ensures CapturesFrom(s, from, t) == [a] + CapturesFrom(s, e, t)
  {
  }

  /** No '<' from `from` on: no match, no capture. */
  lemma NoAngleNoCaptures(s: string, from: nat, t: Tag)
    requires t.Valid()
    requires from <= |s| && NoAngle(s[from..])
    ensures CapturesFrom(s, from, t) == []
  {
    assert s[from..|s|] == s[from..];
    FindNextSkips(s, from, |s| - from, t);
    assert MatchAt(s, |s|, t).None?;
  }

  /** The length of one block: its gap, its tags and its content. */
  function BlockLength(gap: string, a: string, t: Tag): nat {
    |gap| + |t.open| + |a| + |t.close|
  }

  /**
   * Text laid out as blocks `gaps[0] <NAME>items[0]</NAME> gaps[1] <NAME>items[1]</NAME> ...`.
   */
  function Layout(gaps: seq<string>, items: seq<string>, t: Tag): string
    requires |gaps| == |items|
  {
    if items == [] then []
    else gaps[0] + t.open + items[0] + t.close + Layout(gaps[1..], items[1..], t)
  }

  /** The parts of a suffix `w + x + y + z + m + b` of `s` stand where their lengths put them. */
  lemma PartsFrom(s: string, from: nat, w: string, x: string, y: string, z: string, m: string, b: string)
    requires from <= |s| && s[from..] == w + x + y + z + m + b
    ensures OccursAt(s, w, from) && OccursAt(s, x, from + |w|)
    ensures OccursAt(s, y, from + |w| + |x|) && OccursAt(s, z, from + |w| + |x| + |y|)
    ensures from + |w| + |x| + |y| + |z| <= |s| && s[from + |w| + |x| + |y| + |z|..] == m + b
  {
    var u := s[from..];
    var i1 := |w|;
    var i2 := i1 + |x|;
    var i3 := i2 + |y|;
    var i4 := i3 + |z|;
    assert s[from..from + i1] == u[..i1] == w;
    assert s[from + i1..from + i2] == u[i1..i2] == x;
    assert s[from + i2..from + i3] == u[i2..i3] == y;
    assert s[from + i3..from + i4] == u[i3..i4] == z;
    assert s[from + i4..] == u[i4..] == m + b;
  }

  /** The first block of a layout standing at `from` is there, and the rest of the layout follows it. */
  lemma LayoutFirst(s: string, from: nat, gaps: seq<string>, items: seq<string>, tail: string, t: Tag)
    requires |gaps| == |items| && items != []
    requires NoAngle(gaps[0]) && Plain(items[0])
    requires from <= |s| && s[from..] == Layout(gaps, items, t) + tail
    ensures BlockAt(s, from, gaps[0], items[0], t)
    ensures from + BlockLength(gaps[0], items[0], t) <= |s|
    ensures s[from + BlockLength(gaps[0], items[0], t)..] == Layout(gaps[1..], items[1..], t) + tail
  {
    PartsFrom(s, from, gaps[0], t.open, items[0], t.close, Layout(gaps[1..], items[1..], t), tail);
  }

  /**
   * A sequence that is the first item followed by the rest of the items is
   * the items; a lemma so that `LaidOutCaptured` sees only these facts here.
   */
  lemma HeadThenRest(all: seq<string>, rest: seq<string>, items: seq<string>)
    requires items != [] && all == [items[0]] + rest && rest == items[1..]
    ensures all == items
  {
    assert items == [items[0]] + items[1..];
  }

  /**
   * From `from` on, `s` holds the blocks `gaps[i] <NAME>items[i]</NAME> ...`
   * from the `i`-th on, one after the other, and then only text without a '<'.
   */
  predicate LaidOut(s: string, from: nat, gaps: seq<string>, items: seq<string>, i: nat, t: Tag)
    requires |gaps| == |items| && i <= |items|
    decreases |items| - i
  {
    if i == |items| then from <= |s| && NoAngle(s[from..])
    else
      BlockAt(s, from, gaps[i], items[i], t) &&
      LaidOut(s, from + BlockLength(gaps[i], items[i], t), gaps, items, i + 1, t)
  }

  /**
   * Text whose suffix from `from` on is the layout of the blocks from the
   * `i`-th on, with tag-free gaps and plain contents, followed by text
   * without a '<', is laid out from `from`.
   */
  lemma {:induction false} LayoutLaidOut(s: string, from: nat, gaps: seq<string>, items: seq<string>, i: nat, tail: string, t: Tag)
    requires |gaps| == |items| && i <= |items|
    requires forall k :: 0 <= k < |gaps| ==> NoAngle(gaps[k]) && Plain(items[k])
    requires NoAngle(tail)
    requires from <= |s| && s[from..] == Layout(gaps[i..], items[i..], t) + tail
    ensures LaidOut(s, from, gaps, items, i, t)
    decreases |items| - i
  {
    if i == |items| {
      assert s[from..] == tail;
    } else {
      var gs, its := gaps[i..], items[i..];
      assert gs[0] == gaps[i] && its[0] == items[i];
      assert gs[1..] == gaps[i + 1..] && its[1..] == items[i + 1..];
      assert NoAngle(gaps[i]) && Plain(items[i]);
      LayoutFirst(s, from, gs, its, tail, t);
      LayoutLaidOut(s, from + BlockLength(gaps[i], items[i], t), gaps, items, i + 1, tail, t);
    }
  }

  /** Scanning laid-out blocks yields exactly the contents of the blocks from the `i`-th on, in order. */
  lemma {:induction false} LaidOutCaptured(s: string, from: nat, gaps: seq<string>, items: seq<string>, i: nat, t: Tag)
    requires t.Valid() && from <= |s|
    requires |gaps| == |items| && i <= |items| && LaidOut(s, from, gaps, items, i, t)
    ensures CapturesFrom(s, from, t) == items[i..]
    decreases |items| - i
  {
    if i == |items| {
      NoAngleNoCaptures(s, from, t);
    } else {
      var gap, a := gaps[i], items[i];
      var next := from + BlockLength(gap, a, t);
      var m := Block(from + |gap|, |a|, t);
      assert FindNext(s, from, t) == Some(m) && m.capEnd <= |s| && s[m.capStart..m.capEnd] == a by {
        BlockFound(s, from, gap, a, t);
      }
      var all, rest := CapturesFrom(s, from, t), CapturesFrom(s, next, t);
      assert all == [items[i..][0]] + rest by {
        CapturesStep(s, from, m, a, next, t);
      }
      assert rest == items[i..][1..] by {
        assert items[i..][1..] == items[i + 1..];
        LaidOutCaptured(s, next, gaps, items, i + 1, t);
      }
      HeadThenRest(all, rest, items[i..]);
    }
  }

  /**
   * Scanning text laid out as tagged blocks, each after some text without a
   * '<' and with plain content, and followed by more text without a '<',
   * yields exactly the blocks' contents in order.
   */
  lemma LayoutCaptured(gaps: seq<string>, items: seq<string>, tail: string, t: Tag)
    requires t.Valid()
    requires |gaps| == |items|
    requires forall k :: 0 <= k < |gaps| ==> NoAngle(gaps[k]) && Plain(items[k])
    requires NoAngle(tail)
    ensures Captures(Layout(gaps, items, t) + tail, t) == items
  {
    var s := Layout(gaps, items, t) + tail;
    assert s[0..] == s && gaps[0..] == gaps && items[0..] == items;
    LayoutLaidOut(s, 0, gaps, items, 0, tail, t);
    LaidOutCaptured(s, 0, gaps, items, 0, t);
  }
}
