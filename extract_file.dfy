/**
 * `extractFile`: the line loop that accumulates one Reuters record in a
 * buffer, and, on the record's closing line, the pattern loops that fill the
 * document's TITLE, BODY and TOPICS fields before it is written out.
 */
module ExtractFile {

  import opened Wrappers
  import opened JavaStrings
  import opened TagScan
  import opened Normalise
  import opened Documents

  const TitleTag := Tag("<TITLE>", "</TITLE>")
  const BodyTag := Tag("<BODY>", "</BODY>")
  const TopicsTag := Tag("<TOPICS>", "</TOPICS>")
  /** The item pattern `<D>(.*?)</D>` of the multi-valued fields. */
  const ItemTag := Tag("<D>", "</D>")

  /** The marker that opens a record. */
  const OpenMarker := "<REUTERS"
  /** The marker that closes a record. */
  const CloseMarker := "</REUTERS"

  lemma TagsValid()
    ensures TitleTag.Valid() && BodyTag.Valid() && TopicsTag.Valid() && ItemTag.Valid()
  {
  }

  /** The two single-valued fields that the extraction stores. */
  datatype Field = Title | Body {

    function Pattern(): (t: Tag)
      ensures t.Valid()
    {
      match this
      case Title => TitleTag
      case Body => BodyTag
    }

    /** The normalisation applied to a capture before it is stored in the field. */
    function Norm(s: string): string {
      match this
      case Title => NormTitle(s)
      case Body => NormBody(s)
    }

    function Get(d: Doc): Option<string> {
      match this
      case Title => d.title
      case Body => d.body
    }

    function Set(d: Doc, v: Option<string>): Doc {
      match this
      case Title => d.(title := v)
      case Body => d.(body := v)
    }

    /** Setting a field twice keeps the second value only. */
    lemma SetTwice(d: Doc, v: Option<string>, w: Option<string>)
      ensures Set(Set(d, v), w) == Set(d, w)
    {
    }
  }

  /** `document.title = v` or `document.body = v`, as the matched pattern decides. */
  method SetField(doc: Document, f: Field, v: string)
    modifies doc
    ensures doc.Value() == f.Set(old(doc.Value()), Some(v))
  {
    match f {
      case Title => doc.title := Some(v);
      case Body => doc.body := Some(v);
    }
  }

  // ---------------------------------------------------------------------
  // Single-valued fields: every match overwrites the field.
  // ---------------------------------------------------------------------

  /**
   * The field's value after `document.<field> = v` has run for each value
   * `v` of `vals` in turn, starting from `cur`.
   */
  function Overwrite(cur: Option<string>, vals: seq<string>): Option<string>
    decreases |vals|
  {
    if vals == [] then cur else Overwrite(Some(vals[0]), vals[1..])
  }

  /**
   * Last write wins: after the assignments, the field holds the last value,
   * and with no value it keeps the one it had.
   */
  lemma {:induction false} OverwriteLastWins(cur: Option<string>, vals: seq<string>)
    ensures Overwrite(cur, vals) == if vals == [] then cur else Some(vals[|vals| - 1])
    decreases |vals|
  {
    if vals != [] {
      OverwriteLastWins(Some(vals[0]), vals[1..]);
    }
  }

  /** The captures, each normalised for the field. */
  function NormAll(f: Field, caps: seq<string>): (r: seq<string>)
    ensures |r| == |caps| && forall k :: 0 <= k < |caps| ==> r[k] == f.Norm(caps[k])
  {
    seq(|caps|, k requires 0 <= k < |caps| => f.Norm(caps[k]))
  }

  /** The field after the whole `while (matcher.find())` loop over `buffer`. */
  function ScanField(f: Field, buffer: string, d: Doc): Doc {
    f.Set(d, Overwrite(f.Get(d), NormAll(f, Captures(buffer, f.Pattern()))))
  }

  /**
   * Last match wins: the field ends up holding the normalised last capture
   * (an empty capture still overwrites it), and with no match it keeps its
   * old value; the other fields are left alone.
   */
  lemma ScanFieldLastWins(f: Field, buffer: string, d: Doc)
    ensures var caps := Captures(buffer, f.Pattern());
      ScanField(f, buffer, d) == f.Set(d, if caps == [] then f.Get(d) else Some(f.Norm(caps[|caps| - 1])))
  {
    var caps := Captures(buffer, f.Pattern());
    var vals := NormAll(f, caps);
    OverwriteLastWins(f.Get(d), vals);
    assert vals == [] <==> caps == [];
    assert caps != [] ==> vals[|vals| - 1] == f.Norm(caps[|caps| - 1]);
  }

  /** One more value overwrites whatever the field held. */
  lemma OverwriteSnoc(f: Field, cur: Option<string>, done: seq<string>, c: string)
    ensures Overwrite(cur, NormAll(f, done + [c])) == Some(f.Norm(c))
  {
    OverwriteLastWins(cur, NormAll(f, done + [c]));
  }

  // ---------------------------------------------------------------------
  // TOPICS: each non-blank block replaces the topic list with its items.
  // ---------------------------------------------------------------------

  /**
   * Every character of `text` is one `trim()` removes, so that
   * `text.trim().isEmpty()` holds (`BlankIsTrimEmpty`).
   */
  predicate Blank(text: string)
    decreases |text|
  {
    text == [] || (IsTrimmable(text[0]) && Blank(text[1..]))
  }

  lemma {:induction false} BlankAll(text: string)
    ensures Blank(text) <==> forall i :: 0 <= i < |text| ==> IsTrimmable(text[i])
    decreases |text|
  {
    if text != [] {
      BlankAll(text[1..]);
      assert forall i :: 1 <= i < |text| ==> text[i] == text[1..][i - 1];
    }
  }

  /** `Blank` is exactly `text.trim().isEmpty()`. */
  lemma BlankIsTrimEmpty(text: string)
    ensures Blank(text) <==> Trim(text) == []
  {
    BlankAll(text);
  }

  /**
   * The topic list after the TOPICS loop has handled the blocks `blocks` in
   * turn, starting from `cur`: a blank block changes nothing, any other
   * block replaces the list with the block's `<D>` items.
   */
  function TopicsAfter(cur: Option<seq<string>>, blocks: seq<string>): Option<seq<string>>
    decreases |blocks|
  {
    if blocks == [] then cur
    else TopicsAfter(TopicsNext(cur, blocks[0]), blocks[1..])
  }

  /** What handling one more TOPICS block does to the topic list `cur`. */
  function TopicsNext(cur: Option<seq<string>>, block: string): Option<seq<string>> {
    if Blank(block) then cur else Some(Captures(block, ItemTag))
  }

  /**
   * The last block of `blocks` that is not blank, if there is one: a block
   * at some position `i` that is not blank, after which every block is blank.
   */
  function LastNonBlank(blocks: seq<string>): (r: Option<string>)
    decreases |blocks|
    ensures r.Some? ==> !Blank(r.value)
    ensures r.Some? ==> exists i :: 0 <= i < |blocks| && blocks[i] == r.value && AllBlankAfter(blocks, i)
    ensures r.None? ==> forall b :: b in blocks ==> Blank(b)
  {
    if blocks == [] then None
    else
      var rest := LastNonBlank(blocks[1..]);
      assert blocks == [blocks[0]] + blocks[1..];
      if rest.Some? then
        ghost var i :| 0 <= i < |blocks[1..]| && blocks[1..][i] == rest.value && AllBlankAfter(blocks[1..], i);
        ShiftBlankAfter(blocks, i);
        rest
      else if Blank(blocks[0]) then None
      else
        assert AllBlankAfter(blocks, 0) by {
          forall k | 0 < k < |blocks| ensures Blank(blocks[k]) {
            assert blocks[k] in blocks[1..];
          }
        }
        Some(blocks[0])
  }

  /** Every block after position `i` is blank. */
  predicate AllBlankAfter(blocks: seq<string>, i: nat) {
    forall k :: i < k < |blocks| ==> Blank(blocks[k])
  }

  lemma ShiftBlankAfter(blocks: seq<string>, i: nat)
    requires blocks != [] && i < |blocks| - 1 && AllBlankAfter(blocks[1..], i)
    ensures blocks[i + 1] == blocks[1..][i] && AllBlankAfter(blocks, i + 1)
  {
    forall k | i + 1 < k < |blocks| ensures Blank(blocks[k]) {
      assert blocks[k] == blocks[1..][k - 1];
    }
  }

  /**
   * The last non-blank TOPICS block wins: the list holds its items in source
   * order, and when every block is blank the list is left as it was.
   */
  lemma {:induction false} TopicsLastNonBlank(cur: Option<seq<string>>, blocks: seq<string>)
    ensures TopicsAfter(cur, blocks) ==
      match LastNonBlank(blocks)
      case None => cur
      case Some(b) => Some(Captures(b, ItemTag))
    decreases |blocks|
  {
    if blocks != [] {
      TopicsLastNonBlank(TopicsNext(cur, blocks[0]), blocks[1..]);
    }
  }

  /** One more block: a blank one changes nothing, another one decides the list. */
  lemma {:induction false} TopicsSnoc(cur: Option<seq<string>>, blocks: seq<string>, b: string)
    ensures TopicsAfter(cur, blocks + [b]) == TopicsNext(TopicsAfter(cur, blocks), b)
    decreases |blocks|
  {
    if blocks == [] {
      assert blocks + [b] == [b];
    } else {
      assert (blocks + [b])[1..] == blocks[1..] + [b];
      TopicsSnoc(TopicsNext(cur, blocks[0]), blocks[1..], b);
    }
  }

  /** The topic list after the whole TOPICS loop over `buffer`. */
  function ScanTopics(buffer: string, d: Doc): Doc {
    d.(topics := TopicsAfter(d.topics, Captures(buffer, TopicsTag)))
  }

  /** What the closing line's pattern loops make of the document. */
  function Extracted(buffer: string, d: Doc): Doc {
    ScanTopics(buffer, ScanField(Body, buffer, ScanField(Title, buffer, d)))
  }

  /**
   * A document is written on its closing line iff its body is not `null`
   * afterwards, i.e. it had a body before or the buffer holds a BODY block
   * (an empty one counts).
   */
  lemma BodyDecidesWrite(buffer: string, d: Doc)
    ensures Extracted(buffer, d).body.Some? <==> d.body.Some? || Captures(buffer, BodyTag) != []
  {
    OverwriteLastWins(d.body, NormAll(Body, Captures(buffer, BodyTag)));
  }

  // ---------------------------------------------------------------------
  // The `find()` loops, as the Java code runs them.
  // ---------------------------------------------------------------------

  /**
   * `while (mat.find()) values.add(mat.group(1))` over a TOPICS block: the
   * `<D>` items in source order.
   */
  method CollectItems(text: string) returns (values: seq<string>)
    ensures values == Captures(text, ItemTag)
  {
    TagsValid();
    values := [];
    var from := 0;
    while true
      invariant from <= |text|
      invariant Captures(text, ItemTag) == values + CapturesFrom(text, from, ItemTag)
      decreases |text| - from
    {
      FindLoopStep(text, from, ItemTag);
      var found := FindNext(text, from, ItemTag);
      if found.None? {
        return;
      }
      var m := found.value;
      var item := text[m.capStart..m.capEnd];
      assert Captures(text, ItemTag) == (values + [item]) + CapturesFrom(text, m.end, ItemTag) by {
        Regroup(Captures(text, ItemTag), values, CapturesFrom(text, from, ItemTag), item,
                CapturesFrom(text, m.end, ItemTag));
      }
      values := values + [item];
      from := m.end;
    }
  }

  /**
   * The captures seen so far, with one more, followed by the ones still to
   * come. Kept as a lemma so that the loops using it reason about sequences
   * without the rest of their context.
   */
  lemma Regroup(all: seq<string>, done: seq<string>, rest: seq<string>, x: string, tail: seq<string>)
    requires all == done + rest && rest == [x] + tail
    ensures all == (done + [x]) + tail
  {
  }

  /**
   * The `while (matcher.find())` loop of one single-valued pattern: every
   * match overwrites the field with its normalised capture.
   */
  method ScanFieldInto(f: Field, buffer: string, doc: Document)
    modifies doc
    ensures doc.Value() == ScanField(f, buffer, old(doc.Value()))
  {
    ghost var d := doc.Value();
    ghost var done: seq<string> := [];
    var t := f.Pattern();
    var from := 0;
    while true
      invariant from <= |buffer|
      invariant Captures(buffer, t) == done + CapturesFrom(buffer, from, t)
      invariant doc.Value() == f.Set(d, Overwrite(f.Get(d), NormAll(f, done)))
      decreases |buffer| - from
    {
      FindLoopStep(buffer, from, t);
      var found := FindNext(buffer, from, t);
      if found.None? {
        assert done + [] == done;
        return;
      }
      var m := found.value;
      var group := buffer[m.capStart..m.capEnd];
      Regroup(Captures(buffer, t), done, CapturesFrom(buffer, from, t), group, CapturesFrom(buffer, m.end, t));
      var v := f.Norm(group);
      ghost var before := Overwrite(f.Get(d), NormAll(f, done));
      SetField(doc, f, v);
      OverwriteSnoc(f, f.Get(d), done, group);
      f.SetTwice(d, before, Some(v));
      done := done + [group];
      from := m.end;
    }
  }

  /**
   * One TOPICS block: unless it is blank after `trim()`, its `<D>` items
   * replace `document.topics`.
   */
  method TopicsBlockInto(text: string, doc: Document)
    modifies doc
    ensures doc.Value() ==
      old(doc.Value()).(topics := if Blank(text) then old(doc.topics) else Some(Captures(text, ItemTag)))
  {
    var trimmed := Trim(text);
    BlankIsTrimEmpty(text);
    if trimmed != [] {
      var values := CollectItems(text);
      doc.topics := Some(values);
    }
  }

  /**
   * The TOPICS loop: each block that is not blank after `trim()` has its
   * `<D>` items collected, and the list replaces `document.topics`.
   */
  method ScanTopicsInto(buffer: string, doc: Document)
    modifies doc
    ensures doc.Value() == ScanTopics(buffer, old(doc.Value()))
  {
    TagsValid();
    ghost var d := doc.Value();
    ghost var done: seq<string> := [];
    var from := 0;
    while true
      invariant from <= |buffer|
      invariant Captures(buffer, TopicsTag) == done + CapturesFrom(buffer, from, TopicsTag)
      invariant doc.title == d.title && doc.body == d.body
      invariant doc.topics == TopicsAfter(d.topics, done)
      decreases |buffer| - from
    {
      FindLoopStep(buffer, from, TopicsTag);
      var found := FindNext(buffer, from, TopicsTag);
      if found.None? {
        assert done + [] == done;
        return;
      }
      var m := found.value;
      var text := buffer[m.capStart..m.capEnd];
      assert Captures(buffer, TopicsTag) == (done + [text]) + CapturesFrom(buffer, m.end, TopicsTag) by {
        Regroup(Captures(buffer, TopicsTag), done, CapturesFrom(buffer, from, TopicsTag), text,
                CapturesFrom(buffer, m.end, TopicsTag));
      }
      assert TopicsAfter(d.topics, done + [text]) == TopicsNext(doc.topics, text) by {
        TopicsSnoc(d.topics, done, text);
      }
      TopicsBlockInto(text, doc);
      done := done + [text];
      from := m.end;
    }
  }

  /** The pattern loops of the closing line, in the order the Java code runs them. */
  method ExtractInto(buffer: string, doc: Document)
    modifies doc
    ensures doc.Value() == Extracted(buffer, old(doc.Value()))
  {
    ScanFieldInto(Title, buffer, doc);
    ScanFieldInto(Body, buffer, doc);
    ScanTopicsInto(buffer, doc);
  }

  // ---------------------------------------------------------------------
  // The line loop.
  // ---------------------------------------------------------------------

  /**
   * Where the line loop stands: the accumulated buffer, the current
   * document (`None` while the variable is `null`), the rows written so far,
   * and whether the loop has stopped on a `NullPointerException`.
   */
  datatype Run = Run(buffer: string, doc: Option<Doc>, rows: seq<Row>, failed: bool)

  const Start := Run([], None, [], false)

  /** `line.indexOf("</REUTERS") != -1`. */
  predicate IsClose(line: string) {
    Contains(line, CloseMarker)
  }

  /** `line.contains("<REUTERS")`. */
  predicate IsOpen(line: string) {
    Contains(line, OpenMarker)
  }

  /** The rows the closing line writes for the extracted document `d`. */
  function Written(d: Doc): seq<Row> {
    if d.body.Some? then FanOut(d) else []
  }

  /** One pass of the loop body for `line`. */
  function Step(r: Run, line: string): Run {
    if r.failed then r
    else if !IsClose(line) then
      r.(buffer := r.buffer + line + " ", doc := if IsOpen(line) then Some(EmptyDoc) else r.doc)
    else
      match r.doc
      case None => r.(failed := true)
      case Some(d) =>
        var e := Extracted(r.buffer, d);
        Run([], Some(e), r.rows + Written(e), false)
  }

  /** The loop after reading `lines` in order. */
  function RunLines(lines: seq<string>): Run {
    if lines == [] then Start
    else Step(RunLines(lines[..|lines| - 1]), lines[|lines| - 1])
  }

  /** The run `r` with the rows `base` written before it started. */
  function Rebase(r: Run, base: seq<Row>): Run {
    r.(rows := base + r.rows)
  }

  /** A step that does not fail is the same whatever rows were written before. */
  lemma StepRebase(r: Run, line: string, base: seq<Row>)
    requires !Step(r, line).failed
    ensures Step(Rebase(r, base), line) == Rebase(Step(r, line), base)
  {
    if IsClose(line) {
      var e := Extracted(r.buffer, r.doc.value);
      assert (base + r.rows) + Written(e) == base + (r.rows + Written(e));
    }
  }

  /**
   * The state `extractFile` keeps across lines: the `StringBuilder buffer`
   * and the `document` variable, which is `null` until the first line that
   * opens a record.
   */
  class Assembler {
    var buffer: string
    var document: Document?

    constructor ()
      ensures buffer == [] && document == null
    {
      buffer, document := [], null;
    }

    /** The loop's state with the rows written to `sink` so far. */
    function State(sink: Sink): Run
      reads this, document, sink
    {
      Run(buffer, if document == null then None else Some(document.Value()), sink.rows, false)
    }

    /**
     * One pass of the `while (readLine)` loop body. A line without
     * `</REUTERS` is appended with one space and, when it holds `<REUTERS`,
     * starts a new document. A line with `</REUTERS` runs the pattern loops
     * over the buffer, writes the document when its body is not `null`, and
     * empties the buffer; with no document yet, it fails (`ok` is `false`)
     * as the Java code throws a `NullPointerException`, and changes nothing.
     */
    method Feed(line: string, sink: Sink) returns (ok: bool)
      modifies this, document, sink
      ensures ok == !Step(old(State(sink)), line).failed
      ensures ok ==> State(sink) == Step(old(State(sink)), line)
      ensures !ok ==> sink.rows == old(sink.rows)
      ensures document != old(document) ==> fresh(document)
    {
      ghost var run := State(sink);
      if IndexOf(line, CloseMarker, 0).None? {
        StepContinue(run, line);
        buffer := buffer + line + " ";
        if IndexOf(line, OpenMarker, 0).Some? {
          document := new Document();
        }
        return true;
      }
      if document == null {
        return false;
      }
      StepClose(run, line);
      ExtractInto(buffer, document);
      if document.body.Some? {
        document.WriteToDb(sink);
      }
      buffer := [];
      return true;
    }
  }

  /**
   * `extractFile` over the lines of one file: returns `false` when a closing
   * line arrives while no document has been opened, which throws in Java;
   * the rows inserted before that stay inserted.
   */
  method ExtractLines(lines: seq<string>, sink: Sink) returns (ok: bool)
    modifies sink
    ensures ok == !RunLines(lines).failed
    ensures sink.rows == old(sink.rows) + RunLines(lines).rows
  {
    var asm := new Assembler();
    var i := 0;
    while i < |lines|
      invariant 0 <= i <= |lines|
      invariant !RunLines(lines[..i]).failed
      invariant asm.document != null ==> fresh(asm.document)
      invariant asm.State(sink) == Rebase(RunLines(lines[..i]), old(sink.rows))
    {
      ghost var run := RunLines(lines[..i]);
      assert RunLines(lines[..i + 1]) == Step(run, lines[i]) by {
        assert lines[..i + 1][..i] == lines[..i];
      }
      ok := asm.Feed(lines[i], sink);
      if !ok {
        FailureStays(lines, i + 1);
        assert lines[..|lines|] == lines;
        return false;
      }
      StepRebase(run, lines[i], old(sink.rows));
      i := i + 1;
    }
    assert lines[..i] == lines;
    return true;
  }

  /** A line that does not close a record is appended to the buffer with one space. */
  lemma StepContinue(r: Run, line: string)
    requires !r.failed && !IsClose(line)
    ensures Step(r, line) ==
      Run(r.buffer + line + " ", if IsOpen(line) then Some(EmptyDoc) else r.doc, r.rows, false)
  {
  }

  /** A closing line extracts into the current document, writes it, and empties the buffer. */
  lemma StepClose(r: Run, line: string)
    requires !r.failed && IsClose(line) && r.doc.Some?
    ensures Step(r, line) ==
      Run([], Some(Extracted(r.buffer, r.doc.value)), r.rows + Written(Extracted(r.buffer, r.doc.value)), false)
  {
  }

  // ---------------------------------------------------------------------
  // Properties of the line loop.
  // ---------------------------------------------------------------------

  /** Once the loop has stopped on an exception, later lines change nothing. */
  lemma {:induction false} FailureStays(lines: seq<string>, n: nat)
    requires n <= |lines| && RunLines(lines[..n]).failed
    ensures RunLines(lines) == RunLines(lines[..n])
    decreases |lines| - n
  {
    if n < |lines| {
      var init := lines[..|lines| - 1];
      assert init[..n] == lines[..n];
      FailureStays(init, n);
    } else {
      assert lines[..n] == lines;
    }
  }

  /** The text a line leaves in the buffer: the line and one space. */
  function Joined(lines: seq<string>): string {
    if lines == [] then [] else Joined(lines[..|lines| - 1]) + lines[|lines| - 1] + " "
  }

  /**
   * Buffer discipline: the buffer holds every line read since the last
   * closing line (all of them if there was none), each followed by exactly
   * one space; a closing line itself is never appended, and right after one
   * the buffer is empty.
   */
  lemma {:induction false} BufferSinceClose(lines: seq<string>, j: nat)
    requires j <= |lines| && !RunLines(lines).failed
    requires j > 0 ==> IsClose(lines[j - 1])
    requires forall k :: j <= k < |lines| ==> !IsClose(lines[k])
    ensures RunLines(lines).buffer == Joined(lines[j..])
    decreases |lines|
  {
    if lines != [] {
      var init := lines[..|lines| - 1];
      var prev := RunLines(init);
      assert !prev.failed;
      if j == |lines| {
        assert IsClose(lines[j - 1]);
        assert lines[j..] == [];
      } else {
        assert init[j..] == lines[j..][..|lines[j..]| - 1];
        BufferSinceClose(init, j);
      }
    }
  }

  /**
   * Document lifetime: right after a line that opens a record (and does not
   * close one) the document is a fresh, empty one.
   */
  lemma OpenStartsDocument(lines: seq<string>)
    requires lines != [] && !RunLines(lines).failed
    requires IsOpen(lines[|lines| - 1]) && !IsClose(lines[|lines| - 1])
    ensures RunLines(lines).doc == Some(EmptyDoc)
  {
  }

  /**
   * A document survives its closing line: a later closing line with no new
   * opening line in between extracts again into the same, already filled,
   * document.
   */
  lemma CloseKeepsDocument(lines: seq<string>)
    requires lines != [] && !RunLines(lines).failed && IsClose(lines[|lines| - 1])
    ensures var prev := RunLines(lines[..|lines| - 1]);
      prev.doc.Some? &&
      RunLines(lines) == Run([], Some(Extracted(prev.buffer, prev.doc.value)),
                             prev.rows + Written(Extracted(prev.buffer, prev.doc.value)), false)
  {
  }

  /**
   * A closing line before any opening line throws: the loop stops, whatever
   * follows.
   */
  lemma {:induction false} CloseBeforeOpenFails(lines: seq<string>, j: nat)
    requires j < |lines| && IsClose(lines[j])
    requires forall k :: 0 <= k < j ==> !IsOpen(lines[k])
    ensures RunLines(lines).failed
  {
    NoOpenNoDocument(lines[..j + 1][..j]);
    assert lines[..j + 1][..j] == lines[..j];
    FailureStays(lines, j + 1);
  }

  /** Once a document exists and the loop has not failed, neither changes: later lines never throw. */
  lemma {:induction false} DocumentStays(lines: seq<string>, n: nat)
    requires n <= |lines| && !RunLines(lines[..n]).failed && RunLines(lines[..n]).doc.Some?
    ensures !RunLines(lines).failed && RunLines(lines).doc.Some?
    decreases |lines| - n
  {
    if n < |lines| {
      var init := lines[..|lines| - 1];
      assert init[..n] == lines[..n];
      DocumentStays(init, n);
    } else {
      assert lines[..n] == lines;
    }
  }

  /**
   * A line that opens a record before any line that closes one rules out the
   * exception: the loop never fails and always has a document afterwards.
   * With `CloseBeforeOpenFails`, the loop fails exactly when its first
   * closing line comes before every opening line.
   */
  lemma {:induction false} OpenBeforeCloseSucceeds(lines: seq<string>, j: nat)
    requires j < |lines| && IsOpen(lines[j]) && !IsClose(lines[j])
    requires forall k :: 0 <= k < j ==> !IsClose(lines[k])
    ensures !RunLines(lines).failed && RunLines(lines).doc.Some?
  {
    NoCloseNoFailure(lines[..j]);
    OpenStep(lines, j);
    DocumentStays(lines, j + 1);
  }

  /** Lines none of which closes a record never throw. */
  lemma {:induction false} NoCloseNoFailure(lines: seq<string>)
    requires forall k :: 0 <= k < |lines| ==> !IsClose(lines[k])
    ensures !RunLines(lines).failed
    decreases |lines|
  {
    if lines != [] {
      NoCloseNoFailure(lines[..|lines| - 1]);
    }
  }

  /** An opening line that does not close a record leaves a document and no failure. */
  lemma {:induction false} OpenStep(lines: seq<string>, j: nat)
    requires j < |lines| && IsOpen(lines[j]) && !IsClose(lines[j])
    requires !RunLines(lines[..j]).failed
    ensures !RunLines(lines[..j + 1]).failed && RunLines(lines[..j + 1]).doc.Some?
  {
    var upto := lines[..j + 1];
    assert upto[..|upto| - 1] == lines[..j];
  }

  lemma {:induction false} NoOpenNoDocument(lines: seq<string>)
    requires forall k :: 0 <= k < |lines| ==> !IsOpen(lines[k])
    ensures RunLines(lines).doc.None?
    decreases |lines|
  {
    if lines != [] {
      NoOpenNoDocument(lines[..|lines| - 1]);
    }
  }

  /**
   * A trailing record without a closing line writes nothing: lines that do
   * not close a record add no row.
   */
  lemma {:induction false} TrailingWritesNothing(lines: seq<string>, tail: seq<string>)
    requires forall k :: 0 <= k < |tail| ==> !IsClose(tail[k])
    ensures RunLines(lines + tail).rows == RunLines(lines).rows
    ensures RunLines(lines + tail).failed == RunLines(lines).failed
    decreases |tail|
  {
    if tail == [] {
      assert lines + tail == lines;
    } else {
      var init := tail[..|tail| - 1];
      assert (lines + tail)[..|lines + tail| - 1] == lines + init;
      TrailingWritesNothing(lines, init);
    }
  }

  /**
   * On a closing line with a document, the rows written are the fan-out of
   * the extracted document when its body is not `null`, and none otherwise.
   */
  lemma CloseWrites(lines: seq<string>)
    requires lines != [] && !RunLines(lines).failed && IsClose(lines[|lines| - 1])
    ensures var prev := RunLines(lines[..|lines| - 1]);
      var e := Extracted(prev.buffer, prev.doc.value);
      RunLines(lines).rows == prev.rows + (if e.body.Some? then FanOut(e) else []) &&
      (e.body.Some? <==> prev.doc.value.body.Some? || Captures(prev.buffer, BodyTag) != [])
  {
    var prev := RunLines(lines[..|lines| - 1]);
    BodyDecidesWrite(prev.buffer, prev.doc.value);
  }
}
