/**
 * The extracted document and its fan-out into table rows: one row per
 * topic, or one row without a category when the document has no topic list.
 */
module Documents {

  import opened Wrappers

  /**
   * One row of the `reuters_sgm` table. A `null` category, title or body
   * bound to the insert statement is `None`.
   */
  datatype Row = Row(category: Option<string>, title: Option<string>, body: Option<string>)

  /** The fields of a document as values: each is `None` while the Java field is `null`. */
  datatype Doc = Doc(title: Option<string>, body: Option<string>, topics: Option<seq<string>>)

  /** A document as `new Document()` leaves it: every field `null`. */
  const EmptyDoc := Doc(None, None, None)

  /** The rows inserted for the topics `ts`, one per topic, in list order. */
  function TopicRows(ts: seq<string>, title: Option<string>, body: Option<string>): seq<Row>
  {
    if ts == [] then []
    else TopicRows(ts[..|ts| - 1], title, body) + [Row(Some(ts[|ts| - 1]), title, body)]
  }

  /** The rows `writeToDb` inserts for `d`. */
  function FanOut(d: Doc): seq<Row> {
    match d.topics
    case None => [Row(None, d.title, d.body)]
    case Some(ts) => TopicRows(ts, d.title, d.body)
  }

  /** The k-th topic row carries the k-th topic and the document's title and body. */
  lemma {:induction false} TopicRowsAt(ts: seq<string>, title: Option<string>, body: Option<string>)
    ensures |TopicRows(ts, title, body)| == |ts|
    ensures forall k :: 0 <= k < |ts| ==> TopicRows(ts, title, body)[k] == Row(Some(ts[k]), title, body)
    decreases |ts|
  {
    if ts != [] {
      TopicRowsAt(ts[..|ts| - 1], title, body);
    }
  }

  /**
   * Without a topic list, exactly one row is written, with no category and
   * the document's title and body.
   */
  lemma FanOutNoTopics(d: Doc)
    requires d.topics.None?
    ensures FanOut(d) == [Row(None, d.title, d.body)]
  {
  }

  /**
   * With a topic list, exactly one row per topic is written, the k-th with
   * the k-th topic and the same title and body; an empty list writes nothing.
   */
  lemma FanOutTopics(d: Doc)
    requires d.topics.Some?
    ensures |FanOut(d)| == |d.topics.value|
    ensures forall k :: 0 <= k < |FanOut(d)| ==>
      FanOut(d)[k] == Row(Some(d.topics.value[k]), d.title, d.body)
    ensures d.topics.value == [] ==> FanOut(d) == []
  {
    TopicRowsAt(d.topics.value, d.title, d.body);
  }

  /** Every row written for a document carries its title and body unchanged. */
  lemma FanOutCopiesText(d: Doc)
    ensures forall r :: r in FanOut(d) ==> r.title == d.title && r.body == d.body
  {
    if d.topics.Some? {
      TopicRowsAt(d.topics.value, d.title, d.body);
    }
  }

  /**
   * The database table, as far as the extraction sees it: the rows inserted
   * so far, in order.
   */
  class Sink {
    var rows: seq<Row>

    constructor ()
      ensures rows == []
    {
      rows := [];
    }

    /** `pstmt.execute()` of one insert statement. */
    method Insert(row: Row)
      modifies this
      ensures rows == old(rows) + [row]
    {
      rows := rows + [row];
    }
  }

  /**
   * The inner class `Document`: a plain record whose fields the extraction
   * overwrites in place.
   */
  class Document {
    var title: Option<string>
    var body: Option<string>
    var topics: Option<seq<string>>

    constructor ()
      ensures Value() == EmptyDoc
    {
      title, body, topics := None, None, None;
    }

    /** The document's fields as a value. */
    function Value(): Doc
      reads this
    {
      Doc(title, body, topics)
    }

    /**
     * `writeToDb()`: one insert without a category when `topics` is `null`,
     * otherwise one insert per topic in list order.
     */
    method WriteToDb(sink: Sink)
      modifies sink
      ensures sink.rows == old(sink.rows) + FanOut(Value())
    {
      match topics {
        case None =>
          sink.Insert(Row(None, title, body));
        case Some(ts) =>
          var i := 0;
          while i < |ts|
            invariant 0 <= i <= |ts|
            invariant sink.rows == old(sink.rows) + TopicRows(ts[..i], title, body)
          {
            assert ts[..i + 1][..i] == ts[..i];
            sink.Insert(Row(Some(ts[i]), title, body));
            i := i + 1;
          }
          assert ts[..i] == ts;
      }
    }
  }
}
