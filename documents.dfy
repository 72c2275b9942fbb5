/**
  The rows the monitoring API returns, the documents derived from them, and
  the lines of a bulk request body. A row with an `agent_version` in its
  metadata yields one document; its version is split on '.' and segments 0
  and 1 become `major` and `minor`; the "Datadog" and "Amazon Web Services"
  tag lists default to empty. In a bulk body every document is preceded by
  one index action naming the target index.
 */
module Documents {
  import opened Text

  const AgentVersionKey := "agent_version"
  const DatadogSource := "Datadog"
  const AwsSource := "Amazon Web Services"
  const RecordKind := "agent-stats"
  const DocType := "_doc"

  /** One entry of the API's `rows`: `host_name`, `meta` and `tags_by_source`. */
  datatype HostRow = HostRow(
    hostName: string,
    meta: map<string, string>,
    tagsBySource: map<string, seq<string>>)

  /** The document indexed for one host (its `type` field is `kind`). */
  datatype Doc = Doc(
    host: string,
    major: string,
    minor: string,
    agentTags: seq<string>,
    awsTags: seq<string>,
    kind: string)

  /** One line of a bulk body: an index action (`_index`, `_type`) or a document. */
  datatype BulkLine = IndexLine(index: string, docType: string) | DocLine(doc: Doc)

  predicate HasVersion(r: HostRow) {
    AgentVersionKey in r.meta
  }

  function VersionParts(r: HostRow): seq<string>
    requires HasVersion(r)
  {
    Split(r.meta[AgentVersionKey], '.')
  }

  /** A row whose version has a second segment, or that has no version at all. */
  predicate WellFormed(r: HostRow) {
    HasVersion(r) ==> |VersionParts(r)| >= 2
  }

  predicate AllWellFormed(rows: seq<HostRow>) {
    forall j :: 0 <= j < |rows| ==> WellFormed(rows[j])
  }

  /** The tags a row lists under `source`, or none when the source is absent. */
  function TagsFrom(r: HostRow, source: string): seq<string> {
    if source in r.tagsBySource then r.tagsBySource[source] else []
  }

  /** The document for a row that has a version with at least two segments. */
  function ToDoc(r: HostRow): Doc
    requires HasVersion(r) && |VersionParts(r)| >= 2
  {
    var version := VersionParts(r);
    Doc(r.hostName, version[0], version[1], TagsFrom(r, DatadogSource), TagsFrom(r, AwsSource), RecordKind)
  }

  /** What one row contributes: its document if it has a version, else nothing. */
  function Contribution(r: HostRow): seq<Doc>
    requires WellFormed(r)
  {
    if HasVersion(r) then [ToDoc(r)] else []
  }

  /** The documents of all rows, in row order. */
  function Docs(rows: seq<HostRow>): seq<Doc>
    requires AllWellFormed(rows)
    decreases |rows|
  {
    if rows == [] then []
    else Docs(rows[..|rows| - 1]) + Contribution(rows[|rows| - 1])
  }

  /** A version yields a document exactly when it contains a '.'. */
  lemma WellFormedIffDot(r: HostRow)
    requires HasVersion(r)
    ensures WellFormed(r) <==> '.' in r.meta[AgentVersionKey]
  {
    SplitHasSecond(r.meta[AgentVersionKey], '.');
  }

  /**
    The fields of a row's document: `host` is the host name, `type` is
    "agent-stats", the tag lists come from their sources or default to empty,
    `major` is the text before the first '.' of the version and `minor` the
    text between the first '.' and the next '.' or the end.
   */
  lemma DocFields(r: HostRow)
    requires HasVersion(r) && '.' in r.meta[AgentVersionKey]
    ensures |VersionParts(r)| >= 2
    ensures var d := ToDoc(r);
      && d.host == r.hostName
      && d.kind == RecordKind
      && (DatadogSource in r.tagsBySource ==> d.agentTags == r.tagsBySource[DatadogSource])
      && (DatadogSource !in r.tagsBySource ==> d.agentTags == [])
      && (AwsSource in r.tagsBySource ==> d.awsTags == r.tagsBySource[AwsSource])
      && (AwsSource !in r.tagsBySource ==> d.awsTags == [])
    ensures var d := ToDoc(r);
      var v := r.meta[AgentVersionKey];
      var n := |d.major| + 1 + |d.minor|;
      && '.' !in d.major && '.' !in d.minor
      && n <= |v| && v[..n] == d.major + "." + d.minor
      && (n < |v| ==> v[n] == '.')
  {
    FirstTwoSegments(r.meta[AgentVersionKey], '.');
  }

  /** A host reporting agent 7.31.0 gets major "7" and minor "31". */
  lemma DocForVersionExample(r: HostRow)
    requires r.meta == map[AgentVersionKey := "7.31.0"]
    ensures WellFormed(r)
    ensures ToDoc(r).major == "7" && ToDoc(r).minor == "31"
  {
    SplitExample();
  }

  lemma {:induction false} DocsAppend(a: seq<HostRow>, b: seq<HostRow>)
    requires AllWellFormed(a) && AllWellFormed(b)
    ensures AllWellFormed(a + b)
    ensures Docs(a + b) == Docs(a) + Docs(b)
    decreases |b|
  {
    if b == [] {
      assert a + b == a;
    } else {
      var init := b[..|b| - 1];
      assert (a + b)[..|a + b| - 1] == a + init;
      assert (a + b)[|a + b| - 1] == b[|b| - 1];
      DocsAppend(a, init);
    }
  }

  /**
    Filtering in order: wherever a row sits, it contributes exactly its own
    document (or nothing, when it has no version) at its own position.
   */
  lemma DocsAround(a: seq<HostRow>, r: HostRow, b: seq<HostRow>)
    requires AllWellFormed(a) && WellFormed(r) && AllWellFormed(b)
    ensures AllWellFormed(a + [r] + b)
    ensures Docs(a + [r] + b) == Docs(a) + Contribution(r) + Docs(b)
  {
    assert Docs([r]) == Contribution(r) by {
      assert [r][..0] == [];
    }
    DocsAppend(a, [r]);
    DocsAppend(a + [r], b);
  }

  /** Every document comes from a row of the input that has a version. */
  lemma {:induction false} DocsProvenance(rows: seq<HostRow>, d: Doc)
    requires AllWellFormed(rows) && d in Docs(rows)
    ensures exists j :: 0 <= j < |rows| && HasVersion(rows[j]) && d == ToDoc(rows[j])
    decreases |rows|
  {
    var init := rows[..|rows| - 1];
    var last := rows[|rows| - 1];
    if d in Docs(init) {
      DocsProvenance(init, d);
      var j :| 0 <= j < |init| && HasVersion(init[j]) && d == ToDoc(init[j]);
      assert rows[j] == init[j];
    } else {
      assert HasVersion(last) && d == ToDoc(last);
    }
  }

  /** Every row that has a version has its document among the documents. */
  lemma {:induction false} DocsComplete(rows: seq<HostRow>, j: nat)
    requires AllWellFormed(rows) && j < |rows| && HasVersion(rows[j])
    ensures ToDoc(rows[j]) in Docs(rows)
    decreases |rows|
  {
    var init := rows[..|rows| - 1];
    if j < |rows| - 1 {
      assert init[j] == rows[j];
      DocsComplete(init, j);
    }
  }

  /** There are never more documents than rows, and rows without a version add none. */
  lemma {:induction false} DocsCount(rows: seq<HostRow>)
    requires AllWellFormed(rows)
    ensures |Docs(rows)| <= |rows|
    ensures (forall j :: 0 <= j < |rows| ==> !HasVersion(rows[j])) ==> Docs(rows) == []
    decreases |rows|
  {
    if rows != [] {
      var init := rows[..|rows| - 1];
      DocsCount(init);
      assert forall j :: 0 <= j < |init| ==> init[j] == rows[j];
    }
  }

  /** The bulk body for `docs`: per document an index action for `index`, then the document. */
  function Body(index: string, docs: seq<Doc>): seq<BulkLine>
    decreases |docs|
  {
    if docs == [] then []
    else Body(index, docs[..|docs| - 1]) + [IndexLine(index, DocType), DocLine(docs[|docs| - 1])]
  }

  /** The documents carried by a body, in order (the action lines are dropped). */
  function Unpair(lines: seq<BulkLine>): seq<Doc>
    decreases |lines|
  {
    if lines == [] then []
    else
      var last := lines[|lines| - 1];
      Unpair(lines[..|lines| - 1]) + (if last.DocLine? then [last.doc] else [])
  }

  lemma {:induction false} BodyAppend(index: string, a: seq<Doc>, b: seq<Doc>)
    ensures Body(index, a + b) == Body(index, a) + Body(index, b)
    decreases |b|
  {
    if b == [] {
      assert a + b == a;
    } else {
      var init := b[..|b| - 1];
      assert (a + b)[..|a + b| - 1] == a + init;
      BodyAppend(index, a, init);
    }
  }

  /**
    Shape of a body: two lines per document, the action line at position 2k
    targeting `index` with type `_doc`, document k right after it.
   */
  lemma {:induction false} BodyAt(index: string, docs: seq<Doc>, k: nat)
    requires k < |docs|
    ensures |Body(index, docs)| == 2 * |docs|
    ensures Body(index, docs)[2 * k] == IndexLine(index, DocType)
    ensures Body(index, docs)[2 * k + 1] == DocLine(docs[k])
    decreases |docs|
  {
    var init := docs[..|docs| - 1];
    if k < |docs| - 1 {
      BodyAt(index, init, k);
      assert init[k] == docs[k];
    } else if init != [] {
      BodyAt(index, init, 0);
    }
  }

  /** Every action line of a body targets the one index it was built for. */
  lemma {:induction false} BodyTargetsIndex(index: string, docs: seq<Doc>)
    ensures |Body(index, docs)| == 2 * |docs|
    ensures forall l :: l in Body(index, docs) && l.IndexLine? ==> l == IndexLine(index, DocType)
    decreases |docs|
  {
    if docs != [] {
      BodyTargetsIndex(index, docs[..|docs| - 1]);
    }
  }

  /** Reading the documents back out of a body gives exactly the documents put in. */
  lemma {:induction false} UnpairBody(index: string, docs: seq<Doc>)
    ensures Unpair(Body(index, docs)) == docs
    decreases |docs|
  {
    if docs != [] {
      var init := docs[..|docs| - 1];
      var front := Body(index, init);
      var lines := front + [IndexLine(index, DocType), DocLine(docs[|docs| - 1])];
      UnpairBody(index, init);
      assert lines[..|lines| - 1] == front + [IndexLine(index, DocType)];
      assert (front + [IndexLine(index, DocType)])[..|front|] == front;
      assert docs == init + [docs[|docs| - 1]];
    }
  }
}
