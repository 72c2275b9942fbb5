/**
  `agent_versions`: derive a document from every row that has an agent
  version, buffer an index action and the document per row, post the buffer
  as one bulk request every `batch_size` documents and once more at the end
  for what is left, and return the name of the index written to.

  `Load` says what one call sends and returns, as a function of the rows,
  the batch size and the index name; `AgentVersions` is the loop and is
  proved to send exactly that. The lemmas after it state what `Load` means.
 */
module BulkLoader {
  import opened Chunking
  import opened Documents
  import opened Wire
  import opened Text

  const IndexPrefix := "datadog-"

  /** The index written to, from the start time formatted as YYYYMMDDHHMMSS. */
  function IndexName(stamp: string): string {
    IndexPrefix + stamp
  }

  /**
    Python's `counter % batch_size == 0` holds exactly when the batch size
    divides the counter, whatever its sign; so a negative batch size batches
    like its absolute value.
   */
  function Width(batchSize: int): nat {
    if batchSize < 0 then -batchSize else batchSize
  }

  /** The row at which the loop raises: a version without a second segment, or a zero batch size. */
  predicate Faults(r: HostRow, batchSize: int) {
    HasVersion(r) && (|VersionParts(r)| < 2 || batchSize == 0)
  }

  /** `version[1]` is evaluated before the modulo, so a short version wins over a zero batch size. */
  function FaultOf(r: HostRow, batchSize: int): Error
    requires Faults(r, batchSize)
  {
    if |VersionParts(r)| < 2 then IndexOutOfRange else ZeroDivision
  }

  /** The position of the first row that raises, or |rows| when none does. */
  function FirstFault(rows: seq<HostRow>, batchSize: int): (i: nat)
    ensures i <= |rows|
    ensures forall j :: 0 <= j < i ==> !Faults(rows[j], batchSize)
    ensures i < |rows| ==> Faults(rows[i], batchSize)
    decreases |rows|
  {
    if rows == [] then 0
    else if Faults(rows[0], batchSize) then 0
    else 1 + FirstFault(rows[1..], batchSize)
  }

  /** The bulk bodies sent by one call, in order, and what the call returns or raises. */
  datatype LoadRun = LoadRun(posts: seq<seq<BulkLine>>, result: Result<string>)

  /** The body of each batch, in order. */
  function Bodies(index: string, batches: seq<seq<Doc>>): (posts: seq<seq<BulkLine>>)
    ensures |posts| == |batches|
    decreases |batches|
  {
    if batches == [] then []
    else Bodies(index, batches[..|batches| - 1]) + [Body(index, batches[|batches| - 1])]
  }

  /** The documents carried by each body. */
  function UnpairAll(posts: seq<seq<BulkLine>>): (batches: seq<seq<Doc>>)
    ensures |batches| == |posts|
    decreases |posts|
  {
    if posts == [] then []
    else UnpairAll(posts[..|posts| - 1]) + [Unpair(posts[|posts| - 1])]
  }

  /** The requests that post the bodies, one bulk request each, in order. */
  function BulkPosts(posts: seq<seq<BulkLine>>): (requests: seq<Request>)
    ensures |requests| == |posts|
    decreases |posts|
  {
    if posts == [] then []
    else BulkPosts(posts[..|posts| - 1]) + [BulkPost(posts[|posts| - 1])]
  }

  /**
    One call of `agent_versions`. Without a fault, the documents of all rows
    go out in batches of Width(batchSize) and the index name is returned.
    At a fault, the batches completed before the faulting row have been
    posted, the partial buffer is lost, and the fault is raised.
   */
  function Load(rows: seq<HostRow>, batchSize: int, index: string): LoadRun {
    var i := FirstFault(rows, batchSize);
    var before := rows[..i];
    assert AllWellFormed(before) by {
      assert forall j :: 0 <= j < i ==> before[j] == rows[j];
    }
    var docs := Docs(before);
    var w := Width(batchSize);
    var posts :=
      if w == 0 then []
      else if i == |rows| then Bodies(index, Chunks(docs, w))
      else Bodies(index, FullChunks(docs, w));
    LoadRun(posts, if i == |rows| then Ok(index) else Err(FaultOf(rows[i], batchSize)))
  }

  /** For 0 < c <= |b|, `c % b == 0` exactly when c == |b|. */
  lemma FlushTest(c: int, batchSize: int)
    requires 0 < c <= Width(batchSize)
    ensures c % batchSize == 0 <==> c == Width(batchSize)
  {
    var w := Width(batchSize);
    var q := c / batchSize;
    var r := c % batchSize;
    assert c == q * batchSize + r;
    var p := if batchSize > 0 then q else -q;
    assert q * batchSize == p * w;
    if c < w && r == 0 {
      if p <= 0 {
        MultiplyMonotone(p, 0, w);
        assert false;
      } else {
        MultiplyMonotone(1, p, w);
        assert false;
      }
    }
  }

  /** One more row that does not raise: the prefix stays well formed and gains its contribution. */
  lemma PrefixStep(rows: seq<HostRow>, i: nat, batchSize: int)
    requires i < |rows| && AllWellFormed(rows[..i]) && !Faults(rows[i], batchSize)
    ensures AllWellFormed(rows[..i + 1])
    ensures Docs(rows[..i + 1]) == Docs(rows[..i]) + Contribution(rows[i])
  {
    assert rows[..i + 1][..i] == rows[..i];
    assert rows[..i + 1] == rows[..i] + [rows[i]];
  }

  /** Buffering one more document extends the buffered body and leaves the flushed part alone. */
  lemma BodyExtend(index: string, docs: seq<Doc>, doc: Doc, start: nat)
    requires start <= |docs|
    ensures (docs + [doc])[..start] == docs[..start]
    ensures Body(index, (docs + [doc])[start..]) == Body(index, docs[start..]) + [IndexLine(index, DocType), DocLine(doc)]
  {
    var tail := (docs + [doc])[start..];
    assert tail == docs[start..] + [doc];
    assert tail[..|tail| - 1] == docs[start..];
  }

  /** A batch of at most w documents after whole batches: its body is the last post. */
  lemma CloseBatch(index: string, docs: seq<Doc>, w: nat, start: nat)
    requires w > 0 && start % w == 0 && start < |docs| <= start + w
    ensures Bodies(index, Chunks(docs, w))
         == Bodies(index, Chunks(docs[..start], w)) + [Body(index, docs[start..])]
  {
    var done := docs[..start];
    var batch := docs[start..];
    assert done + batch == docs;
    ChunksAppendTail(done, batch, w);
    BodiesSnoc(index, Chunks(done, w), batch);
  }

  lemma AddBlock(start: nat, w: nat)
    requires w > 0 && start % w == 0
    ensures (start + w) % w == 0
  {
    var q := start / w;
    assert start == q * w;
    assert start + w == (q + 1) * w;
    RemainderAfterBlocks(q + 1, w, 0);
  }

  /** What Load gives when no row raises. */
  lemma LoadWithoutFault(rows: seq<HostRow>, batchSize: int, index: string)
    requires forall j :: 0 <= j < |rows| ==> !Faults(rows[j], batchSize)
    requires AllWellFormed(rows)
    ensures Load(rows, batchSize, index).result == Ok(index)
    ensures Width(batchSize) == 0 ==> Load(rows, batchSize, index).posts == []
    ensures Width(batchSize) > 0 ==> Load(rows, batchSize, index).posts == Bodies(index, Chunks(Docs(rows), Width(batchSize)))
  {
    assert FirstFault(rows, batchSize) == |rows|;
    assert rows[..|rows|] == rows;
  }

  lemma BodiesSnoc(index: string, batches: seq<seq<Doc>>, batch: seq<Doc>)
    ensures Bodies(index, batches + [batch]) == Bodies(index, batches) + [Body(index, batch)]
  {
    assert (batches + [batch])[..|batches|] == batches;
  }

  /** Sending one more body after `sent` and the earlier posts. */
  lemma BulkPostsSnoc(sent: seq<Request>, posts: seq<seq<BulkLine>>, body: seq<BulkLine>)
    ensures sent + BulkPosts(posts + [body]) == sent + BulkPosts(posts) + [BulkPost(body)]
  {
    assert (posts + [body])[..|posts|] == posts;
  }

  /**
    The batching state after the documents `docs`, for a batch width w > 0:
    `posts` are the bodies of their full batches, `buff` the body of the
    `counter` documents after those, and `counter` is below w.
   */
  ghost predicate Batched(index: string, w: nat, docs: seq<Doc>,
                          counter: nat, buff: seq<BulkLine>, posts: seq<seq<BulkLine>>)
  {
    && w > 0 && counter < w && counter <= |docs| && (|docs| - counter) % w == 0
    && buff == Body(index, docs[|docs| - counter..])
    && posts == Bodies(index, Chunks(docs[..|docs| - counter], w))
  }

  /**
    The invariant of the loop over the rows, after the first `i` rows: none
    of them raised and their documents are batched as Batched says (with a
    zero batch size none of them had a version, and nothing is buffered).
   */
  ghost predicate Buffered(rows: seq<HostRow>, batchSize: int, index: string, i: nat,
                           counter: nat, buff: seq<BulkLine>, posts: seq<seq<BulkLine>>)
  {
    && i <= |rows|
    && (forall j :: 0 <= j < i ==> !Faults(rows[j], batchSize))
    && AllWellFormed(rows[..i])
    && var docs := Docs(rows[..i]);
    && (batchSize == 0 ==> docs == [] && counter == 0 && buff == [] && posts == [])
    && (batchSize != 0 ==> Batched(index, Width(batchSize), docs, counter, buff, posts))
  }

  lemma StartLoop(rows: seq<HostRow>, batchSize: int, index: string)
    ensures Buffered(rows, batchSize, index, 0, 0, [], [])
  {
    assert rows[..0] == [];
    if Width(batchSize) > 0 {
      var none: seq<Doc> := [];
      assert Chunks(none, Width(batchSize)) == [];
    }
  }

  /** A row without a version changes nothing. */
  lemma SkipRow(rows: seq<HostRow>, batchSize: int, index: string, i: nat,
                counter: nat, buff: seq<BulkLine>, posts: seq<seq<BulkLine>>)
    requires i < |rows| && !HasVersion(rows[i])
    requires Buffered(rows, batchSize, index, i, counter, buff, posts)
    ensures Buffered(rows, batchSize, index, i + 1, counter, buff, posts)
  {
    PrefixStep(rows, i, batchSize);
    assert Docs(rows[..i + 1]) == Docs(rows[..i]);
  }

  /**
    A row with a well-formed version and a non-zero batch size: its action and
    document join the buffer, and when the counter reaches the batch width the
    buffer becomes one more post and starts again empty.
   */
  lemma TakeRow(rows: seq<HostRow>, batchSize: int, index: string, i: nat,
                counter: nat, buff: seq<BulkLine>, posts: seq<seq<BulkLine>>)
    requires i < |rows| && HasVersion(rows[i]) && |VersionParts(rows[i])| >= 2 && batchSize != 0
    requires Buffered(rows, batchSize, index, i, counter, buff, posts)
    ensures var buff' := buff + [IndexLine(index, DocType), DocLine(ToDoc(rows[i]))];
      && ((counter + 1) % batchSize == 0 ==> Buffered(rows, batchSize, index, i + 1, 0, [], posts + [buff']))
      && ((counter + 1) % batchSize != 0 ==> Buffered(rows, batchSize, index, i + 1, counter + 1, buff', posts))
  {
    FlushTest(counter + 1, batchSize);
    PrefixStep(rows, i, batchSize);
    if counter + 1 == Width(batchSize) {
      FlushRow(rows, batchSize, index, i, counter, buff, posts);
    } else {
      KeepRow(rows, batchSize, index, i, counter, buff, posts);
    }
  }

  lemma FlushRow(rows: seq<HostRow>, batchSize: int, index: string, i: nat,
                 counter: nat, buff: seq<BulkLine>, posts: seq<seq<BulkLine>>)
    requires i < |rows| && HasVersion(rows[i]) && |VersionParts(rows[i])| >= 2
    requires batchSize != 0 && counter + 1 == Width(batchSize)
    requires Buffered(rows, batchSize, index, i, counter, buff, posts)
    requires AllWellFormed(rows[..i + 1]) && Docs(rows[..i + 1]) == Docs(rows[..i]) + [ToDoc(rows[i])]
    ensures Buffered(rows, batchSize, index, i + 1, 0, [],
                     posts + [buff + [IndexLine(index, DocType), DocLine(ToDoc(rows[i]))]])
  {
    FlushDocs(index, Width(batchSize), Docs(rows[..i]), ToDoc(rows[i]), counter, buff, posts);
  }

  lemma KeepRow(rows: seq<HostRow>, batchSize: int, index: string, i: nat,
                counter: nat, buff: seq<BulkLine>, posts: seq<seq<BulkLine>>)
    requires i < |rows| && HasVersion(rows[i]) && |VersionParts(rows[i])| >= 2
    requires batchSize != 0 && counter + 1 < Width(batchSize)
    requires Buffered(rows, batchSize, index, i, counter, buff, posts)
    requires AllWellFormed(rows[..i + 1]) && Docs(rows[..i + 1]) == Docs(rows[..i]) + [ToDoc(rows[i])]
    ensures Buffered(rows, batchSize, index, i + 1, counter + 1,
                     buff + [IndexLine(index, DocType), DocLine(ToDoc(rows[i]))], posts)
  {
    KeepDocs(index, Width(batchSize), Docs(rows[..i]), ToDoc(rows[i]), counter, buff, posts);
  }

  /** The document that fills the buffer: the buffer becomes a post and the new buffer is empty. */
  lemma FlushDocs(index: string, w: nat, docs: seq<Doc>, doc: Doc,
                  counter: nat, buff: seq<BulkLine>, posts: seq<seq<BulkLine>>)
    requires Batched(index, w, docs, counter, buff, posts) && counter + 1 == w
    ensures Batched(index, w, docs + [doc], 0, [], posts + [buff + [IndexLine(index, DocType), DocLine(doc)]])
  {
    var docs' := docs + [doc];
    var start := |docs| - counter;
    BodyExtend(index, docs, doc, start);
    CloseBatch(index, docs', w, start);
    AddBlock(start, w);
    assert docs'[|docs'|..] == [];
    assert docs'[..|docs'|] == docs';
  }

  /** A document that does not fill the buffer joins it; the posts stay as they are. */
  lemma KeepDocs(index: string, w: nat, docs: seq<Doc>, doc: Doc,
                 counter: nat, buff: seq<BulkLine>, posts: seq<seq<BulkLine>>)
    requires Batched(index, w, docs, counter, buff, posts) && counter + 1 < w
    ensures Batched(index, w, docs + [doc], counter + 1, buff + [IndexLine(index, DocType), DocLine(doc)], posts)
  {
    var start := |docs| - counter;
    BodyExtend(index, docs, doc, start);
    assert |docs + [doc]| - (counter + 1) == start;
  }

  /** Where a row raises, the call ends with the posts made so far and that row's exception. */
  lemma StopAtFault(rows: seq<HostRow>, batchSize: int, index: string, i: nat,
                    counter: nat, buff: seq<BulkLine>, posts: seq<seq<BulkLine>>)
    requires i < |rows| && Faults(rows[i], batchSize)
    requires Buffered(rows, batchSize, index, i, counter, buff, posts)
    ensures Load(rows, batchSize, index) == LoadRun(posts, Err(FaultOf(rows[i], batchSize)))
  {
    assert FirstFault(rows, batchSize) == i;
    if batchSize != 0 {
      FaultDocs(index, Width(batchSize), Docs(rows[..i]), counter, buff, posts);
    }
  }

  /** The posts made so far are the bodies of the full batches of the documents. */
  lemma FaultDocs(index: string, w: nat, docs: seq<Doc>,
                  counter: nat, buff: seq<BulkLine>, posts: seq<seq<BulkLine>>)
    requires Batched(index, w, docs, counter, buff, posts)
    ensures posts == Bodies(index, FullChunks(docs, w))
  {
    var start := |docs| - counter;
    var k := start / w;
    assert start == k * w;
    assert docs[..start] + docs[start..] == docs;
    FullChunksOfBlocks(docs[..start], docs[start..], w, k);
  }

  /** After the last row, the leftover buffer (if any) is the last post and the index name is returned. */
  lemma FinishLoop(rows: seq<HostRow>, batchSize: int, index: string,
                   counter: nat, buff: seq<BulkLine>, posts: seq<seq<BulkLine>>)
    requires Buffered(rows, batchSize, index, |rows|, counter, buff, posts)
    ensures Load(rows, batchSize, index) == LoadRun(if buff == [] then posts else posts + [buff], Ok(index))
  {
    assert rows[..|rows|] == rows;
    LoadWithoutFault(rows, batchSize, index);
    if batchSize != 0 {
      FinishDocs(index, Width(batchSize), Docs(rows), counter, buff, posts);
    }
  }

  /** The counter is the number of documents past the last full batch. */
  lemma BatchedCounter(index: string, w: nat, docs: seq<Doc>,
                       counter: nat, buff: seq<BulkLine>, posts: seq<seq<BulkLine>>)
    requires Batched(index, w, docs, counter, buff, posts)
    ensures |docs| % w == counter
  {
    var flushed := (|docs| - counter) / w;
    assert |docs| - counter == flushed * w;
    RemainderAfterBlocks(flushed, w, counter);
  }

  /** Posting the leftover buffer completes the batches of all documents. */
  lemma FinishDocs(index: string, w: nat, docs: seq<Doc>,
                   counter: nat, buff: seq<BulkLine>, posts: seq<seq<BulkLine>>)
    requires Batched(index, w, docs, counter, buff, posts)
    ensures (buff == []) == (counter == 0)
    ensures (if buff == [] then posts else posts + [buff]) == Bodies(index, Chunks(docs, w))
  {
    var start := |docs| - counter;
    BodyTargetsIndex(index, docs[start..]);
    if counter > 0 {
      CloseBatch(index, docs, w, start);
    } else {
      assert docs[..start] == docs;
    }
  }

  /** The state of the loop over the rows: the counter, the buffer, the bodies posted, the exception raised. */
  datatype Scanned = Scanned(counter: nat, buff: seq<BulkLine>, posts: seq<seq<BulkLine>>, raised: Option<Error>)

  /** One iteration of the loop, on a state in which nothing has been raised yet. */
  function Step(s: Scanned, r: HostRow, batchSize: int, index: string): Scanned
    requires s.raised.None?
  {
    if !HasVersion(r) then s
    else if |VersionParts(r)| < 2 then s.(raised := Some(IndexOutOfRange))
    else if batchSize == 0 then s.(raised := Some(ZeroDivision))
    else
      var buff := s.buff + [IndexLine(index, DocType), DocLine(ToDoc(r))];
      if (s.counter + 1) % batchSize == 0 then Scanned(0, [], s.posts + [buff], None)
      else Scanned(s.counter + 1, buff, s.posts, None)
  }

  /** The loop's state after the rows, one Step per row until one raises. */
  function Scan(rows: seq<HostRow>, batchSize: int, index: string): Scanned
    decreases |rows|
  {
    if rows == [] then Scanned(0, [], [], None)
    else
      var s := Scan(rows[..|rows| - 1], batchSize, index);
      if s.raised.Some? then s else Step(s, rows[|rows| - 1], batchSize, index)
  }

  /** What the call does once the loop has stopped: post the leftover buffer, if any, unless a row raised. */
  function Outcome(s: Scanned, index: string): LoadRun {
    if s.raised.Some? then LoadRun(s.posts, Err(s.raised.value))
    else LoadRun(if s.buff == [] then s.posts else s.posts + [s.buff], Ok(index))
  }

  /**
    After every prefix of the rows, the loop's state is the batching state of
    that prefix's documents, or, once a row has raised, Load's outcome.
   */
  lemma {:induction false} ScanInvariant(rows: seq<HostRow>, batchSize: int, index: string, i: nat)
    requires i <= |rows|
    ensures var s := Scan(rows[..i], batchSize, index);
      && (s.raised.None? ==> Buffered(rows, batchSize, index, i, s.counter, s.buff, s.posts))
      && (s.raised.Some? ==> Load(rows, batchSize, index) == LoadRun(s.posts, Err(s.raised.value)))
    decreases i
  {
    if i == 0 {
      assert rows[..0] == [];
      StartLoop(rows, batchSize, index);
    } else {
      ScanInvariant(rows, batchSize, index, i - 1);
      assert rows[..i][..i - 1] == rows[..i - 1];
      var s := Scan(rows[..i - 1], batchSize, index);
      if s.raised.None? {
        StepKeeps(rows, batchSize, index, i - 1, s);
      }
    }
  }

  /** One Step from a state that satisfies the invariant after `i` rows gives the state after i + 1 rows. */
  lemma StepKeeps(rows: seq<HostRow>, batchSize: int, index: string, i: nat, s: Scanned)
    requires i < |rows| && s.raised.None?
    requires Buffered(rows, batchSize, index, i, s.counter, s.buff, s.posts)
    ensures var t := Step(s, rows[i], batchSize, index);
      && (t.raised.None? ==> Buffered(rows, batchSize, index, i + 1, t.counter, t.buff, t.posts))
      && (t.raised.Some? ==> Load(rows, batchSize, index) == LoadRun(t.posts, Err(t.raised.value)))
  {
    var r := rows[i];
    if !HasVersion(r) {
      SkipRow(rows, batchSize, index, i, s.counter, s.buff, s.posts);
    } else if Faults(r, batchSize) {
      StopAtFault(rows, batchSize, index, i, s.counter, s.buff, s.posts);
    } else {
      TakeRow(rows, batchSize, index, i, s.counter, s.buff, s.posts);
    }
  }

  /** The row-by-row loop and the batch-level description agree on every input. */
  lemma LoadIsScan(rows: seq<HostRow>, batchSize: int, index: string)
    ensures Load(rows, batchSize, index) == Outcome(Scan(rows, batchSize, index), index)
  {
    ScanInvariant(rows, batchSize, index, |rows|);
    assert rows[..|rows|] == rows;
    var s := Scan(rows, batchSize, index);
    if s.raised.None? {
      FinishLoop(rows, batchSize, index, s.counter, s.buff, s.posts);
    }
  }

  lemma {:induction false} BodiesAt(index: string, batches: seq<seq<Doc>>, k: nat)
    requires k < |batches|
    ensures Bodies(index, batches)[k] == Body(index, batches[k])
    decreases |batches|
  {
    if k < |batches| - 1 {
      BodiesAt(index, batches[..|batches| - 1], k);
    }
  }

  lemma {:induction false} UnpairAllAt(posts: seq<seq<BulkLine>>, k: nat)
    requires k < |posts|
    ensures UnpairAll(posts)[k] == Unpair(posts[k])
    decreases |posts|
  {
    if k < |posts| - 1 {
      UnpairAllAt(posts[..|posts| - 1], k);
    }
  }

  /** Reading the documents back out of the bodies gives the batches. */
  lemma {:induction false} UnpairBodies(index: string, batches: seq<seq<Doc>>)
    ensures UnpairAll(Bodies(index, batches)) == batches
    decreases |batches|
  {
    if batches != [] {
      var init := batches[..|batches| - 1];
      var last := batches[|batches| - 1];
      var front := Bodies(index, init);
      var bodies := front + [Body(index, last)];
      assert Bodies(index, batches) == bodies;
      assert bodies[..|bodies| - 1] == front;
      assert UnpairAll(bodies) == UnpairAll(front) + [Unpair(Body(index, last))];
      UnpairBodies(index, init);
      UnpairBody(index, last);
      assert batches == init + [last];
    }
  }

  /** Every body of a list of bodies pairs an action with each of its documents. */
  lemma BodiesWellFormed(index: string, batches: seq<seq<Doc>>)
    ensures var posts := Bodies(index, batches);
      forall k :: 0 <= k < |posts| ==> posts[k] == Body(index, Unpair(posts[k])) && Unpair(posts[k]) == batches[k]
  {
    var posts := Bodies(index, batches);
    forall k | 0 <= k < |posts|
      ensures posts[k] == Body(index, Unpair(posts[k])) && Unpair(posts[k]) == batches[k]
    {
      BodiesAt(index, batches, k);
      UnpairBody(index, batches[k]);
    }
  }

  /**
    A call returns the index name exactly when every version it meets has a
    '.' and the batch size is not zero (a zero batch size is harmless only
    when no row has a version). Otherwise it raises at the first such row:
    IndexError for a version without '.', ZeroDivisionError for a zero batch size.
   */
  lemma LoadSucceeds(rows: seq<HostRow>, batchSize: int, index: string)
    ensures var result := Load(rows, batchSize, index).result;
      && (result.Ok? <==> forall j :: 0 <= j < |rows| && HasVersion(rows[j]) ==>
                            '.' in rows[j].meta[AgentVersionKey] && batchSize != 0)
      && (result.Ok? ==> result.value == index)
      && (result.Err? ==>
            exists i :: 0 <= i < |rows| && HasVersion(rows[i])
              && ('.' !in rows[i].meta[AgentVersionKey] || batchSize == 0)
              && (forall j :: 0 <= j < i && HasVersion(rows[j]) ==> '.' in rows[j].meta[AgentVersionKey] && batchSize != 0)
              && result.error == if '.' in rows[i].meta[AgentVersionKey] then ZeroDivision else IndexOutOfRange)
  {
    forall j | 0 <= j < |rows| && HasVersion(rows[j])
      ensures WellFormed(rows[j]) <==> '.' in rows[j].meta[AgentVersionKey]
    {
      WellFormedIffDot(rows[j]);
    }
    var i := FirstFault(rows, batchSize);
    if i < |rows| {
      WellFormedIffDot(rows[i]);
    }
  }

  /** A call that returns has posted the bodies of the batches of all the documents. */
  lemma LoadPostsBatches(rows: seq<HostRow>, batchSize: int, index: string)
    requires Load(rows, batchSize, index).result.Ok? && batchSize != 0
    ensures AllWellFormed(rows)
    ensures Load(rows, batchSize, index).posts == Bodies(index, Chunks(Docs(rows), Width(batchSize)))
  {
    LoadWithoutFault(rows, batchSize, index);
  }

  /**
    When every version has a '.' and the batch size is not zero, the call
    posts ceil(N / |b|) bodies for its N documents:
    every body but the last carries |b| documents and the last N mod |b|
    (|b| when that is 0).
   */
  lemma LoadBatching(rows: seq<HostRow>, batchSize: int, index: string)
    requires batchSize != 0
    requires forall j :: 0 <= j < |rows| && HasVersion(rows[j]) ==> '.' in rows[j].meta[AgentVersionKey]
    ensures AllWellFormed(rows)
    ensures var posts := Load(rows, batchSize, index).posts;
      var n := |Docs(rows)|;
      var w := Width(batchSize);
      && |posts| == (n + w - 1) / w
      && (forall k :: 0 <= k < |posts| - 1 ==> |Unpair(posts[k])| == w)
      && (|posts| > 0 ==> |Unpair(posts[|posts| - 1])| == if n % w == 0 then w else n % w)
  {
    LoadSucceeds(rows, batchSize, index);
    LoadPostsBatches(rows, batchSize, index);
    BatchShape(index, Docs(rows), Width(batchSize));
  }

  /** The bodies of the batches of `docs`: their number and how many documents each carries. */
  lemma BatchShape(index: string, docs: seq<Doc>, w: nat)
    requires w > 0
    ensures var posts := Bodies(index, Chunks(docs, w));
      && |posts| == (|docs| + w - 1) / w
      && (forall k :: 0 <= k < |posts| - 1 ==> |Unpair(posts[k])| == w)
      && (|posts| > 0 ==> |Unpair(posts[|posts| - 1])| == if |docs| % w == 0 then w else |docs| % w)
  {
    var batches := Chunks(docs, w);
    BodiesWellFormed(index, batches);
    ChunkCount(docs, w);
    ChunkSizes(docs, w);
    if |batches| > 0 {
      LastChunkSize(docs, w);
    }
  }

  /**
    When every version has a '.' and the batch size is not zero, the call
    posts the documents of all rows, each exactly
    once and in row order, and every body pairs an index action with each
    of its documents.
   */
  lemma LoadDelivers(rows: seq<HostRow>, batchSize: int, index: string)
    requires batchSize != 0
    requires forall j :: 0 <= j < |rows| && HasVersion(rows[j]) ==> '.' in rows[j].meta[AgentVersionKey]
    ensures AllWellFormed(rows)
    ensures var posts := Load(rows, batchSize, index).posts;
      && Flatten(UnpairAll(posts)) == Docs(rows)
      && (forall k :: 0 <= k < |posts| ==> posts[k] == Body(index, Unpair(posts[k])))
  {
    LoadSucceeds(rows, batchSize, index);
    LoadPostsBatches(rows, batchSize, index);
    var batches := Chunks(Docs(rows), Width(batchSize));
    UnpairBodies(index, batches);
    BodiesWellFormed(index, batches);
    FlattenChunks(Docs(rows), Width(batchSize));
  }

  /**
    A call that raises has posted only full batches: with a zero batch size
    nothing, otherwise bodies of exactly |b| documents each which, in order,
    are the first documents of the rows before the first faulting one; the
    fewer than |b| documents buffered after them are never sent.
   */
  lemma LoadAtFault(rows: seq<HostRow>, batchSize: int, index: string)
    requires Load(rows, batchSize, index).result.Err?
    ensures var posts := Load(rows, batchSize, index).posts;
      && (batchSize == 0 ==> posts == [])
      && (forall k :: 0 <= k < |posts| ==>
            |Unpair(posts[k])| == Width(batchSize) && posts[k] == Body(index, Unpair(posts[k])))
      && (batchSize != 0 ==>
            exists i :: 0 <= i < |rows| && Faults(rows[i], batchSize)
              && (forall j :: 0 <= j < i ==> !Faults(rows[j], batchSize))
              && AllWellFormed(rows[..i])
              && var docs := Docs(rows[..i]);
                 var sent := Flatten(UnpairAll(posts));
                 sent <= docs && |docs| < |sent| + Width(batchSize))
  {
    var i := FirstFault(rows, batchSize);
    var before := rows[..i];
    assert AllWellFormed(before) by {
      assert forall j :: 0 <= j < i ==> before[j] == rows[j];
    }
    var w := Width(batchSize);
    if w == 0 {
      assert Load(rows, batchSize, index).posts == [];
    } else {
      var docs := Docs(before);
      assert Load(rows, batchSize, index).posts == Bodies(index, FullChunks(docs, w));
      FullBatchShape(index, docs, w);
    }
  }

  /** The bodies of the full batches of `docs`: each carries w documents, and together a prefix short of fewer than w. */
  lemma FullBatchShape(index: string, docs: seq<Doc>, w: nat)
    requires w > 0
    ensures var posts := Bodies(index, FullChunks(docs, w));
      var sent := Flatten(UnpairAll(posts));
      && (forall k :: 0 <= k < |posts| ==> |Unpair(posts[k])| == w && posts[k] == Body(index, Unpair(posts[k])))
      && sent <= docs && |docs| < |sent| + w
  {
    var batches := FullChunks(docs, w);
    FullChunksSizes(docs, w);
    UnpairBodies(index, batches);
    BodiesWellFormed(index, batches);
    var m := |batches| * w;
    assert Flatten(batches) == docs[..m] && m <= |docs| < m + w;
  }

  /** Rows without an agent version lead to no request and no exception, whatever the batch size. */
  lemma NoVersionNoPosts(rows: seq<HostRow>, batchSize: int, index: string)
    requires forall j :: 0 <= j < |rows| ==> !HasVersion(rows[j])
    ensures Load(rows, batchSize, index) == LoadRun([], Ok(index))
  {
    LoadWithoutFault(rows, batchSize, index);
    DocsCount(rows);
    if Width(batchSize) > 0 {
      var none: seq<Doc> := [];
      assert Chunks(none, Width(batchSize)) == [];
    }
  }

  /**
    A row with a well-formed version followed by a row without one, and a
    batch size other than 0, 1 and -1: a single body with the first row's
    action and document, posted after the loop.
   */
  lemma LoadOneDocument(rows: seq<HostRow>, batchSize: int, index: string)
    requires |rows| == 2 && HasVersion(rows[0]) && '.' in rows[0].meta[AgentVersionKey] && !HasVersion(rows[1])
    requires Width(batchSize) > 1
    ensures WellFormed(rows[0])
    ensures Load(rows, batchSize, index) == LoadRun([[IndexLine(index, DocType), DocLine(ToDoc(rows[0]))]], Ok(index))
  {
    WellFormedIffDot(rows[0]);
    LoadWithoutFault(rows, batchSize, index);
    var doc := ToDoc(rows[0]);
    assert rows[..1][..0] == [];
    assert Docs(rows[..1]) == [doc];
    assert Contribution(rows[1]) == [];
    assert Docs(rows) == Docs(rows[..1]) + [];
    assert Chunks([doc], Width(batchSize)) == [[doc]];
    assert Body(index, [doc]) == [IndexLine(index, DocType), DocLine(doc)] by {
      assert [doc][..0] == [];
    }
    assert Bodies(index, [[doc]]) == [Body(index, [doc])] by {
      assert [[doc]][..0] == [];
    }
  }

  /**
    After the flush check, with a non-zero batch size, the counter is the
    number of documents since the last post, which is below |b|, and the
    buffer holds exactly their action and document lines.
   */
  lemma ScanCounter(rows: seq<HostRow>, batchSize: int, index: string)
    requires batchSize != 0 && Scan(rows, batchSize, index).raised.None?
    ensures AllWellFormed(rows)
    ensures var s := Scan(rows, batchSize, index);
      var docs := Docs(rows);
      && s.counter <= |docs| && s.counter == |docs| % Width(batchSize) < Width(batchSize)
      && s.buff == Body(index, docs[|docs| - s.counter..])
  {
    var s := Scan(rows, batchSize, index);
    assert AllWellFormed(rows) && Batched(index, Width(batchSize), Docs(rows), s.counter, s.buff, s.posts) by {
      ScanInvariant(rows, batchSize, index, |rows|);
      assert rows[..|rows|] == rows;
    }
    BatchedCounter(index, Width(batchSize), Docs(rows), s.counter, s.buff, s.posts);
  }

  /** Once a row has raised, the later rows are never looked at. */
  lemma {:induction false} ScanHalts(rows: seq<HostRow>, batchSize: int, index: string, i: nat)
    requires i <= |rows| && Scan(rows[..i], batchSize, index).raised.Some?
    ensures Scan(rows, batchSize, index) == Scan(rows[..i], batchSize, index)
    decreases |rows| - i
  {
    if i < |rows| {
      assert rows[..i + 1][..i] == rows[..i];
      ScanHalts(rows, batchSize, index, i + 1);
    } else {
      assert rows[..i] == rows;
    }
  }

  /** A row that raises ends the call with the posts made before it and its exception. */
  lemma RaiseAt(rows: seq<HostRow>, batchSize: int, index: string, i: nat)
    requires i < |rows| && Scan(rows[..i], batchSize, index).raised.None?
    requires Step(Scan(rows[..i], batchSize, index), rows[i], batchSize, index).raised.Some?
    ensures var t := Step(Scan(rows[..i], batchSize, index), rows[i], batchSize, index);
      Load(rows, batchSize, index) == LoadRun(Scan(rows[..i], batchSize, index).posts, Err(t.raised.value))
  {
    assert rows[..i + 1][..i] == rows[..i];
    ScanHalts(rows, batchSize, index, i + 1);
    LoadIsScan(rows, batchSize, index);
  }

  /**
    The body of the loop for a host that has an agent version, up to the
    flush: split the version, build the action and the document, append them
    to the buffer and count the document. `flush` is the flush test
    `counter % batch_size == 0`; `raised` is the exception the body raises.
   */
  method BufferHost(host: HostRow, counter: nat, buff: seq<BulkLine>, batchSize: int, index: string,
                    ghost posts: seq<seq<BulkLine>>)
    returns (raised: Option<Error>, counter': nat, buff': seq<BulkLine>, flush: bool)
    requires HasVersion(host)
    ensures var t := Step(Scanned(counter, buff, posts, None), host, batchSize, index);
      && raised == t.raised
      && (raised.None? && flush ==> t == Scanned(0, [], posts + [buff'], None))
      && (raised.None? && !flush ==> t == Scanned(counter', buff', posts, None))
  {
    counter' := counter + 1;
    var version := Split(host.meta[AgentVersionKey], '.');
    if |version| < 2 {
      // `version[1]` raises IndexError
      return Some(IndexOutOfRange), counter', buff, false;
    }
    var major := version[0];
    var minor := version[1];
    var ddTags := if DatadogSource in host.tagsBySource then host.tagsBySource[DatadogSource] else [];
    var awsTags := if AwsSource in host.tagsBySource then host.tagsBySource[AwsSource] else [];
    var bulkMeta := IndexLine(index, DocType);
    var data := DocLine(Doc(host.hostName, major, minor, ddTags, awsTags, RecordKind));
    buff' := buff + [bulkMeta, data];
    if batchSize == 0 {
      // `counter % batch_size` raises ZeroDivisionError
      return Some(ZeroDivision), counter', buff', false;
    }
    flush := counter' % batchSize == 0;
    raised := None;
  }

  /** `agent_versions(data, batch_size)`: `rows` is `data['rows']`, `stamp` the formatted start time. */
  method AgentVersions(net: Network, rows: seq<HostRow>, batchSize: int, stamp: string)
    returns (result: Result<string>)
    modifies net
    ensures var run := Load(rows, batchSize, IndexName(stamp));
      net.requests == old(net.requests) + BulkPosts(run.posts) && result == run.result
  {
    var index := IndexName(stamp);
    var counter := 0;
    var buff: seq<BulkLine> := [];
    ghost var posts: seq<seq<BulkLine>> := [];
    for i := 0 to |rows|
      invariant Scan(rows[..i], batchSize, index) == Scanned(counter, buff, posts, None)
      invariant net.requests == old(net.requests) + BulkPosts(posts)
    {
      assert rows[..i + 1][..i] == rows[..i];
      var host := rows[i];
      if AgentVersionKey in host.meta {
        var raised, flush;
        raised, counter, buff, flush := BufferHost(host, counter, buff, batchSize, index, posts);
        if raised.Some? {
          RaiseAt(rows, batchSize, index, i);
          return Err(raised.value);
        }
        if flush {
          BulkPostsSnoc(old(net.requests), posts, buff);
          net.Send(BulkPost(buff));
          posts := posts + [buff];
          counter := 0;
          buff := [];
        }
      }
    }
    assert rows[..|rows|] == rows;
    LoadIsScan(rows, batchSize, index);
    if buff != [] {
      BulkPostsSnoc(old(net.requests), posts, buff);
      net.Send(BulkPost(buff));
    }
    return Ok(index);
  }
}
