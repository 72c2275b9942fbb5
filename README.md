# Datadog agent-version snapshot, modelled in Dafny

The script `DataDog/datadog_agent_stats.py` does three things in one run:

- It fetches the Datadog hosts overview.
- It writes one document per host that reports an agent version into a
  fresh search-engine index, `datadog-<YYYYMMDDHHMMSS>`. The documents go
  out through the bulk API, in batches of 50.
- It moves the `datadog` alias from the index it pointed at to the new one.

This project models that core and proves what it does.

- `text.dfy` (module `Text`): Python's `str.split(sep)` on one separator
  character, and its inverse `Join`.
- `documents.dfy` (module `Documents`):
  - A host row (`host_name`, `meta`, `tags_by_source`).
  - The document derived from a row: `host`, `major`, `minor`,
    `agent_tags`, `aws_tags`, and `type` "agent-stats".
  - The documents of a list of rows.
  - A bulk body: an index action line (`_index`, `_type` `_doc`) before
    every document line.
- `chunking.dfy` (module `Chunking`): cutting a sequence into batches of a
  fixed width. `Chunks` keeps the short last batch; `FullChunks` keeps only
  the full batches.
- `wire.dfy` (module `Wire`):
  - The exceptions the script raises.
  - The four kinds of HTTP request.
  - A `Network` object that records every request in the order it is sent.
- `bulk_loader.dfy` (module `BulkLoader`): `agent_versions`.
  - `AgentVersions` is the loop itself: counter, string buffer (as a list
    of bulk lines), flush test `counter % batch_size == 0`, and the final
    post of the leftover buffer.
  - `AgentVersions` is proved to send exactly the bodies `Load` describes
    and to return or raise what `Load` says.
  - `Load` is a batch-level definition. Without a fault, it sends the
    documents of all rows in chunks of |batch_size|. At the first faulting
    row, it sends the full chunks before that row and raises.
  - A row-by-row function `Scan` is proved equal to `Load` (`LoadIsScan`).
    The loop's invariant is stated with `Scan`.
- `aliases.dfy` (module `Aliases`): `alias` and `get_alias_index`.
- `orchestrator.dfy` (module `Orchestrator`): `main`.
  - `Refresh` is the method.
  - `RefreshRun` gives the requests a run sends and how it ends, as a
    function of the responses it receives.

How the outside world is modelled:

- Responses are inputs: status codes, the fetched rows, the formatted start
  time and the keys of the alias lookup's JSON body.
- Requests are values appended to `Network.requests`. No HTTP request is
  made.
- Python integers are unbounded, and so are Dafny's.
- Python's `%` is zero exactly when the divisor divides the counter,
  whatever the divisor's sign. So a negative batch size batches like its
  absolute value (`Width`), and a zero batch size raises ZeroDivisionError
  at the first row that has a version (IndexError instead, when that row's
  version has no '.').

Three things the code does that a reader might not expect:

- The bulk-post responses are never read (line 86 binds `response` and
  never uses it; line 94 does not keep it). A failed bulk write raises
  nothing, and there is no bulk-failure error.
- A version without a '.' is not skipped. `version[1]` raises IndexError
  (line 52) and ends the run.
  - The batches flushed before that row stay posted.
  - The partially filled buffer is never sent.
  - The alias is not touched.
- A lookup answered with 200 whose body has no key raises IndexError
  (`keys()[0]`, line 137).

## Model

| member | source | states |
|---|---|---|
| Text.Split | DataDog/datadog_agent_stats.py:49 | Python's `str.split(sep)`: always at least one segment; its meaning is stated by JoinSplit, SplitJoin, SplitSegmentsFree and SplitHasSecond |
| Text.JoinSplit | DataDog/datadog_agent_stats.py:49 | `split('.')` loses nothing: joining the segments with '.' gives the version string back |
| Text.SplitJoin | DataDog/datadog_agent_stats.py:49 | splitting the join of '.'-free segments gives exactly those segments (the other round trip) |
| Text.SplitSegmentsFree | DataDog/datadog_agent_stats.py:49 | no segment of a split contains the separator |
| Text.SplitHasSecond | DataDog/datadog_agent_stats.py:49-52 | a split has a segment 1 exactly when the string contains the separator, so `version[1]` raises exactly on versions without '.' |
| Text.FirstTwoSegments | DataDog/datadog_agent_stats.py:49-52 | segments 0 and 1 are the text before the first '.' and the text between the first '.' and the next '.' or the end |
| Text.SplitExample | DataDog/datadog_agent_stats.py:49 | "7.31.0" splits into "7", "31", "0" |
| Documents.HasVersion | DataDog/datadog_agent_stats.py:47 | `'agent_version' in meta` (definition; DocsProvenance, DocsComplete and NoVersionNoPosts state what it selects) |
| Documents.TagsFrom | DataDog/datadog_agent_stats.py:54-62 | the tags listed under one source, or the empty list when the source is absent (definition; DocFields states it for both sources) |
| Documents.ToDoc | DataDog/datadog_agent_stats.py:49-81 | the document built for one row (definition; DocFields states each field against the row and the version text) |
| Documents.Contribution | DataDog/datadog_agent_stats.py:47-83 | what one row adds: its document when it has a version, nothing otherwise (definition; DocsAround states it in position) |
| Documents.Docs | DataDog/datadog_agent_stats.py:45-48 | the documents of the rows that have a version, in row order (definition; DocsAppend, DocsAround, DocsProvenance, DocsComplete and DocsCount state its meaning) |
| Documents.Body | DataDog/datadog_agent_stats.py:64-83 | the bulk body built for a list of documents (definition; BodyAt, BodyTargetsIndex, BodyAppend and UnpairBody state its shape) |
| Documents.WellFormedIffDot | DataDog/datadog_agent_stats.py:47-52 | a row with a version yields a document exactly when the version contains a '.' |
| Documents.DocFields | DataDog/datadog_agent_stats.py:49-81 | the document's `host` is the host name and its `type` is "agent-stats"; each tag list is the row's list for "Datadog" / "Amazon Web Services", or empty when that source is absent; `major` is the text before the first '.' of the version and `minor` the next segment |
| Documents.DocForVersionExample | DataDog/datadog_agent_stats.py:49-52 | a host reporting 7.31.0 gets major "7" and minor "31" |
| Documents.DocsAppend | DataDog/datadog_agent_stats.py:45-47 | the documents of two row lists in a row are the documents of the first followed by those of the second |
| Documents.DocsAround | DataDog/datadog_agent_stats.py:45-47 | a row in the middle of a list contributes its own document, in its position, and nothing else |
| Documents.DocsProvenance | DataDog/datadog_agent_stats.py:45-47 | every document comes from a row that has an `agent_version` |
| Documents.DocsComplete | DataDog/datadog_agent_stats.py:45-47 | every row that has an `agent_version` has its document among the documents |
| Documents.DocsCount | DataDog/datadog_agent_stats.py:45-47 | there are never more documents than rows; rows without a version yield none |
| Documents.BodyAppend | DataDog/datadog_agent_stats.py:83 | appending to the buffer: the body of two document lists is the two bodies concatenated |
| Documents.BodyAt | DataDog/datadog_agent_stats.py:64-83 | a body has two lines per document: line 2k is the index action for the index with `_type` `_doc`, line 2k+1 is document k |
| Documents.BodyTargetsIndex | DataDog/datadog_agent_stats.py:64-71 | every action line of a body targets the one index it was built for, with `_type` `_doc` |
| Documents.UnpairBody | DataDog/datadog_agent_stats.py:83 | reading the document lines back out of a body gives exactly the documents put in, in order |
| Chunking.FlattenChunks | DataDog/datadog_agent_stats.py:83-98 | the batches concatenate back to the whole sequence: nothing lost, duplicated or reordered |
| Chunking.ChunkSizes | DataDog/datadog_agent_stats.py:85-98 | no batch for an empty sequence; every batch but the last holds w elements; the last holds the non-empty rest |
| Chunking.ChunkCount | DataDog/datadog_agent_stats.py:85-98 | the number of batches is ceil(n / w) |
| Chunking.LastChunkSize | DataDog/datadog_agent_stats.py:93-98 | the last batch holds n mod w elements, or w when the remainder is 0 |
| Chunking.ChunksAppendTail | DataDog/datadog_agent_stats.py:85-92 | whole batches followed by between 1 and w more elements: those elements become one more batch |
| Chunking.FullChunksSizes | DataDog/datadog_agent_stats.py:85-92 | the full batches each hold w elements and concatenate to a prefix that falls short of the whole by fewer than w |
| Chunking.FullChunksOfBlocks | DataDog/datadog_agent_stats.py:85-92 | after whole blocks and fewer than w more elements, the full batches are exactly the blocks' batches |
| BulkLoader.IndexName | DataDog/datadog_agent_stats.py:42 | `'datadog-{}'.format(stamp)` (definition; SwapWhenLoaded and ExampleRun state the index a run writes and swaps to) |
| BulkLoader.Width | DataDog/datadog_agent_stats.py:85 | the batch width, the absolute value of `batch_size`, that Python's `%` flush test gives for either sign (definition; FlushTest states it) |
| BulkLoader.Faults | DataDog/datadog_agent_stats.py:49-85 | a row raises when it has a version and either `version[1]` does not exist or the batch size is 0 (definition; FirstFault and LoadSucceeds state its meaning) |
| BulkLoader.FaultOf | DataDog/datadog_agent_stats.py:52-85 | the exception of a faulting row: IndexError when the version has no second segment, since `version[1]` runs before `counter % batch_size`, and ZeroDivisionError otherwise (definition; LoadSucceeds states which exception a call raises) |
| BulkLoader.Load | DataDog/datadog_agent_stats.py:41-100 | what one call sends and returns, at the batch level (definition; LoadSucceeds, LoadBatching, LoadDelivers, LoadAtFault and NoVersionNoPosts state its meaning, and LoadIsScan ties it to the loop) |
| BulkLoader.Step | DataDog/datadog_agent_stats.py:45-92 | one iteration of the loop over the rows (definition; BufferHost is proved against it, and StepKeeps and ScanInvariant state what it keeps) |
| BulkLoader.Scan | DataDog/datadog_agent_stats.py:45-92 | the loop's state after the rows, one Step per row until one raises (definition; ScanInvariant and LoadIsScan state its meaning, and AgentVersions' loop invariant is stated with it) |
| BulkLoader.Outcome | DataDog/datadog_agent_stats.py:93-100 | after the loop: post a non-empty buffer and return the index name, unless a row raised (definition; LoadIsScan ties it to Load) |
| BulkLoader.FirstFault | DataDog/datadog_agent_stats.py:45-52 | the first row that raises (a version without a second segment, or a batch size of 0), or the row count when none does; no earlier row raises |
| BulkLoader.FlushTest | DataDog/datadog_agent_stats.py:85 | for a counter between 1 and the batch width, `counter % batch_size == 0` holds exactly when the counter equals the width, for either sign of the batch size |
| BulkLoader.BufferHost | DataDog/datadog_agent_stats.py:47-85 | one iteration for a host with a version: raises IndexError or ZeroDivisionError as one `Step` of the loop does, and otherwise returns the counter and buffer of that step and whether it flushes |
| BulkLoader.AgentVersions | DataDog/datadog_agent_stats.py:41-100 | the requests sent are exactly one bulk post per body of `Load`, in order, and the result (the index name, or the exception) is `Load`'s |
| BulkLoader.StepKeeps | DataDog/datadog_agent_stats.py:45-92 | one iteration keeps the loop invariant: the posts are the bodies of the full batches so far, the buffer is the body of the documents since, and the counter counts them; a raising row ends the call as `Load` says |
| BulkLoader.ScanInvariant | DataDog/datadog_agent_stats.py:45-92 | after every prefix of the rows, the loop state satisfies that invariant, or the loop has raised with `Load`'s outcome |
| BulkLoader.LoadIsScan | DataDog/datadog_agent_stats.py:41-100 | the row-by-row loop, followed by the final post of a non-empty buffer, gives exactly `Load` on every input |
| BulkLoader.ScanHalts | DataDog/datadog_agent_stats.py:45-52 | once a row has raised, the later rows are never looked at |
| BulkLoader.RaiseAt | DataDog/datadog_agent_stats.py:49-52 | a row that raises ends the call with the posts made before it and that row's exception |
| BulkLoader.ScanCounter | DataDog/datadog_agent_stats.py:85-92 | after the flush check the counter is the number of documents since the last post, it is below the batch width, and the buffer holds exactly their action and document lines |
| BulkLoader.LoadSucceeds | DataDog/datadog_agent_stats.py:45-100 | the call returns, and returns the index name, exactly when every version has a '.' and the batch size is not 0 (or no row has a version); otherwise it raises at the first row that has a version and either no '.' in it or a batch size of 0, with IndexError when that row's version has no '.' and ZeroDivisionError otherwise |
| BulkLoader.LoadPostsBatches | DataDog/datadog_agent_stats.py:83-98 | a call that returns has posted the bodies of the batches of all documents |
| BulkLoader.LoadBatching | DataDog/datadog_agent_stats.py:85-98 | when every version has a '.' and the batch size is not 0, N documents go out in ceil(N / w), w being the batch width, bodies; every body but the last carries w documents; the last carries N mod w, or w when that is 0 |
| BulkLoader.LoadDelivers | DataDog/datadog_agent_stats.py:83-98 | when every version has a '.' and the batch size is not 0, the posted bodies carry the documents of all rows, each once and in row order, and every body pairs an index action with each of its documents |
| BulkLoader.LoadAtFault | DataDog/datadog_agent_stats.py:45-92 | a call that raises has posted nothing with a batch size of 0, and otherwise only full bodies of w documents (w the batch width); these are, in order, the first documents before the faulting row, and fewer than w documents are lost |
| BulkLoader.NoVersionNoPosts | DataDog/datadog_agent_stats.py:45-47 | rows without an `agent_version` lead to no request and no exception, whatever the batch size |
| BulkLoader.LoadOneDocument | DataDog/datadog_agent_stats.py:41-100 | a row with a well-formed version followed by one without: with a batch size other than 0, 1 and -1, one body, posted after the loop, with the first row's action and document |
| BulkLoader.UnpairBodies | DataDog/datadog_agent_stats.py:83-98 | reading the documents back out of the posted bodies gives the batches |
| BulkLoader.BodiesWellFormed | DataDog/datadog_agent_stats.py:64-83 | every posted body is the action-and-document body of the documents it carries |
| Aliases.Truthy | DataDog/datadog_agent_stats.py:115 | `if old_index:`: neither None nor the empty string (definition; Actions states what it decides) |
| Aliases.Actions | DataDog/datadog_agent_stats.py:104-116 | `add` of the new index under the alias comes first; `remove_index` of the old index follows exactly when `old_index` is truthy (not None, not empty); no other action |
| Aliases.Alias | DataDog/datadog_agent_stats.py:103-129 | posts the actions once, whatever the response; returns exactly when the status is 200 and raises with the status otherwise |
| Aliases.AliasIndexOf | DataDog/datadog_agent_stats.py:136-143 | returns the first key exactly when the status is 200 and the body has a key; raises with the status on any other status, and IndexError on an empty body |
| Aliases.GetAliasIndex | DataDog/datadog_agent_stats.py:131-143 | sends one lookup of the alias and returns or raises as `AliasIndexOf` says |
| Orchestrator.RefreshRun | DataDog/datadog_agent_stats.py:145-155 | the requests of one run of `main` and how it ends, for the responses it receives (definition; Refresh is proved against it, and RefreshOrder, SwapWhenLoaded, CompletedWhen and FirstRunWithoutAlias state its meaning) |
| Orchestrator.Steps | DataDog/datadog_agent_stats.py:145-155 | the run of `main` for a given outcome of the load (definition; StepsOrder, StepsSwap and StepsCompleted state its meaning) |
| Orchestrator.Refresh | DataDog/datadog_agent_stats.py:145-155 | the requests sent and the way the run ends are exactly those of `RefreshRun` for the responses received |
| Orchestrator.RefreshOrder | DataDog/datadog_agent_stats.py:145-155 | the fetch comes first, then the bulk posts, then the alias lookup, then the swap; a fetch not answered with 200 is the only request and the run exits with status 1, and exit 1 happens in no other case |
| Orchestrator.StepsOrder | DataDog/datadog_agent_stats.py:145-155 | the same ordering for any outcome of the load |
| Orchestrator.SwapWhenLoaded | DataDog/datadog_agent_stats.py:148-152 | the alias is swapped exactly when the fetch succeeded, every version loaded and the lookup named an index; the swap is then the last request and moves "datadog" to `datadog-<stamp>`, removing the looked-up index when its name is non-empty |
| Orchestrator.StepsSwap | DataDog/datadog_agent_stats.py:148-152 | the same for any outcome of the load |
| Orchestrator.CompletedWhen | DataDog/datadog_agent_stats.py:145-155 | a run completes exactly when the fetch, the lookup and the swap are answered with 200, the lookup names an index and every version has a '.' |
| Orchestrator.FirstRunWithoutAlias | DataDog/datadog_agent_stats.py:150-151 | before the alias exists, the lookup raises after the new index was loaded and no swap is sent |
| Orchestrator.StepsCompleted | DataDog/datadog_agent_stats.py:148-152 | with every response 200 and a successful load: the fetch, the bulk posts, the lookup and the swap, in that order, and the run completes |
| Orchestrator.RunOneDocument | DataDog/datadog_agent_stats.py:145-155 | when the fetch, the lookup and the swap are answered with 200 and the looked-up index name is non-empty, a run over a host with a version containing '.' and a host without one sends the fetch, one bulk body holding the first host's document, the lookup, and the swap adding today's index and removing the old one |
| Orchestrator.ExampleRun | DataDog/datadog_agent_stats.py:145-155 | the same on concrete data: web-1 on agent 7.31.0 with tag env:prod is indexed with major "7" and minor "31" into datadog-20211019120000, and the alias moves off datadog-20211018120000 |

## Left out

- The SSM parameter lookup (`get_parameter`, boto3) and the query parameters and headers of the overview request are not modelled. They are a foreign call for secrets and request configuration.
- The HTTP layer is not modelled: URLs, `host_url`, headers and the transport. Each request is a value recorded in `Network.requests`; each response status is an input.
- JSON serialisation and the `\n` framing of bulk bodies are not modelled. Action and document lines are datatype values, so the byte layout of `json.dumps` is not captured.
- BulkLoader.AgentVersions: the start time is an input (`stamp`). The clock read and `strftime` formatting are not modelled.
- Aliases.GetAliasIndex: the list `keys()` returns for the lookup's JSON body is an input, in whatever order Python gives; Python 2 dict order is unspecified and not modelled, and the lemmas hold for every such list.
- Orchestrator.Refresh: `print` of the status before `exit(1)` is reduced to the exit code. An exception escaping `main` is an `Exit` value, not a process exit.
- Host rows are typed records. A missing `meta`, `tags_by_source` or `host_name` key (KeyError), and non-string version values, are not modelled.
- The rebinding of `data` inside the loop (line 72) is not modelled. `data['rows']` is evaluated once, before the loop, so iteration is unaffected.
- The search engine's own behaviour is not modelled: whether bulk writes or alias swaps are applied, atomically or at all. The model captures what the script sends and how it reacts to status codes.
