/**
 * The fan-out of `findOutlinks` and `_getScoresForDocs` (Crawler.js lines 119-145 and
 * 210-235): the ids are cut into chunks, chunk `index` is posted to `workers[index]`, and the
 * replies are flattened in chunk order. Each worker is run as a call of its message handler.
 */
module Dispatch {
  import opened Wrappers
  import opened Js
  import opened Sequences
  import opened Slicing
  import opened Files
  import opened Documents
  import opened Worker

  /** Posting to `workers[index]` when no such worker exists. */
  const NoWorkerError := "Cannot read properties of undefined (reading 'postMessage')"

  /** The replies to one `getDoc` message per chunk, in chunk order. */
  function DocReplies(root: string, fs: FileSystem, chunks: seq<seq<JsValue>>): (replies: seq<seq<DocRecord>>)
    ensures |replies| == |chunks|
  {
    if |chunks| == 0 then []
    else [HandleMessage(fs, Message(Str("getDoc"), Arr(chunks[0]), root)).docs] + DocReplies(root, fs, chunks[1..])
  }

  /** The replies to one `getOutlinks` message per chunk, in chunk order. */
  function OutlinkReplies(root: string, fs: FileSystem, chunks: seq<seq<JsValue>>): (replies: seq<seq<string>>)
    ensures |replies| == |chunks|
  {
    if |chunks| == 0 then []
    else [HandleMessage(fs, Message(Str("getOutlinks"), Arr(chunks[0]), root)).links] + OutlinkReplies(root, fs, chunks[1..])
  }

  /** There are more chunks than workers exactly when there are no workers and some ids. */
  lemma ChunksWithoutWorker(items: seq<JsValue>, numWorkers: nat)
    ensures |Chunks(items, numWorkers)| > numWorkers <==> numWorkers == 0 && |items| > 0
  {
    if numWorkers == 0 {
      if |items| > 0 {
        ChunksWithoutWorkers(items, |items|);
      }
    } else {
      ChunksSpec(items, numWorkers);
    }
  }

  /** `getDoc` through the workers: rejected when a chunk has no worker, otherwise the flattened
      replies. */
  function DispatchDocs(root: string, fs: FileSystem, items: seq<JsValue>, numWorkers: nat): (r: Result<seq<DocRecord>>)
    ensures r.Failure? <==> numWorkers == 0 && |items| > 0
  {
    var chunks := Chunks(items, numWorkers);
    ChunksWithoutWorker(items, numWorkers);
    if |chunks| > numWorkers then Failure(NoWorkerError)
    else Success(Flatten(DocReplies(root, fs, chunks)))
  }

  /** `getOutlinks` through the workers: rejected when a chunk has no worker, otherwise the
      flattened replies. */
  function DispatchOutlinks(root: string, fs: FileSystem, items: seq<JsValue>, numWorkers: nat): (r: Result<seq<string>>)
    ensures r.Failure? <==> numWorkers == 0 && |items| > 0
  {
    var chunks := Chunks(items, numWorkers);
    ChunksWithoutWorker(items, numWorkers);
    if |chunks| > numWorkers then Failure(NoWorkerError)
    else Success(Flatten(OutlinkReplies(root, fs, chunks)))
  }

  lemma {:induction false} DocRepliesFlatten(root: string, fs: FileSystem, chunks: seq<seq<JsValue>>)
    ensures Flatten(DocReplies(root, fs, chunks)) == FetchDocs(root, fs, Flatten(chunks))
    decreases |chunks|
  {
    if |chunks| > 0 {
      DocRepliesFlatten(root, fs, chunks[1..]);
      FetchDocsAppend(root, fs, chunks[0], Flatten(chunks[1..]));
    }
  }

  lemma {:induction false} OutlinkRepliesFlatten(root: string, fs: FileSystem, chunks: seq<seq<JsValue>>)
    ensures Flatten(OutlinkReplies(root, fs, chunks)) == FetchAllOutlinks(root, fs, Flatten(chunks))
    decreases |chunks|
  {
    if |chunks| > 0 {
      OutlinkRepliesFlatten(root, fs, chunks[1..]);
      FetchAllOutlinksAppend(root, fs, chunks[0], Flatten(chunks[1..]));
    }
  }

  /** Whenever the fan-out succeeds, it yields what one worker would for the whole id list:
      chunking neither loses nor reorders documents. */
  lemma DispatchDocsIsFetch(root: string, fs: FileSystem, items: seq<JsValue>, numWorkers: nat)
    requires numWorkers > 0 || |items| == 0
    ensures DispatchDocs(root, fs, items, numWorkers) == Success(FetchDocs(root, fs, items))
  {
    if |items| == 0 {
      assert Chunks(items, numWorkers) == [];
    } else {
      ChunksSpec(items, numWorkers);
      DocRepliesFlatten(root, fs, Chunks(items, numWorkers));
    }
  }

  /** Whenever the fan-out succeeds, it yields the outlinks of every id in id order. */
  lemma DispatchOutlinksIsFetch(root: string, fs: FileSystem, items: seq<JsValue>, numWorkers: nat)
    requires numWorkers > 0 || |items| == 0
    ensures DispatchOutlinks(root, fs, items, numWorkers) == Success(FetchAllOutlinks(root, fs, items))
  {
    if |items| == 0 {
      assert Chunks(items, numWorkers) == [];
    } else {
      ChunksSpec(items, numWorkers);
      OutlinkRepliesFlatten(root, fs, Chunks(items, numWorkers));
    }
  }
}
