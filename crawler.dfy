/** The crawler (src/Crawler.js): its frontier state and the operations that drive it. */
module Crawlers {
  import opened Wrappers
  import opened Js
  import opened Text
  import opened Sequences
  import opened Slicing
  import opened Files
  import opened Documents
  import opened DocumentRaters
  import opened UnifiedGetters
  import opened Worker
  import opened Dispatch
  import opened Outlinks
  import opened Checkpoint
  import opened Frontier

  const UnreadableStateError := "Cannot read or parse the state file"
  const IdMismatchError := "Document ID mismatch"
  const NotIterableError := "undefined is not iterable"
  const NotAHeapError := "this.queue.toArray is not a function"

  /** The scored documents among queue entries. */
  function DocsOf(out: seq<Entry>): set<Document>
  {
    set i | 0 <= i < |out| && out[i].Doc? :: out[i].doc
  }

  lemma DocsOfAppend(x: seq<Entry>, y: seq<Entry>)
    ensures DocsOf(x + y) == DocsOf(x) + DocsOf(y)
  {
    forall d | d in DocsOf(x + y)
      ensures d in DocsOf(x) + DocsOf(y)
    {
      var i :| 0 <= i < |x + y| && (x + y)[i].Doc? && (x + y)[i].doc == d;
      if i < |x| {
        assert x[i] == (x + y)[i];
      } else {
        assert y[i - |x|] == (x + y)[i];
      }
    }
    forall d | d in DocsOf(x)
      ensures d in DocsOf(x + y)
    {
      var i :| 0 <= i < |x| && x[i].Doc? && x[i].doc == d;
      assert (x + y)[i] == x[i];
    }
    forall d | d in DocsOf(y)
      ensures d in DocsOf(x + y)
    {
      var i :| 0 <= i < |y| && y[i].Doc? && y[i].doc == d;
      assert (x + y)[|x| + i] == y[i];
    }
  }

  /** `docids.map((docid) => new Document(docid))` with Crawler.js's `Document`. */
  function Placeholders(ids: seq<JsValue>): (out: seq<Entry>)
    ensures |out| == |ids|
    ensures forall i :: 0 <= i < |ids| ==> out[i] == Placeholder(NewPlaceholder(ids[i]))
  {
    seq(|ids|, i requires 0 <= i < |ids| => Placeholder(NewPlaceholder(ids[i])))
  }

  /** `docs.map((doc) => doc.docid)`. */
  function EntryIds(docs: seq<Entry>): (ids: seq<JsValue>)
    ensures |ids| == |docs|
    ensures forall i :: 0 <= i < |docs| ==> ids[i] == EntryDocid(docs[i])
  {
    seq(|docs|, i requires 0 <= i < |docs| => EntryDocid(docs[i]))
  }

  /** A checkpoint's queue as pushed onto the resumed heap, in the heap's array order. The
      checkpoint holds `StoredEntry` records, what `JSON.parse` gives back, and not the documents
      `QueuedPairs` turns into pairs, so the two conversions are kept apart. */
  function Loaded(heap: seq<StoredEntry>): (q: seq<Entry>)
    ensures |q| == |heap|
    ensures forall i :: 0 <= i < |heap| ==> q[i] == Pair(heap[i].annotations, heap[i].docid)
  {
    seq(|heap|, i requires 0 <= i < |heap| => Pair(heap[i].annotations, heap[i].docid))
  }

  /** `new Set(qualityRaters.map((rater) => rater.getName()))`. */
  function RaterNames(raters: seq<DocumentRater>): set<string>
  {
    set i | 0 <= i < |raters| :: raters[i].GetName()
  }

  /** With only `length` raters, the names they store are exactly their distinct names. */
  lemma {:induction false} LengthNamesAreRaterNames(raters: seq<DocumentRater>)
    requires forall i :: 0 <= i < |raters| ==> raters[i].kind == "length"
    ensures LengthNames(raters) == RaterNames(raters)
    decreases |raters|
  {
    if |raters| > 0 {
      LengthNamesAreRaterNames(raters[1..]);
      assert RaterNames(raters) == {raters[0].name} + RaterNames(raters[1..]) by {
        forall x | x in RaterNames(raters) ensures x in {raters[0].name} + RaterNames(raters[1..]) {
          var i :| 0 <= i < |raters| && raters[i].GetName() == x;
          if i > 0 {
            assert raters[1..][i - 1] == raters[i];
          }
        }
        forall x | x in RaterNames(raters[1..]) ensures x in RaterNames(raters) {
          var i :| 0 <= i < |raters[1..]| && raters[1..][i].GetName() == x;
          assert raters[i + 1] == raters[1..][i];
        }
        assert raters[0].GetName() == raters[0].name;
      }
    }
  }

  /** No false positive: a heap top scored from scratch by the same `length` raters (as
      `getScoresForDocs` scores every fresh document) never triggers recomputation, even when
      two raters share a name. */
  lemma SameRatersNoRecompute(raters: seq<DocumentRater>, text: Option<string>)
    requires forall i :: 0 <= i < |raters| ==> raters[i].kind == "length"
    ensures !NeedsRecompute(ChainScores(raters, map[], text), RaterNames(raters))
  {
    ChainScoresSpec(raters, map[], text);
    LengthNamesAreRaterNames(raters);
    assert ChainScores(raters, map[], text).Keys == RaterNames(raters);
  }

  /** `getOutlinks` of the corpus accessor over `ids`, awaited together and flattened: rejected
      if any id is invalid, otherwise the outlinks a worker would read for the same ids. */
  function GetterOutlinks(getter: UnifiedGetter, fs: FileSystem, ids: seq<JsValue>): (r: Result<seq<string>>)
    ensures r.Success? <==> AllValid(ids)
    ensures r.Success? ==> r.value == FetchAllOutlinks(getter.cw22RootPath, fs, ids)
    decreases |ids|
  {
    if |ids| == 0 then Success([])
    else
      var rest := GetterOutlinks(getter, fs, ids[1..]);
      assert AllValid(ids) <==> IsValidId(ids[0]) && AllValid(ids[1..]) by {
        if IsValidId(ids[0]) && AllValid(ids[1..]) {
          forall i | 0 < i < |ids|
            ensures IsValidId(ids[i])
          {
            assert ids[i] == ids[1..][i - 1];
          }
        }
      }
      WorkerAgreesWithGetter(getter, fs, ids[0]);
      match getter.GetOutlinks(fs, ids[0])
      case Failure(e) => Failure(e)
      case Success(links) =>
        if rest.Failure? then rest else Success(links + rest.value)
  }

  /** `new Document(docid, text)` for every record a worker sent, in order. */
  method NewDocuments(recs: seq<DocRecord>) returns (docs: seq<Document>)
    ensures |docs| == |recs|
    ensures forall d :: d in docs ==> fresh(d)
    ensures forall j :: 0 <= j < |recs| ==>
      docs[j].docid == recs[j].docid && docs[j].text == Some(recs[j].text) && docs[j].scores == map[]
  {
    docs := [];
    for i := 0 to |recs|
      invariant |docs| == i
      invariant forall d :: d in docs ==> fresh(d)
      invariant forall j :: 0 <= j < i ==>
        docs[j].docid == recs[j].docid && docs[j].text == Some(recs[j].text) && docs[j].scores == map[]
    {
      var d := new Document(recs[i].docid, recs[i].text);
      docs := docs + [d];
    }
  }

  /** `results = await qualityRater.rate(results)` for every rater in order: each document ends
      with the scores of the whole chain, its text untouched. */
  method RateAll(raters: seq<DocumentRater>, docs: seq<Document>) returns (results: seq<Document>)
    modifies set d | d in docs
    ensures results == docs
    ensures forall d :: d in docs ==>
      d.text == old(d.text) && d.scores == ChainScores(raters, old(d.scores), old(d.text))
  {
    results := docs;
    for k := 0 to |raters|
      invariant results == docs
      invariant forall d :: d in docs ==>
        d.text == old(d.text) && d.scores == ChainScores(raters[..k], old(d.scores), old(d.text))
    {
      var rated := raters[k].Rate(Batch(results));
      results := rated.value;
      assert raters[..k + 1] == raters[..k] + [raters[k]];
      forall d | d in docs
        ensures ChainScores(raters[..k + 1], old(d.scores), old(d.text))
          == raters[k].Apply(ChainScores(raters[..k], old(d.scores), old(d.text)), old(d.text))
      {
        ChainScoresSnoc(raters[..k], raters[k], old(d.scores), old(d.text));
      }
    }
    assert raters[..|raters|] == raters;
  }

  /** `delete document.text` for every document. */
  method DeleteTexts(docs: seq<Document>)
    modifies set d | d in docs
    ensures forall d :: d in docs ==> d.text == None && d.scores == old(d.scores)
  {
    for j := 0 to |docs|
      invariant forall m :: 0 <= m < j ==> docs[m].text == None
      invariant forall d :: d in docs ==> d.scores == old(d.scores)
    {
      docs[j].text := None;
    }
  }

  /** One `[annotations, docid]` pair per document, in order, as `putIntoQueue` pushes them;
      `Loaded` does the same for the records of a checkpoint. */
  function QueuedPairs(documents: seq<AnnotatedDocument>): (q: seq<Entry>)
    ensures |q| == |documents|
    ensures forall i :: 0 <= i < |documents| ==> q[i] == Pair(documents[i].annotations, documents[i].docid)
  {
    seq(|documents|, i requires 0 <= i < |documents| => Pair(documents[i].annotations, documents[i].docid))
  }

  function DocumentIds(documents: seq<AnnotatedDocument>): (ids: seq<JsValue>)
    ensures |ids| == |documents|
    ensures forall i :: 0 <= i < |documents| ==> ids[i] == documents[i].docid
  {
    seq(|documents|, i requires 0 <= i < |documents| => documents[i].docid)
  }

  /** One more document: one more pair after the queue, and one more id added to the visited set. */
  lemma PutStep(queue: seq<Entry>, visited: seq<JsValue>, documents: seq<AnnotatedDocument>, i: nat)
    requires i < |documents|
    ensures queue + QueuedPairs(documents[..i]) + [Pair(documents[i].annotations, documents[i].docid)]
      == queue + QueuedPairs(documents[..i + 1])
    ensures var before := Dedup(visited + DocumentIds(documents[..i]));
      Dedup(visited + DocumentIds(documents[..i + 1]))
        == if documents[i].docid in before then before else before + [documents[i].docid]
  {
    var pair := Pair(documents[i].annotations, documents[i].docid);
    assert QueuedPairs(documents[..i + 1]) == QueuedPairs(documents[..i]) + [pair];
    var ids := DocumentIds(documents[..i]);
    assert DocumentIds(documents[..i + 1]) == ids + [documents[i].docid];
    assert visited + DocumentIds(documents[..i + 1]) == (visited + ids) + [documents[i].docid];
    DedupSnoc(visited + ids, documents[i].docid);
  }

  /** Adding the ids one at a time to a set is building the set from all of them. */
  lemma VisitStep(visited: seq<JsValue>, ids: seq<JsValue>, i: nat)
    requires i < |ids|
    ensures Dedup(visited + ids[..i + 1])
      == if ids[i] in Dedup(visited + ids[..i]) then Dedup(visited + ids[..i]) else Dedup(visited + ids[..i]) + [ids[i]]
  {
    assert visited + ids[..i + 1] == (visited + ids[..i]) + [ids[i]];
    DedupSnoc(visited + ids[..i], ids[i]);
  }

  /** `for (const visited of this.visited) uniqueOutlinks.delete(visited)`: the outlinks left
      are those that are not visited, in their order. */
  method DeleteVisited(unique: seq<string>, visited: seq<JsValue>) returns (r: seq<string>)
    ensures r == Filter(unique, NotVisited(visited))
  {
    r := unique;
    WithoutNothing(unique);
    assert visited[..0] == [];
    for i := 0 to |visited|
      invariant r == Without(unique, visited[..i])
    {
      DeleteWithout(unique, visited[..i], visited[i]);
      assert visited[..i + 1] == visited[..i] + [visited[i]];
      r := Delete(r, visited[i]);
    }
    assert visited[..|visited|] == visited;
    WithoutIsFilter(unique, visited);
  }

  /** `newQueue` of the reconciliation: the annotations of each recomputed entry with the heap
      id at its position. */
  function Reconciled(heapIds: seq<JsValue>, recomputed: seq<Entry>): (q: seq<Entry>)
    requires |recomputed| <= |heapIds|
    ensures |q| == |recomputed|
    ensures forall i :: 0 <= i < |q| ==> q[i].Pair? && q[i].docid == heapIds[i]
  {
    seq(|recomputed|, i requires 0 <= i < |recomputed| => Pair(EntryAnnotations(recomputed[i]), heapIds[i]))
  }

  /** The reconciliation loop of `initOrResumeState`: each recomputed entry must carry the id of
      the heap entry at its position (a position past the heap's end cannot be destructured). */
  method Reconcile(heapIds: seq<JsValue>, recomputed: seq<Entry>) returns (r: Result<seq<Entry>>)
    ensures r.Success? <==> IdsMatch(heapIds, EntryIds(recomputed))
    ensures r.Success? ==> r.value == Reconciled(heapIds, recomputed)
  {
    var newQueue: seq<Entry> := [];
    for i := 0 to |recomputed|
      invariant i <= |heapIds|
      invariant IdsMatch(heapIds, EntryIds(recomputed[..i]))
      invariant |newQueue| == i
      invariant forall j :: 0 <= j < i ==> newQueue[j] == Pair(EntryAnnotations(recomputed[j]), heapIds[j])
    {
      if i >= |heapIds| {
        return Failure(NotIterableError);
      }
      var doc := recomputed[i];
      var docid := heapIds[i];
      if EntryDocid(doc) != docid {
        return Failure(IdMismatchError);
      }
      newQueue := newQueue + [Pair(EntryAnnotations(doc), docid)];
    }
    assert recomputed[..|recomputed|] == recomputed;
    return Success(newQueue);
  }

  class Crawler {
    const getter: UnifiedGetter
    const raters: seq<DocumentRater>
    const outputDir: string
    const numWorkers: nat
    const maxNumInMemDocs: nat
    const requireDocContent: bool
    /** The array of the constructor, or the heap array after a resume. */
    var queue: seq<Entry>
    /** Whether `queue` has been replaced by a `Heap` (by `initOrResumeState`). */
    var isHeap: bool
    /** The `Set` of visited ids, in insertion order. */
    var visited: seq<JsValue>

    ghost predicate Valid()
      reads this
    {
      && (requireDocContent <==> |raters| > 0)
      && NoDuplicates(visited)
      && (isHeap ==> forall i :: 0 <= i < |queue| ==> queue[i].Pair?)
    }

    /** `new Crawler(config)`: an empty array queue and visited set; document content is needed
        when some rater asks for text, which every rater does. */
    constructor(getter: UnifiedGetter, raters: seq<DocumentRater>, outputDir: string, numWorkers: nat, maxNumInMemDocs: nat)
      ensures Valid()
      ensures this.getter == getter && this.raters == raters && this.outputDir == outputDir
      ensures this.numWorkers == numWorkers && this.maxNumInMemDocs == maxNumInMemDocs
      ensures requireDocContent <==> exists i :: 0 <= i < |raters| && raters[i].RequireDocText()
      ensures queue == [] && visited == [] && !isHeap
    {
      this.getter := getter;
      this.raters := raters;
      this.outputDir := outputDir;
      this.numWorkers := numWorkers;
      this.maxNumInMemDocs := maxNumInMemDocs;
      queue := [];
      isHeap := false;
      visited := [];
      requireDocContent := exists i :: 0 <= i < |raters| && raters[i].RequireDocText();
      if |raters| > 0 {
        assert raters[0].RequireDocText();
      }
    }

    /** `this.visited.add(docid)`: a set keeps one copy of each id, in insertion order. */
    method Visit(docid: JsValue)
      requires Valid()
      modifies this
      ensures Valid()
      ensures visited == if docid in old(visited) then old(visited) else old(visited) + [docid]
      ensures queue == old(queue) && isHeap == old(isHeap)
    {
      if docid !in visited {
        visited := visited + [docid];
      }
    }

    /** `this.visited.add(docid)` for each of `ids`, in order. */
    method VisitAll(ids: seq<JsValue>)
      requires Valid()
      modifies this
      ensures Valid()
      ensures visited == Dedup(old(visited) + ids)
      ensures queue == old(queue) && isHeap == old(isHeap)
    {
      DedupOfDistinct(visited);
      assert old(visited) + ids[..0] == visited;
      for i := 0 to |ids|
        invariant Valid() && queue == old(queue) && isHeap == old(isHeap)
        invariant visited == Dedup(old(visited) + ids[..i])
      {
        VisitStep(old(visited), ids, i);
        Visit(ids[i]);
      }
      assert ids[..|ids|] == ids;
    }

    /** One turn of the `putIntoQueue` loop: push the pair, then add the id to the visited set. */
    method PutOne(document: AnnotatedDocument)
      requires Valid() && !isHeap
      modifies this
      ensures Valid() && !isHeap
      ensures queue == old(queue) + [Pair(document.annotations, document.docid)]
      ensures visited == if document.docid in old(visited) then old(visited) else old(visited) + [document.docid]
    {
      queue := queue + [Pair(document.annotations, document.docid)];
      Visit(document.docid);
    }

    /** `putIntoQueue(documents)`: one `[annotations, docid]` pair per document appended in order,
        each id added to the visited set. */
    method PutIntoQueue(documents: seq<AnnotatedDocument>)
      requires Valid() && !isHeap
      modifies this
      ensures Valid() && !isHeap
      ensures queue == old(queue) + QueuedPairs(documents)
      ensures visited == Dedup(old(visited) + DocumentIds(documents))
    {
      assert visited == Dedup(old(visited) + DocumentIds(documents[..0])) by {
        DedupOfDistinct(visited);
        assert old(visited) + DocumentIds(documents[..0]) == visited;
      }
      assert queue == old(queue) + QueuedPairs(documents[..0]);
      for i := 0 to |documents|
        invariant Valid() && !isHeap
        invariant queue == old(queue) + QueuedPairs(documents[..i])
        invariant visited == Dedup(old(visited) + DocumentIds(documents[..i]))
      {
        PutStep(old(queue), old(visited), documents, i);
        PutOne(documents[i]);
      }
      assert documents[..|documents|] == documents;
    }

        /** `popFromQueue(numDocs)`: up to `numDocs` pairs leave the end of the array, their ids in
        popping order. The annotations popped are then read for logging, which throws when one
        of them is `undefined`; the pairs are gone from the queue either way. */
    method PopFromQueue(numDocs: int) returns (r: Result<seq<JsValue>>)
      requires Valid() && !isHeap
      modifies this
      ensures Valid() && !isHeap && visited == old(visited)
      ensures queue == PopSpec(old(queue), numDocs).1
      ensures r.Failure? <==> MeanScoreThrows(PopAnnotations(old(queue), numDocs))
      ensures r.Success? ==> r.value == PopSpec(old(queue), numDocs).0
    {
      var annotations := [];
      var docids := [];
      var i := 0;
      assert [] + PopSpec(queue, numDocs).0 == PopSpec(queue, numDocs).0;
      assert [] + PopAnnotations(queue, numDocs) == PopAnnotations(queue, numDocs);
      while i < numDocs
        invariant Valid() && !isHeap && visited == old(visited)
        invariant PopSpec(old(queue), numDocs) == (docids + PopSpec(queue, numDocs - i).0, PopSpec(queue, numDocs - i).1)
        invariant PopAnnotations(old(queue), numDocs) == annotations + PopAnnotations(queue, numDocs - i)
        decreases numDocs - i
      {
        assert docids + [] == docids;
        assert annotations + [] == annotations;
        if |queue| == 0 {
          break;
        }
        var entry := queue[|queue| - 1];
        ghost var tail := PopSpec(queue[..|queue| - 1], numDocs - i - 1);
        ghost var tailAnnotations := PopAnnotations(queue[..|queue| - 1], numDocs - i - 1);
        queue := queue[..|queue| - 1];
        if !entry.Pair? {
          break;
        }
        assert docids + ([entry.docid] + tail.0) == (docids + [entry.docid]) + tail.0;
        assert annotations + ([entry.annotations] + tailAnnotations) == (annotations + [entry.annotations]) + tailAnnotations;
        annotations := annotations + [entry.annotations];
        docids := docids + [entry.docid];
        i := i + 1;
      }
      assert docids + [] == docids;
      assert annotations + [] == annotations;
      if NoAnnotation in annotations {
        return Failure(NoScoresError);
      }
      return Success(docids);
    }

    /** `popDocs(count)`: `splice(0, count)` on a non-empty array. */
    method PopDocs(count: int) returns (docs: seq<Entry>)
      requires Valid() && !isHeap
      modifies this
      ensures Valid() && !isHeap && visited == old(visited)
      ensures docs + queue == old(queue)
      ensures |docs| == if count <= 0 then 0 else if count < |old(queue)| then count else |old(queue)|
    {
      if |queue| == 0 {
        return [];
      }
      var k := if count <= 0 then 0 else if count < |queue| then count else |queue|;
      docs := queue[..k];
      queue := queue[k..];
    }

    /** The entries `getScoresForDocs(items)` yields: with document content, one scored document
        per item the workers could read, with the id it was read under, the scores of the rater
        chain applied in order, and no text; without, one placeholder per item. */
    ghost predicate ScoredFrom(items: seq<JsValue>, fs: FileSystem, out: seq<Entry>)
      reads DocsOf(out)
    {
      if requireDocContent then
        var recs := FetchDocs(getter.cw22RootPath, fs, items);
        && |out| == |recs|
        && forall i :: 0 <= i < |out| ==>
             && out[i].Doc?
             && out[i].doc in DocsOf(out)
             && out[i].doc.docid == recs[i].docid
             && out[i].doc.text == None
             && out[i].doc.scores == ChainScores(raters, map[], Some(recs[i].text))
      else out == Placeholders(items)
    }

    /** Scoring two id lists one after the other is scoring their concatenation. */
    lemma ScoredFromAppend(a: seq<JsValue>, b: seq<JsValue>, fs: FileSystem, x: seq<Entry>, y: seq<Entry>)
      requires ScoredFrom(a, fs, x) && ScoredFrom(b, fs, y)
      ensures ScoredFrom(a + b, fs, x + y)
    {
      if requireDocContent {
        var root := getter.cw22RootPath;
        FetchDocsAppend(root, fs, a, b);
        var ra: seq<DocRecord>, rb: seq<DocRecord> := FetchDocs(root, fs, a), FetchDocs(root, fs, b);
        forall i | 0 <= i < |x + y|
          ensures (x + y)[i].Doc? && (x + y)[i].doc in DocsOf(x + y)
        {
          if i < |x| {
            assert (x + y)[i] == x[i];
          } else {
            assert (x + y)[i] == y[i - |x|];
          }
        }
        forall i | 0 <= i < |x + y|
          ensures (x + y)[i].doc.docid == (ra + rb)[i].docid
          ensures (x + y)[i].doc.text == None
          ensures (x + y)[i].doc.scores == ChainScores(raters, map[], Some((ra + rb)[i].text))
        {
          if i < |x| {
            assert (x + y)[i] == x[i] && (ra + rb)[i] == ra[i];
          } else {
            assert (x + y)[i] == y[i - |x|] && (ra + rb)[i] == rb[i - |x|];
          }
        }
      } else {
        assert Placeholders(a + b) == Placeholders(a) + Placeholders(b);
      }
    }

    /** Scoring one more partition extends the scored prefix of the partitions. */
    lemma ScoredStep(partitions: seq<seq<JsValue>>, i: nat, fs: FileSystem, x: seq<Entry>, y: seq<Entry>)
      requires i < |partitions|
      requires ScoredFrom(Flatten(partitions[..i]), fs, x) && ScoredFrom(partitions[i], fs, y)
      ensures ScoredFrom(Flatten(partitions[..i + 1]), fs, x + y)
    {
      ScoredFromAppend(Flatten(partitions[..i]), partitions[i], fs, x, y);
      assert partitions[..i + 1] == partitions[..i] + [partitions[i]];
      FlattenAppend(partitions[..i], [partitions[i]]);
      assert Flatten([partitions[i]]) == partitions[i] + [];
      assert Flatten(partitions[..i + 1]) == Flatten(partitions[..i]) + partitions[i];
    }

    /** `_getScoresForDocs(docids)`: with document content, the workers fetch the documents, the
        raters run over them in configured order, and their text is deleted; without, a
        placeholder per id (there are then no raters to run). */
    method ScorePartition(ids: seq<JsValue>, fs: FileSystem) returns (r: Result<seq<Entry>>)
      requires Valid()
      ensures r.Failure? <==> requireDocContent && numWorkers == 0 && |ids| > 0
      ensures r.Success? ==> fresh(DocsOf(r.value)) && ScoredFrom(ids, fs, r.value)
    {
      if !requireDocContent {
        return Success(Placeholders(ids));
      }
      var fetched := DispatchDocs(getter.cw22RootPath, fs, ids, numWorkers);
      if fetched.Failure? {
        return Failure(fetched.error);
      }
      DispatchDocsIsFetch(getter.cw22RootPath, fs, ids, numWorkers);
      var recs := fetched.value;
      var docs := NewDocuments(recs);
      var results := RateAll(raters, docs);
      DeleteTexts(results);
      var out := seq(|docs|, i requires 0 <= i < |docs| => Doc(docs[i]));
      assert forall i :: 0 <= i < |out| ==> out[i].doc in DocsOf(out);
      return Success(out);
    }

    /** The partition loop of `getScoresForDocs`: each partition scored in turn, the results
        concatenated in partition order; the first partition stops the loop when the workers
        cannot be reached. */
    method ScorePartitions(partitions: seq<seq<JsValue>>, fs: FileSystem) returns (r: Result<seq<Entry>>)
      requires Valid()
      requires forall i :: 0 <= i < |partitions| ==> |partitions[i]| > 0
      ensures r.Failure? <==> requireDocContent && numWorkers == 0 && |partitions| > 0
      ensures r.Success? ==> fresh(DocsOf(r.value)) && ScoredFrom(Flatten(partitions), fs, r.value)
    {
      var results: seq<Entry> := [];
      assert ScoredFrom([], fs, results);
      for i := 0 to |partitions|
        invariant fresh(DocsOf(results))
        invariant ScoredFrom(Flatten(partitions[..i]), fs, results)
        invariant requireDocContent && numWorkers == 0 && |partitions| > 0 ==> i == 0
      {
        var part := ScorePartition(partitions[i], fs);
        if part.Failure? {
          return Failure(part.error);
        }
        ScoredStep(partitions, i, fs, results, part.value);
        DocsOfAppend(results, part.value);
        results := results + part.value;
      }
      assert partitions[..|partitions|] == partitions;
      return Success(results);
    }

    /** `getScoresForDocs(docids)`: the ids cut into partitions of at most `maxNumInMemDocs`,
        each scored in turn, the results concatenated in partition order. */
    method GetScoresForDocs(ids: seq<JsValue>, fs: FileSystem) returns (r: Result<seq<Entry>>)
      requires Valid()
      requires maxNumInMemDocs > 0 || |ids| == 0
      ensures r.Failure? <==> requireDocContent && numWorkers == 0 && |ids| > 0
      ensures r.Success? ==> fresh(DocsOf(r.value)) && ScoredFrom(ids, fs, r.value)
    {
      var partitions := Partition(ids, maxNumInMemDocs);
      if |ids| > 0 {
        SlicesSpec(ids, maxNumInMemDocs);
      }
      r := ScorePartitions(partitions, fs);
    }

    /** `putDocs(docids)`: the ids not visited when the call begins are looked up together; the
        ones with a document are marked visited, scored, and appended to the queue. */
    method PutDocs(docids: seq<JsValue>, fs: FileSystem) returns (r: Result<()>)
      requires Valid() && !isHeap && maxNumInMemDocs > 0
      modifies this
      ensures Valid() && !isHeap
      ensures Lookup(getter, fs, Unseen(docids, old(visited))).Failure? ==>
        r.Failure? && queue == old(queue) && visited == old(visited)
      ensures var lookup := Lookup(getter, fs, Unseen(docids, old(visited)));
        lookup.Success? ==>
          && visited == Dedup(old(visited) + FoundIds(lookup.value))
          && (r.Failure? <==> |lookup.value| > 0 && requireDocContent && numWorkers == 0)
          && (r.Failure? || |lookup.value| == 0 ==> queue == old(queue))
          && (r.Success? ==>
                && |old(queue)| <= |queue| && queue[..|old(queue)|] == old(queue)
                && ScoredFrom(DocItems(lookup.value), fs, queue[|old(queue)|..]))
    {
      var lookup := Lookup(getter, fs, Unseen(docids, visited));
      if lookup.Failure? {
        return Failure(lookup.error);
      }
      var found := lookup.value;
      VisitAll(FoundIds(found));
      if |found| == 0 {
        assert queue[|old(queue)|..] == [];
        assert ScoredFrom(DocItems(found), fs, []);
        return Success(());
      }
      var scored := GetScoresForDocs(DocItems(found), fs);
      if scored.Failure? {
        return Failure(scored.error);
      }
      queue := queue + scored.value;
      assert queue[|old(queue)|..] == scored.value;
      return Success(());
    }

    /** `findOutlinks(docids)`: the outlinks the workers read for the ids, each once, in first
        occurrence order, with every visited id deleted. */
    method FindOutlinks(docids: seq<JsValue>, fs: FileSystem) returns (r: Result<seq<string>>)
      ensures r.Failure? <==> numWorkers == 0 && |docids| > 0
      ensures r.Success? ==> r.value == Unvisited(FetchAllOutlinks(getter.cw22RootPath, fs, docids), visited)
    {
      var results := DispatchOutlinks(getter.cw22RootPath, fs, docids, numWorkers);
      if results.Failure? {
        return Failure(results.error);
      }
      DispatchOutlinksIsFetch(getter.cw22RootPath, fs, docids, numWorkers);
      var uniqueOutlinks := DeleteVisited(Dedup(results.value), visited);
      return Success(uniqueOutlinks);
    }

    /** `getOutlinks(docs)`: the accessor reads the outlinks of every document (rejecting an
        entry without a valid id), and the unvisited ones come back, each once, in first
        occurrence order; they are the ones the workers would read. */
    function GetOutlinks(docs: seq<Entry>, fs: FileSystem): (r: Result<seq<string>>)
      reads this
      ensures r.Success? <==> AllValid(EntryIds(docs))
      ensures r.Success? ==> r.value == Unvisited(FetchAllOutlinks(getter.cw22RootPath, fs, EntryIds(docs)), visited)
    {
      match GetterOutlinks(getter, fs, EntryIds(docs))
      case Failure(e) => Failure(e)
      case Success(flatOutlinks) => Success(Filter(Dedup(flatOutlinks), NotVisited(visited)))
    }

    /** `saveState(iterNum, numSelectedDocs)`: the path of the checkpoint and what it holds;
        only a resumed heap has the `toArray` it calls. */
    function SaveState(iterNum: int, numSelectedDocs: int): (r: Result<(string, StoredState)>)
      reads this
      requires Valid()
      ensures r.Failure? <==> !isHeap
      ensures r.Success? ==>
        && r.value.1.visited == visited && r.value.1.numSelectedDocs == numSelectedDocs
        && Loaded(r.value.1.queue) == queue
      ensures r.Success? && 0 <= iterNum <= MaxSafeInteger ==> ParseIterNum(r.value.0) == Some(iterNum)
    {
      if !isHeap then Failure(NotAHeapError)
      else
        var q := queue;
        var stored := seq(|q|, i requires 0 <= i < |q| => StoredEntry(q[i].annotations, q[i].docid));
        assert Loaded(stored) == q;
        var path := Join(outputDir, StateFileName(iterNum));
        var saved := Success((path, StoredState(stored, visited, numSelectedDocs)));
        if 0 <= iterNum <= MaxSafeInteger then StateFileNameRoundTrip(outputDir, iterNum); saved else saved
    }

    /**
     * `initOrResumeState(stateFile)`. `stored` is what reading and parsing the file gives (`None`
     * when either fails) and `heapArray` the order the heap keeps the stored queue in. With no
     * state file the crawl starts from scratch; otherwise the heap and visited set are
     * restored, and when the number of stored rater names differs from the number of current
     * ones, every queued document is scored again and the heap rebuilt from the results,
     * position by position.
     */
    method InitOrResumeState(stateFile: Option<string>, stored: Option<StoredState>, heapArray: seq<StoredEntry>, fs: FileSystem)
      returns (r: Result<(Option<int>, int)>)
      requires Valid() && maxNumInMemDocs > 0
      requires stored.Some? ==> multiset(heapArray) == multiset(stored.value.queue)
      modifies this
      ensures Valid()
      ensures stateFile == None || stateFile == Some("") ==>
        r == Success((Some(0), 0)) && queue == old(queue) && visited == old(visited) && isHeap == old(isHeap)
      ensures stateFile.Some? && stateFile.value != "" && stored.None? ==>
        r.Failure? && queue == old(queue) && visited == old(visited) && isHeap == old(isHeap)
      ensures stateFile.Some? && stateFile.value != "" && stored.Some? ==>
        var loaded := Loaded(heapArray);
        var top := PeekScores(loaded);
        && visited == Dedup(stored.value.visited) && isHeap
        && (r.Success? ==> r.value == (ParseIterNum(stateFile.value), stored.value.numSelectedDocs))
        && (top.Failure? ==> r.Failure? && queue == loaded)
        && (top.Success? && !NeedsRecompute(top.value, RaterNames(raters)) ==> r.Success? && queue == loaded)
        && (top.Success? && NeedsRecompute(top.value, RaterNames(raters)) ==>
              var ids := HeapIds(loaded);
              var recIds := RecomputedIds(requireDocContent, getter.cw22RootPath, fs, ids);
              && (r.Failure? <==> (requireDocContent && numWorkers == 0) || !IdsMatch(ids, recIds))
              && (r.Failure? ==> queue == loaded)
              && (r.Success? ==> multiset(queue) == multiset(Rebuilt(ids, |recIds|, RebuiltAnnotation(requireDocContent)))))
    {
      if stateFile.None? || stateFile.value == "" {
        return Success((Some(0), 0));
      }
      var iterNum := ParseIterNum(stateFile.value);
      if stored.None? {
        return Failure(UnreadableStateError);
      }
      var state := stored.value;
      var loaded := Loaded(heapArray);
      queue := loaded;
      isHeap := true;
      visited := Dedup(state.visited);
      assert NoDuplicates(visited) by {
        DedupSpec(state.visited);
      }
      var numSelectedDocs := state.numSelectedDocs;
      var top := PeekScores(queue);
      if top.Failure? {
        return Failure(top.error);
      }
      if NeedsRecompute(top.value, RaterNames(raters)) {
        var rebuilt := RecomputeHeap(HeapIds(loaded), fs);
        if rebuilt.Failure? {
          return Failure(rebuilt.error);
        }
        queue := rebuilt.value;
      }
      return Success((iterNum, numSelectedDocs));
    }

    /** The rescoring of a resumed heap whose scores came from other raters: the documents are
        scored afresh and each recomputed annotation is paired with the heap's id at the same
        place. It fails when scoring fails and when the recomputed ids do not line up with the
        heap's; otherwise the new heap holds the rebuilt pairs. */
    method RecomputeHeap(ids: seq<JsValue>, fs: FileSystem) returns (r: Result<seq<Entry>>)
      requires Valid() && maxNumInMemDocs > 0 && |ids| > 0
      ensures var recIds := RecomputedIds(requireDocContent, getter.cw22RootPath, fs, ids);
        && (r.Failure? <==> (requireDocContent && numWorkers == 0) || !IdsMatch(ids, recIds))
        && (r.Success? ==> r.value == Rebuilt(ids, |recIds|, RebuiltAnnotation(requireDocContent)))
    {
      var recomputed := GetScoresForDocs(ids, fs);
      if recomputed.Failure? {
        return Failure(recomputed.error);
      }
      ScoredIds(ids, fs, recomputed.value);
      r := Reconcile(ids, recomputed.value);
    }

    /** The ids the recomputed entries carry are the recomputed ids, and where they match the
        heap's, the reconciled pairs are the rebuilt heap. */
    lemma ScoredIds(ids: seq<JsValue>, fs: FileSystem, out: seq<Entry>)
      requires ScoredFrom(ids, fs, out)
      ensures EntryIds(out) == RecomputedIds(requireDocContent, getter.cw22RootPath, fs, ids)
      ensures IdsMatch(ids, EntryIds(out)) ==>
        Rebuilt(ids, |out|, RebuiltAnnotation(requireDocContent)) == Reconciled(ids, out)
    {
      var recIds := RecomputedIds(requireDocContent, getter.cw22RootPath, fs, ids);
      if requireDocContent {
        var recs := FetchDocs(getter.cw22RootPath, fs, ids);
        assert forall i :: 0 <= i < |out| ==> EntryDocid(out[i]) == Str(recs[i].docid);
      }
      assert EntryIds(out) == recIds;
    }
  }
}
