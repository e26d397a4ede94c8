/**
 * The values the crawler's frontier holds (Crawler.js): queue entries, checkpoints, and the
 * specification functions of its pop, put and resume operations.
 */
module Frontier {
  import opened Wrappers
  import opened Js
  import opened Text
  import opened Sequences
  import opened Files
  import opened Documents
  import opened UnifiedGetters
  import opened Worker

  /** The first element of a queue pair: `undefined` (a `Document` of Document.js has no
      `annotations`), or an object whose `scores` property may be missing. */
  datatype Annotation = NoAnnotation | Annotation(scores: Option<Scores>)

  /** Crawler.js's own `Document` (lines 22-27); `new Document(docid)` has text null and
      annotations `{}`. */
  datatype AnnotatedDocument = AnnotatedDocument(docid: JsValue, text: Option<string>, annotations: Annotation)

  function NewPlaceholder(docid: JsValue): AnnotatedDocument
  {
    AnnotatedDocument(docid, None, Annotation(None))
  }

  /** An element of `queue`: an `[annotations, docid]` pair, a scored `Document` of Document.js,
      or a placeholder `Document` of Crawler.js. */
  datatype Entry =
    | Pair(annotations: Annotation, docid: JsValue)
    | Doc(doc: Document)
    | Placeholder(placeholder: AnnotatedDocument)

  /** `entry.docid`; an array has no `docid` property. */
  function EntryDocid(e: Entry): JsValue
  {
    match e
    case Pair(_, _) => Undefined
    case Doc(d) => Str(d.docid)
    case Placeholder(p) => p.docid
  }

  /** `entry.annotations`. */
  function EntryAnnotations(e: Entry): Annotation
  {
    match e
    case Pair(_, _) => NoAnnotation
    case Doc(_) => NoAnnotation
    case Placeholder(p) => p.annotations
  }

  /** A queue pair as `JSON.stringify` writes it into a checkpoint. */
  datatype StoredEntry = StoredEntry(annotations: Annotation, docid: JsValue)

  /** The checkpoint object `{ queue, visited, numSelectedDocs }`. */
  datatype StoredState = StoredState(queue: seq<StoredEntry>, visited: seq<JsValue>, numSelectedDocs: int)

  /**
   * What `popFromQueue(n)` returns and leaves: up to `n` pairs are popped from the end, their
   * ids returned in popping order. An empty queue, or an entry that is not a pair (its
   * destructuring throws after it has been popped), ends the loop.
   */
  function PopSpec(q: seq<Entry>, n: int): (r: (seq<JsValue>, seq<Entry>))
    ensures |r.0| + |r.1| <= |q|
    decreases |q|
  {
    if n <= 0 || |q| == 0 then ([], q)
    else
      var last := q[|q| - 1];
      if last.Pair? then
        var (ids, rest) := PopSpec(q[..|q| - 1], n - 1);
        ([last.docid] + ids, rest)
      else ([], q[..|q| - 1])
  }

  /** `e` is a pair whose document id is `id`. */
  predicate IsPairFor(e: Entry, id: JsValue)
  {
    e.Pair? && e.docid == id
  }

  /** The `i`-th of `ids` is the id of the pair `i` places from the end of `q`. */
  ghost predicate TakenFromEnd(q: seq<Entry>, ids: seq<JsValue>)
  {
    |ids| <= |q| && forall i :: 0 <= i < |ids| ==> IsPairFor(q[|q| - 1 - i], ids[i])
  }

  lemma TakenFromEndCons(q: seq<Entry>, ids: seq<JsValue>)
    requires |q| > 0 && q[|q| - 1].Pair? && TakenFromEnd(q[..|q| - 1], ids)
    ensures TakenFromEnd(q, [q[|q| - 1].docid] + ids)
  {
    var p := q[..|q| - 1];
    var all := [q[|q| - 1].docid] + ids;
    forall i | 0 <= i < |all|
      ensures IsPairFor(q[|q| - 1 - i], all[i])
    {
      if i > 0 {
        assert all[i] == ids[i - 1];
        assert p[|p| - 1 - (i - 1)] == q[|q| - 1 - i];
      }
    }
  }

  /** At most `n` ids, taken from the end: the `i`-th id is that of the `i`-th pair from the end;
      what is left is a prefix of the queue; at most one entry, a non-pair, is lost besides. */
  lemma {:induction false} PopSpecSpec(q: seq<Entry>, n: int)
    ensures var (ids, rest) := PopSpec(q, n);
      && |ids| <= (if n < 0 then 0 else n)
      && rest == q[..|rest|]
      && TakenFromEnd(q, ids)
      && (|rest| + |ids| == |q| || (|rest| + |ids| + 1 == |q| && !q[|rest|].Pair?))
    decreases |q|
  {
    if n > 0 && |q| > 0 && q[|q| - 1].Pair? {
      var p := q[..|q| - 1];
      PopSpecSpec(p, n - 1);
      var (ids, rest) := PopSpec(p, n - 1);
      var all := [q[|q| - 1].docid] + ids;
      assert PopSpec(q, n) == (all, rest);
      TakenFromEndCons(q, ids);
      if |rest| + |ids| + 1 == |p| {
        assert p[|rest|] == q[|rest|];
      }
    }
  }

  /** On a queue of pairs only, exactly `min(n, |q|)` ids come back and nothing else is lost. */
  lemma {:induction false} PopSpecOfPairs(q: seq<Entry>, n: int)
    requires forall i :: 0 <= i < |q| ==> q[i].Pair?
    ensures |PopSpec(q, n).0| == (if n <= 0 then 0 else if n < |q| then n else |q|)
    ensures |PopSpec(q, n).1| == |q| - |PopSpec(q, n).0|
    decreases |q|
  {
    if n > 0 && |q| > 0 {
      PopSpecOfPairs(q[..|q| - 1], n - 1);
    }
  }

  /** The annotations `popFromQueue(n)` collects for logging: the first element of every pair
      `PopSpec` pops, in popping order. */
  function PopAnnotations(q: seq<Entry>, n: int): seq<Annotation>
    decreases |q|
  {
    if n <= 0 || |q| == 0 then []
    else
      var last := q[|q| - 1];
      if last.Pair? then [last.annotations] + PopAnnotations(q[..|q| - 1], n - 1)
      else []
  }

  /** `e` is a pair whose annotations are `a`. */
  predicate IsPairWith(e: Entry, a: Annotation)
  {
    e.Pair? && e.annotations == a
  }

  /** One annotation per popped id, each that of the pair the id came from. */
  lemma {:induction false} PopAnnotationsSpec(q: seq<Entry>, n: int)
    ensures |PopAnnotations(q, n)| == |PopSpec(q, n).0|
    ensures forall i :: 0 <= i < |PopAnnotations(q, n)| ==> IsPairWith(q[|q| - 1 - i], PopAnnotations(q, n)[i])
    decreases |q|
  {
    if n > 0 && |q| > 0 && q[|q| - 1].Pair? {
      var p := q[..|q| - 1];
      PopAnnotationsSpec(p, n - 1);
      var a := PopAnnotations(q, n);
      forall i | 0 <= i < |a|
        ensures IsPairWith(q[|q| - 1 - i], a[i])
      {
        if i > 0 {
          assert a[i] == PopAnnotations(p, n - 1)[i - 1];
          assert p[|p| - 1 - (i - 1)] == q[|q| - 1 - i];
        }
      }
    }
  }

  /** The `TypeError` of reading `scores` off `undefined`. */
  const NoScoresError := "Cannot read properties of undefined (reading 'scores')"

  /** `getMeanScoreForLogging(annotations)` reads `doc.scores` of every annotation, which throws
      on an `undefined` one; a non-empty list of annotations that are all objects is read without
      error, and so is an empty list, which it answers with 0 before reading any. */
  predicate MeanScoreThrows(annotations: seq<Annotation>)
  {
    NoAnnotation in annotations
  }

  /** Logging a pop throws exactly when one of the pairs popped, the last `|ids|` entries of the
      queue, carries `undefined` annotations. */
  lemma PopThrowsExactly(q: seq<Entry>, n: int)
    ensures MeanScoreThrows(PopAnnotations(q, n)) <==>
      exists j :: |q| - |PopSpec(q, n).0| <= j < |q| && IsPairWith(q[j], NoAnnotation)
  {
    PopAnnotationsSpec(q, n);
    var a := PopAnnotations(q, n);
    if MeanScoreThrows(a) {
      var i :| 0 <= i < |a| && a[i] == NoAnnotation;
      assert IsPairWith(q[|q| - 1 - i], a[i]);
    }
    if j :| |q| - |a| <= j < |q| && IsPairWith(q[j], NoAnnotation) {
      assert IsPairWith(q[|q| - 1 - (|q| - 1 - j)], a[|q| - 1 - j]);
      assert a[|q| - 1 - j] == NoAnnotation;
    }
  }

  /** The ids of `putDocs` that are not yet visited when the call begins. */
  function Unseen(ids: seq<JsValue>, seen: seq<JsValue>): seq<JsValue>
  {
    Filter(ids, (x: JsValue) => x !in seen)
  }

  /**
   * `getDoc` of the corpus accessor over `ids`, as `putDocs` awaits it: rejected if any id is
   * invalid (the first such rejection wins), otherwise the ids that have a document, with it,
   * in order.
   */
  function Lookup(getter: UnifiedGetter, fs: FileSystem, ids: seq<JsValue>): Result<seq<(JsValue, DocRecord)>>
    decreases |ids|
  {
    if |ids| == 0 then Success([])
    else
      match getter.GetDoc(fs, ids[0])
      case Failure(e) => Failure(e)
      case Success(doc) =>
        match Lookup(getter, fs, ids[1..])
        case Failure(e) => Failure(e)
        case Success(found) => Success((if doc.Some? then [(ids[0], doc.value)] else []) + found)
  }

  ghost predicate AllValid(ids: seq<JsValue>)
  {
    forall i :: 0 <= i < |ids| ==> IsValidId(ids[i])
  }

  /** Lookup rejects exactly when some id is invalid. */
  lemma {:induction false} LookupFails(getter: UnifiedGetter, fs: FileSystem, ids: seq<JsValue>)
    ensures Lookup(getter, fs, ids).Failure? <==> !AllValid(ids)
    decreases |ids|
  {
    if |ids| > 0 {
      LookupFails(getter, fs, ids[1..]);
      assert AllValid(ids) <==> IsValidId(ids[0]) && AllValid(ids[1..]) by {
        if IsValidId(ids[0]) && AllValid(ids[1..]) {
          forall i | 0 < i < |ids|
            ensures IsValidId(ids[i])
          {
            assert ids[i] == ids[1..][i - 1];
          }
        }
      }
    }
  }

  /** When Lookup succeeds it pairs every id that has a document, and only those, with the
      document the accessor reads for it. */
  lemma {:induction false} LookupFound(getter: UnifiedGetter, fs: FileSystem, ids: seq<JsValue>)
    requires Lookup(getter, fs, ids).Success?
    ensures var found := Lookup(getter, fs, ids).value;
      && |found| <= |ids|
      && (forall k :: 0 <= k < |found| ==>
            found[k].0 in ids && getter.GetDoc(fs, found[k].0) == Success(Some(found[k].1)))
      && (forall i :: 0 <= i < |ids| && getter.GetDoc(fs, ids[i]).Success? && getter.GetDoc(fs, ids[i]).value.Some? ==>
            (ids[i], getter.GetDoc(fs, ids[i]).value.value) in found)
    decreases |ids|
  {
    if |ids| > 0 {
      LookupFound(getter, fs, ids[1..]);
      var found := Lookup(getter, fs, ids).value;
      var rest := Lookup(getter, fs, ids[1..]).value;
      var doc := getter.GetDoc(fs, ids[0]).value;
      assert found == (if doc.Some? then [(ids[0], doc.value)] else []) + rest;
      forall i | 0 < i < |ids|
        ensures ids[i] == ids[1..][i - 1]
      {
      }
    }
  }

  /** One step of `Lookup`: the first id, then the rest. */
  lemma LookupCons(getter: UnifiedGetter, fs: FileSystem, x: JsValue, rest: seq<JsValue>)
    ensures Lookup(getter, fs, [x] + rest) ==
      match getter.GetDoc(fs, x)
      case Failure(e) => Failure(e)
      case Success(doc) =>
        match Lookup(getter, fs, rest)
        case Failure(e) => Failure(e)
        case Success(found) => Success((if doc.Some? then [(x, doc.value)] else []) + found)
  {
    assert ([x] + rest)[0] == x && ([x] + rest)[1..] == rest;
  }

  /** Looking up a concatenation is looking up each part in turn: the first rejection wins, and
      when both parts succeed the found pairs keep the order and the repeats of the ids, as
      filtering the results of `Promise.all` does. */
  lemma {:induction false} LookupAppend(getter: UnifiedGetter, fs: FileSystem, a: seq<JsValue>, b: seq<JsValue>)
    ensures Lookup(getter, fs, a).Failure? ==> Lookup(getter, fs, a + b) == Lookup(getter, fs, a)
    ensures Lookup(getter, fs, a).Success? && Lookup(getter, fs, b).Failure? ==>
      Lookup(getter, fs, a + b) == Lookup(getter, fs, b)
    ensures Lookup(getter, fs, a).Success? && Lookup(getter, fs, b).Success? ==>
      Lookup(getter, fs, a + b) == Success(Lookup(getter, fs, a).value + Lookup(getter, fs, b).value)
    decreases |a|
  {
    if |a| == 0 {
      assert a + b == b;
      if Lookup(getter, fs, b).Success? {
        assert [] + Lookup(getter, fs, b).value == Lookup(getter, fs, b).value;
      }
    } else {
      var x := a[0];
      var tail := a[1..];
      assert a == [x] + tail;
      assert a + b == [x] + (tail + b);
      LookupAppend(getter, fs, tail, b);
      LookupCons(getter, fs, x, tail);
      LookupCons(getter, fs, x, tail + b);
      var head := getter.GetDoc(fs, x);
      if head.Success? && Lookup(getter, fs, tail).Success? && Lookup(getter, fs, b).Success? {
        var first := if head.value.Some? then [(x, head.value.value)] else [];
        var ra := Lookup(getter, fs, tail).value;
        var rb := Lookup(getter, fs, b).value;
        AppendAssoc(first, ra, rb);
      }
    }
  }

  /** A single id: rejected when the accessor throws, otherwise the id with its document, or
      nothing when the accessor gives null. */
  lemma LookupSingle(getter: UnifiedGetter, fs: FileSystem, id: JsValue)
    ensures Lookup(getter, fs, [id]).Failure? <==> getter.GetDoc(fs, id).Failure?
    ensures getter.GetDoc(fs, id).Success? ==>
      Lookup(getter, fs, [id]).value == match getter.GetDoc(fs, id).value
        case Some(doc) => [(id, doc)]
        case None => []
  {
    assert [id][1..] == [];
  }

  /** The ids of the found documents, in order. */
  function FoundIds(found: seq<(JsValue, DocRecord)>): (ids: seq<JsValue>)
    ensures |ids| == |found|
    ensures forall i :: 0 <= i < |found| ==> ids[i] == found[i].0
  {
    seq(|found|, i requires 0 <= i < |found| => found[i].0)
  }

  /** The found documents as they reach the workers: objects carrying their trimmed id. */
  function DocItems(found: seq<(JsValue, DocRecord)>): (items: seq<JsValue>)
    ensures |items| == |found|
    ensures forall i :: 0 <= i < |found| ==> items[i] == Obj(Str(found[i].1.docid))
  {
    seq(|found|, i requires 0 <= i < |found| => Obj(Str(found[i].1.docid)))
  }

  /** A document the accessor found is read again, from the same file, when the workers fetch
      it for scoring, unless its trimmed id is empty. */
  lemma RefetchFindsSameText(getter: UnifiedGetter, fs: FileSystem, id: JsValue, rec: DocRecord)
    requires getter.GetDoc(fs, id) == Success(Some(rec))
    ensures rec.docid != "" ==> FetchDoc(getter.cw22RootPath, fs, Obj(Str(rec.docid))) == Some(rec)
    ensures rec.docid == "" ==> FetchDoc(getter.cw22RootPath, fs, Obj(Str(rec.docid))) == None
  {
    var path := Join(getter.cw22RootPath, rec.docid);
    assert rec.docid == Trim(id.s) && path in fs && rec.text == fs[path];
    TrimOfTrimmed(rec.docid);
    var item := Obj(Str(rec.docid));
    if rec.docid != "" {
      assert DocidOf(item) == Str(rec.docid);
    } else {
      assert DocidOf(item) == item;
    }
  }

  /** The score map at the top of the resumed heap: `this.queue.peek()[0].scores`, which throws
      when the heap is empty, the annotations are undefined or have no `scores`. */
  function PeekScores(heap: seq<Entry>): (r: Result<Scores>)
    ensures r.Success? <==> |heap| > 0 && heap[0].Pair? && heap[0].annotations.Annotation? && heap[0].annotations.scores.Some?
    ensures r.Success? ==> r.value == heap[0].annotations.scores.value
  {
    if |heap| == 0 then Failure("Cannot read properties of undefined (reading '0')")
    else match heap[0]
      case Pair(NoAnnotation, _) => Failure(NoScoresError)
      case Pair(Annotation(None), _) => Failure("Cannot convert undefined or null to object")
      case Pair(Annotation(Some(scores)), _) => Success(scores)
      case _ => Failure(NoScoresError)
  }

  /** Recomputation runs when the number of rater names stored differs from the number of
      distinct current rater names; the names themselves are not compared. */
  predicate NeedsRecompute(stored: Scores, names: set<string>)
  {
    |stored.Keys| != |names|
  }

  /** Only sizes are compared: raters `A, B` stored and `A, C` configured trigger no
      recomputation, though the sets differ. */
  lemma SizeOnlyComparison()
    ensures var stored := map["A" := 1, "B" := 2];
      stored.Keys != {"A", "C"} && !NeedsRecompute(stored, {"A", "C"})
  {
    var stored := map["A" := 1, "B" := 2];
    assert stored.Keys == {"A", "B"};
    assert "B" in stored.Keys && "B" !in {"A", "C"};
    assert |{"A", "B"}| == 2 && |{"A", "C"}| == 2;
  }

  /** The ids of a heap's pairs, in its array order. */
  function HeapIds(heap: seq<Entry>): (ids: seq<JsValue>)
    ensures |ids| == |heap|
  {
    seq(|heap|, i requires 0 <= i < |heap| => if heap[i].Pair? then heap[i].docid else Undefined)
  }

  /** The ids the recomputed documents carry: those of the documents fetched, when the raters
      need text, else the ids themselves (placeholders). */
  function RecomputedIds(requireDocContent: bool, root: string, fs: FileSystem, ids: seq<JsValue>): (r: seq<JsValue>)
    ensures |r| <= |ids|
  {
    if requireDocContent then
      var recs := FetchDocs(root, fs, ids);
      seq(|recs|, i requires 0 <= i < |recs| => Str(recs[i].docid))
    else ids
  }

  /** The reconciliation loop finds no mismatch: each recomputed document carries the id at the
      same position of the heap. */
  predicate IdsMatch(heapIds: seq<JsValue>, recIds: seq<JsValue>)
  {
    |recIds| <= |heapIds| && forall i :: 0 <= i < |recIds| ==> recIds[i] == heapIds[i]
  }

  /** The annotations the reconciliation loop copies: a fetched `Document` has none, a
      placeholder has `{}`. */
  function RebuiltAnnotation(requireDocContent: bool): Annotation
  {
    if requireDocContent then NoAnnotation else Annotation(None)
  }

  /** `newQueue`: one pair per recomputed document. */
  function Rebuilt(heapIds: seq<JsValue>, n: nat, annotation: Annotation): (q: seq<Entry>)
    requires n <= |heapIds|
    ensures |q| == n
  {
    seq(n, i requires 0 <= i < n => Pair(annotation, heapIds[i]))
  }

  /** When every id on the heap is a trimmed, non-empty string whose document exists, the
      recomputed documents line up with the heap one for one, and nothing is dropped. */
  lemma {:induction false} RecomputedIdsMatch(root: string, fs: FileSystem, ids: seq<JsValue>)
    requires forall i :: 0 <= i < |ids| ==>
      IsValidId(ids[i]) && IsTrimmed(ids[i].s) && Join(root, ids[i].s) in fs
    ensures RecomputedIds(true, root, fs, ids) == ids
    decreases |ids|
  {
    if |ids| > 0 {
      var rest := ids[1..];
      assert forall i :: 0 <= i < |rest| ==> rest[i] == ids[i + 1];
      RecomputedIdsMatch(root, fs, rest);
      TrimOfTrimmed(ids[0].s);
      var head := FetchDoc(root, fs, ids[0]);
      assert head == Some(DocRecord(ids[0].s, fs[Join(root, ids[0].s)]));
      var recs := FetchDocs(root, fs, ids);
      var tail := FetchDocs(root, fs, rest);
      assert recs == [head.value] + tail;
      assert |tail| == |rest|;
      forall i | 0 <= i < |ids|
        ensures Str(recs[i].docid) == ids[i]
      {
        if i > 0 {
          assert recs[i] == tail[i - 1];
          assert Str(tail[i - 1].docid) == RecomputedIds(true, root, fs, rest)[i - 1];
        }
      }
    }
  }

  /** The rebuilt heap keeps no scores, whatever the raters computed: its top always fails the
      peek, so a checkpoint written after a recomputation cannot be resumed. */
  lemma RebuiltLosesScores(heapIds: seq<JsValue>, n: nat, requireDocContent: bool, heap: seq<Entry>)
    requires n <= |heapIds| && 0 < |heap|
    requires multiset(heap) == multiset(Rebuilt(heapIds, n, RebuiltAnnotation(requireDocContent)))
    ensures PeekScores(heap).Failure?
  {
    assert heap[0] in multiset(heap);
    assert heap[0] in Rebuilt(heapIds, n, RebuiltAnnotation(requireDocContent));
  }
}
