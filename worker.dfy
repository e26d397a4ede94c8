/** The worker thread that reads documents and outlinks off the main thread (src/worker.js). */
module Worker {
  import opened Wrappers
  import opened Js
  import opened Text
  import opened Sequences
  import opened Files
  import opened Documents
  import opened UnifiedGetters

  /** A request from the main thread: `{ type, docids, cw22RootPath }`. */
  datatype Message = Message(kind: JsValue, docids: JsValue, cw22RootPath: string)

  /** What the worker posts back: a list of documents, a flat list of outlinks, or the empty list
      it posts when handling the message fails. */
  datatype Reply = Docs(docs: seq<DocRecord>) | Links(links: seq<string>) | Empty

  /** `doc?.docid || doc`: the `docid` field of an object when that field is truthy, else the item. */
  function DocidOf(item: JsValue): (id: JsValue)
    ensures item.Obj? && Truthy(item.docid) ==> id == item.docid
    ensures !item.Obj? ==> id == item
    ensures IsValidId(id) ==> IsValidId(item) || (item.Obj? && item.docid == id)
  {
    var field := if item.Obj? then item.docid else Undefined;
    if Truthy(field) then field else item
  }

  /** One item of a `getDoc` request: null for an invalid id or an unreadable file, else the
      document named by the trimmed id with the file's text. */
  function FetchDoc(root: string, fs: FileSystem, item: JsValue): (r: Option<DocRecord>)
    ensures r.Some? <==> IsValidId(DocidOf(item)) && Join(root, Trim(DocidOf(item).s)) in fs
    ensures r.Some? ==> r.value.docid == Trim(DocidOf(item).s)
    ensures r.Some? ==> IsTrimmed(r.value.docid)
    ensures r.Some? ==> Join(root, r.value.docid) in fs && r.value.text == fs[Join(root, r.value.docid)]
  {
    var docid := DocidOf(item);
    if !IsValidId(docid) then None
    else
      var cleanDocid := Trim(docid.s);
      var docPath := Join(root, cleanDocid);
      if docPath in fs then Some(DocRecord(cleanDocid, fs[docPath])) else None
  }

  /** `results.filter((doc) => doc !== null)`: the documents fetched, in request order. */
  function FetchDocs(root: string, fs: FileSystem, items: seq<JsValue>): (docs: seq<DocRecord>)
    ensures |docs| <= |items|
    ensures forall i :: 0 <= i < |docs| ==>
      IsTrimmed(docs[i].docid) && Join(root, docs[i].docid) in fs && docs[i].text == fs[Join(root, docs[i].docid)]
    decreases |items|
  {
    if |items| == 0 then []
    else
      var head := FetchDoc(root, fs, items[0]);
      (if head.Some? then [head.value] else []) + FetchDocs(root, fs, items[1..])
  }

  /** Fetching a concatenation yields the concatenation of the fetches, so splitting a request
      into chunks and flattening the replies loses and reorders nothing. */
  lemma {:induction false} FetchDocsAppend(root: string, fs: FileSystem, a: seq<JsValue>, b: seq<JsValue>)
    ensures FetchDocs(root, fs, a + b) == FetchDocs(root, fs, a) + FetchDocs(root, fs, b)
    decreases |a|
  {
    if |a| == 0 {
      assert a + b == b;
    } else {
      var head := FetchDoc(root, fs, a[0]);
      var first := if head.Some? then [head.value] else [];
      FetchDocsAppend(root, fs, a[1..], b);
      assert FetchDocs(root, fs, a) == first + FetchDocs(root, fs, a[1..]);
      assert FetchDocs(root, fs, a + b) == first + FetchDocs(root, fs, a[1..] + b) by {
        assert (a + b)[0] == a[0] && (a + b)[1..] == a[1..] + b;
      }
    }
  }

  /** A document is fetched for every valid id whose file exists, and only for such ids. */
  lemma {:induction false} FetchDocsComplete(root: string, fs: FileSystem, items: seq<JsValue>)
    ensures (forall i :: 0 <= i < |items| ==> IsValidId(items[i]) && Join(root, Trim(items[i].s)) in fs)
      ==> |FetchDocs(root, fs, items)| == |items|
    ensures |FetchDocs(root, fs, items)| == |items| ==>
      forall i :: 0 <= i < |items| ==> FetchDoc(root, fs, items[i]).Some?
    decreases |items|
  {
    if |items| > 0 {
      FetchDocsComplete(root, fs, items[1..]);
      if |FetchDocs(root, fs, items)| == |items| {
        assert FetchDoc(root, fs, items[0]).Some?;
        forall i | 0 <= i < |items|
          ensures FetchDoc(root, fs, items[i]).Some?
        {
          if i > 0 { assert items[i] == items[1..][i - 1]; }
        }
      }
    }
  }

  /** The outlinks of one item of a `getOutlinks` request: none for an invalid id or an unreadable
      file, else the non-blank lines of `<root>/<trimmed id>.outlinks`. */
  function FetchOutlinks(root: string, fs: FileSystem, docid: JsValue): (links: seq<string>)
    ensures forall i :: 0 <= i < |links| ==> HasContent(links[i])
    ensures |links| > 0 ==> IsValidId(docid) && Join(root, Trim(docid.s) + ".outlinks") in fs
  {
    if !IsValidId(docid) then []
    else
      var outlinksPath := Join(root, Trim(docid.s) + ".outlinks");
      if outlinksPath in fs then NonBlankLines(fs[outlinksPath]) else []
  }

  /** `outlinks.flat()`: the outlinks of every item, item after item. */
  function FetchAllOutlinks(root: string, fs: FileSystem, items: seq<JsValue>): (links: seq<string>)
    ensures forall i :: 0 <= i < |links| ==> HasContent(links[i])
    decreases |items|
  {
    if |items| == 0 then []
    else FetchOutlinks(root, fs, items[0]) + FetchAllOutlinks(root, fs, items[1..])
  }

  lemma {:induction false} FetchAllOutlinksAppend(root: string, fs: FileSystem, a: seq<JsValue>, b: seq<JsValue>)
    ensures FetchAllOutlinks(root, fs, a + b) == FetchAllOutlinks(root, fs, a) + FetchAllOutlinks(root, fs, b)
    decreases |a|
  {
    if |a| == 0 {
      assert a + b == b;
    } else {
      assert (a + b)[1..] == a[1..] + b;
      FetchAllOutlinksAppend(root, fs, a[1..], b);
    }
  }

  /** The message handler: `getDoc` and `getOutlinks` on an array of ids; anything else (an
      unknown type, ids that are not an array) is caught and answered with `[]`. */
  function HandleMessage(fs: FileSystem, msg: Message): (reply: Reply)
    ensures reply.Docs? <==> msg.kind == Str("getDoc") && msg.docids.Arr?
    ensures reply.Links? <==> msg.kind == Str("getOutlinks") && msg.docids.Arr?
    ensures reply.Docs? ==> reply.docs == FetchDocs(msg.cw22RootPath, fs, msg.docids.items)
    ensures reply.Links? ==> reply.links == FetchAllOutlinks(msg.cw22RootPath, fs, msg.docids.items)
  {
    if msg.kind == Str("getDoc") && msg.docids.Arr? then
      Docs(FetchDocs(msg.cw22RootPath, fs, msg.docids.items))
    else if msg.kind == Str("getOutlinks") && msg.docids.Arr? then
      Links(FetchAllOutlinks(msg.cw22RootPath, fs, msg.docids.items))
    else
      Empty
  }

  /** On a valid string id the worker reads the same files as the main-thread getter and yields
      the same document and the same outlinks; where the getter throws, the worker yields no outlinks,
      and no document unless the item is an object carrying its id in `docid`. For such an object,
      as `_getScoresForDocs` sends, the worker yields what the getter yields on that id. */
  lemma WorkerAgreesWithGetter(getter: UnifiedGetter, fs: FileSystem, docid: JsValue)
    ensures getter.GetDoc(fs, docid).Success? ==>
      getter.GetDoc(fs, docid).value == FetchDoc(getter.cw22RootPath, fs, docid)
    ensures getter.GetOutlinks(fs, docid).Success? ==>
      getter.GetOutlinks(fs, docid).value == FetchOutlinks(getter.cw22RootPath, fs, docid)
    ensures getter.GetDoc(fs, docid).Failure? ==> FetchOutlinks(getter.cw22RootPath, fs, docid) == []
    ensures getter.GetDoc(fs, docid).Failure? && !docid.Obj? ==> FetchDoc(getter.cw22RootPath, fs, docid) == None
    ensures getter.GetDoc(fs, DocidOf(docid)).Success? ==>
      getter.GetDoc(fs, DocidOf(docid)).value == FetchDoc(getter.cw22RootPath, fs, docid)
  {
  }
}
