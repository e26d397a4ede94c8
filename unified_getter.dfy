/** The corpus accessor used on the main thread (src/UnifiedGetter.js). */
module UnifiedGetters {
  import opened Wrappers
  import opened Js
  import opened Text
  import opened Files
  import opened Documents

  const InvalidDocidError := "Invalid docid"

  datatype UnifiedGetter = UnifiedGetter(cw22RootPath: string, seedDocsFile: string) {

    /** `getDoc(docid)`: throws on an empty or non-string id; otherwise reads `<root>/<trimmed id>`
        and gives the document, or null when the read fails. */
    function GetDoc(fs: FileSystem, docid: JsValue): (r: Result<Option<DocRecord>>)
      ensures r.Failure? <==> !IsValidId(docid)
      ensures r.Success? ==>
        var path := Join(cw22RootPath, Trim(docid.s));
        r.value == if path in fs then Some(DocRecord(Trim(docid.s), fs[path])) else None
    {
      if !IsValidId(docid) then Failure(InvalidDocidError)
      else
        var cleanDocid := Trim(docid.s);
        var docPath := Join(cw22RootPath, cleanDocid);
        if docPath in fs then Success(Some(DocRecord(cleanDocid, fs[docPath]))) else Success(None)
    }

    /** `getOutlinks(docid)`: throws on an empty or non-string id; otherwise the non-blank lines of
        `<root>/<trimmed id>.outlinks`, or `[]` when the read fails. */
    function GetOutlinks(fs: FileSystem, docid: JsValue): (r: Result<seq<string>>)
      ensures r.Failure? <==> !IsValidId(docid)
      ensures r.Success? ==>
        var path := Join(cw22RootPath, Trim(docid.s) + ".outlinks");
        r.value == if path in fs then NonBlankLines(fs[path]) else []
    {
      if !IsValidId(docid) then Failure(InvalidDocidError)
      else
        var outlinksPath := Join(cw22RootPath, Trim(docid.s) + ".outlinks");
        if outlinksPath in fs then Success(NonBlankLines(fs[outlinksPath])) else Success([])
    }

    /** `getSeedDocs()`: the non-blank lines of the seed file, or `[]` when it cannot be read. */
    function GetSeedDocs(fs: FileSystem): (r: seq<string>)
      ensures seedDocsFile !in fs ==> r == []
      ensures seedDocsFile in fs ==> r == NonBlankLines(fs[seedDocsFile])
      ensures forall i :: 0 <= i < |r| ==> HasContent(r[i])
      ensures seedDocsFile in fs ==> forall l :: l in Split(fs[seedDocsFile], '\n') && HasContent(l) ==> l in r
    {
      if seedDocsFile in fs then NonBlankLines(fs[seedDocsFile]) else []
    }
  }
}
