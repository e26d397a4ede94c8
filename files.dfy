/** The corpus on disk, seen only through reads. */
module Files {
  import opened Text
  import opened Sequences

  /** The contents `fs.readFile(path, "utf8")` yields; a path that is absent fails to read. */
  type FileSystem = map<string, string>

  /** `content.split("\n").filter((line) => line.trim())`: the lines that hold a non-whitespace
      character, untrimmed, in file order. */
  function NonBlankLines(content: string): (lines: seq<string>)
    ensures forall i :: 0 <= i < |lines| ==> HasContent(lines[i]) && '\n' !in lines[i]
    ensures forall i :: 0 <= i < |lines| ==> lines[i] in Split(content, '\n')
    ensures forall l :: l in Split(content, '\n') && HasContent(l) ==> l in lines
  {
    var lines := Filter(Split(content, '\n'), HasContent);
    assert forall l :: l in Split(content, '\n') ==> '\n' !in l;
    lines
  }

  /** The lines of two texts joined by a newline are the lines of the first, then those of the
      second: the file's order and its repeated lines are kept. */
  lemma NonBlankLinesAppend(a: string, b: string)
    ensures NonBlankLines(a + "\n" + b) == NonBlankLines(a) + NonBlankLines(b)
  {
    SplitAppend(a, b, '\n');
    FilterAppend(Split(a, '\n'), Split(b, '\n'), HasContent);
  }

  /** A text with no newline is one line, kept exactly when it holds a non-whitespace character. */
  lemma NonBlankLinesOfLine(a: string)
    requires '\n' !in a
    ensures NonBlankLines(a) == if HasContent(a) then [a] else []
  {
    SplitWithoutSep(a, '\n');
    assert Filter([a], HasContent) == (if HasContent(a) then [a] else []) + Filter([a][1..], HasContent);
  }
}
