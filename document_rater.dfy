/** The pluggable quality rater (src/DocumentRater.js). */
module DocumentRaters {
  import opened Wrappers
  import opened Documents

  /** What `rate` is given: an array of documents, or some other value. */
  datatype Batch = Batch(docs: seq<Document>) | NotAnArray

  const NotAnArrayError := "Input must be an array of documents"

  /** The score of the `length` rater: the text's length, 0 when the text is null, deleted or empty. */
  function LengthScore(text: Option<string>): nat
  {
    match text
    case Some(t) => |t|
    case None => 0
  }

  lemma LengthScoreZero(text: Option<string>)
    ensures LengthScore(text) == 0 <==> text == None || text == Some("")
  {
  }

  class DocumentRater {
    const kind: string
    const name: string

    /** `new DocumentRater({ type, name })`. */
    constructor(kind: string, name: string)
      ensures this.kind == kind && this.name == name
    {
      this.kind := kind;
      this.name := name;
    }

    /** Every rater of this kind asks for the document text. */
    function RequireDocText(): (r: bool)
      ensures r
    {
      true
    }

    function GetName(): (r: string)
      ensures r == name
    {
      name
    }

    /** What `rate` does to one document's score map. */
    function Apply(scores: Scores, text: Option<string>): Scores
    {
      if kind == "length" then scores[name := LengthScore(text)] else scores
    }

    /** `rate(docs)`: rejects anything but an array; otherwise scores every document in place
        under `name` (only for the `length` kind) and returns the same array. */
    method Rate(input: Batch) returns (r: Result<seq<Document>>)
      modifies if input.Batch? then set d | d in input.docs else {}
      ensures input.NotAnArray? ==> r == Failure(NotAnArrayError)
      ensures input.Batch? ==> r == Success(input.docs)
      ensures input.Batch? ==> forall d :: d in input.docs ==>
        d.scores == Apply(old(d.scores), old(d.text)) && d.text == old(d.text)
    {
      if input.NotAnArray? {
        return Failure(NotAnArrayError);
      }
      var docs := input.docs;
      for i := 0 to |docs|
        invariant forall d :: d in docs ==> d.text == old(d.text)
        invariant forall d :: d in docs ==>
          d.scores == if d in docs[..i] then Apply(old(d.scores), old(d.text)) else old(d.scores)
      {
        var doc := docs[i];
        if kind == "length" {
          doc.scores := doc.scores[name := LengthScore(doc.text)];
        }
        assert docs[..i + 1] == docs[..i] + [doc];
      }
      assert docs[..|docs|] == docs;
      r := Success(docs);
    }
  }

  /** The names the `length` raters among `raters` write. */
  function LengthNames(raters: seq<DocumentRater>): set<string>
  {
    if |raters| == 0 then {}
    else (if raters[0].kind == "length" then {raters[0].name} else {}) + LengthNames(raters[1..])
  }

  /** The score map after running `raters` in order over a document, as the pipeline does. */
  function ChainScores(raters: seq<DocumentRater>, scores: Scores, text: Option<string>): Scores
  {
    if |raters| == 0 then scores else ChainScores(raters[1..], raters[0].Apply(scores, text), text)
  }

  lemma {:induction false} ChainScoresSnoc(raters: seq<DocumentRater>, r: DocumentRater, scores: Scores, text: Option<string>)
    ensures ChainScores(raters + [r], scores, text) == r.Apply(ChainScores(raters, scores, text), text)
    decreases |raters|
  {
    if |raters| > 0 {
      assert (raters + [r])[1..] == raters[1..] + [r];
      ChainScoresSnoc(raters[1..], r, raters[0].Apply(scores, text), text);
    }
  }

  /** After the chain, the keys are the old ones plus the names of the `length` raters; each such
      name holds the text's length, and every other key keeps its old score. */
  lemma {:induction false} ChainScoresSpec(raters: seq<DocumentRater>, scores: Scores, text: Option<string>)
    ensures ChainScores(raters, scores, text).Keys == scores.Keys + LengthNames(raters)
    ensures forall k :: k in LengthNames(raters) ==> ChainScores(raters, scores, text)[k] == LengthScore(text)
    ensures forall k :: k in scores && k !in LengthNames(raters) ==> ChainScores(raters, scores, text)[k] == scores[k]
    decreases |raters|
  {
    if |raters| > 0 {
      ChainScoresSpec(raters[1..], raters[0].Apply(scores, text), text);
    }
  }
}
