/** The `Document` of the corpus accessor and the workers (src/Document.js). */
module Documents {
  import opened Wrappers

  /** A score map: rater name to score. Scores are modelled as integers. */
  type Scores = map<string, int>

  /** The two values a worker or the corpus accessor passes to `new Document(docid, text)`. */
  datatype DocRecord = DocRecord(docid: string, text: string)

  /** `scores[key] || 0`: an absent key, and a stored 0, both read as 0. */
  function ScoreOrZero(scores: Scores, key: string): int
  {
    if key in scores && scores[key] != 0 then scores[key] else 0
  }

  class Document {
    const docid: string
    /** The text; `None` once the scoring pipeline has deleted it. */
    var text: Option<string>
    var scores: Scores

    /** `new Document(docid, text = "")`. */
    constructor(docid: string, text: string := "")
      ensures this.docid == docid && this.text == Some(text) && scores == map[]
    {
      this.docid := docid;
      this.text := Some(text);
      scores := map[];
    }

    /** `getScore(key)`. */
    function GetScore(key: string): (r: int)
      reads this
      ensures key !in scores ==> r == 0
      ensures key in scores ==> r == scores[key]
    {
      ScoreOrZero(scores, key)
    }

    /** `setScore(key, value)`: only `key` changes, and reading it back gives `value`. */
    method SetScore(key: string, value: int)
      modifies this
      ensures scores == old(scores)[key := value] && text == old(text)
      ensures GetScore(key) == value
      ensures forall k :: k != key ==> GetScore(k) == old(GetScore(k))
    {
      scores := scores[key := value];
    }
  }
}
