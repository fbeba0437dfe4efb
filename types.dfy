/** The records of the application: a song, its versions, and the analysis report. */
module Types {

  /** Ids are strings (the source renders a millisecond timestamp). */
  type Id = string

  /** One draft of a song's lyrics. */
  datatype Version = Version(id: Id, name: string, lyrics: string, createdAt: int)

  /** A titled collection of versions, stored in insertion order. */
  datatype Song = Song(id: Id, title: string, versions: seq<Version>, updatedAt: int)

  /** A repeated three-word phrase and how many windows produced it. */
  datatype PhraseCount = PhraseCount(phrase: string, count: nat)

  /** Keyword-based tone: raw match counts. */
  datatype Tone = Tone(positive: nat, negative: nat)

  datatype AnalysisReport = AnalysisReport(
    wordCount: nat,
    lineCount: nat,
    uniqueWords: nat,
    characterCount: nat,
    repeatedPhrases: seq<PhraseCount>,
    lineLengths: seq<nat>,
    tone: Tone)
}
