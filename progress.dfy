/** The per-user progress document of the "Contest-leaderboard" collection, as a plain value.
    A field that is `None` is missing (or `null`) in the stored document; the whole document
    is passed around as `Option<ProgressDoc>`, with `None` for a document that does not exist. */
module Progress {
  import opened Wrappers

  datatype QuestionStatus = QuestionStatus(id: int, completed: bool)

  /** One entry of the document's `levels` map. */
  datatype LevelProgress = LevelProgress(numberOfQuestions: int, questionStatus: seq<QuestionStatus>)

  /** The three level-id lists that drive unlocking. */
  datatype Ledger = Ledger(enabled: seq<int>, completed: seq<int>, disabled: seq<int>)

  datatype ProgressDoc = ProgressDoc(
    finalScore: Option<int>,
    levelScores: Option<seq<int>>,
    firstLoginTime: Option<int>,   // milliseconds since the epoch
    lastDayForGame: Option<int>,   // milliseconds since the epoch
    noOfLevels: Option<nat>,
    levelsEnabled: Option<seq<int>>,
    levelsCompleted: Option<seq<int>>,
    levelsDisabled: Option<seq<int>>,
    levels: Option<map<int, LevelProgress>>)

  /** The document a merge-write creates when nothing was stored before. */
  const EmptyDoc: ProgressDoc :=
    ProgressDoc(None, None, None, None, None, None, None, None, None)

  /** Every id in the three lists is a valid index into a level array of length `n`. */
  predicate IdsBelow(ledger: Ledger, n: int) {
    && (forall id :: id in ledger.enabled ==> 0 <= id < n)
    && (forall id :: id in ledger.completed ==> 0 <= id < n)
    && (forall id :: id in ledger.disabled ==> 0 <= id < n)
  }

  /** The three lists split the ids `0 .. n-1`: every id is in exactly one of them. */
  predicate Partition(ledger: Ledger, n: int) {
    && IdsBelow(ledger, n)
    && (forall id :: 0 <= id < n ==>
          (id in ledger.enabled || id in ledger.completed || id in ledger.disabled))
    && (forall id :: id in ledger.enabled ==> id !in ledger.completed && id !in ledger.disabled)
    && (forall id :: id in ledger.completed ==> id !in ledger.disabled)
  }
}
