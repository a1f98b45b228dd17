/** Level unlocking and game dispatch of src/components/Game.jsx. */
module Game {
  import opened Wrappers
  import opened Lists
  import opened Progress

  /** What `renderGame` shows: one of the two games with its current question, or the
      "Unknown Game Type" notice. */
  datatype GameView<Q> = McqView(current: Option<Q>) | FibView(current: Option<Q>) | UnknownGameType

  /** `gameData[questionIndex]`: undefined outside the list, and for a `NaN` index (`None`). */
  function QuestionAt<Q>(gameData: seq<Q>, questionIndex: Option<int>): (r: Option<Q>)
    ensures r.Some? <==> questionIndex.Some? && 0 <= questionIndex.value < |gameData|
    ensures r.Some? ==> r.value == gameData[questionIndex.value]
  {
    if questionIndex.Some? && 0 <= questionIndex.value < |gameData|
    then Some(gameData[questionIndex.value]) else None
  }

  /** `renderGame`: the switch on the level's game type. */
  function RenderGame<Q>(gameType: string, gameData: seq<Q>, questionIndex: Option<int>): (v: GameView<Q>)
    ensures v.McqView? <==> gameType == "MCQ"
    ensures v.FibView? <==> gameType == "Fill in the Blanks"
    ensures v.UnknownGameType? <==> gameType != "MCQ" && gameType != "Fill in the Blanks"
    ensures !v.UnknownGameType? ==> v.current == QuestionAt(gameData, questionIndex)
  {
    if gameType == "MCQ" then McqView(QuestionAt(gameData, questionIndex))
    else if gameType == "Fill in the Blanks" then FibView(QuestionAt(gameData, questionIndex))
    else UnknownGameType
  }

  /** The fill-in-the-blank game calls `handleUnlockNextLevel` when it is mounted without a
      current question; the multiple-choice game never does. */
  predicate UnlockRequested<Q>(v: GameView<Q>) {
    v.FibView? && v.current.None?
  }

  /** A fill-in-the-blank level unlocks the next one exactly when the question index falls
      outside the question list; a multiple-choice level never does. */
  lemma UnlockOnlyWhenOutOfQuestions<Q>(gameType: string, gameData: seq<Q>, questionIndex: Option<int>)
    ensures UnlockRequested(RenderGame(gameType, gameData, questionIndex))
            <==> gameType == "Fill in the Blanks"
                 && !(questionIndex.Some? && 0 <= questionIndex.value < |gameData|)
  {
  }

  /** `handleUnlockNextLevel`: the selected level is appended to the completed list, the next
      id is appended to the enabled list (the selected level stays there, and the next id is
      not checked against the number of levels), and every copy of the next id leaves the
      disabled list, whose other entries keep their order. */
  function UnlockNextLevel(ledger: Ledger, selectedLevelId: int): (r: Ledger)
    ensures |r.completed| == |ledger.completed| + 1
    ensures r.completed[..|ledger.completed|] == ledger.completed
    ensures r.completed[|ledger.completed|] == selectedLevelId
    ensures |r.enabled| == |ledger.enabled| + 1
    ensures r.enabled[..|ledger.enabled|] == ledger.enabled
    ensures r.enabled[|ledger.enabled|] == selectedLevelId + 1
    ensures selectedLevelId + 1 !in r.disabled
    ensures multiset(r.disabled) == multiset(ledger.disabled)[selectedLevelId + 1 := 0]
    ensures Subsequence(r.disabled, ledger.disabled)
  {
    var nextLevelId := selectedLevelId + 1;
    RemoveAllSubsequence(ledger.disabled, nextLevelId);
    Ledger(ledger.enabled + [nextLevelId], ledger.completed + [selectedLevelId],
           RemoveAll(ledger.disabled, nextLevelId))
  }

  /** Membership after an unlock: completed gains the selected level, enabled gains the next
      id, disabled loses the next id, and nothing else changes. */
  lemma UnlockMembership(ledger: Ledger, selectedLevelId: int, id: int)
    ensures var r := UnlockNextLevel(ledger, selectedLevelId);
      && (id in r.completed <==> id in ledger.completed || id == selectedLevelId)
      && (id in r.enabled <==> id in ledger.enabled || id == selectedLevelId + 1)
      && (id in r.disabled <==> id in ledger.disabled && id != selectedLevelId + 1)
  {
    var r := UnlockNextLevel(ledger, selectedLevelId);
    assert r.completed == ledger.completed + [selectedLevelId];
    assert r.enabled == ledger.enabled + [selectedLevelId + 1];
    assert id in r.disabled <==> multiset(r.disabled)[id] > 0;
    assert id in ledger.disabled <==> multiset(ledger.disabled)[id] > 0;
  }

  /** From a partitioned ledger, unlocking an enabled level keeps every level id in some
      list, and keeps the disabled list apart from the other two; only the selected level
      (or the next id, when it was already completed) ends up both enabled and completed. */
  lemma UnlockKeepsDisabledApart(ledger: Ledger, n: int, selectedLevelId: int)
    requires Partition(ledger, n)
    requires selectedLevelId in ledger.enabled
    ensures var r := UnlockNextLevel(ledger, selectedLevelId);
      && (forall id :: 0 <= id < n ==> id in r.enabled || id in r.completed || id in r.disabled)
      && (forall id :: id in r.disabled ==> id !in r.enabled && id !in r.completed)
      && (forall id :: id in r.enabled && id in r.completed
            ==> id == selectedLevelId || id == selectedLevelId + 1)
  {
    var r := UnlockNextLevel(ledger, selectedLevelId);
    forall id | 0 <= id < n
      ensures id in r.enabled || id in r.completed || id in r.disabled
    {
      UnlockMembership(ledger, selectedLevelId, id);
    }
    forall id | id in r.disabled
      ensures id !in r.enabled && id !in r.completed
    {
      UnlockMembership(ledger, selectedLevelId, id);
    }
    forall id | id in r.enabled && id in r.completed
      ensures id == selectedLevelId || id == selectedLevelId + 1
    {
      UnlockMembership(ledger, selectedLevelId, id);
    }
  }

  /** As written, unlocking the last of `n` levels appends `n` to the enabled list, an id
      outside the level array that the dashboard indexes with it. */
  lemma UnlockLastLevelLeavesRange(ledger: Ledger, n: int)
    requires n >= 1
    ensures !IdsBelow(UnlockNextLevel(ledger, n - 1), n)
  {
    var r := UnlockNextLevel(ledger, n - 1);
    assert r.enabled[|ledger.enabled|] == n;
    assert n in r.enabled;
  }

  /** The unlock with the bound it evidently needs: the next id is only
      enabled (and taken off the disabled list) when it is a level of the theme. */
  function UnlockNextLevelBounded(ledger: Ledger, selectedLevelId: int, noOfLevels: int): (r: Ledger)
    ensures 0 <= selectedLevelId < noOfLevels && IdsBelow(ledger, noOfLevels) ==> IdsBelow(r, noOfLevels)
    ensures selectedLevelId + 1 < noOfLevels ==> r == UnlockNextLevel(ledger, selectedLevelId)
    ensures selectedLevelId + 1 >= noOfLevels
            ==> r == ledger.(completed := ledger.completed + [selectedLevelId])
  {
    if selectedLevelId + 1 < noOfLevels then
      var r := UnlockNextLevel(ledger, selectedLevelId);
      assert forall id :: id in r.disabled ==> id in ledger.disabled by {
        forall id | id in r.disabled ensures id in ledger.disabled {
          UnlockMembership(ledger, selectedLevelId, id);
        }
      }
      assert r.enabled == ledger.enabled + [selectedLevelId + 1];
      assert r.completed == ledger.completed + [selectedLevelId];
      r
    else
      ledger.(completed := ledger.completed + [selectedLevelId])
  }
}
