/** Progress bookkeeping of src/components/UserDashboard.jsx: the level buttons built from
    the three id lists, per-question status and the resume point, the create-once level
    entry, and the countdown to the contest deadline. */
module UserDashboard {
  import opened Wrappers
  import opened Lists
  import opened Text
  import opened Progress
  import Game

  // ---- getLevels ----

  datatype Status = Enabled | Completed | Disabled

  /** One level button: `level` is the 1-based label. */
  datatype LevelButton = LevelButton(level: int, status: Status)

  /** The status a level index ends with: the disabled list is applied last and so wins,
      then the completed list, then the enabled list; an index in none of them stays
      disabled. */
  function StatusOf(ledger: Ledger, i: int): Status {
    if i in ledger.disabled then Disabled
    else if i in ledger.completed then Completed
    else if i in ledger.enabled then Enabled
    else Disabled
  }

  /** `getLevels`: `noOfLevels` buttons labelled 1, 2, ..., all disabled, then the three
      `forEach` passes over enabled, completed and disabled ids. Every id must index the
      array: `levels[index].status = ...` throws on an id outside it. */
  method GetLevels(noOfLevels: nat, ledger: Ledger) returns (levels: seq<LevelButton>)
    requires IdsBelow(ledger, noOfLevels)
    ensures |levels| == noOfLevels
    ensures forall i :: 0 <= i < noOfLevels ==> levels[i].level == i + 1
    ensures forall i :: 0 <= i < noOfLevels ==> levels[i].status == StatusOf(ledger, i)
  {
    var a := new LevelButton[noOfLevels](i => LevelButton(i + 1, Disabled));
    for k := 0 to |ledger.enabled|
      invariant a.Length == noOfLevels
      invariant forall i :: 0 <= i < a.Length ==>
        a[i] == LevelButton(i + 1, if i in ledger.enabled[..k] then Enabled else Disabled)
    {
      assert ledger.enabled[..k + 1] == ledger.enabled[..k] + [ledger.enabled[k]];
      var index := ledger.enabled[k];
      assert index in ledger.enabled;
      a[index] := a[index].(status := Enabled);
    }
    assert ledger.enabled[..|ledger.enabled|] == ledger.enabled;
    for k := 0 to |ledger.completed|
      invariant forall i :: 0 <= i < a.Length ==>
        a[i] == LevelButton(i + 1, if i in ledger.completed[..k] then Completed
                                   else if i in ledger.enabled then Enabled else Disabled)
    {
      assert ledger.completed[..k + 1] == ledger.completed[..k] + [ledger.completed[k]];
      var index := ledger.completed[k];
      assert index in ledger.completed;
      a[index] := a[index].(status := Completed);
    }
    assert ledger.completed[..|ledger.completed|] == ledger.completed;
    for k := 0 to |ledger.disabled|
      invariant forall i :: 0 <= i < a.Length ==>
        a[i] == LevelButton(i + 1, if i in ledger.disabled[..k] then Disabled
                                   else if i in ledger.completed then Completed
                                   else if i in ledger.enabled then Enabled else Disabled)
    {
      assert ledger.disabled[..k + 1] == ledger.disabled[..k] + [ledger.disabled[k]];
      var index := ledger.disabled[k];
      assert index in ledger.disabled;
      a[index] := a[index].(status := Disabled);
    }
    assert ledger.disabled[..|ledger.disabled|] == ledger.disabled;
    levels := a[..];
  }

  /** On a partitioned ledger the precedence never matters: a level shows the status of the
      one list it is in. */
  lemma StatusOnPartition(ledger: Ledger, n: int, i: int)
    requires Partition(ledger, n) && 0 <= i < n
    ensures StatusOf(ledger, i) == Enabled <==> i in ledger.enabled
    ensures StatusOf(ledger, i) == Completed <==> i in ledger.completed
    ensures StatusOf(ledger, i) == Disabled <==> i in ledger.disabled
  {
  }

  /** What an unlock does to the buttons: the finished level shows as completed (it is
      still in the enabled list, but completed takes precedence), the next level shows as
      enabled unless it was already completed, and every other level keeps its status. */
  lemma UnlockShowsOnButtons(ledger: Ledger, selectedLevelId: int, i: int)
    requires selectedLevelId !in ledger.disabled
    ensures var r := Game.UnlockNextLevel(ledger, selectedLevelId);
      && (i == selectedLevelId ==> StatusOf(r, i) == Completed)
      && (i == selectedLevelId + 1 ==>
            StatusOf(r, i) == (if i in ledger.completed then Completed else Enabled))
      && (i != selectedLevelId && i != selectedLevelId + 1 ==> StatusOf(r, i) == StatusOf(ledger, i))
  {
    Game.UnlockMembership(ledger, selectedLevelId, i);
  }

  // ---- question status ----

  /** A question of the level's question set; only its id matters here. */
  datatype Question = Question(id: int, question: string)

  /** `questionStatus.find(qs => qs.id === id)`: the first entry with that id. */
  function FindStatus(statuses: seq<QuestionStatus>, id: int): (r: Option<QuestionStatus>)
    ensures r.None? <==> forall k :: 0 <= k < |statuses| ==> statuses[k].id != id
    ensures r.Some? ==> exists k :: 0 <= k < |statuses| && statuses[k] == r.value && r.value.id == id
                                    && forall j :: 0 <= j < k ==> statuses[j].id != id
  {
    FindFirst(statuses, (qs: QuestionStatus) => qs.id == id)
  }

  /** `levelsData[levelId]?.questionStatus?.find(qs => qs.id === id)`. */
  function StatusEntry(levelsData: map<int, LevelProgress>, levelId: int, id: int): Option<QuestionStatus> {
    if levelId in levelsData then FindStatus(levelsData[levelId].questionStatus, id) else None
  }

  /** The incomplete-id filter keeps a question only when it has a status entry that is
      not completed. */
  predicate HasIncompleteEntry(levelsData: map<int, LevelProgress>, levelId: int, q: Question) {
    var e := StatusEntry(levelsData, levelId, q.id);
    e.Some? && !e.value.completed
  }

  /** The `allIncomplete` check counts a question as incomplete when it has no status entry
      or its entry is not completed. */
  predicate NotCompleted(levelsData: map<int, LevelProgress>, levelId: int, q: Question) {
    var e := StatusEntry(levelsData, levelId, q.id);
    e.None? || !e.value.completed
  }

  /** The ids of the questions with an incomplete status entry, in question order. */
  function IncompleteIds(questions: seq<Question>, levelsData: map<int, LevelProgress>, levelId: int)
    : (ids: seq<int>)
    ensures |ids| <= |questions|
    ensures forall id :: id in ids <==>
              exists k :: 0 <= k < |questions| && questions[k].id == id
                          && HasIncompleteEntry(levelsData, levelId, questions[k])
    ensures ids == [] <==>
              forall k :: 0 <= k < |questions| ==> !HasIncompleteEntry(levelsData, levelId, questions[k])
    ensures Subsequence(ids, Ids(questions))
  {
    if questions == [] then []
    else
      var rest := IncompleteIds(questions[1..], levelsData, levelId);
      assert forall k :: 0 <= k < |questions[1..]| ==> questions[1..][k] == questions[k + 1];
      var all := Ids(questions);
      assert all[1..] == Ids(questions[1..]);
      var ids := (if HasIncompleteEntry(levelsData, levelId, questions[0]) then [questions[0].id] else []) + rest;
      assert HasIncompleteEntry(levelsData, levelId, questions[0]) ==> ids[0] == all[0] && ids[1..] == rest;
      assert !HasIncompleteEntry(levelsData, levelId, questions[0]) ==> ids == rest;
      ids
  }

  /** `questions.every(...)`: no question is recorded as completed. */
  function AllIncomplete(questions: seq<Question>, levelsData: map<int, LevelProgress>, levelId: int)
    : (b: bool)
    ensures b <==> forall k :: 0 <= k < |questions| ==> NotCompleted(levelsData, levelId, questions[k])
  {
    if questions == [] then true
    else
      assert forall k :: 0 <= k < |questions[1..]| ==> questions[1..][k] == questions[k + 1];
      NotCompleted(levelsData, levelId, questions[0]) && AllIncomplete(questions[1..], levelsData, levelId)
  }

  /** The two checks disagree on questions without a status entry: with no entries at all
      the level reads as "all incomplete" while no question is listed as incomplete. */
  lemma MissingEntriesTreatedDifferently(questions: seq<Question>, levelsData: map<int, LevelProgress>, levelId: int)
    requires forall k :: 0 <= k < |questions| ==> StatusEntry(levelsData, levelId, questions[k].id).None?
    ensures AllIncomplete(questions, levelsData, levelId)
    ensures IncompleteIds(questions, levelsData, levelId) == []
  {
  }

  /** Every question id is listed as incomplete exactly when every question has an
      incomplete entry. */
  lemma {:induction false} AllListedIffAllIncompleteEntries(questions: seq<Question>,
                                                            levelsData: map<int, LevelProgress>, levelId: int)
    ensures IncompleteIds(questions, levelsData, levelId) == Ids(questions)
            <==> forall k :: 0 <= k < |questions| ==> HasIncompleteEntry(levelsData, levelId, questions[k])
  {
    if questions != [] {
      var tail := questions[1..];
      AllListedIffAllIncompleteEntries(tail, levelsData, levelId);
      var rest := IncompleteIds(tail, levelsData, levelId);
      assert Ids(questions) == [questions[0].id] + Ids(tail);
      assert forall k :: 0 <= k < |tail| ==> tail[k] == questions[k + 1];
      if HasIncompleteEntry(levelsData, levelId, questions[0]) {
        assert IncompleteIds(questions, levelsData, levelId) == [questions[0].id] + rest;
      } else {
        assert IncompleteIds(questions, levelsData, levelId) == rest;
      }
    }
  }

  /** When every question has an entry, the two checks agree: all incomplete exactly when
      every question's id is listed as incomplete. */
  lemma EntriesMakeChecksAgree(questions: seq<Question>, levelsData: map<int, LevelProgress>, levelId: int)
    requires forall k :: 0 <= k < |questions| ==> StatusEntry(levelsData, levelId, questions[k].id).Some?
    ensures AllIncomplete(questions, levelsData, levelId)
            <==> IncompleteIds(questions, levelsData, levelId) == Ids(questions)
  {
    AllListedIffAllIncompleteEntries(questions, levelsData, levelId);
    assert forall k :: 0 <= k < |questions| ==>
      (NotCompleted(levelsData, levelId, questions[k]) <==> HasIncompleteEntry(levelsData, levelId, questions[k]));
  }

  /** The ids of the questions, in order. */
  function Ids(questions: seq<Question>): (ids: seq<int>)
    ensures |ids| == |questions|
    ensures forall k :: 0 <= k < |questions| ==> ids[k] == questions[k].id
  {
    seq(|questions|, k requires 0 <= k < |questions| => questions[k].id)
  }

  /** The incomplete-id effect: it runs only once a level is selected, its questions are
      loaded and the document has an entry for it; otherwise the previous list stays. */
  function RefreshIncompleteIds(questions: seq<Question>, levelsData: Option<map<int, LevelProgress>>,
                                selectedLevelId: Option<int>, previous: seq<int>): (ids: seq<int>)
    ensures levelsData.Some? && selectedLevelId.Some? && |questions| > 0
            && selectedLevelId.value in levelsData.value
            ==> ids == IncompleteIds(questions, levelsData.value, selectedLevelId.value)
    ensures !(levelsData.Some? && selectedLevelId.Some? && |questions| > 0
              && selectedLevelId.value in levelsData.value)
            ==> ids == previous
  {
    if levelsData.Some? && selectedLevelId.Some? && |questions| > 0 && selectedLevelId.value in levelsData.value
    then IncompleteIds(questions, levelsData.value, selectedLevelId.value)
    else previous
  }

  /** The all-incomplete effect: it runs once a level is selected, its questions are loaded
      and the document has a `levels` map, whether or not the map has an entry for the
      level; otherwise the previous flag stays. */
  function RefreshAllIncomplete(questions: seq<Question>, levelsData: Option<map<int, LevelProgress>>,
                                selectedLevelId: Option<int>, previous: bool): (b: bool)
    ensures levelsData.Some? && selectedLevelId.Some? && |questions| > 0 ==>
              (b <==> forall k :: 0 <= k < |questions| ==>
                        NotCompleted(levelsData.value, selectedLevelId.value, questions[k]))
    ensures !(levelsData.Some? && selectedLevelId.Some? && |questions| > 0) ==> b == previous
  {
    if levelsData.Some? && selectedLevelId.Some? && |questions| > 0
    then AllIncomplete(questions, levelsData.value, selectedLevelId.value)
    else previous
  }

  /** Once a level is open with its questions loaded, the two effects differ on a level the
      document has no entry for: the incomplete list keeps its stale value while the
      all-incomplete flag is recomputed (and holds, as no question has an entry). */
  lemma NoEntryKeepsListRefreshesFlag(questions: seq<Question>, levels: map<int, LevelProgress>, levelId: int,
                                      previousIds: seq<int>, previousFlag: bool)
    requires |questions| > 0 && levelId !in levels
    ensures RefreshIncompleteIds(questions, Some(levels), Some(levelId), previousIds) == previousIds
    ensures RefreshAllIncomplete(questions, Some(levels), Some(levelId), previousFlag)
  {
  }

  /** When the level has an entry for every question, both effects run and agree: the flag
      is set exactly when every question id is listed as incomplete. */
  lemma EffectsAgreeWithEntries(questions: seq<Question>, levels: map<int, LevelProgress>, levelId: int,
                                previousIds: seq<int>, previousFlag: bool)
    requires |questions| > 0 && levelId in levels
    requires forall k :: 0 <= k < |questions| ==> StatusEntry(levels, levelId, questions[k].id).Some?
    ensures RefreshAllIncomplete(questions, Some(levels), Some(levelId), previousFlag)
            <==> RefreshIncompleteIds(questions, Some(levels), Some(levelId), previousIds) == Ids(questions)
  {
    EntriesMakeChecksAgree(questions, levels, levelId);
  }

  /** The resume point handed to the game: the first incomplete id minus one (ids are
      1-based positions); with no incomplete id, `undefined - 1` is `NaN` (`None`). */
  function ResumeIndex(incompleteIds: seq<int>): (r: Option<int>)
    ensures r.None? <==> incompleteIds == []
    ensures r.Some? ==> r.value + 1 == incompleteIds[0]
  {
    if incompleteIds == [] then None else Some(incompleteIds[0] - 1)
  }

  /** With question `k` carrying id `k + base`, the first incomplete id is `first + base`
      for the first question `first` with an incomplete entry. */
  lemma {:induction false} FirstIncompleteId(questions: seq<Question>, levelsData: map<int, LevelProgress>,
                                             levelId: int, base: int)
    requires forall k :: 0 <= k < |questions| ==> questions[k].id == k + base
    ensures var ids := IncompleteIds(questions, levelsData, levelId);
      ids != [] ==> exists first :: 0 <= first < |questions| && ids[0] == first + base
                      && HasIncompleteEntry(levelsData, levelId, questions[first])
                      && forall j :: 0 <= j < first ==> !HasIncompleteEntry(levelsData, levelId, questions[j])
  {
    if questions != [] && !HasIncompleteEntry(levelsData, levelId, questions[0]) {
      var tail := questions[1..];
      FirstIncompleteId(tail, levelsData, levelId, base + 1);
      var ids := IncompleteIds(tail, levelsData, levelId);
      if ids != [] {
        var first :| 0 <= first < |tail| && ids[0] == first + base + 1
                     && HasIncompleteEntry(levelsData, levelId, tail[first])
                     && forall j :: 0 <= j < first ==> !HasIncompleteEntry(levelsData, levelId, tail[j]);
        assert questions[first + 1] == tail[first];
        forall j | 0 <= j < first + 1
          ensures !HasIncompleteEntry(levelsData, levelId, questions[j])
        {
          if j > 0 { assert questions[j] == tail[j - 1]; }
        }
      }
    }
  }

  /** With the 1-based ids the question files use, the game resumes at the position of the
      first question whose entry is incomplete, and gets no question once none is left. */
  lemma ResumeAtFirstIncomplete(questions: seq<Question>, levelsData: map<int, LevelProgress>, levelId: int)
    requires forall k :: 0 <= k < |questions| ==> questions[k].id == k + 1
    ensures var r := ResumeIndex(IncompleteIds(questions, levelsData, levelId));
      && (r.None? <==> forall k :: 0 <= k < |questions| ==> !HasIncompleteEntry(levelsData, levelId, questions[k]))
      && (r.Some? ==> 0 <= r.value < |questions|
                      && HasIncompleteEntry(levelsData, levelId, questions[r.value])
                      && forall j :: 0 <= j < r.value ==> !HasIncompleteEntry(levelsData, levelId, questions[j]))
  {
    FirstIncompleteId(questions, levelsData, levelId, 1);
    var ids := IncompleteIds(questions, levelsData, levelId);
    if ids != [] {
      assert ids[0] in ids;
    }
    if exists k :: 0 <= k < |questions| && HasIncompleteEntry(levelsData, levelId, questions[k]) {
      var k :| 0 <= k < |questions| && HasIncompleteEntry(levelsData, levelId, questions[k]);
      assert questions[k].id in ids;
    }
  }

  /** Once a level has no incomplete question, a fill-in-the-blank game opened on it gets no
      current question and so asks for the next level to be unlocked. */
  lemma ExhaustedLevelRequestsUnlock(questions: seq<Question>, levelsData: map<int, LevelProgress>, levelId: int)
    requires forall k :: 0 <= k < |questions| ==> !HasIncompleteEntry(levelsData, levelId, questions[k])
    ensures Game.UnlockRequested(Game.RenderGame("Fill in the Blanks", questions,
                                   ResumeIndex(IncompleteIds(questions, levelsData, levelId))))
  {
  }

  /** The status `fetchLevelData` creates: one entry per question, same ids in the same
      order, none completed. */
  function InitialQuestionStatus(questions: seq<Question>): (statuses: seq<QuestionStatus>)
    ensures |statuses| == |questions|
    ensures forall k :: 0 <= k < |questions| ==> statuses[k].id == questions[k].id && !statuses[k].completed
  {
    seq(|questions|, k requires 0 <= k < |questions| => QuestionStatus(questions[k].id, false))
  }

  /** A freshly created level entry lists every question as incomplete, and both checks
      agree that nothing has been done. */
  lemma InitialStatusAllIncomplete(questions: seq<Question>, levelsData: map<int, LevelProgress>, levelId: int)
    requires levelId in levelsData
    requires levelsData[levelId].questionStatus == InitialQuestionStatus(questions)
    ensures IncompleteIds(questions, levelsData, levelId) == Ids(questions)
    ensures AllIncomplete(questions, levelsData, levelId)
  {
    var statuses := InitialQuestionStatus(questions);
    forall k | 0 <= k < |questions|
      ensures StatusEntry(levelsData, levelId, questions[k].id) == Some(QuestionStatus(questions[k].id, false))
    {
      assert statuses[k].id == questions[k].id;
      var e := FindStatus(statuses, questions[k].id);
      assert e.Some?;
    }
    EntriesMakeChecksAgree(questions, levelsData, levelId);
  }

  // ---- updateUserDoc ----

  /** `userDoc.exists() && userDoc.data().levels?.[levelId]`. */
  predicate HasLevel(store: Option<ProgressDoc>, levelId: int) {
    store.Some? && store.value.levels.Some? && levelId in store.value.levels.value
  }

  /** The stored `levels` map, empty when the document or the field is missing. */
  function LevelsOf(store: Option<ProgressDoc>): map<int, LevelProgress> {
    if store.Some? && store.value.levels.Some? then store.value.levels.value else map[]
  }

  /** `updateUserDoc`: nothing happens when the level already has an entry; otherwise a
      merge-write adds `levels[levelId]`, creating the document if needed, and leaves every
      other level and every other field as it was. */
  function UpdateUserDoc(store: Option<ProgressDoc>, levelId: int, numQuestions: int,
                         questionStatus: seq<QuestionStatus>): (r: Option<ProgressDoc>)
    ensures HasLevel(r, levelId)
    ensures HasLevel(store, levelId) ==> r == store
    ensures !HasLevel(store, levelId) ==>
              LevelsOf(r) == LevelsOf(store)[levelId := LevelProgress(numQuestions, questionStatus)]
    ensures r.value.(levels := None) == (if store.Some? then store.value else EmptyDoc).(levels := None)
    ensures forall id :: id != levelId ==> (id in LevelsOf(r) <==> id in LevelsOf(store))
    ensures forall id :: id != levelId && id in LevelsOf(store) ==> LevelsOf(r)[id] == LevelsOf(store)[id]
  {
    if HasLevel(store, levelId) then store
    else
      var doc := if store.Some? then store.value else EmptyDoc;
      Some(doc.(levels := Some(LevelsOf(store)[levelId := LevelProgress(numQuestions, questionStatus)])))
  }

  /** A level entry is created once: a second call, whatever its arguments, changes nothing. */
  lemma UpdateUserDocIdempotent(store: Option<ProgressDoc>, levelId: int,
                                n1: int, s1: seq<QuestionStatus>, n2: int, s2: seq<QuestionStatus>)
    ensures var once := UpdateUserDoc(store, levelId, n1, s1);
      UpdateUserDoc(once, levelId, n2, s2) == once
  {
  }

  /** `fetchLevelData` after the fetch: the question count and the all-incomplete status
      go to `updateUserDoc`. */
  function FetchLevelData(store: Option<ProgressDoc>, levelId: int, questions: seq<Question>): (r: Option<ProgressDoc>)
    ensures HasLevel(r, levelId)
  {
    UpdateUserDoc(store, levelId, |questions|, InitialQuestionStatus(questions))
  }

  /** Visiting a level keeps earlier progress: an existing entry is left exactly as it was
      (so the level resumes), and a new one starts with every question incomplete. */
  lemma FetchLevelDataResumes(store: Option<ProgressDoc>, levelId: int, questions: seq<Question>)
    ensures var r := FetchLevelData(store, levelId, questions);
      && (HasLevel(store, levelId) ==> r == store)
      && (!HasLevel(store, levelId) ==>
            IncompleteIds(questions, LevelsOf(r), levelId) == Ids(questions)
            && AllIncomplete(questions, LevelsOf(r), levelId))
      && FetchLevelData(r, levelId, questions) == r
  {
    var r := FetchLevelData(store, levelId, questions);
    if !HasLevel(store, levelId) {
      InitialStatusAllIncomplete(questions, LevelsOf(r), levelId);
    }
  }

  // ---- the deadline countdown ----

  const MsPerSecond: int := 1000
  const MsPerHour: int := 1000 * 60 * 60
  const MsPerDay: int := 1000 * 60 * 60 * 24

  /** The countdown display: "Time UP", or the four fields. */
  datatype TimeLeft = TimeUp | Remaining(days: nat, hours: nat, minutes: nat, seconds: nat)

  /** The interval callback with `timeDiff = lastDay - now` in milliseconds. Days, hours and
      seconds are whole units; the minutes field divides by `1000 / 60`, i.e. multiplies by
      0.06 (computed here exactly; the floating-point rounding near whole numbers is not
      modelled). */
  function Countdown(lastDay: int, now: int): (t: TimeLeft)
    ensures t.TimeUp? <==> lastDay - now <= 0
    ensures t.Remaining? ==> t.hours < 24 && t.minutes < 60 && t.seconds < 60
    ensures t.Remaining? ==> t.days * 24 + t.hours == (lastDay - now) / MsPerHour
    ensures t.Remaining? ==> ((lastDay - now) / MsPerSecond - t.seconds) % 60 == 0
  {
    var timeDiff := lastDay - now;
    if timeDiff <= 0 then TimeUp
    else
      DaysAndHours(timeDiff);
      Remaining(timeDiff / MsPerDay, (timeDiff / MsPerHour) % 24,
                (timeDiff * 3 / 50) % 60, (timeDiff / MsPerSecond) % 60)
  }

  /** Whole days and the hours past them add up to the whole hours of a positive
      millisecond count. */
  lemma DaysAndHours(ms: int)
    requires ms > 0
    ensures (ms / MsPerDay) * 24 + (ms / MsPerHour) % 24 == ms / MsPerHour
  {
    var hrs := ms / 3600000;
    assert ms / 86400000 == hrs / 24;
    assert hrs == 24 * (hrs / 24) + hrs % 24;
  }

  /** The countdown with the minutes field the display evidently means: whole minutes of
      the remaining time, so that the four fields add back up to the whole seconds left. */
  function CountdownIntended(lastDay: int, now: int): (t: TimeLeft)
    ensures t.TimeUp? <==> lastDay - now <= 0
    ensures t.Remaining? ==> t.hours < 24 && t.minutes < 60 && t.seconds < 60
    ensures t.Remaining? ==>
      t.days * 86400 + t.hours * 3600 + t.minutes * 60 + t.seconds == (lastDay - now) / MsPerSecond
  {
    var timeDiff := lastDay - now;
    if timeDiff <= 0 then TimeUp
    else
      Recompose(timeDiff);
      Remaining(timeDiff / MsPerDay, (timeDiff / MsPerHour) % 24, (timeDiff / 60000) % 60, (timeDiff / MsPerSecond) % 60)
  }

  /** Whole days, hours, minutes and seconds of a positive millisecond count add back up
      to its whole seconds. */
  lemma Recompose(ms: int)
    requires ms > 0
    ensures (ms / MsPerDay) * 86400 + ((ms / MsPerHour) % 24) * 3600 + ((ms / 60000) % 60) * 60
            + (ms / MsPerSecond) % 60 == ms / MsPerSecond
  {
    var secs := ms / 1000;
    assert ms / 60000 == secs / 60;
    assert ms / MsPerHour == secs / 3600;
    assert ms / MsPerDay == secs / 86400;
    var mins := secs / 60;
    var hrs := secs / 3600;
    assert hrs == mins / 60;
    assert secs / 86400 == hrs / 24;
    assert secs == 60 * mins + secs % 60;
    assert mins == 60 * hrs + mins % 60;
    assert hrs == 24 * (hrs / 24) + hrs % 24;
  }

  /** Half a second before the deadline the display as written shows 30 minutes, where
      the intended countdown shows zero. */
  lemma MinutesFieldMisscaled()
    ensures Countdown(510, 0) == Remaining(0, 0, 30, 0)
    ensures CountdownIntended(510, 0) == Remaining(0, 0, 0, 0)
  {
  }

  /** The text put into `timeLeft`: the four fields as `DD:HH:MM:SS`, each padded to at
      least two digits. */
  function TimeLeftText(t: TimeLeft): string {
    match t
    case TimeUp => "Time UP"
    case Remaining(d, h, m, s) => Pad2(d) + ":" + Pad2(h) + ":" + Pad2(m) + ":" + Pad2(s)
  }

  /** The text is "Time UP" exactly for an expired countdown, and the fields of any other
      text read back as the numbers they show. */
  lemma TimeLeftTextSeparates(t: TimeLeft)
    ensures TimeLeftText(t) == "Time UP" <==> t.TimeUp?
    ensures t.Remaining? ==>
      && ParseNat(Pad2(t.days)) == t.days && ParseNat(Pad2(t.hours)) == t.hours
      && ParseNat(Pad2(t.minutes)) == t.minutes && ParseNat(Pad2(t.seconds)) == t.seconds
  {
    if t.Remaining? {
      var text := TimeLeftText(t);
      assert text[0] == Pad2(t.days)[0];
      assert IsDigit(text[0]) && !IsDigit('T');
      Pad2RoundTrip(t.days);
      Pad2RoundTrip(t.hours);
      Pad2RoundTrip(t.minutes);
      Pad2RoundTrip(t.seconds);
    }
  }

  /** One tick of the countdown interval: nothing happens until the deadline is known;
      then the text shows the countdown as written. */
  function CountdownTick(lastDay: Option<int>, now: int, previous: string): (text: string)
    ensures lastDay.None? ==> text == previous
    ensures lastDay.Some? ==> (text == "Time UP" <==> lastDay.value <= now)
    ensures lastDay.Some? && now < lastDay.value ==> |text| > 0 && IsDigit(text[0]) && ':' in text
  {
    if lastDay.Some? then
      var t := Countdown(lastDay.value, now);
      TimeLeftTextSeparates(t);
      if t.Remaining? then
        var text := TimeLeftText(t);
        assert text[|Pad2(t.days)|] == ':';
        text
      else TimeLeftText(t)
    else previous
  }

  /** The play section (level buttons, questions, game) is rendered unless the countdown
      reads "Time UP". */
  predicate PlayVisible(timeLeft: string) {
    timeLeft != "Time UP"
  }

  /** The deadline gate: after a tick with a known deadline, play is offered exactly while
      the deadline is still ahead. */
  lemma DeadlineGate(lastDay: int, now: int, previous: string)
    ensures PlayVisible(CountdownTick(Some(lastDay), now, previous)) <==> now < lastDay
  {
    TimeLeftTextSeparates(Countdown(lastDay, now));
  }
}
