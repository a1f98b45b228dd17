/** The leaderboard-document handling of src/components/Dashboard.jsx: creating a player's
    progress document on first sign-in, and reading an existing one into the state passed
    to the user dashboard. */
module Dashboard {
  import opened Wrappers
  import opened Lists
  import opened Progress

  /** A theme of the bundled catalogue; only the number of its levels matters here. */
  datatype Theme = Theme(name: string, levelCount: nat)

  /** `data.find(d => d.Theme === theme)`: the first theme with that name. */
  function FindTheme(catalog: seq<Theme>, name: string): (r: Option<Theme>)
    ensures r.None? <==> forall k :: 0 <= k < |catalog| ==> catalog[k].name != name
    ensures r.Some? ==> exists k :: 0 <= k < |catalog| && catalog[k] == r.value && r.value.name == name
                                    && forall j :: 0 <= j < k ==> catalog[j].name != name
  {
    FindFirst(catalog, (t: Theme) => t.name == name)
  }

  /** The number of levels of the player's theme (the first theme of that name), zero
      when no theme has the name. */
  function LevelCount(catalog: seq<Theme>, name: string): (n: nat)
    ensures FindTheme(catalog, name).Some? ==> n == FindTheme(catalog, name).value.levelCount
    ensures (forall k :: 0 <= k < |catalog| ==> catalog[k].name != name) ==> n == 0
    ensures n > 0 ==> exists t :: t in catalog && t.name == name && t.levelCount == n
  {
    var t := FindTheme(catalog, name);
    if t.Some? then t.value.levelCount else 0
  }

  /** The first theme of a name decides the level count, whatever later themes of the same
      name hold. */
  lemma FirstThemeDecides(before: seq<Theme>, t: Theme, after: seq<Theme>)
    requires forall k :: 0 <= k < |before| ==> before[k].name != t.name
    ensures LevelCount(before + [t] + after, t.name) == t.levelCount
  {
    var c := before + [t] + after;
    assert c[|before|] == t;
    var r := FindTheme(c, t.name);
    var k :| 0 <= k < |c| && c[k] == r.value && r.value.name == t.name
             && forall j :: 0 <= j < k ==> c[j].name != t.name;
    assert c[|before|] == t;
  }

  /** The game closes at 27 July 2024, 04:00:00 UTC (09:30 in UTC+5:30), in milliseconds
      since the Unix epoch. */
  const LastDayForGame: int := 1722052800000

  /** The lists a new player starts with: level 0 enabled, nothing completed, every other
      level `0 .. n-1` disabled in ascending order. */
  function InitialLedger(n: nat): (ledger: Ledger)
    ensures ledger.enabled == [0] && ledger.completed == []
    ensures |ledger.disabled| == if n == 0 then 0 else n - 1
    ensures forall k :: 0 <= k < |ledger.disabled| ==> ledger.disabled[k] == k + 1
  {
    RemoveZeroFromRange(n);
    Ledger([0], [], RemoveAll(Range(n), 0))
  }

  /** The removal of 0 from `0 .. n-1` leaves `1 .. n-1`. */
  lemma RemoveZeroFromRange(n: nat)
    ensures |RemoveAll(Range(n), 0)| == if n == 0 then 0 else n - 1
    ensures forall k :: 0 <= k < |RemoveAll(Range(n), 0)| ==> RemoveAll(Range(n), 0)[k] == k + 1
  {
    if n > 0 {
      var r := Range(n);
      var tail := r[1..];
      assert r == [0] + tail;
      RemoveAllAppend([0], tail, 0);
      assert RemoveAll([0], 0) == [];
      assert 0 !in tail;
      RemoveAllAbsent(tail, 0);
      assert RemoveAll(r, 0) == tail;
    }
  }

  /** The document written on first sign-in. Every other field starts empty: `levels` is
      written as `null`, and the score list goes under the key `levelscores`, which is
      modelled as the `levelScores` field. */
  function FreshDocument(catalog: seq<Theme>, themeName: string, now: int): (doc: ProgressDoc)
    ensures doc.finalScore == Some(0) && doc.levelScores == Some([])
    ensures doc.firstLoginTime == Some(now) && doc.lastDayForGame == Some(LastDayForGame)
    ensures doc.noOfLevels == Some(LevelCount(catalog, themeName))
    ensures doc.levelsEnabled == Some([0]) && doc.levelsCompleted == Some([])
    ensures doc.levelsDisabled == Some(InitialLedger(LevelCount(catalog, themeName)).disabled)
    ensures doc.levels.None?
  {
    var n := LevelCount(catalog, themeName);
    var ledger := InitialLedger(n);
    ProgressDoc(Some(0), Some([]), Some(now), Some(LastDayForGame), Some(n),
                Some(ledger.enabled), Some(ledger.completed), Some(ledger.disabled), None)
  }

  /** What the dashboard keeps from the leaderboard document. */
  datatype DashboardState = DashboardState(
    currentDate: Option<int>,
    lastDayToPlayGame: Option<int>,
    noOfLevels: nat,
    ledger: Ledger,
    levels: Option<map<int, LevelProgress>>)

  /** The three lists stored in a document, each defaulting to `[]` (`|| []`). */
  function LedgerOf(doc: ProgressDoc): Ledger {
    Ledger(doc.levelsEnabled.GetOr([]), doc.levelsCompleted.GetOr([]), doc.levelsDisabled.GetOr([]))
  }

  /** The snapshot listener on the leaderboard document. With no document it writes the
      fresh one and takes its values (keeping the previous `levels`); with one it writes
      nothing and reads the document, with `|| 0` and `|| []` defaults. Reading a document
      without `lastDayForGame` throws (`undefined.toDate()`). */
  function OnLeaderboardSnapshot(catalog: seq<Theme>, themeName: string, store: Option<ProgressDoc>,
                                 now: int, previous: DashboardState)
    : (r: Result<(Option<ProgressDoc>, DashboardState), string>)
    ensures store.None? ==> r.Success? && r.value.0 == Some(FreshDocument(catalog, themeName, now))
    ensures store.Some? ==> (r.Failure? <==> store.value.lastDayForGame.None?)
    ensures store.Some? && r.Success? ==> r.value.0 == store
    ensures r.Success? ==> r.value.1.currentDate == Some(now)
    ensures r.Success? ==> r.value.1.lastDayToPlayGame == r.value.0.value.lastDayForGame
    ensures r.Success? && store.Some? ==> r.value.1.levels == store.value.levels
    ensures r.Success? && store.None? ==> r.value.1.levels == previous.levels
    ensures r.Success? && store.None? ==>
      && r.value.1.noOfLevels == LevelCount(catalog, themeName)
      && r.value.1.ledger == InitialLedger(LevelCount(catalog, themeName))
    ensures r.Success? && store.Some? ==>
      && r.value.1.noOfLevels == store.value.noOfLevels.GetOr(0)
      && r.value.1.ledger == LedgerOf(store.value)
  {
    match store
    case None =>
      var n := LevelCount(catalog, themeName);
      Success((Some(FreshDocument(catalog, themeName, now)),
               previous.(currentDate := Some(now), lastDayToPlayGame := Some(LastDayForGame),
                         noOfLevels := n, ledger := InitialLedger(n))))
    case Some(doc) =>
      if doc.lastDayForGame.None? then Failure("lastDayForGame is undefined")
      else Success((store, DashboardState(Some(now), doc.lastDayForGame, doc.noOfLevels.GetOr(0),
                                          LedgerOf(doc), doc.levels)))
  }

  /** A new player's lists split the levels of a non-empty theme: level 0 enabled, every
      other level disabled, so the level buttons can be built from them. */
  lemma FreshLedgerPartitions(catalog: seq<Theme>, themeName: string, now: int, previous: DashboardState)
    requires LevelCount(catalog, themeName) > 0
    ensures var r := OnLeaderboardSnapshot(catalog, themeName, None, now, previous);
      r.Success? && Partition(r.value.1.ledger, r.value.1.noOfLevels)
  {
    var n := LevelCount(catalog, themeName);
    var ledger := InitialLedger(n);
    forall id | 0 <= id < n
      ensures id in ledger.enabled || id in ledger.disabled
    {
      if id > 0 { assert ledger.disabled[id - 1] == id; }
    }
  }

  /** With no theme found the new player still gets level 0 enabled, an id outside the
      zero levels: the level buttons cannot be built from these lists. */
  lemma EmptyThemeLedgerOutOfRange(catalog: seq<Theme>, themeName: string, now: int, previous: DashboardState)
    requires forall k :: 0 <= k < |catalog| ==> catalog[k].name != themeName
    ensures var r := OnLeaderboardSnapshot(catalog, themeName, None, now, previous);
      r.Success? && r.value.1.noOfLevels == 0 && !IdsBelow(r.value.1.ledger, 0)
  {
    var r := OnLeaderboardSnapshot(catalog, themeName, None, now, previous);
    assert 0 in r.value.1.ledger.enabled;
  }

  /** A document holding only its deadline reads as no levels and three empty lists, from
      which the (empty) level buttons can be built. */
  lemma MissingFieldsReadAsEmpty(catalog: seq<Theme>, themeName: string, deadline: int, now: int,
                                 previous: DashboardState)
    ensures var doc := ProgressDoc(None, None, None, Some(deadline), None, None, None, None, None);
      var r := OnLeaderboardSnapshot(catalog, themeName, Some(doc), now, previous);
      && r.Success? && r.value.1.noOfLevels == 0 && r.value.1.ledger == Ledger([], [], [])
      && Partition(r.value.1.ledger, 0)
  {
  }

  /** Reading an existing document keeps exactly the stored lists and level count when
      they are present, so the state mirrors the document field by field. */
  lemma StoredFieldsReadBack(catalog: seq<Theme>, themeName: string, doc: ProgressDoc, now: int,
                             previous: DashboardState)
    requires doc.lastDayForGame.Some? && doc.noOfLevels.Some?
    requires doc.levelsEnabled.Some? && doc.levelsCompleted.Some? && doc.levelsDisabled.Some?
    ensures var r := OnLeaderboardSnapshot(catalog, themeName, Some(doc), now, previous);
      && r.Success? && r.value.1.noOfLevels == doc.noOfLevels.value
      && r.value.1.ledger == Ledger(doc.levelsEnabled.value, doc.levelsCompleted.value, doc.levelsDisabled.value)
      && r.value.1.lastDayToPlayGame == doc.lastDayForGame
  {
  }

  /** The next snapshot of the document just created reads back exactly the state the
      creating snapshot set, and writes nothing more. */
  lemma FreshDocumentReadsBack(catalog: seq<Theme>, themeName: string, now: int, later: int,
                               previous: DashboardState)
    ensures var first := OnLeaderboardSnapshot(catalog, themeName, None, now, previous);
      var second := OnLeaderboardSnapshot(catalog, themeName, first.value.0, later, first.value.1);
      && second.Success? && second.value.0 == first.value.0
      && second.value.1 == first.value.1.(currentDate := Some(later), levels := None)
  {
  }
}
