/** The fill-in-the-blank game of src/components/FibGame.jsx: the drag-and-drop move on
    (blanks, pool), the per-blank scoring with its all-or-nothing time bonus, the
    `finalScore` read-add-write, the countdown tick and the reset for a new question. */
module FibGame {
  import opened Wrappers
  import opened Lists
  import opened Text
  import opened Progress

  /** A question: every `*` in `question` marks one blank; `correctAnswers` is aligned
      with the blanks and `options` is the pool of draggable tokens. */
  datatype FibQuestion = FibQuestion(
    id: int, question: string, options: seq<string>, correctAnswers: seq<string>)

  /** What react-dnd hands to `handleDrop`: a token dragged from the pool (it carries no
      source index) or the token shown in blank `sourceIndex`. */
  datatype DragItem = FromPool(option: string) | FromBlank(option: string, sourceIndex: nat)

  /** The tokens on screen: one entry per blank (`""` while it is empty) and the pool. */
  datatype Board = Board(blanks: seq<string>, pool: seq<string>)

  /** The arguments of the `updateQuestionStatus` callback after an answer. */
  datatype StatusUpdate = StatusUpdate(
    questionId: int, completed: bool, scoreToAdd: int, answer: seq<string>)

  // ---- blanks of a question ----

  /** `question.split("*").length - 1`: one blank per `*`. */
  function BlankCount(question: string): (n: nat)
    ensures n == multiset(question)['*']
  {
    |Split(question, '*')| - 1
  }

  /** What `renderQuestion` lays out: the text parts, with a blank slot after every part
      but the last. */
  datatype Piece = TextPart(text: string) | BlankSlot(index: nat)

  function RenderParts(parts: seq<string>, index: nat): seq<Piece>
    requires index <= |parts|
    decreases |parts| - index
  {
    if index == |parts| then []
    else [TextPart(parts[index])]
         + (if index < |parts| - 1 then [BlankSlot(index)] else [])
         + RenderParts(parts, index + 1)
  }

  /** `renderQuestion(text)`: nothing for an empty text. */
  function RenderQuestion(text: string): seq<Piece> {
    if text == [] then [] else RenderParts(Split(text, '*'), 0)
  }

  /** The indices of the blank slots, in layout order. */
  function Slots(pieces: seq<Piece>): seq<nat> {
    if pieces == [] then []
    else (if pieces[0].BlankSlot? then [pieces[0].index] else []) + Slots(pieces[1..])
  }

  lemma {:induction false} SlotsAppend(a: seq<Piece>, b: seq<Piece>)
    ensures Slots(a + b) == Slots(a) + Slots(b)
  {
    if a == [] {
      assert a + b == b;
    } else {
      assert (a + b)[0] == a[0] && (a + b)[1..] == a[1..] + b;
      SlotsAppend(a[1..], b);
    }
  }

  lemma {:induction false} SlotsOfRenderParts(parts: seq<string>, index: nat)
    requires index < |parts|
    ensures Slots(RenderParts(parts, index)) == seq(|parts| - 1 - index, i => index + i)
    decreases |parts| - index
  {
    var head := [TextPart(parts[index])] + (if index < |parts| - 1 then [BlankSlot(index)] else []);
    SlotsAppend(head, RenderParts(parts, index + 1));
    assert Slots([TextPart(parts[index])]) == [];
    SlotsAppend([TextPart(parts[index])], if index < |parts| - 1 then [BlankSlot(index)] else []);
    if index < |parts| - 1 {
      SlotsOfRenderParts(parts, index + 1);
    }
  }

  /** The blanks `renderQuestion` draws are numbered 0, 1, ... up to the number of blanks
      `resetGame` allocates, so every blank slot has a state entry and every entry a slot. */
  lemma RenderedSlotsMatchReset(text: string)
    ensures Slots(RenderQuestion(text)) == seq(BlankCount(text), i => i)
  {
    if text != [] {
      SlotsOfRenderParts(Split(text, '*'), 0);
    }
  }

  // ---- handleDrop ----

  /** `handleDrop(item, targetIndex)`: a blank counts as occupied when its text is
      non-empty. Occupied target: a blank-to-blank drop swaps, a pool drop puts the token in
      and sends the displaced one to the end of the pool. Empty target: a blank-to-blank
      drop vacates the source, a pool drop takes the token out of the pool. A pool drop
      removes every pool entry equal to the token. */
  function Move(b: Board, item: DragItem, targetIndex: nat): (r: Board)
    requires targetIndex < |b.blanks|
    requires item.FromBlank? ==> item.sourceIndex < |b.blanks|
    ensures |r.blanks| == |b.blanks|
  {
    var temp := b.blanks[targetIndex];
    if temp != "" then
      match item
      case FromBlank(option, sourceIndex) =>
        Board(b.blanks[targetIndex := option][sourceIndex := temp], b.pool)
      case FromPool(option) =>
        Board(b.blanks[targetIndex := option], RemoveAll(b.pool, option) + [temp])
    else
      match item
      case FromBlank(option, sourceIndex) =>
        Board(b.blanks[sourceIndex := ""][targetIndex := option], b.pool)
      case FromPool(option) =>
        Board(b.blanks[targetIndex := option], RemoveAll(b.pool, option))
  }

  /** What a drop does to the blanks: the target receives the dragged token (unless a
      blank is dropped onto itself), the source blank receives whatever the target held
      (the displaced token on a swap, `""` when the target was empty), and no other blank
      changes. */
  lemma MoveBlanks(b: Board, item: DragItem, targetIndex: nat)
    requires targetIndex < |b.blanks|
    requires item.FromBlank? ==> item.sourceIndex < |b.blanks|
    ensures var r := Move(b, item, targetIndex);
      && (!(item.FromBlank? && item.sourceIndex == targetIndex && b.blanks[targetIndex] != "")
          ==> r.blanks[targetIndex] == item.option)
      && (item.FromBlank? && item.sourceIndex != targetIndex
          ==> r.blanks[item.sourceIndex] == b.blanks[targetIndex])
      && (forall i ::
            (0 <= i < |b.blanks| && i != targetIndex && !(item.FromBlank? && i == item.sourceIndex))
            ==> r.blanks[i] == b.blanks[i])
  {
  }

  /** What a drop does to the pool: a drag between blanks leaves it alone; a pool drop
      removes every copy of the token, keeps the rest in order, and appends the displaced
      token when the target was occupied. */
  lemma MovePool(b: Board, item: DragItem, targetIndex: nat)
    requires targetIndex < |b.blanks|
    requires item.FromBlank? ==> item.sourceIndex < |b.blanks|
    ensures var r := Move(b, item, targetIndex);
      && (item.FromBlank? ==> r.pool == b.pool)
      && (item.FromPool? ==>
            && multiset(r.pool) == multiset(b.pool)[item.option := 0]
                 + (if b.blanks[targetIndex] != "" then multiset{b.blanks[targetIndex]} else multiset{})
            && r.pool[..|RemoveAll(b.pool, item.option)|] == RemoveAll(b.pool, item.option))
      && (item.FromPool? && b.blanks[targetIndex] != "" ==> r.pool[|r.pool| - 1] == b.blanks[targetIndex])
  {
  }

  /** Non-empty tokens on the board, in blanks and pool together. */
  function Tokens(b: Board): multiset<string> {
    multiset(b.blanks)["" := 0] + multiset(b.pool)
  }

  /** A drag the UI can produce: a blank drags the token it shows, and a pool token
      appears in the pool exactly once. */
  predicate WellFormedDrag(b: Board, item: DragItem) {
    && item.option != ""
    && match item
       case FromBlank(option, sourceIndex) => sourceIndex < |b.blanks| && b.blanks[sourceIndex] == option
       case FromPool(option) => multiset(b.pool)[option] == 1
  }

  /** No token is lost or duplicated by a well-formed drop: swaps exchange, displaced
      tokens go back to the pool. */
  lemma MoveConservesTokens(b: Board, item: DragItem, targetIndex: nat)
    requires targetIndex < |b.blanks|
    requires WellFormedDrag(b, item)
    ensures Tokens(Move(b, item, targetIndex)) == Tokens(b)
  {
    match item
    case FromBlank(_, _) =>
      BlankDragPermutesBlanks(b, item, targetIndex);
    case FromPool(o) =>
      var temp := b.blanks[targetIndex];
      assert Move(b, item, targetIndex)
          == Board(b.blanks[targetIndex := o], RemoveAll(b.pool, o) + (if temp != "" then [temp] else []));
      PlaceConserves(b.blanks, b.pool, targetIndex, o, "");
  }

  /** Putting a token that sits once in the pool into a slot, and returning what the slot
      held (unless it was empty), keeps the tokens. */
  lemma PlaceConserves<T>(slots: seq<T>, pool: seq<T>, t: nat, o: T, empty: T)
    requires t < |slots| && o != empty && multiset(pool)[o] == 1
    ensures multiset(slots[t := o])[empty := 0]
              + multiset(RemoveAll(pool, o) + (if slots[t] != empty then [slots[t]] else []))
            == multiset(slots)[empty := 0] + multiset(pool)
  {
    UpdateMultiset(slots, t, o);
    var extra := if slots[t] != empty then [slots[t]] else [];
    assert multiset(RemoveAll(pool, o) + extra) == multiset(pool)[o := 0] + multiset(extra);
  }

  /** A drag from one blank to another only rearranges the blanks. */
  lemma BlankDragPermutesBlanks(b: Board, item: DragItem, targetIndex: nat)
    requires targetIndex < |b.blanks|
    requires item.FromBlank? && WellFormedDrag(b, item)
    ensures multiset(Move(b, item, targetIndex).blanks) == multiset(b.blanks)
    ensures Move(b, item, targetIndex).pool == b.pool
  {
    var s, o, temp := item.sourceIndex, item.option, b.blanks[targetIndex];
    if temp != "" {
      assert Move(b, item, targetIndex).blanks == b.blanks[targetIndex := o][s := temp];
      SwapPermutes(b.blanks, targetIndex, s);
    } else {
      assert Move(b, item, targetIndex).blanks == b.blanks[s := ""][targetIndex := o];
      SwapPermutes(b.blanks, s, targetIndex);
    }
  }

  /** Writing each of two entries into the other's place is a permutation. */
  lemma SwapPermutes<T>(xs: seq<T>, i: nat, j: nat)
    requires i < |xs| && j < |xs|
    ensures multiset(xs[i := xs[j]][j := xs[i]]) == multiset(xs)
  {
    if i != j {
      UpdateMultiset(xs, i, xs[j]);
      UpdateMultiset(xs[i := xs[j]], j, xs[i]);
    }
  }

  lemma UpdateMultiset<T>(s: seq<T>, i: nat, v: T)
    requires i < |s|
    ensures multiset(s[i := v]) == multiset(s) - multiset{s[i]} + multiset{v}
  {
    assert s == s[..i] + [s[i]] + s[i + 1..];
    assert s[i := v] == s[..i] + [v] + s[i + 1..];
  }

  // ---- handleNextClick: scoring ----

  /** Blank `i` is right when its trimmed text equals the answer at the same position;
      a blank without an answer (`correctAnswers[i]` undefined) is never right. */
  predicate BlankCorrect(blanks: seq<string>, correctAnswers: seq<string>, i: nat)
    requires i < |blanks|
  {
    i < |correctAnswers| && Trim(blanks[i]) == correctAnswers[i]
  }

  predicate AllCorrect(blanks: seq<string>, correctAnswers: seq<string>) {
    forall i :: 0 <= i < |blanks| ==> BlankCorrect(blanks, correctAnswers, i)
  }

  /** The number of right blanks among the first `k`. */
  function MatchesBefore(blanks: seq<string>, correctAnswers: seq<string>, k: nat): nat
    requires k <= |blanks|
  {
    if k == 0 then 0
    else MatchesBefore(blanks, correctAnswers, k - 1)
         + (if BlankCorrect(blanks, correctAnswers, k - 1) then 1 else 0)
  }

  /** The time bonus: the whole timer when every blank is right, nothing otherwise.
      (`Math.ceil` is the identity here: the timer only ever holds whole seconds.) */
  function ScoreToAdd(blanks: seq<string>, correctAnswers: seq<string>, timer: int): int {
    if AllCorrect(blanks, correctAnswers) then timer else 0
  }

  /** The per-blank count never exceeds the number of blanks, and reaches it exactly
      when every blank is right. */
  lemma {:induction false} MatchCountBound(blanks: seq<string>, correctAnswers: seq<string>, k: nat)
    requires k <= |blanks|
    ensures MatchesBefore(blanks, correctAnswers, k) <= k
    ensures MatchesBefore(blanks, correctAnswers, k) == k
            <==> forall i :: 0 <= i < k ==> BlankCorrect(blanks, correctAnswers, i)
  {
    if k > 0 {
      MatchCountBound(blanks, correctAnswers, k - 1);
    }
  }

  /** The `forEach` loop of `handleNextClick`: counts right blanks, tracks whether all are
      right, and derives the score to add. */
  method ScoreBlanks(blanks: seq<string>, correctAnswers: seq<string>, timer: int)
    returns (scoreIncrement: nat, allCorrect: bool, scoreToAdd: int)
    ensures scoreIncrement == MatchesBefore(blanks, correctAnswers, |blanks|)
    ensures allCorrect <==> AllCorrect(blanks, correctAnswers)
    ensures scoreToAdd == ScoreToAdd(blanks, correctAnswers, timer)
    ensures scoreToAdd == if allCorrect then timer else 0
  {
    scoreIncrement := 0;
    allCorrect := true;
    var index := 0;
    while index < |blanks|
      invariant 0 <= index <= |blanks|
      invariant scoreIncrement == MatchesBefore(blanks, correctAnswers, index)
      invariant allCorrect <==> forall i :: 0 <= i < index ==> BlankCorrect(blanks, correctAnswers, i)
    {
      if index < |correctAnswers| && Trim(blanks[index]) == correctAnswers[index] {
        scoreIncrement := scoreIncrement + 1;
      } else {
        allCorrect := false;
      }
      index := index + 1;
    }
    scoreToAdd := if allCorrect then timer else 0;
  }

  // ---- updateScore ----

  /** The stored total: `finalScore || 0`, and 0 while no document exists. */
  function FinalScore(store: Option<ProgressDoc>): int {
    if store.Some? then store.value.finalScore.GetOr(0) else 0
  }

  /** `updateScore(delta)`: when the document exists, `finalScore` becomes the old value
      (0 when missing) plus `delta`; nothing else in the document changes. */
  function AddScore(store: Option<ProgressDoc>, delta: int): (r: Option<ProgressDoc>)
    ensures r.Some? <==> store.Some?
    ensures store.Some? ==> FinalScore(r) == FinalScore(store) + delta
    ensures store.Some? ==> r.value.finalScore.Some?
    ensures store.Some? ==> r.value.(finalScore := store.value.finalScore) == store.value
  {
    match store
    case None => None
    case Some(d) => Some(d.(finalScore := Some(d.finalScore.GetOr(0) + delta)))
  }

  /** The score step of `handleNextClick`: `updateScore` is only called for a positive
      score, so the stored total never decreases. */
  function ApplyScore(store: Option<ProgressDoc>, scoreToAdd: int): (r: Option<ProgressDoc>)
    ensures FinalScore(r) >= FinalScore(store)
    ensures store.Some? ==> FinalScore(r) == FinalScore(store) + (if scoreToAdd > 0 then scoreToAdd else 0)
    ensures store.None? ==> r.None?
  {
    if scoreToAdd > 0 then AddScore(store, scoreToAdd) else store
  }

  /** The total after a series of submissions, each with its own score. */
  function ApplyScores(store: Option<ProgressDoc>, scores: seq<int>): Option<ProgressDoc>
    decreases scores
  {
    if scores == [] then store else ApplyScores(ApplyScore(store, scores[0]), scores[1..])
  }

  /** Over any series of submissions the stored total is at least where it started,
      and grows by exactly the positive scores. */
  lemma {:induction false} FinalScoreNeverDecreases(store: Option<ProgressDoc>, scores: seq<int>)
    requires store.Some?
    ensures ApplyScores(store, scores).Some?
    ensures FinalScore(ApplyScores(store, scores)) == FinalScore(store) + PositivePart(scores)
    ensures FinalScore(ApplyScores(store, scores)) >= FinalScore(store)
    decreases scores
  {
    if scores != [] {
      FinalScoreNeverDecreases(ApplyScore(store, scores[0]), scores[1..]);
    }
  }

  /** The sum of the positive entries. */
  function PositivePart(scores: seq<int>): (total: nat) {
    if scores == [] then 0
    else (if scores[0] > 0 then scores[0] else 0) + PositivePart(scores[1..])
  }

  // ---- the component's state ----

  /** The state of one mounted fill-in-the-blank game for `question`. */
  class FibSession {
    const question: FibQuestion
    const duration: int
    var blanks: seq<string>
    var pool: seq<string>
    var timer: int
    var evaluated: bool
    var showNext: bool
    var score: Option<int>

    /** One blank per `*`, and the timer only counts down from `duration` and never below 0
        (a negative `duration` is never ticked). */
    ghost predicate Valid()
      reads this
    {
      && |blanks| == BlankCount(question.question)
      && timer <= duration
      && (0 <= timer || timer == duration)
    }

    /** The state `resetGame` leaves: empty blanks, the question's pool, a full timer. */
    ghost predicate IsFresh()
      reads this
    {
      && blanks == seq(BlankCount(question.question), _ => "")
      && pool == question.options
      && timer == duration
      && !evaluated && !showNext && score == None
    }

    /** Mounting the component: the effect on `currentQuestion` runs `resetGame`. */
    constructor (question: FibQuestion, duration: int)
      ensures this.question == question && this.duration == duration
      ensures Valid() && IsFresh()
    {
      this.question := question;
      this.duration := duration;
      blanks := seq(BlankCount(question.question), _ => "");
      pool := question.options;
      timer := duration;
      evaluated := false;
      showNext := false;
      score := None;
    }

    /** `resetGame`: fresh blanks, pool and timer for the current question. */
    method ResetGame()
      modifies this
      ensures Valid() && IsFresh()
    {
      var numberOfBlanks := |Split(question.question, '*')| - 1;
      blanks := seq(numberOfBlanks, _ => "");
      pool := question.options;
      timer := duration;
      evaluated := false;
      showNext := false;
      score := None;
    }

    /** `handleDrop(item, targetIndex)`: the move on (blanks, pool); Next becomes visible. */
    method HandleDrop(item: DragItem, targetIndex: nat)
      requires Valid()
      requires targetIndex < |blanks|
      requires item.FromBlank? ==> item.sourceIndex < |blanks|
      modifies this
      ensures Valid()
      ensures Board(blanks, pool) == Move(Board(old(blanks), old(pool)), item, targetIndex)
      ensures |blanks| == |old(blanks)|
      ensures showNext
      ensures timer == old(timer) && evaluated == old(evaluated) && score == old(score)
    {
      showNext := true;
      var newBlanks := blanks;
      var newOptions := pool;
      if newBlanks[targetIndex] != "" {
        var temp := newBlanks[targetIndex];
        newBlanks := newBlanks[targetIndex := item.option];
        match item
        case FromBlank(_, sourceIndex) =>
          newBlanks := newBlanks[sourceIndex := temp];
        case FromPool(option) =>
          newOptions := RemoveAll(newOptions, option) + [temp];
      } else {
        match item {
          case FromBlank(_, sourceIndex) =>
            newBlanks := newBlanks[sourceIndex := ""];
          case FromPool(option) =>
            newOptions := RemoveAll(newOptions, option);
        }
        newBlanks := newBlanks[targetIndex := item.option];
      }
      pool := newOptions;
      blanks := newBlanks;
    }

    /** One second of the timer effect: while time is left and the answer is not
        evaluated the timer drops by one; at 0 and not evaluated the answer is submitted
        (`submit` tells the caller to run `NextClick`). */
    method Tick() returns (submit: bool)
      requires Valid()
      modifies this`timer
      ensures Valid()
      ensures submit <==> old(timer) == 0 && !evaluated
      ensures timer == if old(timer) > 0 && !evaluated then old(timer) - 1 else old(timer)
      ensures old(timer) >= 0 ==> timer >= 0
    {
      submit := false;
      if timer > 0 && !evaluated {
        timer := timer - 1;
      } else if timer == 0 && !evaluated {
        submit := true;
      }
    }

    /** `handleNextClick`: score the blanks, add a positive score to `finalScore`, report
        the question as completed with the submitted blanks, then `resetGame`. */
    method NextClick(store: Option<ProgressDoc>) returns (newStore: Option<ProgressDoc>, update: StatusUpdate)
      requires Valid()
      modifies this
      ensures update.questionId == question.id && update.completed
      ensures update.answer == old(blanks)
      ensures update.scoreToAdd == ScoreToAdd(old(blanks), question.correctAnswers, old(timer))
      ensures newStore == ApplyScore(store, update.scoreToAdd)
      ensures FinalScore(newStore) >= FinalScore(store)
      ensures Valid() && IsFresh()
    {
      var scoreIncrement, allCorrect, scoreToAdd := ScoreBlanks(blanks, question.correctAnswers, timer);
      score := Some(scoreToAdd);
      newStore := store;
      if scoreToAdd > 0 {
        newStore := AddScore(store, scoreToAdd);
      }
      evaluated := true;
      showNext := true;
      update := StatusUpdate(question.id, true, scoreToAdd, blanks);
      ResetGame();
    }
  }
}
