/** The quiz session as a value: the seven pieces of state of the `App` component plus the
    persisted "quizScore" entry, and one function per handler, each an atomic transition. */
module Quiz {
  import opened Options
  import opened Questions

  /** Seconds allowed per question. */
  const TimerSeconds := 15

  datatype State = State(
    category: string,             // "" while no category is chosen
    filtered: seq<Question>,      // the questions of the current pass
    current: int,                 // index of the question on screen
    score: int,
    answers: seq<string>,         // every submitted option text, in click order
    timeLeft: int,
    showScore: bool,
    saved: Option<int>)           // the persisted "quizScore" entry

  /** What a `handleNextQuestion` closure captured from the render it was created in:
      `current`, `filteredQuestions.length` and `score`. */
  datatype View = View(current: int, count: int, score: int)

  function Seen(s: State): View {
    View(s.current, |s.filtered|, s.score)
  }

  /** The session as the component's state initialisers create it. */
  function Initial(all: seq<Question>, saved: Option<int>): State {
    State("", all, 0, 0, [], TimerSeconds, false, saved)
  }

  /** The load effect: any stored value, "0" included, sets the score-screen flag and the
      score; the category stays unset, so the score screen appears once one is picked. */
  function Load(s: State): State {
    match s.saved
    case Some(n) => s.(showScore := true, score := n)
    case None => s
  }

  /** `handleCategorySelect`. */
  function Choose(all: seq<Question>, s: State, cat: string): State {
    s.(category := cat, filtered := Selection(all, cat))
  }

  /** `handleAnswer` without its delayed advance. */
  function Answer(s: State, text: string): State
    requires 0 <= s.current < |s.filtered|
  {
    var correct := text == s.filtered[s.current].answer;
    s.(answers := s.answers + [text], score := if correct then s.score + 1 else s.score)
  }

  /** `handleNextQuestion` run with the values `seen` it captured. */
  function AdvanceFrom(s: State, seen: View): State {
    if seen.current + 1 < seen.count then s.(current := seen.current + 1, timeLeft := TimerSeconds)
    else s.(showScore := true, saved := Some(seen.score))
  }

  /** `handleNextQuestion` from the render of the state it acts on. */
  function Advance(s: State): State {
    AdvanceFrom(s, Seen(s))
  }

  /** One step of the timer effect: idle on the picker and on the score screen, an advance
      when the countdown is at zero, otherwise one second less. */
  function Tick(s: State): State {
    if s.showScore || s.category == "" then s
    else if s.timeLeft == 0 then Advance(s)
    else s.(timeLeft := s.timeLeft - 1)
  }

  /** `restartQuiz`. */
  function Restart(s: State): State {
    s.(current := 0, score := 0, answers := [], timeLeft := TimerSeconds, showScore := false, saved := None)
  }

  /** `goBackToCategory`. */
  function Back(s: State): State {
    s.(category := "", current := 0, score := 0, answers := [], timeLeft := TimerSeconds, showScore := false)
  }

  /** The session invariant: the question on screen exists, the countdown is in range, the
      pass is drawn from the store and matches the chosen category. */
  ghost predicate Inv(all: seq<Question>, s: State) {
    && |all| > 0
    && 0 <= s.current < |s.filtered|
    && 0 <= s.timeLeft <= TimerSeconds
    && (forall q :: q in s.filtered ==> q in all)
    && (s.category == "" ==> s.current == 0)
    && (s.category != "" ==> s.filtered == Selection(all, s.category))
  }

  /** No more points than submitted answers. */
  ghost predicate ScoreCounted(s: State) {
    0 <= s.score <= |s.answers|
  }

  /** A captured view can be delivered to `s`: a pass is under way and the view was taken
      against a list of the same length with its index inside it. */
  predicate Fits(s: State, seen: View) {
    s.category != "" && seen.count == |s.filtered| && 0 <= seen.current < seen.count
  }

  /** The events that drive the component. */
  datatype Event =
    | LoadSaved
    | Select(cat: string)
    | Submit(text: string)
    | Deliver(seen: View)    // a delayed `handleNextQuestion` fires
    | TimerTick
    | RestartQuiz
    | BackToCategory

  /** When an event can reach the component: the picker is rendered only while no category
      is set, and a delayed advance lands in the pass it was scheduled in. */
  predicate Admissible(s: State, e: Event) {
    match e
    case Select(_) => s.category == ""
    case Deliver(seen) => Fits(s, seen)
    case _ => true
  }

  function Step(all: seq<Question>, s: State, e: Event): State
    requires 0 <= s.current < |s.filtered|
  {
    match e
    case LoadSaved => Load(s)
    case Select(cat) => Choose(all, s, cat)
    case Submit(text) => Answer(s, text)
    case Deliver(seen) => AdvanceFrom(s, seen)
    case TimerTick => Tick(s)
    case RestartQuiz => Restart(s)
    case BackToCategory => Back(s)
  }

  /** `events` take `s` to `t`, each admissible where it happens. */
  ghost predicate Reaches(all: seq<Question>, s: State, events: seq<Event>, t: State)
    decreases |events|
  {
    if events == [] then t == s
    else
      && 0 <= s.current < |s.filtered|
      && Admissible(s, events[0])
      && Reaches(all, Step(all, s, events[0]), events[1..], t)
  }

  /** Every admissible transition keeps the invariant, and every one but the load effect
      keeps the score within the number of answers. */
  lemma StepKeepsInv(all: seq<Question>, s: State, e: Event)
    requires Inv(all, s) && Admissible(s, e)
    ensures Inv(all, Step(all, s, e))
    ensures ScoreCounted(s) && !e.LoadSaved? ==> ScoreCounted(Step(all, s, e))
  {
  }

  /** From a fresh session, whatever admissible events happen, the invariant holds; without
      a resume from a stored score, the score never exceeds the answers given. */
  lemma {:induction false} ReachableKeepsInv(all: seq<Question>, saved: Option<int>, events: seq<Event>, t: State)
    requires |all| > 0 && Reaches(all, Initial(all, saved), events, t)
    ensures Inv(all, t)
    ensures (forall i :: 0 <= i < |events| ==> !events[i].LoadSaved?) ==> ScoreCounted(t)
  {
    ReachesKeepsInv(all, Initial(all, saved), events, t);
  }

  lemma {:induction false} ReachesKeepsInv(all: seq<Question>, s: State, events: seq<Event>, t: State)
    requires Inv(all, s) && Reaches(all, s, events, t)
    ensures Inv(all, t)
    ensures ScoreCounted(s) && (forall i :: 0 <= i < |events| ==> !events[i].LoadSaved?) ==> ScoreCounted(t)
    decreases |events|
  {
    if events != [] {
      StepKeepsInv(all, s, events[0]);
      var next := Step(all, s, events[0]);
      ReachesKeepsInv(all, next, events[1..], t);
      if ScoreCounted(s) && (forall i :: 0 <= i < |events| ==> !events[i].LoadSaved?) {
        assert !events[0].LoadSaved?;
        assert forall i :: 0 <= i < |events[1..]| ==> events[1..][i] == events[i + 1];
      }
    }
  }

  /** `k` timer steps. */
  function Ticks(s: State, k: nat): State {
    if k == 0 then s else Tick(Ticks(s, k - 1))
  }

  /** `k` advances, each from the render of the state it acts on. */
  function Advances(s: State, k: nat): State {
    if k == 0 then s else Advance(Advances(s, k - 1))
  }

  /** On the score screen the timer does nothing. */
  lemma {:induction false} ScoreScreenTimerIdle(s: State, k: nat)
    requires s.showScore
    ensures Ticks(s, k) == s
  {
    if k > 0 {
      ScoreScreenTimerIdle(s, k - 1);
    }
  }

  /** While a question is on screen, the first `timeLeft` timer steps only count down. */
  lemma {:induction false} CountdownOnly(s: State, k: nat)
    requires s.category != "" && !s.showScore && k <= s.timeLeft
    ensures Ticks(s, k) == s.(timeLeft := s.timeLeft - k)
  {
    if k > 0 {
      CountdownOnly(s, k - 1);
    }
  }

  /** The step after the countdown reaches zero performs exactly one advance: to the next
      question with a full countdown, or to the score screen storing the score. */
  lemma TimeoutAdvancesOnce(s: State)
    requires 0 <= s.timeLeft && s.category != "" && !s.showScore
    ensures Ticks(s, s.timeLeft + 1) == Advance(s.(timeLeft := 0))
    ensures var r := Ticks(s, s.timeLeft + 1);
      if s.current + 1 < |s.filtered| then
        r == s.(current := s.current + 1, timeLeft := TimerSeconds)
      else
        r == s.(timeLeft := 0, showScore := true, saved := Some(s.score))
  {
    CountdownOnly(s, s.timeLeft);
  }

  /** After a timeout's advance, the next `TimerSeconds` steps never advance again. */
  lemma NoSecondTimeoutAdvance(s: State, k: nat)
    requires s.category != "" && !s.showScore && s.timeLeft == 0
    requires k <= TimerSeconds
    ensures var r := Tick(s);
      Ticks(r, k).current == r.current && Ticks(r, k).showScore == r.showScore
      && Ticks(r, k).saved == r.saved
  {
    var r := Tick(s);
    if r.showScore {
      ScoreScreenTimerIdle(r, k);
    } else {
      CountdownOnly(r, k);
    }
  }

  /** Advances before the last question move one question each and restart the countdown. */
  lemma {:induction false} AdvancesWalk(s: State, k: nat)
    requires 0 <= s.current && s.current + k < |s.filtered|
    ensures Advances(s, k) == if k == 0 then s else s.(current := s.current + k, timeLeft := TimerSeconds)
  {
    if k > 0 {
      AdvancesWalk(s, k - 1);
    }
  }

  /** From question `current`, exactly `|filtered| - current` advances reach the score screen,
      which then holds the score, while every shorter run of advances stays on a question. */
  lemma ExactlyRemainingAdvancesFinish(s: State, k: nat)
    requires 0 <= s.current < |s.filtered| && !s.showScore
    ensures var n := |s.filtered| - s.current;
      var r := Advances(s, n);
      && (k < n ==> !Advances(s, k).showScore)
      && r.showScore && r.current == |s.filtered| - 1 && r.saved == Some(s.score) && r.score == s.score
  {
    var n := |s.filtered| - s.current;
    AdvancesWalk(s, n - 1);
    if k < n {
      AdvancesWalk(s, k);
    }
  }

  /** The number of `texts` equal to the answer of the question at the same position. */
  function Matches(qs: seq<Question>, texts: seq<string>): (n: nat)
    requires |texts| <= |qs|
    ensures n <= |texts|
  {
    if texts == [] then 0
    else (if texts[0] == qs[0].answer then 1 else 0) + Matches(qs[1..], texts[1..])
  }

  /** A pass played by clicking `texts` in turn, each click's delayed advance firing before the
      next click. */
  function Play(s: State, texts: seq<string>): State
    requires 0 <= s.current < |s.filtered|
    decreases |texts|
  {
    if texts == [] then s
    else Play(AdvanceFrom(Answer(s, texts[0]), Seen(s)), texts[1..])
  }

  /** Playing a pass: the answers are the clicked texts, the score rises by the number of
      them matching their question, and after the last question the stored value is the
      score as the last click's render saw it — one short when the last answer is right. */
  lemma {:induction false} PlayScores(s: State, texts: seq<string>)
    requires 0 <= s.current < |s.filtered| && s.current + |texts| <= |s.filtered| && !s.showScore
    ensures var r := Play(s, texts);
      && r.answers == s.answers + texts
      && r.score == s.score + Matches(s.filtered[s.current..], texts)
      && (s.current + |texts| < |s.filtered| ==> r.current == s.current + |texts| && !r.showScore)
      && (texts != [] && s.current + |texts| == |s.filtered| ==>
            && r.showScore
            && r.saved == Some(r.score - (if texts[|texts| - 1] == s.filtered[|s.filtered| - 1].answer then 1 else 0)))
    decreases |texts|
  {
    if texts != [] {
      var next := AdvanceFrom(Answer(s, texts[0]), Seen(s));
      var rest := s.filtered[s.current..];
      assert rest[0] == s.filtered[s.current];
      assert rest[1..] == s.filtered[s.current + 1..];
      if s.current + 1 < |s.filtered| {
        PlayScores(next, texts[1..]);
        assert s.answers + [texts[0]] + texts[1..] == s.answers + texts;
        if |texts| > 1 {
          assert texts[1..][|texts[1..]| - 1] == texts[|texts| - 1];
        }
      } else {
        assert texts[1..] == [];
        assert s.answers + [texts[0]] == s.answers + texts;
      }
    }
  }

  /** Restart and back perform the same resets; back also clears the category and leaves the
      stored score alone, restart keeps the category and clears the stored score. */
  lemma RestartVersusBack(s: State)
    ensures Back(s) == Restart(s).(category := "", saved := s.saved)
    ensures Restart(s).category == s.category && Restart(s).filtered == s.filtered && Restart(s).saved == None
    ensures Back(s).saved == s.saved && Back(s).category == ""
  {
  }

  /** The number of clicked texts in `steps` equal to the answer of the question at the same
      position; a `None` step is a question the timer skipped. */
  function ClickMatches(qs: seq<Question>, steps: seq<Option<string>>): (n: nat)
    requires |steps| <= |qs|
    ensures n <= |steps|
  {
    if steps == [] then 0
    else (if steps[0] == Some(qs[0].answer) then 1 else 0) + ClickMatches(qs[1..], steps[1..])
  }

  /** The texts clicked in `steps`, in order. */
  function Clicked(steps: seq<Option<string>>): seq<string> {
    if steps == [] then []
    else (match steps[0] case Some(t) => [t] case None => []) + Clicked(steps[1..])
  }

  /** A pass in which each question is either clicked, `Some(text)`, with that click's delayed
      advance firing before anything else, or left to the timer, `None`, whose countdown
      ends in the timer effect's own advance. */
  function Mixed(s: State, steps: seq<Option<string>>): State
    requires 0 <= s.current < |s.filtered|
    decreases |steps|
  {
    if steps == [] then s
    else
      var next := match steps[0]
        case Some(text) => AdvanceFrom(Answer(s, text), Seen(s))
        case None => Advance(s);
      Mixed(next, steps[1..])
  }

  /** Playing a pass where some questions time out: the answers are the clicked texts only,
      the score rises by the number of clicks matching their question, and after the last
      question the stored value is the final score, minus one when the last question was
      clicked correctly. */
  lemma {:induction false} MixedScores(s: State, steps: seq<Option<string>>)
    requires 0 <= s.current < |s.filtered| && s.current + |steps| <= |s.filtered| && !s.showScore
    ensures var r := Mixed(s, steps);
      && r.answers == s.answers + Clicked(steps)
      && r.score == s.score + ClickMatches(s.filtered[s.current..], steps)
      && (s.current + |steps| < |s.filtered| ==> r.current == s.current + |steps| && !r.showScore)
      && (steps != [] && s.current + |steps| == |s.filtered| ==>
            && r.showScore
            && r.saved == Some(r.score - (if steps[|steps| - 1] == Some(s.filtered[|s.filtered| - 1].answer) then 1 else 0)))
    decreases |steps|
  {
    if steps != [] {
      var rest := s.filtered[s.current..];
      assert rest[0] == s.filtered[s.current];
      assert rest[1..] == s.filtered[s.current + 1..];
      var next: State;
      match steps[0] {
        case Some(text) =>
          next := AdvanceFrom(Answer(s, text), Seen(s));
          assert Clicked(steps) == [text] + Clicked(steps[1..]);
        case None =>
          next := Advance(s);
          assert Clicked(steps) == Clicked(steps[1..]);
      }
      assert Mixed(s, steps) == Mixed(next, steps[1..]);
      if s.current + 1 < |s.filtered| {
        MixedScores(next, steps[1..]);
        if |steps| > 1 {
          assert steps[1..][|steps[1..]| - 1] == steps[|steps| - 1];
        }
      } else {
        assert steps[1..] == [];
      }
    }
  }

  /** When every click is the right option, the whole pass scores one point per question,
      while the stored value is one less: the last click's delayed advance saw the score
      before that click was counted. */
  lemma AllCorrectPass(s: State, texts: seq<string>)
    requires 0 == s.current < |s.filtered| && s.score == 0 && !s.showScore
    requires |texts| == |s.filtered|
    requires forall i :: 0 <= i < |texts| ==> texts[i] == s.filtered[i].answer
    ensures Play(s, texts).showScore
    ensures Play(s, texts).score == |s.filtered|
    ensures Play(s, texts).saved == Some(|s.filtered| - 1)
  {
    PlayScores(s, texts);
    AllMatch(s.filtered, texts);
    assert s.filtered[s.current..] == s.filtered;
  }

  lemma {:induction false} AllMatch(qs: seq<Question>, texts: seq<string>)
    requires |texts| <= |qs|
    requires forall i :: 0 <= i < |texts| ==> texts[i] == qs[i].answer
    ensures Matches(qs, texts) == |texts|
  {
    if texts != [] {
      AllMatch(qs[1..], texts[1..]);
    }
  }

  /** Nothing stops a second click on the same question: clicking the right option twice
      scores twice, so the score can exceed the number of questions. */
  lemma RepeatedClickScoresTwice(s: State)
    requires 0 <= s.current < |s.filtered|
    ensures var a := s.filtered[s.current].answer;
      Answer(Answer(s, a), a).score == s.score + 2 && Answer(Answer(s, a), a).current == s.current
  {
  }

  /** Resuming from a stored value shows that value as the score with no answers behind it,
      and leaves the category unset, so the picker is still what is rendered first. */
  lemma ResumeWithoutAnswers(all: seq<Question>, n: int)
    ensures var r := Load(Initial(all, Some(n)));
      r.showScore && r.score == n && r.answers == [] && r.category == ""
      && (ScoreCounted(r) <==> n == 0)
  {
  }

  /** If the timer runs out during the pause after a click, the click's delayed advance
      lands on the question the timeout already moved to, so the pass moves on once;
      on the last question the delayed advance overwrites the stored score with the
      value it captured before the click was counted. */
  lemma TimeoutDuringPause(s: State, text: string)
    requires 0 <= s.current < |s.filtered| && s.category != "" && !s.showScore && s.timeLeft == 0
    ensures var r := AdvanceFrom(Tick(Answer(s, text)), Seen(s));
      && r.answers == s.answers + [text]
      && (s.current + 1 < |s.filtered| ==> r.current == s.current + 1 && !r.showScore)
      && (s.current + 1 == |s.filtered| ==> r.current == s.current && r.showScore && r.saved == Some(s.score))
  {
  }

  /** The restriction to admissible runs is needed: the click's 500 ms advance is never
      cancelled. From a fresh session over a store with three questions labelled "A" and
      one labelled "B": choose "A", click an option, go back before the advance fires, let
      it fire, choose "B". The delayed advance is the only inadmissible event; it leaves
      question 1 on screen with no category set, breaking the invariant, and after choosing
      "B" the index is past the end of the one-question list. */
  lemma StaleAdvanceOverruns()
    ensures var a1 := Question(1, "A", "q1", ["x"], "x");
      var a2 := Question(2, "A", "q2", ["x"], "x");
      var a3 := Question(3, "A", "q3", ["x"], "x");
      var b1 := Question(4, "B", "q4", ["x"], "x");
      var all := [a1, a2, a3, b1];
      var s1 := Choose(all, Initial(all, None), "A");
      var seen := Seen(s1);
      var s3 := Back(Answer(s1, "x"));
      var s4 := AdvanceFrom(s3, seen);
      var s5 := Choose(all, s4, "B");
      && Inv(all, s1) && Inv(all, s3)
      && !Fits(s3, seen)
      && s4.category == "" && s4.current == 1 && !Inv(all, s4)
      && s5.filtered == [b1] && s5.current == 1 && !(s5.current < |s5.filtered|)
  {
    var a1 := Question(1, "A", "q1", ["x"], "x");
    var a2 := Question(2, "A", "q2", ["x"], "x");
    var a3 := Question(3, "A", "q3", ["x"], "x");
    var b1 := Question(4, "B", "q4", ["x"], "x");
    var all := [a1, a2, a3, b1];
    assert OfCategory(all, "A") == [a1, a2, a3];
    assert all[1..] == [a2, a3, b1] && all[1..][1..] == [a3, b1] && all[1..][1..][1..] == [b1];
    assert OfCategory([b1], "B") == [b1];
    assert OfCategory(all, "B") == OfCategory([a2, a3, b1], "B") == OfCategory([a3, b1], "B") == [b1];
  }
}
