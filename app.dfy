/** The `App` component as an object: its state hooks are fields, its handlers and effects
    are methods that update them in place. */
module App {
  import opened Options
  import opened Questions
  import Quiz

  class QuizSession {
    /** The question store, fixed for the component's lifetime. */
    const allQuestions: seq<Question>

    var category: string
    var filteredQuestions: seq<Question>
    var current: int
    var score: int
    var answers: seq<string>
    var timeLeft: int
    var showScore: bool
    /** The persisted "quizScore" entry. */
    var savedScore: Option<int>

    /** The fields as one `Quiz.State` value. */
    function AsState(): Quiz.State
      reads this
    {
      Quiz.State(category, filteredQuestions, current, score, answers, timeLeft, showScore, savedScore)
    }

    ghost predicate Valid()
      reads this
    {
      Quiz.Inv(allQuestions, AsState())
    }

    ghost predicate ScoreCounted()
      reads this
    {
      Quiz.ScoreCounted(AsState())
    }

    /** The state initialisers; `stored` is what the key-value store holds at start. */
    constructor (questions: seq<Question>, stored: Option<int>)
      requires |questions| > 0
      ensures Valid() && ScoreCounted()
      ensures allQuestions == questions && AsState() == Quiz.Initial(questions, stored)
    {
      allQuestions := questions;
      category := "";
      filteredQuestions := questions;
      current := 0;
      score := 0;
      answers := [];
      timeLeft := Quiz.TimerSeconds;
      showScore := false;
      savedScore := stored;
    }

    /** The question on screen; it comes from the store, and from the chosen category
        whenever that category has questions. */
    function CurrentQuestion(): (q: Question)
      reads this
      requires Valid()
      ensures q in allQuestions
      ensures category != "" && (exists p :: p in allQuestions && p.category == category) ==> q.category == category
    {
      filteredQuestions[current]
    }

    /** The load effect: a present stored value sets the score-screen flag and the score. */
    method LoadSaved()
      requires Valid()
      modifies this
      ensures Valid() && AsState() == Quiz.Load(old(AsState()))
      ensures old(savedScore).Some? ==> showScore && score == old(savedScore).value
      ensures old(savedScore).None? ==> AsState() == old(AsState())
      ensures category == old(category) && current == old(current) && answers == old(answers)
    {
      if savedScore.Some? {
        showScore := true;
        score := savedScore.value;
      }
    }

    /** `handleCategorySelect`, reachable from the picker shown while no category is set. */
    method SelectCategory(cat: string)
      requires Valid() && category == ""
      modifies this
      ensures Valid() && AsState() == Quiz.Choose(allQuestions, old(AsState()), cat)
      ensures category == cat
      ensures OfCategory(allQuestions, cat) != [] ==> filteredQuestions == OfCategory(allQuestions, cat)
      ensures OfCategory(allQuestions, cat) == [] ==> filteredQuestions == allQuestions
      ensures current == old(current) && score == old(score) && answers == old(answers)
      ensures timeLeft == old(timeLeft) && showScore == old(showScore) && savedScore == old(savedScore)
    {
      category := cat;
      var filtered := OfCategory(allQuestions, cat);
      filteredQuestions := if |filtered| > 0 then filtered else allQuestions;
    }

    /** `handleAnswer`: records the click and scores it; `pending` is the advance it schedules,
        with the values its closure captured, to be handed to `NextQuestion` later. */
    method Answer(text: string) returns (pending: Quiz.View)
      requires Valid()
      modifies this
      ensures Valid() && AsState() == Quiz.Answer(old(AsState()), text)
      ensures answers == old(answers) + [text]
      ensures score == old(score) + 1 <==> text == old(filteredQuestions[current]).answer
      ensures text != old(filteredQuestions[current]).answer ==> score == old(score)
      ensures old(ScoreCounted()) ==> ScoreCounted()
      ensures pending == Quiz.Seen(old(AsState()))
      ensures category != "" ==> Quiz.Fits(AsState(), pending)
    {
      pending := Quiz.Seen(AsState());
      var isCorrect := text == filteredQuestions[current].answer;
      answers := answers + [text];
      if isCorrect {
        score := score + 1;
      }
    }

    /** `handleNextQuestion` as the closure that captured `seen` runs it. */
    method NextQuestion(seen: Quiz.View)
      requires Valid() && Quiz.Fits(AsState(), seen)
      modifies this
      ensures Valid() && AsState() == Quiz.AdvanceFrom(old(AsState()), seen)
      ensures seen.current + 1 < seen.count ==>
        current == seen.current + 1 && timeLeft == Quiz.TimerSeconds && showScore == old(showScore)
        && savedScore == old(savedScore)
      ensures seen.current + 1 >= seen.count ==>
        showScore && savedScore == Some(seen.score) && current == old(current) && timeLeft == old(timeLeft)
      ensures score == old(score) && answers == old(answers) && category == old(category)
    {
      if seen.current + 1 < seen.count {
        current := seen.current + 1;
        timeLeft := Quiz.TimerSeconds;
      } else {
        showScore := true;
        savedScore := Some(seen.score);
      }
    }

    /** One step of the timer effect. */
    method Tick()
      requires Valid()
      modifies this
      ensures Valid() && AsState() == Quiz.Tick(old(AsState()))
      ensures old(showScore) || old(category) == "" ==> AsState() == old(AsState())
      ensures !old(showScore) && old(category) != "" && old(timeLeft) > 0 ==>
        AsState() == old(AsState()).(timeLeft := old(timeLeft) - 1)
      ensures !old(showScore) && old(category) != "" && old(timeLeft) == 0 ==>
        AsState() == Quiz.Advance(old(AsState()))
      ensures old(ScoreCounted()) ==> ScoreCounted()
    {
      if showScore || category == "" {
        return;
      }
      if timeLeft == 0 {
        NextQuestion(Quiz.Seen(AsState()));
        return;
      }
      timeLeft := timeLeft - 1;
    }

    /** `restartQuiz`: a new pass over the same questions. */
    method RestartQuiz()
      requires Valid()
      modifies this
      ensures Valid() && ScoreCounted() && AsState() == Quiz.Restart(old(AsState()))
      ensures current == 0 && score == 0 && answers == [] && timeLeft == Quiz.TimerSeconds && !showScore
      ensures savedScore == None
      ensures category == old(category) && filteredQuestions == old(filteredQuestions)
    {
      current := 0;
      score := 0;
      answers := [];
      timeLeft := Quiz.TimerSeconds;
      showScore := false;
      savedScore := None;
    }

    /** `goBackToCategory`: back to the picker. */
    method GoBackToCategory()
      requires Valid()
      modifies this
      ensures Valid() && ScoreCounted() && AsState() == Quiz.Back(old(AsState()))
      ensures category == "" && current == 0 && score == 0 && answers == []
      ensures timeLeft == Quiz.TimerSeconds && !showScore
      ensures savedScore == old(savedScore) && filteredQuestions == old(filteredQuestions)
    {
      category := "";
      current := 0;
      score := 0;
      answers := [];
      timeLeft := Quiz.TimerSeconds;
      showScore := false;
    }
  }
}
