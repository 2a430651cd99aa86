/**
 * The exam-taking page (app/exam/page.jsx): the mm:ss clock text, the
 * once-a-second countdown that submits the exam when it runs out, the answer
 * map, the Previous/Next/sidebar question navigation, and the warning and
 * submit-confirmation dialog flags.
 */
module ExamPage {
  import opened Text

  /** The countdown starts at one hour, in seconds. */
  const ExamSeconds: nat := 3600

  /** Identifiers of the page's mock questions, in display order. */
  const MockQuestionIds: seq<int> := [1, 2, 3, 4]

  const TabLeftWarning: string := "You have left the exam tab. This will be reported."

  // ---------------------------------------------------------------------------
  // The clock text

  /** formatTime: whole minutes and the remaining seconds, each padded to two digits, joined by ':'. */
  function FormatTime(seconds: nat): string {
    Joined(Pad2(seconds / 60), ':', Pad2(seconds % 60))
  }

  /** Reads an "m:s" clock text back into its minutes and seconds fields. */
  function ReadClock(t: string): Option<(nat, nat)> {
    match ReadNumbers(t, ":")
    case None => None
    case Some(ns) => Some((ns[0], ns[1]))
  }

  /** Under 100 minutes the clock is exactly five characters: two digits, ':', two digits. */
  lemma FormatTimeLayout(seconds: nat)
    requires seconds < 6000
    ensures Fits(FormatTime(seconds), "##:##")
  {
    Pad2Fits(seconds / 60);
    Pad2Fits(seconds % 60);
    ClockFits(Pad2(seconds / 60), Pad2(seconds % 60));
  }

  /**
   * Reading the clock back gives the whole minutes and the remaining seconds:
   * minutes * 60 + seconds is the time left, and the seconds field is below 60.
   */
  lemma FormatTimeRoundTrip(seconds: nat)
    ensures ReadClock(FormatTime(seconds)) == Some((seconds / 60, seconds % 60))
    ensures var (m, s) := ReadClock(FormatTime(seconds)).value; m * 60 + s == seconds && s < 60
  {
    ReadNumbersLastPad2(seconds % 60);
    ReadNumbersPad2(seconds / 60, ':', Pad2(seconds % 60), ":", [seconds % 60]);
  }

  // ---------------------------------------------------------------------------
  // The countdown

  /** The setTimeLeft updater run by the one-second interval: count down by one, stopping at zero. */
  function NextTimeLeft(prev: int): (next: int)
    ensures next >= 0
    ensures prev >= 1 ==> next == prev - 1
    ensures prev <= 1 ==> next == 0
  {
    if prev <= 1 then 0 else prev - 1
  }

  /** The updater submits the exam (and stops the interval) exactly when the previous time is at most one. */
  predicate TickSubmits(prev: int) {
    prev <= 1
  }

  /** Time left after n ticks of the countdown from start. */
  function TimeAfter(start: int, n: nat): int {
    if n == 0 then start else NextTimeLeft(TimeAfter(start, n - 1))
  }

  /** From a non-negative start, n ticks take the time down by n but never below zero. */
  lemma {:induction false} TimeAfterCountsDown(start: nat, n: nat)
    ensures TimeAfter(start, n) == if n <= start then start - n else 0
  {
    if n > 0 {
      TimeAfterCountsDown(start, n - 1);
    }
  }

  /**
   * From the initial hour, the time stays positive for 3599 ticks, the 3600th
   * tick is the first one whose updater submits, and it leaves zero.
   */
  lemma CountdownFromOneHour(n: nat)
    ensures n < ExamSeconds ==> TimeAfter(ExamSeconds, n) > 0
    ensures TickSubmits(TimeAfter(ExamSeconds, n)) <==> n >= ExamSeconds - 1
    ensures TimeAfter(ExamSeconds, ExamSeconds) == 0
  {
    TimeAfterCountsDown(ExamSeconds, n);
    TimeAfterCountsDown(ExamSeconds, ExamSeconds);
  }

  /** The time never grows and never goes negative, tick after tick. */
  lemma {:induction false} TimeAfterMonotone(start: nat, n: nat)
    ensures 0 <= TimeAfter(start, n + 1) <= TimeAfter(start, n) <= start
  {
    if n > 0 {
      TimeAfterMonotone(start, n - 1);
    }
  }

  // ---------------------------------------------------------------------------
  // Question navigation updaters

  /** The Previous button's updater: one question back, never before the first. */
  function PreviousIndex(prev: int): (r: int)
    ensures r >= 0
    ensures prev >= 1 ==> r == prev - 1
    ensures prev <= 0 ==> r == 0
  {
    if 0 > prev - 1 then 0 else prev - 1
  }

  /** The Next button's updater: one question on, never past the last of count questions. */
  function NextIndex(prev: int, count: int): (r: int)
    ensures r <= count - 1
    ensures prev < count - 1 ==> r == prev + 1
    ensures prev >= count - 1 ==> r == count - 1
  {
    if count - 1 < prev + 1 then count - 1 else prev + 1
  }

  /** Both updaters keep an index in range, and each is a no-op at its own end. */
  lemma NavigationStaysInRange(prev: int, count: int)
    requires 0 <= prev < count
    ensures 0 <= PreviousIndex(prev) < count && 0 <= NextIndex(prev, count) < count
    ensures prev == 0 ==> PreviousIndex(prev) == prev
    ensures prev == count - 1 ==> NextIndex(prev, count) == prev
  {
  }

  // ---------------------------------------------------------------------------
  // The page's state

  class ExamSession {
    /** The ids of the questions, in the order the sidebar lists them. */
    const questionIds: seq<int>

    var currentQuestion: int
    var answers: map<int, string>
    var timeLeft: int
    var isFullscreen: bool
    var showWarning: bool
    var warningMessage: string
    var showSubmitConfirmation: bool
    /** The answer maps handed to handleSubmitExam, one per submission, oldest first. */
    var submitted: seq<map<int, string>>
    /** Whether the one-second interval is still scheduled. */
    var timerRunning: bool

    /** The question index is in range, the time is within the hour, and the interval runs exactly while time is left. */
    ghost predicate Valid()
      reads this
    {
      && 0 <= currentQuestion < |questionIds|
      && 0 <= timeLeft <= ExamSeconds
      && timerRunning == (timeLeft > 0)
    }

    /** The state of a freshly mounted page, with its interval started. */
    constructor (ids: seq<int>)
      requires |ids| > 0
      ensures Valid()
      ensures questionIds == ids && currentQuestion == 0 && answers == map[]
      ensures timeLeft == ExamSeconds && timerRunning
      ensures !isFullscreen && !showWarning && warningMessage == "" && !showSubmitConfirmation
      ensures submitted == []
    {
      questionIds := ids;
      currentQuestion := 0;
      answers := map[];
      timeLeft := ExamSeconds;
      isFullscreen := false;
      showWarning := false;
      warningMessage := "";
      showSubmitConfirmation := false;
      submitted := [];
      timerRunning := true;
    }

    /** handleSubmitExam: hands the current answers on and closes the confirmation dialog. */
    method SubmitExam()
      requires Valid()
      modifies this`submitted, this`showSubmitConfirmation
      ensures Valid()
      ensures submitted == old(submitted) + [answers]
      ensures !showSubmitConfirmation
    {
      submitted := submitted + [answers];
      showSubmitConfirmation := false;
    }

    /**
     * One firing of the interval. While time is left it counts down by one;
     * the tick that finds at most one second left sets the time to zero,
     * clears the interval and submits the current answers. A cleared interval
     * no longer fires, so a tick after that changes nothing.
     */
    method Tick()
      requires Valid()
      modifies this`timeLeft, this`timerRunning, this`submitted, this`showSubmitConfirmation
      ensures Valid()
      ensures old(timerRunning) ==> timeLeft == NextTimeLeft(old(timeLeft))
      ensures !old(timerRunning) ==> timeLeft == old(timeLeft)
      ensures timeLeft <= old(timeLeft)
      ensures if old(timerRunning) && TickSubmits(old(timeLeft))
        then submitted == old(submitted) + [answers] && !showSubmitConfirmation && !timerRunning
        else submitted == old(submitted) && showSubmitConfirmation == old(showSubmitConfirmation)
    {
      if timerRunning {
        if timeLeft <= 1 {
          // the updater's 0 is written before the submission here; handleSubmitExam reads neither field
          timeLeft := 0;
          timerRunning := false;
          SubmitExam();
        } else {
          timeLeft := timeLeft - 1;
        }
      }
    }

    /**
     * The tick as the page writes it: the interval is created once, when the
     * page mounts, so the handleSubmitExam it calls sees the answers of the
     * first render, which are empty, whatever has been answered since.
     */
    method TickAsWritten()
      requires Valid()
      modifies this`timeLeft, this`timerRunning, this`submitted, this`showSubmitConfirmation
      ensures Valid()
      ensures old(timerRunning) ==> timeLeft == NextTimeLeft(old(timeLeft))
      ensures !old(timerRunning) ==> timeLeft == old(timeLeft)
      ensures if old(timerRunning) && TickSubmits(old(timeLeft))
        then submitted == old(submitted) + [map[]] && !showSubmitConfirmation && !timerRunning
        else submitted == old(submitted) && showSubmitConfirmation == old(showSubmitConfirmation)
    {
      if timerRunning {
        if timeLeft <= 1 {
          timerRunning := false;
          submitted := submitted + [map[]];
          showSubmitConfirmation := false;
          timeLeft := 0;
        } else {
          timeLeft := timeLeft - 1;
        }
      }
    }

    /** The interval firing until it clears itself: the time reaches zero and the exam is submitted once. */
    method RunOut()
      requires Valid()
      modifies this`timeLeft, this`timerRunning, this`submitted, this`showSubmitConfirmation
      ensures Valid()
      ensures timeLeft == 0 && !timerRunning
      ensures old(timerRunning) ==> submitted == old(submitted) + [answers]
      ensures !old(timerRunning) ==> submitted == old(submitted)
      ensures old(timerRunning) ==> !showSubmitConfirmation
      ensures !old(timerRunning) ==> showSubmitConfirmation == old(showSubmitConfirmation)
    {
      while timerRunning
        invariant Valid()
        invariant timerRunning ==> submitted == old(submitted)
        invariant !timerRunning ==> submitted == (if old(timerRunning) then old(submitted) + [answers] else old(submitted))
        invariant timerRunning ==> showSubmitConfirmation == old(showSubmitConfirmation)
        invariant !timerRunning && old(timerRunning) ==> !showSubmitConfirmation
        invariant !old(timerRunning) ==> showSubmitConfirmation == old(showSubmitConfirmation)
        decreases timeLeft
      {
        Tick();
      }
    }

    /**
     * n firings of the interval: the time left is the countdown's TimeAfter
     * of the time before, and the exam is submitted once, with the current
     * answers, when the run reaches zero; that submission closes the
     * confirmation dialog, which a run that does not reach zero leaves alone.
     */
    method TickTimes(n: nat)
      requires Valid()
      modifies this`timeLeft, this`timerRunning, this`submitted, this`showSubmitConfirmation
      ensures Valid()
      ensures timeLeft == TimeAfter(old(timeLeft), n)
      ensures timerRunning ==> submitted == old(submitted)
      ensures !timerRunning ==> submitted == (if old(timerRunning) then old(submitted) + [answers] else old(submitted))
      ensures timerRunning || !old(timerRunning) ==> showSubmitConfirmation == old(showSubmitConfirmation)
      ensures !timerRunning && old(timerRunning) ==> !showSubmitConfirmation
    {
      var k := 0;
      while k < n
        invariant k <= n
        invariant Valid()
        invariant timeLeft == TimeAfter(old(timeLeft), k) && timeLeft <= old(timeLeft)
        invariant timerRunning ==> submitted == old(submitted)
        invariant !timerRunning ==> submitted == (if old(timerRunning) then old(submitted) + [answers] else old(submitted))
        invariant timerRunning || !old(timerRunning) ==> showSubmitConfirmation == old(showSubmitConfirmation)
        invariant !timerRunning && old(timerRunning) ==> !showSubmitConfirmation
      {
        Tick();
        k := k + 1;
      }
    }

    /** RunOut with the tick as written: the one submission carries the empty answers. */
    method RunOutAsWritten()
      requires Valid()
      modifies this`timeLeft, this`timerRunning, this`submitted, this`showSubmitConfirmation
      ensures Valid()
      ensures timeLeft == 0 && !timerRunning
      ensures old(timerRunning) ==> submitted == old(submitted) + [map[]]
      ensures !old(timerRunning) ==> submitted == old(submitted)
      ensures old(timerRunning) ==> !showSubmitConfirmation
      ensures !old(timerRunning) ==> showSubmitConfirmation == old(showSubmitConfirmation)
    {
      while timerRunning
        invariant Valid()
        invariant timerRunning ==> submitted == old(submitted)
        invariant !timerRunning ==> submitted == (if old(timerRunning) then old(submitted) + [map[]] else old(submitted))
        invariant timerRunning ==> showSubmitConfirmation == old(showSubmitConfirmation)
        invariant !timerRunning && old(timerRunning) ==> !showSubmitConfirmation
        invariant !old(timerRunning) ==> showSubmitConfirmation == old(showSubmitConfirmation)
        decreases timeLeft
      {
        TickAsWritten();
      }
    }

    /** handleAnswer: records the answer for one question and leaves every other entry as it was. */
    method Answer(questionId: int, answer: string)
      requires Valid()
      modifies this`answers
      ensures Valid()
      ensures answers == old(answers)[questionId := answer]
      ensures questionId in answers && answers[questionId] == answer
      ensures forall q :: q != questionId ==> (q in answers <==> q in old(answers))
      ensures forall q :: q != questionId && q in old(answers) ==> answers[q] == old(answers)[q]
    {
      answers := answers[questionId := answer];
    }

    /** The radio group or text area of the shown question: answers the question at the current index. */
    method AnswerCurrent(answer: string)
      requires Valid()
      modifies this`answers
      ensures Valid()
      ensures answers == old(answers)[questionIds[currentQuestion] := answer]
    {
      Answer(questionIds[currentQuestion], answer);
    }

    /** The Previous button. */
    method Previous()
      requires Valid()
      modifies this`currentQuestion
      ensures Valid()
      ensures currentQuestion == PreviousIndex(old(currentQuestion))
      ensures old(currentQuestion) == 0 ==> currentQuestion == 0
    {
      NavigationStaysInRange(currentQuestion, |questionIds|);
      currentQuestion := PreviousIndex(currentQuestion);
    }

    /** The Next button. */
    method Next()
      requires Valid()
      modifies this`currentQuestion
      ensures Valid()
      ensures currentQuestion == NextIndex(old(currentQuestion), |questionIds|)
      ensures old(currentQuestion) == |questionIds| - 1 ==> currentQuestion == old(currentQuestion)
    {
      NavigationStaysInRange(currentQuestion, |questionIds|);
      currentQuestion := NextIndex(currentQuestion, |questionIds|);
    }

    /** A sidebar button: the sidebar has one button per question, so index is in range. */
    method SelectQuestion(index: int)
      requires Valid()
      requires 0 <= index < |questionIds|
      modifies this`currentQuestion
      ensures Valid() && currentQuestion == index
    {
      currentQuestion := index;
    }

    /** handleVisibilityChange: leaving the tab opens the warning; coming back changes nothing. */
    method VisibilityChange(hidden: bool)
      requires Valid()
      modifies this`warningMessage, this`showWarning
      ensures Valid()
      ensures hidden ==> warningMessage == TabLeftWarning && showWarning
      ensures !hidden ==> warningMessage == old(warningMessage) && showWarning == old(showWarning)
    {
      if hidden {
        warningMessage := TabLeftWarning;
        showWarning := true;
      }
    }

    /**
     * toggleFullscreen: without a fullscreen element it requests fullscreen;
     * otherwise it leaves fullscreen when the browser offers exitFullscreen,
     * and does nothing when it does not.
     */
    method ToggleFullscreen(fullscreenElementPresent: bool, exitFullscreenAvailable: bool)
      requires Valid()
      modifies this`isFullscreen
      ensures Valid()
      ensures !fullscreenElementPresent ==> isFullscreen
      ensures fullscreenElementPresent && exitFullscreenAvailable ==> !isFullscreen
      ensures fullscreenElementPresent && !exitFullscreenAvailable ==> isFullscreen == old(isFullscreen)
    {
      if !fullscreenElementPresent {
        isFullscreen := true;
      } else if exitFullscreenAvailable {
        isFullscreen := false;
      }
    }

    /** handleWarning, the Acknowledge button: closes the warning, then toggles fullscreen. */
    method AcknowledgeWarning(fullscreenElementPresent: bool, exitFullscreenAvailable: bool)
      requires Valid()
      modifies this`showWarning, this`isFullscreen
      ensures Valid()
      ensures !showWarning
      ensures !fullscreenElementPresent ==> isFullscreen
      ensures fullscreenElementPresent && exitFullscreenAvailable ==> !isFullscreen
      ensures fullscreenElementPresent && !exitFullscreenAvailable ==> isFullscreen == old(isFullscreen)
    {
      showWarning := false;
      ToggleFullscreen(fullscreenElementPresent, exitFullscreenAvailable);
    }

    /** The warning dialog's onOpenChange. */
    method SetWarningOpen(open: bool)
      requires Valid()
      modifies this`showWarning
      ensures Valid()
      ensures showWarning == open
    {
      showWarning := open;
    }

    /** The header's Submit Exam button opens the confirmation dialog. */
    method RequestSubmit()
      requires Valid()
      modifies this`showSubmitConfirmation
      ensures Valid()
      ensures showSubmitConfirmation
    {
      showSubmitConfirmation := true;
    }

    /** The confirmation dialog's Cancel button, and its onOpenChange. */
    method SetSubmitConfirmationOpen(open: bool)
      requires Valid()
      modifies this`showSubmitConfirmation
      ensures Valid()
      ensures showSubmitConfirmation == open
    {
      showSubmitConfirmation := open;
    }
  }

  /**
   * A session in which the first question is answered and the clock then runs
   * out: the page as written submits the empty answers of its first render,
   * while the corrected tick submits the answer given.
   */
  method StaleAutoSubmit() returns (answered: map<int, string>, sentAsWritten: map<int, string>, sentCorrected: map<int, string>)
    ensures answered == map[1 := "Paris"]
    ensures sentAsWritten == map[] && sentAsWritten != answered
    ensures sentCorrected == answered
  {
    var page := new ExamSession(MockQuestionIds);
    page.AnswerCurrent("Paris");
    answered := page.answers;
    page.RunOutAsWritten();
    sentAsWritten := page.submitted[0];

    var fixed := new ExamSession(MockQuestionIds);
    fixed.AnswerCurrent("Paris");
    fixed.RunOut();
    sentCorrected := fixed.submitted[0];
    assert 1 in answered;
  }
}
