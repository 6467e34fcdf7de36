/** main (pomo.py): read the three settings, run the timer, ask whether to run
    again; "no" ends the program, "yes" starts another round. The settings of
    successive rounds and the lines typed at the confirmation prompt are
    finite input streams; the run also stops when one of them is used up,
    which stands for a prompt that blocks forever. */
module Driver {
  import opened Timer
  import opened Confirmation

  /** The three integers get_user_input returns for one round. */
  datatype Params = Params(minutes: int, breakMinutes: int, cycles: int)

  /** How the restart loop ended. */
  datatype Stop =
    | Declined    // the user answered "no"
    | Crashed     // run_pomodoro raised (a negative break length)
    | OutOfInput  // no further settings or no further valid answer

  /** Number of rounds started and how the loop ended. */
  datatype Outcome = Outcome(rounds: nat, stop: Stop)

  predicate Finishes(p: Params)
  {
    Completes(p.minutes, p.breakMinutes, p.cycles)
  }

  /** The restart loop as a function of the settings and of the answers the
      confirmation prompts obtain, one per round. */
  function Drive(ps: seq<Params>, answers: seq<string>): Outcome
    decreases |ps|
  {
    if ps == [] then Outcome(0, OutOfInput)
    else if !Finishes(ps[0]) then Outcome(1, Crashed)
    else if answers == [] then Outcome(1, OutOfInput)
    else if answers[0] == "no" then Outcome(1, Declined)
    else
      var rest := Drive(ps[1..], answers[1..]);
      Outcome(rest.rounds + 1, rest.stop)
  }

  /** What the timer draws over a sequence of rounds, in order. */
  function Screens(ps: seq<Params>): seq<Screen>
  {
    if ps == [] then []
    else
      var p := ps[|ps| - 1];
      Screens(ps[..|ps| - 1]) + Session(p.minutes, p.breakMinutes, p.cycles)
  }

  lemma ScreensNext(ps: seq<Params>, n: nat)
    requires n < |ps|
    ensures Screens(ps[..n + 1]) == Screens(ps[..n]) + Session(ps[n].minutes, ps[n].breakMinutes, ps[n].cycles)
  {
    assert ps[..n + 1][..n] == ps[..n];
  }

  /** `rounds` rounds already done, then `rest`. */
  function After(rounds: nat, rest: Outcome): Outcome
  {
    Outcome(rounds + rest.rounds, rest.stop)
  }

  /** The while True loop of main, without the curses set-up and teardown:
      it stops as Drive says, and the screen shows the timer runs of the
      rounds started, one after the other. */
  method RunSessions(params: seq<Params>, lines: seq<string>)
    returns (rounds: nat, stop: Stop, screen: seq<Screen>)
    ensures Outcome(rounds, stop) == Drive(params, Answers(lines))
    ensures rounds <= |params| && screen == Screens(params[..rounds])
  {
    rounds, screen := 0, [];
    var todo, rest := params, lines;
    while todo != []
      invariant rounds <= |params| && todo == params[rounds..]
      invariant Drive(params, Answers(lines)) == After(rounds, Drive(todo, Answers(rest)))
      invariant screen == Screens(params[..rounds])
    {
      var p := todo[0];
      ScreensNext(params, rounds);
      var trace, completed := RunPomodoro(p.minutes, p.breakMinutes, p.cycles);
      screen := screen + trace;
      if !completed {
        rounds, stop := rounds + 1, Crashed;
        return;
      }
      var choice, next := NextAnswer(rest);
      if choice.None? {
        rounds, stop := rounds + 1, OutOfInput;
        return;
      }
      DriveNext(todo, choice.value, Answers(next));
      rounds, todo, rest := rounds + 1, todo[1..], next;
      if choice.value == "no" {
        stop := Declined;
        return;
      }
    }
    stop := OutOfInput;
  }

  /** One call of get_user_confirmation on the remaining lines, read as
      taking the next answer of the stream and leaving the lines after it. */
  method NextAnswer(rest: seq<string>) returns (choice: Option<string>, next: seq<string>)
    ensures choice.None? ==> Answers(rest) == []
    ensures choice.Some? ==> Answers(rest) == [choice.value] + Answers(next) && |next| < |rest|
  {
    var used, invalid;
    choice, used, invalid := GetUserConfirmation(rest);
    if choice.None? {
      AnswersOfInvalid(rest);
      next := [];
    } else {
      AnswersAfterPrompt(rest, invalid);
      next := rest[used..];
    }
  }

  /** A round that completes, followed by the answer v: "no" ends the run
      there, anything else leaves the rest of the run to the remaining
      settings and answers. */
  lemma DriveNext(ps: seq<Params>, v: string, answers: seq<string>)
    requires ps != [] && Finishes(ps[0])
    ensures Drive(ps, [v] + answers) ==
      if v == "no" then Outcome(1, Declined) else After(1, Drive(ps[1..], answers))
  {
    assert ([v] + answers)[1..] == answers;
  }

  /** The loop stops right after the first "no" and repeats on every "yes":
      every round but the last completed and was answered "yes"; the run
      ends Declined exactly when the last round completed and was answered
      "no", Crashed exactly when the last round did not complete, and
      otherwise because the settings or the answers ran out. */
  lemma {:induction false} DriveOutcome(ps: seq<Params>, answers: seq<string>)
    requires forall k :: 0 <= k < |answers| ==> answers[k] == "yes" || answers[k] == "no"
    ensures var run := Drive(ps, answers);
      && run.rounds <= |ps|
      && (ps != [] ==> run.rounds >= 1)
      && run.rounds <= |answers| + 1
      && (forall r :: 0 <= r < run.rounds - 1 ==> answers[r] == "yes" && Finishes(ps[r]))
      && (run.stop == Declined <==>
            0 < run.rounds <= |answers| && answers[run.rounds - 1] == "no" && Finishes(ps[run.rounds - 1]))
      && (run.stop == Crashed <==> 0 < run.rounds && !Finishes(ps[run.rounds - 1]))
      && (run.stop == OutOfInput ==> run.rounds == |ps| || run.rounds == |answers| + 1)
    decreases |ps|
  {
    if ps != [] && Finishes(ps[0]) && answers != [] && answers[0] != "no" {
      var rest := Drive(ps[1..], answers[1..]);
      DriveOutcome(ps[1..], answers[1..]);
      assert answers[0] == "yes";
      forall r | 0 <= r < rest.rounds
        ensures answers[r] == "yes" && Finishes(ps[r])
      {
        if r > 0 {
          assert answers[1..][r - 1] == answers[r] && ps[1..][r - 1] == ps[r];
        }
      }
      if 0 < rest.rounds <= |answers[1..]| {
        assert answers[1..][rest.rounds - 1] == answers[rest.rounds];
      }
      if 0 < rest.rounds {
        assert ps[1..][rest.rounds - 1] == ps[rest.rounds];
      }
    }
  }
}
