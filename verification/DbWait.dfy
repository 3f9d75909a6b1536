/** The wait for a database that was away at the start: doubling waits, a restart in place
    when it answers, and rate-limited log lines. */
module DbWait {
  import Bytes

  const SECOND: int := 1_000_000_000
  const FIRST: int := 2 * SECOND
  const MAX: int := 30 * SECOND
  const SAY: int := 60 * SECOND

  /** What the world answers in one round: whether the sleep ran its course, whether the
      database answered, whether the context had ended by the check after that, the clock,
      and whether a restart would succeed. */
  datatype Round = Round(slept: bool, answers: bool, ended: bool, now: int, restarts: bool)

  datatype End = Running | Stopped | Restarted
  datatype Kind = Answers | RestartFailed | Unreachable
  datatype Line = Line(kind: Kind, at: int)

  /** The round reaches the restart: slept, not ended, answered. */
  predicate Ready(r: Round) { r.slept && !r.ended && r.answers }

  /** The round is the last one: shut down, or restarted. */
  predicate Final(r: Round) { !r.slept || r.ended || (r.answers && r.restarts) }

  /** 2, 4, 8, 16 and then always 30 seconds. */
  function WaitBefore(k: nat): int
  {
    (if k == 0 then 2 else if k == 1 then 4 else if k == 2 then 8 else if k == 3 then 16 else 30) * SECOND
  }

  /** The clock never runs backwards from the start. */
  ghost predicate Forward(start: int, rounds: seq<Round>)
  {
    forall k :: 0 <= k < |rounds| ==> Clock(start, rounds, k) <= rounds[k].now
  }

  /** When the wait last said that it goes on; the start counts, the success does not. */
  function LastSaid(start: int, lines: seq<Line>): int
  {
    if lines == [] then start
    else if lines[|lines| - 1].kind == Answers then LastSaid(start, lines[..|lines| - 1])
    else lines[|lines| - 1].at
  }

  /** When a line may follow the ones before it: the answer once, and before any failed
      restart; the first failed restart at once; everything else a minute or more after the
      wait last said that it goes on. */
  ghost predicate Due(start: int, before: seq<Line>, line: Line)
  {
    match line.kind
    case Answers => OnlyUnreachable(before)
    case RestartFailed => line.at - LastSaid(start, before) >= SAY || NoneFailed(before)
    case Unreachable => line.at - LastSaid(start, before) >= SAY
  }

  ghost predicate OnlyUnreachable(lines: seq<Line>)
  {
    lines == [] || (lines[|lines| - 1].kind == Unreachable && OnlyUnreachable(lines[..|lines| - 1]))
  }

  ghost predicate NoneFailed(lines: seq<Line>)
  {
    lines == [] || (lines[|lines| - 1].kind != RestartFailed && NoneFailed(lines[..|lines| - 1]))
  }

  /** Every line of a log was due. */
  ghost predicate Paced(start: int, lines: seq<Line>)
  {
    lines == [] || (Due(start, lines[..|lines| - 1], lines[|lines| - 1]) && Paced(start, lines[..|lines| - 1]))
  }

  /** The same of the log with one more line. */
  lemma LogSnoc(start: int, lines: seq<Line>, line: Line)
    ensures Paced(start, lines + [line]) <==> Paced(start, lines) && Due(start, lines, line)
    ensures OnlyUnreachable(lines + [line]) <==> OnlyUnreachable(lines) && line.kind == Unreachable
    ensures NoneFailed(lines + [line]) <==> NoneFailed(lines) && line.kind != RestartFailed
    ensures LastSaid(start, lines + [line]) == if line.kind == Answers then LastSaid(start, lines) else line.at
  {
    assert (lines + [line])[..|lines|] == lines;
  }

  lemma {:induction false} OnlyUnreachableFails(lines: seq<Line>)
    requires OnlyUnreachable(lines)
    ensures NoneFailed(lines)
  {
    if lines != [] { OnlyUnreachableFails(lines[..|lines| - 1]); }
  }

  /** What a run has said by `now`: `periodic` lines a minute apart, and besides them the
      database's answer and the first failed restart, once each. */
  ghost predicate Said(start: int, now: int, lines: seq<Line>, lastSaid: int, restartFailed: bool, periodic: nat)
  {
    && lastSaid == LastSaid(start, lines) && start + SAY * periodic <= lastSaid <= now
    && |lines| == periodic + (if restartFailed then 2 else 0)
    && Paced(start, lines)
    && (if restartFailed then !NoneFailed(lines) && !OnlyUnreachable(lines) else OnlyUnreachable(lines))
  }

  /** The lines a round past the checks owes to the log: whichever are due. */
  ghost function Owed(start: int, before: seq<Line>, r: Round): seq<Line>
  {
    if r.answers then
      IfDue(start, before, Line(Answers, r.now))
      + (if r.restarts then [] else IfDue(start, before, Line(RestartFailed, r.now)))
    else IfDue(start, before, Line(Unreachable, r.now))
  }

  ghost function IfDue(start: int, before: seq<Line>, line: Line): seq<Line>
  {
    if Due(start, before, line) then [line] else []
  }

  /** The whole log of the first n rounds. */
  ghost function LogOf(start: int, rounds: seq<Round>, n: nat): seq<Line>
    requires n <= |rounds|
  {
    if n == 0 then []
    else
      var before, r := LogOf(start, rounds, n - 1), rounds[n - 1];
      if r.slept && !r.ended then before + Owed(start, before, r) else before
  }

  /** At most two lines and one a minute. */
  ghost predicate Quiet(start: int, now: int, lines: seq<Line>)
  {
    SAY * (|lines| - 2) <= now - start
  }

  lemma OwedBy(start: int, last: int, before: seq<Line>, lastSaid: int, failed: bool, periodic: nat, r: Round)
    requires Said(start, last, before, lastSaid, failed, periodic)
    ensures var due := r.now - lastSaid >= SAY;
      Owed(start, before, r) ==
      if !r.answers then (if due then [Line(Unreachable, r.now)] else [])
      else (if failed then [] else [Line(Answers, r.now)])
           + (if r.restarts || (failed && !due) then [] else [Line(RestartFailed, r.now)])
  {
    if !failed { OnlyUnreachableFails(before); }
  }

  /** A line that is due, added to a log. */
  lemma SaidNext(start: int, last: int, before: seq<Line>, lastSaid: int, failed: bool, periodic: nat, line: Line)
    requires Said(start, last, before, lastSaid, failed, periodic) && last <= line.at && line.at - lastSaid >= SAY
    requires line.kind == Unreachable || (line.kind == RestartFailed && failed)
    ensures Said(start, line.at, before + [line], line.at, failed, periodic + 1)
  {
    LogSnoc(start, before, line);
  }

  /** The database's answer, and the first failed restart behind it. */
  lemma SaidFirst(start: int, last: int, before: seq<Line>, lastSaid: int, periodic: nat, now: int)
    requires Said(start, last, before, lastSaid, false, periodic) && last <= now
    ensures Paced(start, before + [Line(Answers, now)])
    ensures Said(start, now, before + [Line(Answers, now)] + [Line(RestartFailed, now)], now, true, periodic)
  {
    OnlyUnreachableFails(before);
    LogSnoc(start, before, Line(Answers, now));
    LogSnoc(start, before + [Line(Answers, now)], Line(RestartFailed, now));
  }

  /** One round past the checks: restart or report.  The same branches as the switch. */
  method Report(r: Round, start: int, lines0: seq<Line>, lastSaid0: int, failed0: bool, ghost periodic0: nat,
                ghost last: int)
    returns (done: bool, attempted: bool, lines: seq<Line>, lastSaid: int, failed: bool, ghost periodic: nat)
    requires Said(start, last, lines0, lastSaid0, failed0, periodic0) && last <= r.now
    ensures attempted == r.answers && done == (r.answers && r.restarts)
    ensures !done ==> Said(start, r.now, lines, lastSaid, failed, periodic) && r.now - lastSaid < SAY
    ensures done ==> Quiet(start, r.now, lines)
    ensures lines == lines0 + Owed(start, lines0, r) && Paced(start, lines)
  {
    done, attempted, lines, lastSaid, failed, periodic := false, false, lines0, lastSaid0, failed0, periodic0;
    var now := r.now;
    OwedBy(start, last, lines0, lastSaid0, failed0, periodic0, r);
    if r.answers {
      if !failed {
        SaidFirst(start, last, lines, lastSaid, periodic, now);
        lines := lines + [Line(Answers, now)];
      }
      attempted := true;
      if r.restarts { return true, attempted, lines, lastSaid, failed, periodic; }
      if !failed || now - lastSaid >= SAY {
        if failed {
          SaidNext(start, last, lines, lastSaid, failed, periodic, Line(RestartFailed, now));
          periodic := periodic + 1;
        }
        failed, lastSaid := true, now;
        lines := lines + [Line(RestartFailed, now)];
      }
    } else if now - lastSaid >= SAY {
      SaidNext(start, last, lines, lastSaid, failed, periodic, Line(Unreachable, now));
      periodic := periodic + 1;
      lastSaid := now;
      lines := lines + [Line(Unreachable, now)];
    }
  }

  function Clock(start: int, rounds: seq<Round>, n: nat): int
    requires n <= |rounds|
  {
    if n == 0 then start else rounds[n - 1].now
  }

  /** The waits ahead of the first n rounds, and what was tried in them. */
  function Waits(n: nat): seq<int> { if n == 0 then [] else Waits(n - 1) + [WaitBefore(n - 1)] }

  function Tries(rounds: seq<Round>, n: nat): seq<bool>
    requires n <= |rounds|
  {
    if n == 0 then [] else Tries(rounds, n - 1) + [Ready(rounds[n - 1])]
  }

  /** None of the first n rounds is a final one. */
  ghost predicate NoneFinal(rounds: seq<Round>, n: nat)
    requires n <= |rounds|
  {
    n == 0 || (!Final(rounds[n - 1]) && NoneFinal(rounds, n - 1))
  }

  /** n rounds entered: each after the wait it is due, tried exactly when it was ready, and none
      after a final one. */
  ghost predicate Entered(rounds: seq<Round>, n: nat, waits: seq<int>, attempts: seq<bool>)
  {
    n <= |rounds| && waits == Waits(n) && attempts == Tries(rounds, n) && (n > 0 ==> NoneFinal(rounds, n - 1))
  }

  lemma {:induction false} EnteredMeans(rounds: seq<Round>, n: nat)
    requires n <= |rounds|
    ensures |Waits(n)| == n == |Tries(rounds, n)|
    ensures forall k :: 0 <= k < n ==> Waits(n)[k] == WaitBefore(k) && Tries(rounds, n)[k] == Ready(rounds[k])
    ensures NoneFinal(rounds, n) <==> forall k :: 0 <= k < n ==> !Final(rounds[k])
  {
    if n > 0 { EnteredMeans(rounds, n - 1); }
  }

  /** How a run stands after the rounds entered. */
  ghost predicate Ended(end: End, rounds: seq<Round>, n: nat)
    requires n <= |rounds|
  {
    match end
    case Running => n == |rounds| && (n > 0 ==> !Final(rounds[n - 1]))
    case Stopped => n > 0 && (!rounds[n - 1].slept || rounds[n - 1].ended)
    case Restarted => n > 0 && Ready(rounds[n - 1]) && rounds[n - 1].restarts
  }

  lemma {:induction false} ClockStep(start: int, rounds: seq<Round>, k: nat)
    requires Forward(start, rounds) && k < |rounds|
    ensures start <= Clock(start, rounds, k) <= rounds[k].now == Clock(start, rounds, k + 1)
  {
    if k > 0 { ClockStep(start, rounds, k - 1); }
  }

  lemma WaitDoubles(k: nat)
    ensures Bytes.Min(WaitBefore(k) * 2, MAX) == WaitBefore(k + 1)
  {
  }

  /** What a standing log allows at any later time. */
  lemma SaidQuiet(start: int, now: int, lines: seq<Line>, lastSaid: int, failed: bool, periodic: nat)
    requires Said(start, now, lines, lastSaid, failed, periodic)
    ensures Paced(start, lines) && LastSaid(start, lines) == lastSaid
    ensures forall t :: now <= t ==> Quiet(start, t, lines)
  {
  }

  lemma LogNext(start: int, rounds: seq<Round>, k: nat, before: seq<Line>, after: seq<Line>)
    requires k < |rounds| && before == LogOf(start, rounds, k)
    requires var r := rounds[k];
      after == if r.slept && !r.ended then before + Owed(start, before, r) else before
    ensures after == LogOf(start, rounds, k + 1)
  {
  }

  /** The log tells that the database answered. */
  ghost predicate TellsAnswer(lines: seq<Line>)
  {
    lines != [] && (lines[|lines| - 1].kind == Answers || TellsAnswer(lines[..|lines| - 1]))
  }

  lemma TellsSnoc(lines: seq<Line>, line: Line)
    ensures TellsAnswer(lines + [line]) <==> TellsAnswer(lines) || line.kind == Answers
  {
    assert (lines + [line])[..|lines|] == lines;
  }

  lemma OwedTells(start: int, before: seq<Line>, r: Round)
    ensures var after := before + Owed(start, before, r);
      && (OnlyUnreachable(after) <==> OnlyUnreachable(before) && !r.answers)
      && (TellsAnswer(after) <==> TellsAnswer(before) || (r.answers && OnlyUnreachable(before)))
  {
    var a, f, u := Line(Answers, r.now), Line(RestartFailed, r.now), Line(Unreachable, r.now);
    LogSnoc(start, before, a);
    LogSnoc(start, before, f);
    LogSnoc(start, before, u);
    LogSnoc(start, before + [a], f);
    TellsSnoc(before, a);
    TellsSnoc(before, f);
    TellsSnoc(before, u);
    TellsSnoc(before + [a], f);
    assert before + [] == before && before + ([a] + [f]) == before + [a] + [f];
    assert [a] + [] == [a] && [] + [f] == [f];
  }

  /** The answer is told as soon as the database has answered, in a round whose restart succeeds
      as in any other; until then the log holds nothing but that it did not. */
  lemma {:induction false} AnswerIsTold(start: int, rounds: seq<Round>, n: nat)
    requires n <= |rounds|
    ensures OnlyUnreachable(LogOf(start, rounds, n)) <==> !Answered(rounds, n)
    ensures TellsAnswer(LogOf(start, rounds, n)) <==> Answered(rounds, n)
  {
    if n > 0 {
      AnswerIsTold(start, rounds, n - 1);
      LogTells(start, rounds, n);
    }
  }

  /** Some round past the checks found the database answering. */
  ghost predicate Answered(rounds: seq<Round>, n: nat)
    requires n <= |rounds|
  {
    n > 0 && (Ready(rounds[n - 1]) || Answered(rounds, n - 1))
  }

  lemma LogTells(start: int, rounds: seq<Round>, n: nat)
    requires 0 < n <= |rounds|
    ensures var before, after, r := LogOf(start, rounds, n - 1), LogOf(start, rounds, n), rounds[n - 1];
      && (OnlyUnreachable(after) <==> OnlyUnreachable(before) && !Ready(r))
      && (TellsAnswer(after) <==> TellsAnswer(before) || (Ready(r) && OnlyUnreachable(before)))
  {
    OwedTells(start, LogOf(start, rounds, n - 1), rounds[n - 1]);
  }

  lemma EnteredNext(rounds: seq<Round>, k: nat, waits: seq<int>, attempts: seq<bool>, wait: int, attempted: bool)
    requires k < |rounds| && Entered(rounds, k, waits, attempts) && NoneFinal(rounds, k)
    requires wait == WaitBefore(k) && attempted == Ready(rounds[k])
    ensures Entered(rounds, k + 1, waits + [wait], attempts + [attempted])
    ensures !Final(rounds[k]) ==> NoneFinal(rounds, k + 1)
  {
  }

  /** The log after k rounds, and what the loop remembers of it. */
  ghost predicate Logged(start: int, rounds: seq<Round>, k: nat, lines: seq<Line>, lastSaid: int, failed: bool,
                         periodic: nat)
    requires k <= |rounds|
  {
    && lines == LogOf(start, rounds, k) && Clock(start, rounds, k) - lastSaid < SAY
    && Said(start, Clock(start, rounds, k), lines, lastSaid, failed, periodic)
  }

  /** A log that may stand as it is. */
  ghost predicate Sound(start: int, rounds: seq<Round>, k: nat, lines: seq<Line>)
    requires k <= |rounds|
  {
    && lines == LogOf(start, rounds, k) && Quiet(start, Clock(start, rounds, k), lines) && Paced(start, lines)
  }

  lemma LoggedSound(start: int, rounds: seq<Round>, k: nat, lines: seq<Line>, lastSaid: int, failed: bool,
                    periodic: nat)
    requires k <= |rounds| && Logged(start, rounds, k, lines, lastSaid, failed, periodic) && Forward(start, rounds)
    ensures Sound(start, rounds, k, lines) && LastSaid(start, lines) == lastSaid
    ensures k < |rounds| && (!rounds[k].slept || rounds[k].ended) ==> Sound(start, rounds, k + 1, lines)
  {
    SaidQuiet(start, Clock(start, rounds, k), lines, lastSaid, failed, periodic);
    if k < |rounds| && (!rounds[k].slept || rounds[k].ended) {
      ClockStep(start, rounds, k);
      LogNext(start, rounds, k, lines, lines);
    }
  }

  /** The report of one round of a run. */
  method ReportAt(start: int, rounds: seq<Round>, k: nat, lines0: seq<Line>, lastSaid0: int, failed0: bool,
                  ghost periodic0: nat)
    returns (done: bool, attempted: bool, lines: seq<Line>, lastSaid: int, failed: bool, ghost periodic: nat)
    requires Forward(start, rounds) && k < |rounds| && rounds[k].slept && !rounds[k].ended
    requires Logged(start, rounds, k, lines0, lastSaid0, failed0, periodic0)
    ensures attempted == rounds[k].answers && done == (rounds[k].answers && rounds[k].restarts)
    ensures if done then Sound(start, rounds, k + 1, lines)
            else Logged(start, rounds, k + 1, lines, lastSaid, failed, periodic)
  {
    ClockStep(start, rounds, k);
    done, attempted, lines, lastSaid, failed, periodic :=
      Report(rounds[k], start, lines0, lastSaid0, failed0, periodic0, Clock(start, rounds, k));
    LogNext(start, rounds, k, lines0, lines);
  }

  /** dbWait.run: `entered` rounds were entered. */
  method Run(start: int, rounds: seq<Round>)
    returns (end: End, waits: seq<int>, attempts: seq<bool>, lines: seq<Line>, ghost entered: nat)
    requires Forward(start, rounds)
    ensures Entered(rounds, entered, waits, attempts) && Ended(end, rounds, entered)
    ensures Quiet(start, Clock(start, rounds, entered), lines) && Paced(start, lines)
    ensures end == Running ==> Clock(start, rounds, entered) - LastSaid(start, lines) < SAY
    ensures lines == LogOf(start, rounds, entered)
  {
    var lastSaid, failed, wait := start, false, FIRST;
    end, waits, attempts, lines, entered := Running, [], [], [], 0;
    ghost var periodic := 0;
    for k := 0 to |rounds|
      invariant entered == k && wait == WaitBefore(k)
      invariant Entered(rounds, k, waits, attempts) && NoneFinal(rounds, k)
      invariant Logged(start, rounds, k, lines, lastSaid, failed, periodic)
    {
      WaitDoubles(k);
      LoggedSound(start, rounds, k, lines, lastSaid, failed, periodic);
      entered := k + 1;
      if !rounds[k].slept || rounds[k].ended {
        EnteredNext(rounds, k, waits, attempts, wait, false);
        return Stopped, waits + [wait], attempts + [false], lines, entered;
      }
      var done, attempted;
      done, attempted, lines, lastSaid, failed, periodic :=
        ReportAt(start, rounds, k, lines, lastSaid, failed, periodic);
      EnteredNext(rounds, k, waits, attempts, wait, attempted);
      waits, attempts := waits + [wait], attempts + [attempted];
      if done { return Restarted, waits, attempts, lines, entered; }
      wait := Bytes.Min(wait * 2, MAX);
    }
    LoggedSound(start, rounds, |rounds|, lines, lastSaid, failed, periodic);
  }
}
