/** serve -supervise: the restart loop, its signal channel and its crash window. */
module Supervisor {
  import opened Wrappers

  const CHANNEL: nat := 4

  /** How the child ended: well, with an exit error (its code negative when a signal killed
      it), or in a way that is no exit at all. */
  datatype Exit = Clean | ExitError(code: int) | OtherError

  /** exitStatus: what the parent reports for its child. */
  function ExitStatus(e: Exit): int
  {
    match e
    case Clean => 0
    case ExitError(code) => if code >= 0 then code else 1
    case OtherError => 1
  }

  /** While the child runs: a signal arrives at the channel, or the select takes one. */
  datatype WaitEvent = Arrive(sig: int) | Take

  /** What the world does in one round: the signals that arrive before the check, between
      the check and the start, while the child runs and in the backoff, in any order the
      selects allow; whether the start succeeds; how and when the child ends. */
  datatype Round = Round(before: seq<int>, between: seq<int>, starts: bool, waits: seq<WaitEvent>,
                         exit: Exit, at: int, after: seq<int>, takes: bool)

  /** The history of a run.  `Checked` is a check that found the channel empty. */
  datatype Entry = Arrived(sig: int) | Checked | Started | StartFailed | Received(sig: int)
                 | Exited(status: int) | Crashed(at: int)

  /** The signals that arrive while the child runs. */
  function Fed(waits: seq<WaitEvent>): seq<int>
  {
    if waits == [] then [] else (if waits[0].Arrive? then [waits[0].sig] else []) + Fed(waits[1..])
  }

  /** Nothing happens but a crash: no signal arrives at any point, and the child starts. */
  predicate Calm(r: Round)
  {
    r.before == [] && r.between == [] && Fed(r.waits) == [] && r.after == [] && r.starts && r.exit != Clean
  }

  /** Some take beside a running child comes after a signal. */
  ghost predicate TakeFinds(queue: seq<int>, waits: seq<WaitEvent>)
  {
    waits != [] &&
    var k := |waits| - 1;
    TakeFinds(queue, waits[..k]) || (waits[k].Take? && (queue != [] || Fed(waits[..k]) != []))
  }

  ghost predicate Handed(r: Round) { TakeFinds(r.between, r.waits) }

  /** What a round that starts on an empty channel decides: the status to end with, if any, and
      whether the child was started.  `full` says that this crash fills the window. */
  ghost predicate Decides(r: Round, full: bool, status: Option<int>, started: bool, pending: bool)
  {
    if r.before != [] then status == Some(0) && !started
    else if !r.starts then status == Some(1) && !started
    else if Handed(r) || r.exit == Clean then status == Some(ExitStatus(r.exit)) && started
    else if full then status == Some(1) && started
    else if Calm(r) then status == None && started && !pending
    else if r.takes then status == Some(0) && started
    else status == None && started && pending
  }

  // ----- crash times

  function CrashTimes(log: seq<Entry>): seq<int>
  {
    if log == [] then []
    else CrashTimes(log[..|log| - 1]) + (match log[|log| - 1] case Crashed(t) => [t] case _ => [])
  }

  /** How often the child was started. */
  function Starts(log: seq<Entry>): nat
  {
    if log == [] then 0 else Starts(log[..|log| - 1]) + (if log[|log| - 1].Started? then 1 else 0)
  }

  /** The crashes of the trailing window. */
  function Recent(h: seq<int>, now: int, window: int): seq<int>
  {
    if h == [] then []
    else Recent(h[..|h| - 1], now, window) + (if now - h[|h| - 1] <= window then [h[|h| - 1]] else [])
  }

  ghost predicate Ordered(h: seq<int>) { forall i, j :: 0 <= i <= j < |h| ==> h[i] <= h[j] }

  /** No interval as long as the window holds more crashes than the limit (or than one). */
  ghost predicate Spaced(h: seq<int>, limit: int, window: int)
  {
    forall i, j :: 0 <= i <= j < |h| && h[j] - h[i] <= window ==> j - i + 1 <= limit || j == i
  }

  lemma {:induction false} RecentSuffix(h: seq<int>, now: int, window: int, i: nat)
    requires Ordered(h) && i < |h| && now - h[i] <= window
    ensures |Recent(h, now, window)| >= |h| - i
  {
    if i < |h| - 1 { RecentSuffix(h[..|h| - 1], now, window, i); }
  }

  /** A crash after a permitted restart keeps the crashes spaced. */
  lemma SpacedNext(h: seq<int>, t: int, limit: int, window: int)
    requires Ordered(h) && (h != [] ==> h[|h| - 1] <= t) && Spaced(h, limit, window)
    requires h != [] ==> |Recent(h, h[|h| - 1], window)| < limit
    ensures Spaced(h + [t], limit, window)
  {
    var n := |h|;
    forall i, j | 0 <= i <= j < n + 1 && (h + [t])[j] - (h + [t])[i] <= window ensures j - i + 1 <= limit || j == i {
      if j < n {
        assert h[j] - h[i] <= window;
      } else if i < n {
        RecentSuffix(h, h[n - 1], window, i);
      }
    }
  }

  /** Only a front part can be out of the window. */
  lemma {:induction false} RecentAll(h: seq<int>, now: int, window: int)
    requires Ordered(h) && (h != [] ==> now - h[0] <= window)
    ensures Recent(h, now, window) == h
  {
    if h != [] {
      assert h[0] <= h[|h| - 1];
      RecentAll(h[..|h| - 1], now, window);
      assert h[..|h| - 1] + [h[|h| - 1]] == h;
    }
  }

  lemma {:induction false} RecentTail(h: seq<int>, now: int, window: int)
    requires h != [] && now - h[0] > window
    ensures Recent(h[1..], now, window) == Recent(h, now, window)
  {
    var m := |h| - 1;
    if m == 0 {
      assert Recent(h[..0], now, window) == [];
    } else {
      RecentTail(h[..m], now, window);
      assert h[1..][..m - 1] == h[..m][1..];
    }
  }

  /** Pruning what was pruned earlier loses nothing. */
  lemma {:induction false} RecentAgain(h: seq<int>, before: int, now: int, window: int)
    requires before <= now
    ensures Recent(Recent(h, before, window), now, window) == Recent(h, now, window)
  {
    if h != [] {
      var m := |h| - 1;
      RecentAgain(h[..m], before, now, window);
      var r := Recent(h[..m], before, window);
      if before - h[m] <= window {
        RecentSnoc(r, h[m], now, window);
      } else {
        assert r + [] == r && Recent(h[..m], now, window) + [] == Recent(h[..m], now, window);
      }
    }
  }

  lemma RecentSnoc(h: seq<int>, t: int, now: int, window: int)
    ensures Recent(h + [t], now, window) == Recent(h, now, window) + (if now - t <= window then [t] else [])
  {
    assert (h + [t])[..|h|] == h;
  }

  lemma {:induction false} RecentOrdered(h: seq<int>, now: int, window: int)
    requires Ordered(h)
    ensures Ordered(Recent(h, now, window))
    ensures Recent(h, now, window) != [] ==> Recent(h, now, window)[|Recent(h, now, window)| - 1] <= h[|h| - 1]
  {
    if h != [] {
      RecentOrdered(h[..|h| - 1], now, window);
    }
  }

  lemma OrderedSnoc(h: seq<int>, t: int)
    requires Ordered(h) && (h != [] ==> h[|h| - 1] <= t)
    ensures Ordered(h + [t])
  {
  }

  /** The crash list after one more crash: append, then drop from the front. */
  method Record(crashes: seq<int>, now: int, window: int, ghost h: seq<int>, ghost last: int) returns (r: seq<int>)
    requires Ordered(h) && (h != [] ==> h[|h| - 1] <= now) && crashes == Recent(h, last, window) && last <= now
    ensures r == Recent(h + [now], now, window)
  {
    r := crashes + [now];
    RecentOrdered(h, last, window);
    OrderedSnoc(crashes, now);
    RecentAgain(h, last, now, window);
    RecentSnoc(crashes, now, now, window);
    RecentSnoc(h, now, now, window);
    while |r| > 0 && now - r[0] > window
      invariant Ordered(r) && Recent(r, now, window) == Recent(h + [now], now, window)
      decreases |r|
    {
      RecentTail(r, now, window);
      r := r[1..];
    }
    RecentAll(r, now, window);
  }

  // ----- the channel

  /** signal.Notify: a full channel drops the signal. */
  function Enqueue(queue: seq<int>, sig: int): seq<int> { if |queue| < CHANNEL then queue + [sig] else queue }

  function Queued(queue: seq<int>, sigs: seq<int>): seq<int>
    decreases |sigs|
  {
    if sigs == [] then queue else Enqueue(Queued(queue, sigs[..|sigs| - 1]), sigs[|sigs| - 1])
  }

  /** The channel and what has been taken from it after the events beside a running child. */
  function Played(queue: seq<int>, waits: seq<WaitEvent>): (seq<int>, seq<int>)
    decreases |waits|
  {
    if waits == [] then ([], queue)
    else
      var (took, q) := Played(queue, waits[..|waits| - 1]);
      match waits[|waits| - 1]
      case Arrive(sig) => (took, Enqueue(q, sig))
      case Take => if q == [] then (took, q) else (took + [q[0]], q[1..])
  }

  lemma {:induction false} QueuedEmpty(queue: seq<int>, sigs: seq<int>)
    ensures Queued(queue, sigs) == [] <==> queue == [] && sigs == []
  {
    if sigs != [] { QueuedEmpty(queue, sigs[..|sigs| - 1]); }
  }

  /** Signals that fit the channel wait in it in order. */
  lemma {:induction false} QueuedAll(queue: seq<int>, sigs: seq<int>)
    requires |queue| + |sigs| <= CHANNEL
    ensures Queued(queue, sigs) == queue + sigs
  {
    if sigs != [] {
      QueuedAll(queue, sigs[..|sigs| - 1]);
      assert sigs == sigs[..|sigs| - 1] + [sigs[|sigs| - 1]];
    }
  }

  lemma {:induction false} FedSnoc(waits: seq<WaitEvent>, e: WaitEvent)
    ensures Fed(waits + [e]) == Fed(waits) + (if e.Arrive? then [e.sig] else [])
  {
    if waits == [] {
      assert waits + [e] == [e] + [];
      FedCons(e, []);
    } else {
      assert waits + [e] == [waits[0]] + (waits[1..] + [e]) && waits == [waits[0]] + waits[1..];
      FedSnoc(waits[1..], e);
      FedCons(waits[0], waits[1..] + [e]);
      FedCons(waits[0], waits[1..]);
    }
  }

  lemma FedCons(e: WaitEvent, rest: seq<WaitEvent>)
    ensures Fed([e] + rest) == (if e.Arrive? then [e.sig] else []) + Fed(rest)
  {
    assert ([e] + rest)[1..] == rest;
  }

  lemma FedLast(waits: seq<WaitEvent>)
    requires waits != []
    ensures var k := |waits| - 1;
      Fed(waits) == Fed(waits[..k]) + (if waits[k].Arrive? then [waits[k].sig] else [])
  {
    var k := |waits| - 1;
    assert waits == waits[..k] + [waits[k]];
    FedSnoc(waits[..k], waits[k]);
  }

  /** Signals that fit the channel are neither lost nor reordered: what was taken and what
      still waits are what arrived. */
  lemma {:induction false} PlayedAll(queue: seq<int>, waits: seq<WaitEvent>)
    requires |queue| + |Fed(waits)| <= CHANNEL
    ensures var (took, q) := Played(queue, waits); took + q == queue + Fed(waits)
  {
    if waits != [] {
      var k := |waits| - 1;
      FedLast(waits);
      PlayedAll(queue, waits[..k]);
      var (took, q) := Played(queue, waits[..k]);
      assert |took + q| == |queue| + |Fed(waits[..k])|;
      if waits[k].Arrive? {
        assert took + (q + [waits[k].sig]) == took + q + [waits[k].sig];
        assert queue + (Fed(waits[..k]) + [waits[k].sig]) == queue + Fed(waits[..k]) + [waits[k].sig];
      } else if q != [] {
        assert took + [q[0]] + q[1..] == took + q;
      }
    }
  }

  lemma {:induction false} TakeFindsMeans(queue: seq<int>, waits: seq<WaitEvent>)
    ensures TakeFinds(queue, waits) <==>
      exists i :: 0 <= i < |waits| && waits[i].Take? && (queue != [] || Fed(waits[..i]) != [])
  {
    if waits != [] {
      var k := |waits| - 1;
      TakeFindsMeans(queue, waits[..k]);
      assert forall i :: 0 <= i < k ==> waits[..k][..i] == waits[..i] && waits[..k][i] == waits[i];
    }
  }

  /** A take hands on a signal exactly when one has come before it. */
  lemma {:induction false} PlayedTakes(queue: seq<int>, waits: seq<WaitEvent>)
    ensures var (took, q) := Played(queue, waits);
      && (took != [] <==> TakeFinds(queue, waits))
      && (took == [] ==> (q == [] <==> queue == [] && Fed(waits) == []))
  {
    if waits != [] {
      PlayedTakes(queue, waits[..|waits| - 1]);
      FedLast(waits);
    }
  }

  /** The signals the log says were taken. */
  function Taken(log: seq<Entry>): seq<int>
  {
    if log == [] then []
    else Taken(log[..|log| - 1]) + (match log[|log| - 1] case Received(sig) => [sig] case _ => [])
  }

  lemma {:induction false} NothingTaken(log: seq<Entry>)
    requires Undisturbed(log)
    ensures Taken(log) == []
  {
    if log != [] { NothingTaken(log[..|log| - 1]); }
  }

  lemma TakenSnoc(log: seq<Entry>, e: Entry)
    ensures Taken(log + [e]) == Taken(log) + (if e.Received? then [e.sig] else [])
  {
    assert (log + [e])[..|log|] == log;
  }

  // ----- what holds of every history

  /** Nothing has been received and no child has ended for good. */
  ghost predicate Undisturbed(log: seq<Entry>)
  {
    forall i :: 0 <= i < |log| ==> !log[i].Received? && !log[i].Exited?
  }

  ghost predicate Silent(log: seq<Entry>)
  {
    forall i :: 0 <= i < |log| ==> !log[i].Arrived?
  }

  /** The restarts so far were permitted ones: no signal received and no clean end before
      a start, no signal even arrived before a passing check, and fewer than `limit`
      crashes in the window that ends with the last crash. */
  ghost predicate Permitted(log: seq<Entry>, limit: int, window: int)
  {
    forall k :: 0 <= k < |log| ==> PermittedAt(log[..k], log[k], limit, window)
  }

  ghost predicate PermittedAt(before: seq<Entry>, e: Entry, limit: int, window: int)
  {
    && (e.Started? ==> Undisturbed(before) && Few(CrashTimes(before), limit, window))
    && (e.Checked? ==> Undisturbed(before) && Silent(before))
  }

  ghost predicate Few(h: seq<int>, limit: int, window: int)
  {
    h != [] ==> |Recent(h, h[|h| - 1], window)| < limit
  }

  lemma PermittedSnoc(log: seq<Entry>, e: Entry, limit: int, window: int)
    requires Permitted(log, limit, window) && PermittedAt(log, e, limit, window)
    ensures Permitted(log + [e], limit, window)
  {
    var l := log + [e];
    forall k | 0 <= k < |l| ensures PermittedAt(l[..k], l[k], limit, window) {
      if k < |log| {
        assert l[..k] == log[..k];
      } else {
        assert l[..k] == log;
      }
    }
  }

  lemma CrashTimesSnoc(log: seq<Entry>, e: Entry)
    ensures CrashTimes(log + [e]) == CrashTimes(log) + (if e.Crashed? then [e.at] else [])
  {
    assert (log + [e])[..|log|] == log;
  }

  lemma StartsSnoc(log: seq<Entry>, e: Entry)
    ensures Starts(log + [e]) == Starts(log) + (if e.Started? then 1 else 0)
  {
    assert (log + [e])[..|log|] == log;
  }

  /** A run that goes on: its crash times h and its number of starts; a signal that has
      arrived is still in the channel. */
  ghost predicate Going(log: seq<Entry>, queue: seq<int>, h: seq<int>, starts: nat, limit: int, window: int)
  {
    && Permitted(log, limit, window) && Undisturbed(log) && (queue == [] ==> Silent(log))
    && CrashTimes(log) == h && Starts(log) == starts
  }

  /** One more entry. */
  lemma GoingOn(log: seq<Entry>, e: Entry, queue: seq<int>, queue': seq<int>, h: seq<int>, starts: nat,
                limit: int, window: int)
    requires Going(log, queue, h, starts, limit, window) && PermittedAt(log, e, limit, window)
    requires !e.Received? && !e.Exited? && (queue' == [] ==> queue == [] && !e.Arrived?)
    ensures Going(log + [e], queue', h + (if e.Crashed? then [e.at] else []),
                  starts + (if e.Started? then 1 else 0), limit, window)
  {
    PermittedSnoc(log, e, limit, window);
    CrashTimesSnoc(log, e);
    StartsSnoc(log, e);
  }

  /** Signals arrive at the channel. */
  method Deliver(queue: seq<int>, sigs: seq<int>, log: seq<Entry>,
                 ghost h: seq<int>, ghost starts: nat, ghost limit: int, ghost window: int)
    returns (q: seq<int>, l: seq<Entry>)
    requires Going(log, queue, h, starts, limit, window)
    ensures Going(l, q, h, starts, limit, window) && q == Queued(queue, sigs)
  {
    q, l := queue, log;
    for i := 0 to |sigs|
      invariant Going(l, q, h, starts, limit, window) && q == Queued(queue, sigs[..i])
    {
      assert h + [] == h;
      assert sigs[..i + 1][..i] == sigs[..i];
      GoingOn(l, Arrived(sigs[i]), q, Enqueue(q, sigs[i]), h, starts, limit, window);
      q, l := Enqueue(q, sigs[i]), l + [Arrived(sigs[i])];
    }
    assert sigs[..|sigs|] == sigs;
  }

  /** A run that will not start the child again: its history stays permitted. */
  ghost predicate Over(log: seq<Entry>, h: seq<int>, starts: nat, limit: int, window: int)
  {
    Permitted(log, limit, window) && CrashTimes(log) == h && Starts(log) == starts
  }

  lemma OverOn(log: seq<Entry>, e: Entry, h: seq<int>, starts: nat, limit: int, window: int)
    requires Over(log, h, starts, limit, window) && !e.Started? && !e.Checked? && !e.Crashed?
    ensures Over(log + [e], h, starts, limit, window)
  {
    PermittedSnoc(log, e, limit, window);
    CrashTimesSnoc(log, e);
    StartsSnoc(log, e);
    assert h + [] == h;
  }

  /** The select loop beside the running child: signals taken are handed on to it. */
  method Wait(queue: seq<int>, waits: seq<WaitEvent>, log: seq<Entry>,
              ghost h: seq<int>, ghost starts: nat, ghost limit: int, ghost window: int)
    returns (stopping: bool, q: seq<int>, l: seq<Entry>)
    requires Going(log, queue, h, starts, limit, window)
    ensures Over(l, h, starts, limit, window)
    ensures !stopping ==> Going(l, q, h, starts, limit, window)
    ensures (Taken(l), q) == Played(queue, waits) && (stopping <==> TakeFinds(queue, waits))
  {
    stopping, q, l := false, queue, log;
    NothingTaken(log);
    for i := 0 to |waits|
      invariant Over(l, h, starts, limit, window)
      invariant !stopping ==> Going(l, q, h, starts, limit, window)
      invariant (Taken(l), q) == Played(queue, waits[..i]) && (stopping <==> Taken(l) != [])
    {
      assert waits[..i + 1][..i] == waits[..i];
      stopping, q, l := OneEvent(waits[i], stopping, q, l, h, starts, limit, window);
    }
    assert waits[..|waits|] == waits;
    PlayedTakes(queue, waits);
  }

  /** One turn of the select. */
  method OneEvent(e: WaitEvent, stopping0: bool, queue: seq<int>, log: seq<Entry>,
                  ghost h: seq<int>, ghost starts: nat, ghost limit: int, ghost window: int)
    returns (stopping: bool, q: seq<int>, l: seq<Entry>)
    requires Over(log, h, starts, limit, window)
    requires !stopping0 ==> Going(log, queue, h, starts, limit, window)
    ensures Over(l, h, starts, limit, window)
    ensures !stopping ==> Going(l, q, h, starts, limit, window)
    ensures e.Arrive? ==> stopping == stopping0 && q == Enqueue(queue, e.sig) && Taken(l) == Taken(log)
    ensures e.Take? && queue == [] ==> stopping == stopping0 && q == queue && Taken(l) == Taken(log)
    ensures e.Take? && queue != [] ==> stopping && q == queue[1..] && Taken(l) == Taken(log) + [queue[0]]
  {
    stopping, q, l := stopping0, queue, log;
    assert h + [] == h;
    match e {
      case Arrive(sig) =>
        OverOn(l, Arrived(sig), h, starts, limit, window);
        if !stopping { GoingOn(l, Arrived(sig), q, Enqueue(q, sig), h, starts, limit, window); }
        TakenSnoc(l, Arrived(sig));
        q, l := Enqueue(q, sig), l + [Arrived(sig)];
      case Take =>
        if q != [] {
          stopping := true;
          OverOn(l, Received(q[0]), h, starts, limit, window);
          TakenSnoc(l, Received(q[0]));
          q, l := q[1..], l + [Received(q[0])];
        }
    }
  }

  /** Why a run ended with this status. */
  ghost predicate Justified(log: seq<Entry>, status: int, limit: int, window: int)
  {
    log != [] &&
    match log[|log| - 1]
    case Received(_) => status == 0
    case StartFailed => status == 1
    case Exited(s) => status == s
    case Crashed(t) => status == 1 && |Recent(CrashTimes(log), t, window)| >= limit
    case _ => false
  }

  /** Between two rounds: everything the history promises, and the pruned list is the
      history cut to the window. */
  ghost predicate Standing(log: seq<Entry>, queue: seq<int>, crashes: seq<int>, h: seq<int>, starts: nat,
                           limit: int, window: int)
  {
    && Going(log, queue, h, starts, limit, window) && Kept(h, limit, window) && Few(h, limit, window)
    && crashes == Pruned(h, window)
  }

  ghost predicate Kept(h: seq<int>, limit: int, window: int) { Ordered(h) && Spaced(h, limit, window) }

  /** The whole crash history, cut to the window that ends with its last crash. */
  function Pruned(h: seq<int>, window: int): seq<int> { if h == [] then [] else Recent(h, h[|h| - 1], window) }

  /** The top of the loop and the start. */
  method StartChild(queue: seq<int>, r: Round, log: seq<Entry>,
                    ghost h: seq<int>, ghost starts: nat, ghost limit: int, ghost window: int)
    returns (status: Option<int>, q: seq<int>, l: seq<Entry>)
    requires Going(log, queue, h, starts, limit, window) && Few(h, limit, window)
    ensures status.None? ==> Going(l, q, h, starts + 1, limit, window)
    ensures status.Some? ==> Over(l, h, starts, limit, window) && Justified(l, status.value, limit, window)
    ensures status.Some? ==> !l[|l| - 1].Exited?
    ensures status == if queue != [] || r.before != [] then Some(0) else if !r.starts then Some(1) else None
    ensures status.None? ==> q == Queued([], r.between)
  {
    assert h + [] == h;
    QueuedEmpty(queue, r.before);
    q, l := Deliver(queue, r.before, log, h, starts, limit, window);
    if q != [] {
      OverOn(l, Received(q[0]), h, starts, limit, window);
      return Some(0), q[1..], l + [Received(q[0])];
    }
    GoingOn(l, Checked, q, q, h, starts, limit, window);
    q, l := Deliver(q, r.between, l + [Checked], h, starts, limit, window);
    if !r.starts {
      OverOn(l, StartFailed, h, starts, limit, window);
      return Some(1), q, l + [StartFailed];
    }
    GoingOn(l, Started, q, q, h, starts, limit, window);
    status, l := None, l + [Started];
  }

  /** After a crash: record it, give up or wait out the backoff. */
  method AfterCrash(queue: seq<int>, crashes: seq<int>, r: Round, log: seq<Entry>, limit: int, window: int,
                    ghost h: seq<int>, ghost starts: nat)
    returns (status: Option<int>, q: seq<int>, c: seq<int>, l: seq<Entry>)
    requires Going(log, queue, h, starts, limit, window) && Kept(h, limit, window) && Few(h, limit, window)
    requires crashes == Pruned(h, window) && (h != [] ==> h[|h| - 1] <= r.at)
    ensures Kept(h + [r.at], limit, window) && c == Pruned(h + [r.at], window)
    ensures status.None? ==> Standing(l, q, c, h + [r.at], starts, limit, window)
    ensures status.Some? ==> Over(l, h + [r.at], starts, limit, window) && Justified(l, status.value, limit, window)
    ensures status.Some? ==> !l[|l| - 1].Exited?
    ensures
      if !Few(h + [r.at], limit, window) then status == Some(1)
      else if r.takes && (queue != [] || r.after != []) then status == Some(0)
      else status == None && (q == [] <==> queue == [] && r.after == [])
  {
    CrashNext(log, r.at, queue, h, starts, limit, window);
    l, q := log + [Crashed(r.at)], queue;
    c := Record(crashes, r.at, window, h, if h == [] then r.at else h[|h| - 1]);
    if |c| >= limit { return Some(1), q, c, l; }
    status, q, l := Backoff(q, r, l, h + [r.at], starts, limit, window);
  }

  /** One more crash: the run may go on, and must not when the window is full. */
  lemma CrashNext(log: seq<Entry>, now: int, queue: seq<int>, h: seq<int>, starts: nat, limit: int, window: int)
    requires Going(log, queue, h, starts, limit, window) && Kept(h, limit, window) && Few(h, limit, window)
    requires h != [] ==> h[|h| - 1] <= now
    ensures Kept(h + [now], limit, window) && Pruned(h + [now], window) == Recent(h + [now], now, window)
    ensures Few(h + [now], limit, window) <==> |Pruned(h + [now], window)| < limit
    ensures Going(log + [Crashed(now)], queue, h + [now], starts, limit, window)
    ensures |Pruned(h + [now], window)| >= limit ==> Justified(log + [Crashed(now)], 1, limit, window)
  {
    SpacedNext(h, now, limit, window);
    OrderedSnoc(h, now);
    GoingOn(log, Crashed(now), queue, queue, h, starts, limit, window);
  }

  /** The pause before the next start, and a signal taken in it. */
  method Backoff(queue: seq<int>, r: Round, log: seq<Entry>,
                 ghost h: seq<int>, ghost starts: nat, ghost limit: int, ghost window: int)
    returns (status: Option<int>, q: seq<int>, l: seq<Entry>)
    requires Going(log, queue, h, starts, limit, window)
    ensures status.None? ==> Going(l, q, h, starts, limit, window)
    ensures status.Some? ==> Over(l, h, starts, limit, window) && Justified(l, status.value, limit, window)
    ensures status.Some? ==> !l[|l| - 1].Exited?
    ensures status == if r.takes && (queue != [] || r.after != []) then Some(0) else None
    ensures status.None? ==> (q == [] <==> queue == [] && r.after == [])
  {
    assert h + [] == h;
    QueuedEmpty(queue, r.after);
    q, l := Deliver(queue, r.after, log, h, starts, limit, window);
    if r.takes && q != [] {
      OverOn(l, Received(q[0]), h, starts, limit, window);
      return Some(0), q[1..], l + [Received(q[0])];
    }
    status := None;
  }

  /** What the world makes of a running child, with these signals in the channel at its start. */
  ghost predicate Outcome(r: Round, queue: seq<int>, full: bool, status: Option<int>, pending: bool)
  {
    if TakeFinds(queue, r.waits) || r.exit == Clean then status == Some(ExitStatus(r.exit))
    else if full then status == Some(1)
    else if queue == [] && Fed(r.waits) == [] && r.after == [] then status == None && !pending
    else if r.takes then status == Some(0)
    else status == None && pending
  }

  /** From a start of the child to the next. */
  method RunChild(queue: seq<int>, crashes: seq<int>, r: Round, log: seq<Entry>, limit: int, window: int,
                  ghost h: seq<int>, ghost starts: nat)
    returns (status: Option<int>, q: seq<int>, c: seq<int>, l: seq<Entry>)
    requires Going(log, queue, h, starts, limit, window) && Kept(h, limit, window) && Few(h, limit, window)
    requires crashes == Pruned(h, window) && (h != [] ==> h[|h| - 1] <= r.at)
    ensures status.None? ==> Standing(l, q, c, h + [r.at], starts, limit, window)
    ensures status.Some? ==> Permitted(l, limit, window) && Kept(CrashTimes(l), limit, window)
    ensures status.Some? ==> Justified(l, status.value, limit, window) && Starts(l) == starts
    ensures status.Some? && l[|l| - 1].Exited? ==> status.value == ExitStatus(r.exit)
    ensures Outcome(r, queue, !Few(h + [r.at], limit, window), status, q != [])
    ensures TakeFinds(queue, r.waits) ==> Taken(l) == Played(queue, r.waits).0
  {
    c := crashes;
    PlayedTakes(queue, r.waits);
    var stopping;
    stopping, q, l := Wait(queue, r.waits, log, h, starts, limit, window);
    if stopping || r.exit == Clean {
      status, l := EndWith(r.exit, l, h, starts, limit, window);
    } else {
      status, q, c, l := AfterCrash(q, c, r, l, limit, window, h, starts);
    }
  }

  /** One round of the loop. */
  method OneRound(queue: seq<int>, crashes: seq<int>, r: Round, log: seq<Entry>, limit: int, window: int,
                  ghost h: seq<int>, ghost starts: nat)
    returns (status: Option<int>, q: seq<int>, c: seq<int>, l: seq<Entry>)
    requires Standing(log, queue, crashes, h, starts, limit, window) && (h != [] ==> h[|h| - 1] <= r.at)
    ensures status.None? ==> Standing(l, q, c, h + [r.at], starts + 1, limit, window)
    ensures status.Some? ==> Permitted(l, limit, window) && Kept(CrashTimes(l), limit, window)
    ensures status.Some? ==> Justified(l, status.value, limit, window)
    ensures status.Some? && l[|l| - 1].Exited? ==> Starts(l) == starts + 1 && status.value == ExitStatus(r.exit)
    ensures queue != [] ==> status == Some(0) && Starts(l) == starts
    ensures queue == [] ==> Starts(l) - starts in {0, 1}
    ensures queue == [] ==> Decides(r, !Few(h + [r.at], limit, window), status, Starts(l) == starts + 1, q != [])
    ensures queue == [] && r.before == [] && r.starts && Handed(r) ==>
      Taken(l) == Played(Queued([], r.between), r.waits).0
  {
    c := crashes;
    status, q, l := StartChild(queue, r, log, h, starts, limit, window);
    if status.None? {
      ghost var between := q;
      status, q, c, l := RunChild(q, c, r, l, limit, window, h, starts + 1);
      HandedByQueue(r);
      OutcomeDecides(r, between, !Few(h + [r.at], limit, window), status, q != []);
    }
  }

  lemma OutcomeDecides(r: Round, between: seq<int>, full: bool, status: Option<int>, pending: bool)
    requires r.before == [] && r.starts && between == Queued([], r.between)
    requires Outcome(r, between, full, status, pending)
    ensures Decides(r, full, status, true, pending)
  {
    HandedByQueue(r);
    QueuedEmpty([], r.between);
  }

  /** The child has ended for good. */
  method EndWith(exit: Exit, log: seq<Entry>, ghost h: seq<int>, ghost starts: nat, ghost limit: int, ghost window: int)
    returns (status: Option<int>, l: seq<Entry>)
    requires Over(log, h, starts, limit, window)
    ensures status == Some(ExitStatus(exit)) && Over(l, h, starts, limit, window) && Taken(l) == Taken(log)
    ensures Justified(l, status.value, limit, window)
  {
    var s := ExitStatus(exit);
    OverOn(log, Exited(s), h, starts, limit, window);
    TakenSnoc(log, Exited(s));
    status, l := Some(s), log + [Exited(s)];
  }

  lemma HandedByQueue(r: Round)
    ensures TakeFinds(Queued([], r.between), r.waits) <==> Handed(r)
  {
    QueuedEmpty([], r.between);
    FindsByEmptiness(Queued([], r.between), r.between, r.waits);
  }

  lemma {:induction false} FindsByEmptiness(a: seq<int>, b: seq<int>, waits: seq<WaitEvent>)
    requires a == [] <==> b == []
    ensures TakeFinds(a, waits) <==> TakeFinds(b, waits)
  {
    if waits != [] { FindsByEmptiness(a, b, waits[..|waits| - 1]); }
  }

  function Ends(rounds: seq<Round>): (r: seq<int>)
    ensures |r| == |rounds| && forall i :: 0 <= i < |r| ==> r[i] == rounds[i].at
  {
    seq(|rounds|, i requires 0 <= i < |rounds| => rounds[i].at)
  }

  /** Before this turn the child only crashed, and never too often; in this turn something
      else happens. */
  ghost predicate FirstEvent(rounds: seq<Round>, limit: int, window: int, turn: nat)
  {
    && turn <= |rounds|
    && (forall k :: 0 <= k < turn ==> Calm(rounds[k]) && Few(Ends(rounds)[..k + 1], limit, window))
    && (turn < |rounds| ==> !(Calm(rounds[turn]) && Few(Ends(rounds)[..turn + 1], limit, window)))
  }

  /** What that turn makes of the run: its end, and how often the child was started. */
  ghost predicate Settled(rounds: seq<Round>, limit: int, window: int, turn: nat, status: Option<int>, starts: nat)
    requires turn <= |rounds|
  {
    if turn == |rounds| then status == None && starts == turn
    else
      var r := rounds[turn];
      if r.before != [] then status == Some(0) && starts == turn
      else if !r.starts then status == Some(1) && starts == turn
      else
        && starts == turn + 1
        && if Handed(r) || r.exit == Clean then status == Some(ExitStatus(r.exit))
           else if !Few(Ends(rounds)[..turn + 1], limit, window) then status == Some(1)
           else if r.takes || turn + 1 < |rounds| then status == Some(0)
           else status == None
  }

  /** A signal is pending after this turn, and nothing has taken it yet. */
  ghost predicate Waiting(rounds: seq<Round>, limit: int, window: int, turn: nat)
  {
    && turn < |rounds| && FirstEvent(rounds, limit, window, turn)
    && Decides(rounds[turn], !Few(Ends(rounds)[..turn + 1], limit, window), None, true, true)
  }

  /** Where the run stands before round k. */
  ghost predicate Underway(rounds: seq<Round>, limit: int, window: int, k: nat, queue: seq<int>)
  {
    k <= |rounds| &&
    if queue == [] then forall j :: 0 <= j < k ==> Calm(rounds[j]) && Few(Ends(rounds)[..j + 1], limit, window)
    else k > 0 && Waiting(rounds, limit, window, k - 1)
  }

  /** supervise: over every behaviour of the world with a nondecreasing clock, the history
      is permitted and its crashes spaced; an end is justified; and the first round in which
      anything but a rare crash happens decides, from what happens in it, how the run ends
      and how often the child is started. */
  method Supervise(rounds: seq<Round>, limit: int, window: int)
    returns (status: Option<int>, log: seq<Entry>, ghost turn: nat)
    requires Ordered(Ends(rounds))
    ensures Permitted(log, limit, window) && Spaced(CrashTimes(log), limit, window)
    ensures status.Some? ==> Justified(log, status.value, limit, window)
    ensures FirstEvent(rounds, limit, window, turn) && Settled(rounds, limit, window, turn, status, Starts(log))
    ensures status.None? ==> CrashTimes(log) == Ends(rounds)
    ensures turn < |rounds| && rounds[turn].before == [] && rounds[turn].starts && Handed(rounds[turn]) ==>
      Taken(log) == Played(Queued([], rounds[turn].between), rounds[turn].waits).0
  {
    var queue: seq<int>, crashes: seq<int> := [], [];
    log := [];
    ghost var ends := Ends(rounds);
    ghost var h: seq<int> := [];
    StandingStart(limit, window);
    for k := 0 to |rounds|
      invariant |h| == k && h == ends[..k] && Standing(log, queue, crashes, h, k, limit, window)
      invariant Underway(rounds, limit, window, k, queue)
    {
      LastBefore(ends, h, k);
      ghost var pending := queue;
      status, queue, crashes, log := OneRound(queue, crashes, rounds[k], log, limit, window, h, k);
      turn := if pending == [] then k else k - 1;
      if status.Some? {
        SettledNow(rounds, limit, window, k, pending, status, Starts(log), queue != []);
        return;
      }
      UnderwayNext(rounds, limit, window, k, queue, Starts(log));
      h := h + [rounds[k].at];
    }
    assert h == ends;
    status := None;
    turn := if queue == [] then |rounds| else |rounds| - 1;
  }

  lemma SettledNow(rounds: seq<Round>, limit: int, window: int, k: nat, queue: seq<int>, status: Option<int>,
                   starts: nat, pending: bool)
    requires k < |rounds| && Underway(rounds, limit, window, k, queue) && status.Some?
    requires queue != [] ==> status == Some(0) && starts == k
    requires queue == [] ==> starts - k in {0, 1}
    requires queue == [] ==>
      Decides(rounds[k], !Few(Ends(rounds)[..k + 1], limit, window), status, starts == k + 1, pending)
    ensures var turn := if queue == [] then k else k - 1;
      FirstEvent(rounds, limit, window, turn) && Settled(rounds, limit, window, turn, status, starts)
  {
    if queue == [] { CalmIsQuiet(rounds[k]); }
  }

  lemma CalmIsQuiet(r: Round)
    ensures Calm(r) ==> !Handed(r)
  {
    if Calm(r) { QuietFindsNothing(r.waits); }
  }

  lemma {:induction false} QuietFindsNothing(waits: seq<WaitEvent>)
    requires Fed(waits) == []
    ensures !TakeFinds([], waits)
  {
    if waits != [] {
      FedLast(waits);
      QuietFindsNothing(waits[..|waits| - 1]);
    }
  }

  lemma UnderwayNext(rounds: seq<Round>, limit: int, window: int, k: nat, queue: seq<int>, starts: nat)
    requires k < |rounds| && Underway(rounds, limit, window, k, [])
    requires Decides(rounds[k], !Few(Ends(rounds)[..k + 1], limit, window), None, starts == k + 1, queue != [])
    ensures Underway(rounds, limit, window, k + 1, queue)
  {
    CalmIsQuiet(rounds[k]);
  }

  /** What a settled run means: the child is started again only after rounds in which it crashed
      and no signal came; a clean end of the last child is the run's; and a run without an end
      has seen no clean end and no signal ahead of a check. */
  lemma SettledMeans(rounds: seq<Round>, limit: int, window: int, turn: nat, status: Option<int>, starts: nat)
    requires FirstEvent(rounds, limit, window, turn) && Settled(rounds, limit, window, turn, status, starts)
    ensures starts <= |rounds| && forall k :: 0 <= k < starts ==> rounds[k].before == [] && rounds[k].starts
    ensures forall k :: 0 <= k < starts - 1 ==> Calm(rounds[k])
    ensures starts > 0 && rounds[starts - 1].exit == Clean ==> status == Some(0)
    ensures status.None? ==>
      starts == |rounds| && forall k :: 0 <= k < |rounds| ==> rounds[k].exit != Clean && rounds[k].before == []
    ensures (forall k :: 0 <= k < |rounds| ==> Calm(rounds[k]) && Few(Ends(rounds)[..k + 1], limit, window)) ==>
      status.None?
  {
  }

  lemma StandingStart(limit: int, window: int)
    ensures Standing([], [], [], [], 0, limit, window)
  {
  }

  lemma LastBefore(ends: seq<int>, h: seq<int>, k: nat)
    requires Ordered(ends) && k < |ends| && h == ends[..k]
    ensures h != [] ==> h[|h| - 1] <= ends[k]
    ensures h + [ends[k]] == ends[..k + 1]
  {
  }
}
