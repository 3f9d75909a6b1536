/** The ban file's change watch: stat, open, reload, racing a writer that renames complete
    files into place; and the per-request lookup on top of it. */
module BanReload {
  import opened Wrappers
  import opened Bytes
  import opened BanLookup

  const FILE_MAX: nat := 64 * 1024 * 1024
  const PATH_MAX: nat := 1024

  datatype Identity = Identity(mtime: int, size: int, ino: int)
  const ZERO := Identity(0, 0, 0)

  datatype File = File(id: Identity, text: seq<byte>)

  /** One complete file the writer put in place; stat tells its length. */
  type Version = f: File | f.id.size == |f.text| witness File(ZERO, [])

  /** What can go wrong in a load besides the file being gone: the open is refused; or the
      fstat, an allocation or the read fails. */
  datatype Fault = Fine | Refused | Broken
  datatype Rc = Ok | Declined | Error
  datatype Stat = Failed | Found(id: Identity)

  /** What the worker holds: the second it last asked, the identity it recorded, and the
      version its list was read from. */
  datatype State = State(checked: int, id: Identity, source: Option<Version>)

  function LoadResult(atOpen: Option<Version>, fault: Fault): Rc
  {
    if fault == Refused then Error
    else if atOpen == None then Declined
    else if fault == Broken || atOpen.value.id.size > FILE_MAX then Error
    else Ok
  }

  function Cleared(s: State, now: int): State
  {
    if s.source.Some? then State(now, ZERO, None) else s.(checked := now)
  }

  /** One check: nothing within a second already asked about; otherwise by what stat and,
      if the identity differs, the load answer. */
  function CheckStep(s: State, now: int, stat: Stat, atOpen: Option<Version>, fault: Fault): State
  {
    if s.checked == now then s
    else if stat == Failed then Cleared(s, now)
    else if stat.id == s.id then s.(checked := now)
    else AfterLoad(s, now, atOpen, fault)
  }

  function AfterLoad(s: State, now: int, atOpen: Option<Version>, fault: Fault): State
  {
    match LoadResult(atOpen, fault)
    case Ok => State(now, atOpen.value.id, atOpen)
    case Declined => Cleared(s, now)
    case Error => s.(checked := now)
  }

  // ----- the worker

  ghost predicate InForce(decode: Decoder, list: Option<List>, source: Option<Version>)
  {
    match source
    case None => list.None?
    case Some(v) => list.Some? && Represents(list.value, decode, v.text)
  }

  ghost const HOLDS: (Decoder, Option<List>, Option<Version>) -> bool :=
    (decode: Decoder, list: Option<List>, source: Option<Version>) => InForce(decode, list, source)

  /** ngx_unmask_banlist. */
  class Worker {
    const decode: Decoder
    var checked: int
    var mtime: int
    var size: int
    var ino: int
    var list: Option<List>
    ghost var source: Option<Version>

    /** The list in force is the index of the version it was read from. */
    ghost predicate Valid()
      reads this
    {
      list.Some? == source.Some? && HOLDS(decode, list, source)
    }

    ghost function View(): State
      reads this
    {
      State(checked, Identity(mtime, size, ino), source)
    }

    constructor (decode: Decoder)
      ensures Valid() && View() == State(0, ZERO, None) && this.decode == decode
    {
      this.decode := decode;
      checked, mtime, size, ino, list, source := 0, 0, 0, 0, None, None;
    }

    /** ngx_unmask_banlist_clear. */
    method Clear()
      modifies this
      ensures Valid() && View() == State(0, ZERO, None)
    {
      checked, mtime, size, ino, list, source := 0, 0, 0, 0, None, None;
    }

    /** ngx_unmask_load_banlist: the list and the identity handed back come from the one
        descriptor that was opened. */
    method Load(atOpen: Option<Version>, fault: Fault, fi0: Identity) returns (rc: Rc, fi: Identity)
      requires Valid()
      modifies this`list, this`source
      ensures Valid() && rc == LoadResult(atOpen, fault)
      ensures if rc == Ok then source == atOpen && fi == atOpen.value.id
              else source == old(source) && list == old(list)
    {
      fi := fi0;
      if fault == Refused { return Error, fi; }
      if atOpen == None { return Declined, fi; }
      var file := atOpen.value;
      fi := file.id;
      if fi.size < 0 || fi.size > FILE_MAX || fault == Broken { return Error, fi; }
      var loaded := BuildList(file.text[..fi.size], decode);
      assert file.text[..fi.size] == file.text;
      list, source := Some(loaded), atOpen;
      rc := Ok;
    }

    /** ngx_unmask_check_banlist. */
    method Check(now: int, stat: Stat, atOpen: Option<Version>, fault: Fault)
      requires Valid()
      modifies this
      ensures Valid() && View() == CheckStep(old(View()), now, stat, atOpen, fault)
    {
      if checked == now { return; }
      checked := now;
      if stat == Failed {
        if list.Some? {
          Clear();
          checked := now;
        }
        return;
      }
      if stat.id.mtime == mtime && stat.id.size == size && stat.id.ino == ino { return; }
      Reload(now, stat.id, atOpen, fault);
    }

    /** The tail of the check: load, then record the identity or clear. */
    method Reload(now: int, id: Identity, atOpen: Option<Version>, fault: Fault)
      requires Valid() && checked == now
      modifies this
      ensures Valid() && View() == AfterLoad(old(View()), now, atOpen, fault)
    {
      var rc, fi := Load(atOpen, fault, id);
      if rc == Ok {
        mtime, size, ino := fi.mtime, fi.size, fi.ino;
      } else if rc == Declined && list.Some? {
        Clear();
        checked := now;
      }
    }
  }

  // ----- one request

  /** The request context's cached answer. */
  class Context {
    var done: bool
    var hit: bool
    var action: seq<byte>
    constructor ()
      ensures !done
    {
      done, hit, action := false, false, [];
    }
  }

  /** A reported answer, for the list of some version. */
  ghost predicate Reports(decode: Decoder, source: Option<Version>, c: Client, memory: bool, hit: bool,
                          action: seq<byte>)
  {
    match source
    case None => !hit && action == []
    case Some(v) => exists r ::
      && Answers(decode, v.text, c, r) && hit == r.Some?
      && action == if memory && r.Some? then r.value else []
  }

  /** ngx_unmask_ban_lookup_req: `memory` says whether the copy of the action succeeds. */
  method BanLookupReq(ctx: Context?, worker: Worker, pathLen: nat, c: Client, memory: bool,
                      now: int, stat: Stat, atOpen: Option<Version>, fault: Fault)
    returns (hit: bool, action: seq<byte>)
    requires worker.Valid()
    modifies ctx, worker
    ensures worker.Valid()
    ensures ctx != null ==> ctx.done && ctx.hit == hit && ctx.action == action
    ensures ctx != null && old(ctx.done) ==>
      hit == old(ctx.hit) && action == old(ctx.action) && worker.View() == old(worker.View())
    ensures (ctx == null || !old(ctx.done)) && 0 < pathLen < PATH_MAX ==>
      && worker.View() == CheckStep(old(worker.View()), now, stat, atOpen, fault)
      && Reports(worker.decode, worker.source, c, memory, hit, action)
    ensures (ctx == null || !old(ctx.done)) && !(0 < pathLen < PATH_MAX) ==>
      worker.View() == old(worker.View()) && !hit && action == []
  {
    hit, action := false, [];
    if ctx != null && ctx.done { return ctx.hit, ctx.action; }
    if 0 < pathLen < PATH_MAX {
      worker.Check(now, stat, atOpen, fault);
      if worker.list.Some? {
        var r := Answer(worker.list.value, c, worker.decode, worker.source.value.text);
        if r.Some? {
          hit := true;
          if r.value != [] && memory { action := r.value; }
        }
        assert Answers(worker.decode, worker.source.value.text, c, r);
      }
    }
    if ctx != null { ctx.done, ctx.hit, ctx.action := true, hit, action; }
  }

  // ----- every interleaving

  /** The world of one worker.  `log` holds every content the path has had, the present
      one last; `stats` the seconds at which the kernel was asked, `mark` the place in the
      log at the last of them. */
  datatype World = World(now: int, log: seq<Option<Version>>, worker: State, stats: seq<int>, mark: nat)
  {
    ghost predicate Started() { log != [] }
    function Disk(): Option<Version> requires Started() { log[|log| - 1] }
  }

  /** Time passes; the writer renames a version into place or removes the file; a request
      asks, with what the writer does between its stat and its open. */
  datatype Event =
    | Tick(seconds: nat)
    | Change(disk: Option<Version>)
    | Ask(statFails: bool, between: seq<Option<Version>>, fault: Fault)

  function StatOf(disk: Option<Version>, fails: bool): Stat
  {
    if fails || disk.None? then Failed else Found(disk.value.id)
  }

  function Step(w: World, e: Event): (w': World)
    requires w.Started()
    ensures w'.Started()
  {
    match e
    case Tick(n) => w.(now := w.now + n)
    case Change(d) => w.(log := w.log + [d])
    case Ask(fails, between, fault) =>
      if w.worker.checked == w.now then w
      else
        var log := w.log + between;
        World(w.now, log, CheckStep(w.worker, w.now, StatOf(w.Disk(), fails), log[|log| - 1], fault),
              w.stats + [w.now], |w.log| - 1)
  }

  function Run(w: World, events: seq<Event>): (w': World)
    requires w.Started()
    ensures w'.Started()
  {
    if events == [] then w else Step(Run(w, events[..|events| - 1]), events[|events| - 1])
  }

  lemma RunSnoc(w: World, events: seq<Event>, e: Event)
    requires w.Started()
    ensures Run(w, events + [e]) == Step(Run(w, events), e)
  {
    assert (events + [e])[..|events|] == events;
  }

  /** A worker that has just started. */
  ghost predicate Initial(w: World)
  {
    w.now > 0 && w.log != [] && w.worker == State(0, ZERO, None) && w.stats == [] && w.mark == 0
  }

  /** List and identity come from one version, and that version was in place at some time. */
  ghost predicate OneVersion(w: World)
  {
    match w.worker.source
    case None => w.worker.id == ZERO
    case Some(v) => w.worker.id == v.id && w.worker.source in w.log
  }

  lemma {:induction false} AlwaysOneVersion(w: World, events: seq<Event>)
    requires Initial(w)
    ensures OneVersion(Run(w, events))
  {
    if events != [] { AlwaysOneVersion(w, events[..|events| - 1]); }
  }

  /** The kernel is asked at increasing seconds, the last of them recorded. */
  ghost predicate AskedOnce(w: World)
  {
    && (forall i, j :: 0 <= i < j < |w.stats| ==> w.stats[i] < w.stats[j])
    && (forall i :: 0 <= i < |w.stats| ==> w.stats[i] <= w.worker.checked)
    && (if w.stats == [] then w.worker.checked == 0 < w.now
        else w.worker.checked == w.stats[|w.stats| - 1] <= w.now)
  }

  /** At most one stat per second. */
  lemma {:induction false} AtMostOneStatPerSecond(w: World, events: seq<Event>)
    requires Initial(w)
    ensures AskedOnce(Run(w, events))
  {
    if events != [] { AtMostOneStatPerSecond(w, events[..|events| - 1]); }
  }

  /** A file above 64 MiB is never in force. */
  lemma {:induction false} NeverOversized(w: World, events: seq<Event>)
    requires Initial(w)
    ensures var source := Run(w, events).worker.source; source.Some? ==> |source.value.text| <= 67_108_864
  {
    if events != [] { NeverOversized(w, events[..|events| - 1]); }
  }

  // ----- failed loads

  /** The request's check reaches the load. */
  predicate Loads(w: World, e: Event)
    requires w.Started()
  {
    && e.Ask? && w.worker.checked != w.now && !e.statFails && w.Disk().Some?
    && w.Disk().value.id != w.worker.id
  }

  function AtOpen(w: World, e: Event): Option<Version>
    requires w.Started() && e.Ask?
  {
    var log := w.log + e.between;
    log[|log| - 1]
  }

  /** A failed load leaves list and identity as they were; and from the next second on, a
      check whose load succeeds brings in the version then in place. */
  lemma FailedLoadIsRetried(w: World, e: Event, n: nat, retry: Event)
    requires w.Started() && Loads(w, e) && LoadResult(AtOpen(w, e), e.fault) == Error
    requires n > 0 && Step(w, e).Disk().Some? && Step(w, e).Disk().value.id != w.worker.id
    requires retry.Ask? && !retry.statFails
    ensures var w1 := Step(w, e);
      var w2 := Step(w1, Tick(n));
      && w1.worker == w.worker.(checked := w.now)
      && Loads(w2, retry)
      && (LoadResult(AtOpen(w2, retry), retry.fault) == Ok ==> Step(w2, retry).worker.source == AtOpen(w2, retry))
  {
  }

  predicate Failing(e: Event) { e.Ask? ==> !e.statFails && e.fault != Fine }

  /** The file is there all the time. */
  ghost predicate Present(log: seq<Option<Version>>) { forall i :: 0 <= i < |log| ==> log[i].Some? }

  lemma PresentPrefix(a: seq<Option<Version>>, b: seq<Option<Version>>)
    requires a <= b && Present(b)
    ensures Present(a)
  {
    assert forall i :: 0 <= i < |a| ==> a[i] == b[i];
  }

  /** However often loads fail while the file is there, over any run the list in force and
      its identity stay what they were. */
  lemma {:induction false} FailuresKeepList(w: World, events: seq<Event>)
    requires w.Started() && forall i :: 0 <= i < |events| ==> Failing(events[i])
    requires Present(Run(w, events).log)
    ensures Run(w, events).worker.source == w.worker.source && Run(w, events).worker.id == w.worker.id
  {
    if events != [] {
      var before, e := events[..|events| - 1], events[|events| - 1];
      var u := Run(w, before);
      LogGrows(u, e);
      PresentPrefix(u.log, Step(u, e).log);
      FailuresKeepList(w, before);
    }
  }

  // ----- freshness

  predicate Sound(e: Event) { e.Ask? ==> !e.statFails && e.fault == Fine }

  predicate SameId(a: Option<Version>, b: Option<Version>) { a.Some? && b.Some? && a.value.id == b.value.id }

  /** No two contents of the path share an identity, none is all zero, all are loadable. */
  ghost predicate Distinct(log: seq<Option<Version>>)
  {
    && (forall i :: 0 <= i < |log| && log[i].Some? ==> log[i].value.id != ZERO && |log[i].value.text| <= FILE_MAX)
    && (forall i, j :: 0 <= i < |log| && 0 <= j < |log| && SameId(log[i], log[j]) ==> log[i] == log[j])
  }

  /** The list in force is a content the path had at the last stat or later. */
  ghost predicate Fresh(w: World)
  {
    w.stats != [] ==> w.mark < |w.log| && w.worker.source in w.log[w.mark..]
  }

  /** With sound loads and distinct identities, a lookup uses a version no older than the
      first check of its second. */
  lemma {:induction false} AlwaysFresh(w: World, events: seq<Event>)
    requires Initial(w) && (forall i :: 0 <= i < |events| ==> Sound(events[i]))
    requires Distinct(Run(w, events).log)
    ensures Fresh(Run(w, events))
    ensures events != [] && events[|events| - 1].Ask? ==>
      var w' := Run(w, events); w'.stats != [] && w'.stats[|w'.stats| - 1] == w'.now
  {
    if events != [] {
      var before, e := events[..|events| - 1], events[|events| - 1];
      var u := Run(w, before);
      LogGrows(u, e);
      DistinctPrefix(u.log, Step(u, e).log);
      AlwaysFresh(w, before);
      AlwaysOneVersion(w, before);
      AtMostOneStatPerSecond(w, before);
      FreshStep(u, e);
    }
  }

  lemma LogGrows(u: World, e: Event)
    requires u.Started()
    ensures u.log <= Step(u, e).log
  {
  }

  lemma DistinctPrefix(a: seq<Option<Version>>, b: seq<Option<Version>>)
    requires a <= b && Distinct(b)
    ensures Distinct(a)
  {
    assert forall i :: 0 <= i < |a| ==> a[i] == b[i];
  }

  lemma FreshStep(u: World, e: Event)
    requires u.Started() && Fresh(u) && OneVersion(u) && Sound(e) && Distinct(Step(u, e).log)
    ensures Fresh(Step(u, e))
  {
    var w := Step(u, e);
    if e.Change? && u.stats != [] {
      assert w.log[u.mark..] == u.log[u.mark..] + [e.disk];
    }
    if e.Ask? && u.worker.checked != u.now {
      var since := w.log[w.mark..];
      assert since[0] == u.Disk() == w.log[|u.log| - 1];
      assert since[|since| - 1] == w.Disk();
      if u.Disk().Some? && u.Disk().value.id == u.worker.id {
        assert u.worker.source.Some?;
        var i :| 0 <= i < |u.log| && u.log[i] == u.worker.source;
        assert w.log[i] == w.log[|u.log| - 1];
      } else if u.Disk().Some? {
        assert LoadResult(w.Disk(), Fine) != Error;
      }
    }
  }

  lemma FiveSteps(w: World, a: Event, b: Event, c: Event, d: Event, e: Event)
    requires w.Started()
    ensures Run(w, [a, b, c, d, e]) == Step(Step(Step(Step(Step(w, a), b), c), d), e)
  {
    Displays(a, b, c, d, e);
    RunSnoc(w, [], a);
    RunSnoc(w, [a], b);
    RunSnoc(w, [a, b], c);
    RunSnoc(w, [a, b, c], d);
    RunSnoc(w, [a, b, c, d], e);
  }

  lemma Displays<T>(a: T, b: T, c: T, d: T, e: T)
    ensures [] + [a] == [a] && [a] + [b] == [a, b] && [a, b] + [c] == [a, b, c]
    ensures [a, b, c] + [d] == [a, b, c, d] && [a, b, c, d] + [e] == [a, b, c, d, e]
  {
  }

  /** Two different contents under one identity: the second is never read. */
  lemma SameIdentityIsMissed(w: World, a: Version, b: Version)
    requires Initial(w) && a.id == b.id != ZERO && a != b && |a.text| <= FILE_MAX
    ensures var ask := Ask(false, [], Fine);
      var w' := Run(w, [Change(Some(a)), ask, Tick(1), Change(Some(b)), ask]);
      w'.worker.source == Some(a) && !Fresh(w')
  {
    var ask := Ask(false, [], Fine);
    var w1 := Step(w, Change(Some(a)));
    var w2 := Step(w1, ask);
    var w4 := Step(Step(w2, Tick(1)), Change(Some(b)));
    var w5 := Step(w4, ask);
    FiveSteps(w, Change(Some(a)), ask, Tick(1), Change(Some(b)), ask);
    assert w1.log + [] == w1.log && w4.log + [] == w4.log;
    assert w5.log[w5.mark..] == [Some(b)];
  }
}
