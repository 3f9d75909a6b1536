/** ban_list.c: the counting pass, the in-place parse, the sort and the binary search. */
module BanList {
  import opened Wrappers
  import opened Bytes
  import opened BanLines
  import opened Sorting

  /** unmask_ban_row_cmp. */
  const BY_KEY: (Ban, Ban) -> bool := (x: Ban, y: Ban) => Cmp(x.key, y.key) <= 0

  lemma ByKeyTotal()
    ensures Total(BY_KEY)
  {
    forall x: Ban, y: Ban ensures BY_KEY(x, y) || BY_KEY(y, x) { CmpSwap(x.key, y.key); }
    forall x: Ban, y: Ban, z: Ban | BY_KEY(x, y) && BY_KEY(y, z) ensures BY_KEY(x, z) {
      CmpTrans(x.key, y.key, z.key);
    }
  }

  // ----- unmask_ban_count

  method Count(buf: seq<byte>) returns (nrows: nat, nprefixes: nat)
    ensures nrows == |Rows(buf)| && nprefixes == |Prefixes(buf)|
  {
    nrows, nprefixes := 0, 0;
    var p := 0;
    ghost var dr, dp := [], [];
    CollectedStart(LINE, buf);
    EmptyLine();
    while p < |buf|
      invariant 0 <= p <= |buf| && nrows == |dr| && nprefixes == |dp|
      invariant Collected(LINE, buf, p, dr, dp)
    {
      var stop := p + IndexOf(buf[p..], NL);
      CollectedNext(LINE, buf, p, stop, dr, dp);
      ghost var line := LINE(buf[p..stop]);
      var row, prefix := CountLine(buf[p..stop], line);
      nrows, nprefixes := nrows + row, nprefixes + prefix;
      dr, dp := dr + ExactBans(line), dp + PrefixBans(line);
      p := if stop == |buf| then |buf| else stop + 1;
    }
    CollectedAll(LINE, buf, dr, dp);
  }

  method CountLine(raw: seq<byte>, ghost line: Line) returns (row: nat, prefix: nat)
    requires line == LINE(raw)
    ensures row == |ExactBans(line)| && prefix == |PrefixBans(line)|
  {
    row, prefix := 0, 0;
    var info := Classify(raw);
    if info.Row? {
      if info.isPrefix { prefix := 1; } else { row := 1; }
    }
  }

  // ----- rows as pointers into the buffer

  /** unmask_ban_row_t and unmask_ban_prefix_t: offsets into the buffer; a negative action
      is the default-action literal. */
  datatype RowPtr = RowPtr(key: nat, action: int)
  datatype PrefixPtr = PrefixPtr(prefix: nat, len: nat, action: int)

  function CStrAt(b: seq<byte>, off: nat): seq<byte>
  {
    if off <= |b| then CStr(b[off..]) else []
  }

  function ActionAt(b: seq<byte>, off: int): seq<byte> { if off < 0 then DENY else CStrAt(b, off) }

  /** The ban a row pointer stands for, read as C strings. */
  function BanAt(b: seq<byte>): RowPtr -> Ban
  {
    (r: RowPtr) => Ban(CStrAt(b, r.key), ActionAt(b, r.action))
  }

  function Bans(b: seq<byte>, rows: seq<RowPtr>): (s: seq<Ban>)
    ensures |s| == |rows| && forall i :: 0 <= i < |rows| ==> s[i] == BanAt(b)(rows[i])
  {
    seq(|rows|, i requires 0 <= i < |rows| => BanAt(b)(rows[i]))
  }

  function PrefixAt(b: seq<byte>, p: PrefixPtr): Ban
    requires p.prefix + p.len <= |b|
  {
    Ban(b[p.prefix..p.prefix + p.len], ActionAt(b, p.action))
  }

  /** A NUL-terminated text below `lim`: no later write at or past `lim` can change it. */
  ghost predicate Holds(b: seq<byte>, off: nat, text: seq<byte>, lim: nat)
  {
    && off + |text| < lim <= |b| && b[off..off + |text|] == text
    && b[off + |text|] == 0 && 0 !in text
  }

  lemma HoldsRead(b: seq<byte>, off: nat, text: seq<byte>, lim: nat)
    requires Holds(b, off, text, lim)
    ensures CStrAt(b, off) == text
  {
    var r := b[off..];
    assert r[..|text|] == text;
    CStrUnique(r, |text|);
  }

  lemma HoldsKept(b: seq<byte>, b': seq<byte>, off: nat, text: seq<byte>, lim: nat, lim': nat)
    requires Holds(b, off, text, lim) && lim <= lim' <= |b'| && b'[..lim] == b[..lim]
    ensures Holds(b', off, text, lim')
  {
    assert b'[off..off + |text|] == b'[..lim][off..off + |text|];
    assert b[off..off + |text|] == b[..lim][off..off + |text|];
    assert b'[off + |text|] == b'[..lim][off + |text|];
  }

  /** A field terminated at its end reads as the field cut at its first NUL. */
  lemma HoldsField(b: seq<byte>, off: nat, raw: seq<byte>)
    requires off + |raw| < |b| && b[off..off + |raw|] == raw && b[off + |raw|] == 0
    ensures Holds(b, off, CStr(raw), off + |raw| + 1)
  {
    var t := CStr(raw);
    CStrFacts(raw);
    assert b[off..off + |t|] == raw[..|t|];
    assert |t| < |raw| ==> b[off + |t|] == raw[|t|];
  }

  ghost predicate ActionIs(b: seq<byte>, act: int, text: seq<byte>, lim: nat)
  {
    if act < 0 then text == DENY else Holds(b, act, text, lim)
  }

  ghost predicate RowIs(b: seq<byte>, r: RowPtr, ban: Ban, lim: nat)
  {
    Holds(b, r.key, ban.key, lim) && ActionIs(b, r.action, ban.action, lim)
  }

  ghost predicate PrefixIs(b: seq<byte>, r: PrefixPtr, ban: Ban, lim: nat)
  {
    && r.prefix + r.len < lim <= |b| && b[r.prefix..r.prefix + r.len] == ban.key
    && ActionIs(b, r.action, ban.action, lim)
  }

  /** The two as values: what the lists below say of each element, without its content. */
  ghost const ROW_IS: (seq<byte>, RowPtr, Ban, nat) -> bool :=
    (b: seq<byte>, r: RowPtr, ban: Ban, lim: nat) => RowIs(b, r, ban, lim)
  ghost const PREFIX_IS: (seq<byte>, PrefixPtr, Ban, nat) -> bool :=
    (b: seq<byte>, r: PrefixPtr, ban: Ban, lim: nat) => PrefixIs(b, r, ban, lim)

  ghost predicate RowsAre(b: seq<byte>, rs: seq<RowPtr>, bans: seq<Ban>, lim: nat)
  {
    if rs == [] || bans == [] then rs == [] && bans == []
    else
      var i, k := |rs| - 1, |bans| - 1;
      ROW_IS(b, rs[i], bans[k], lim) && RowsAre(b, rs[..i], bans[..k], lim)
  }

  ghost predicate PrefixesAre(b: seq<byte>, ps: seq<PrefixPtr>, bans: seq<Ban>, lim: nat)
  {
    if ps == [] || bans == [] then ps == [] && bans == []
    else
      var i, k := |ps| - 1, |bans| - 1;
      PREFIX_IS(b, ps[i], bans[k], lim) && PrefixesAre(b, ps[..i], bans[..k], lim)
  }

  lemma {:induction false} RowsLength(b: seq<byte>, rs: seq<RowPtr>, bans: seq<Ban>, lim: nat)
    requires RowsAre(b, rs, bans, lim)
    ensures |rs| == |bans|
  {
    if rs != [] { RowsLength(b, rs[..|rs| - 1], bans[..|bans| - 1], lim); }
  }

  lemma {:induction false} PrefixesLength(b: seq<byte>, ps: seq<PrefixPtr>, bans: seq<Ban>, lim: nat)
    requires PrefixesAre(b, ps, bans, lim)
    ensures |ps| == |bans|
  {
    if ps != [] { PrefixesLength(b, ps[..|ps| - 1], bans[..|bans| - 1], lim); }
  }

  lemma RowRead(b: seq<byte>, r: RowPtr, ban: Ban, lim: nat)
    requires RowIs(b, r, ban, lim)
    ensures BanAt(b)(r) == ban
  {
    HoldsRead(b, r.key, ban.key, lim);
    if r.action >= 0 { HoldsRead(b, r.action, ban.action, lim); }
  }

  lemma RowKept(b: seq<byte>, b': seq<byte>, r: RowPtr, ban: Ban, lim: nat, lim': nat)
    requires RowIs(b, r, ban, lim) && lim <= lim' <= |b'| && b'[..lim] == b[..lim]
    ensures RowIs(b', r, ban, lim')
  {
    HoldsKept(b, b', r.key, ban.key, lim, lim');
    if r.action >= 0 { HoldsKept(b, b', r.action, ban.action, lim, lim'); }
  }

  lemma PrefixKept(b: seq<byte>, b': seq<byte>, r: PrefixPtr, ban: Ban, lim: nat, lim': nat)
    requires PrefixIs(b, r, ban, lim) && lim <= lim' <= |b'| && b'[..lim] == b[..lim]
    ensures PrefixIs(b', r, ban, lim')
  {
    assert b'[r.prefix..r.prefix + r.len] == b'[..lim][r.prefix..r.prefix + r.len];
    assert b[r.prefix..r.prefix + r.len] == b[..lim][r.prefix..r.prefix + r.len];
    if r.action >= 0 { HoldsKept(b, b', r.action, ban.action, lim, lim'); }
  }

  lemma {:induction false} RowsKept(b: seq<byte>, b': seq<byte>, rs: seq<RowPtr>, dr: seq<Ban>, lim: nat, lim': nat)
    requires RowsAre(b, rs, dr, lim) && lim <= lim' <= |b'| && lim <= |b| && b'[..lim] == b[..lim]
    ensures RowsAre(b', rs, dr, lim')
  {
    if rs != [] {
      var i, k := |rs| - 1, |dr| - 1;
      RowKept(b, b', rs[i], dr[k], lim, lim');
      RowsKept(b, b', rs[..i], dr[..k], lim, lim');
    }
  }

  lemma {:induction false} PrefixesKept(b: seq<byte>, b': seq<byte>, ps: seq<PrefixPtr>, dp: seq<Ban>, lim: nat,
                                             lim': nat)
    requires PrefixesAre(b, ps, dp, lim) && lim <= lim' <= |b'| && lim <= |b| && b'[..lim] == b[..lim]
    ensures PrefixesAre(b', ps, dp, lim')
  {
    if ps != [] {
      var i, k := |ps| - 1, |dp| - 1;
      PrefixKept(b, b', ps[i], dp[k], lim, lim');
      PrefixesKept(b, b', ps[..i], dp[..k], lim, lim');
    }
  }

  /** Later lines leave earlier rows alone. */
  lemma AllKept(b: seq<byte>, b': seq<byte>, rs: seq<RowPtr>, dr: seq<Ban>, ps: seq<PrefixPtr>, dp: seq<Ban>,
                lim: nat, lim': nat)
    requires RowsAre(b, rs, dr, lim) && PrefixesAre(b, ps, dp, lim)
    requires lim <= lim' <= |b'| && lim <= |b| && b'[..lim] == b[..lim]
    ensures RowsAre(b', rs, dr, lim') && PrefixesAre(b', ps, dp, lim')
  {
    RowsKept(b, b', rs, dr, lim, lim');
    PrefixesKept(b, b', ps, dp, lim, lim');
  }

  // ----- cutting one line

  function ActPtr(base: nat, act: int): int { if act < 0 then -1 else base + act }

  /** The pointers stored for a line read as what the line says. */
  ghost predicate Stored(b: seq<byte>, line: Line, base: nat, p1: int, act: int, isPrefix: bool, lim: nat)
  {
    match line
    case Skip => false
    case Exact(ban) => !isPrefix && RowIs(b, RowPtr(base, ActPtr(base, act)), ban, lim)
    case Prefix(ban) => isPrefix && p1 >= 0 && PrefixIs(b, PrefixPtr(base, p1, ActPtr(base, act)), ban, lim)
  }

  /** A field of the cut line: its bytes are as they were, and a NUL follows. */
  lemma FieldReads(b: seq<byte>, t: seq<byte>, base: nat, from: nat, to: nat, lim: nat)
    requires from <= to <= |t| && base + to < lim <= |b|
    requires forall k :: from <= k < to ==> b[base + k] == t[k]
    requires b[base + to] == 0
    ensures Holds(b, base + from, CStr(t[from..to]), lim)
  {
    var raw := t[from..to];
    assert b[base + from..base + to] == raw;
    HoldsField(b, base + from, raw);
    HoldsKept(b, b, base + from, CStr(raw), base + to + 1, lim);
  }

  /** The NULs of one line, and what its pointers then read. */
  lemma CutReads(b: seq<byte>, t: seq<byte>, base: nat, p1: int, p2: int, act: int, isPrefix: bool, lim: nat)
    requires t != [] && base + |t| < lim <= |b|
    requires Row(0, |t|, p1, p2, act, isPrefix).Within(|t|)
    requires forall k :: 0 <= k < |t| && k != p2 ==> b[base + k] == t[k]
    requires b[base + |t|] == 0 && (p2 >= 0 ==> b[base + p2] == 0)
    ensures Stored(b, TextRow(t, p1, p2, act, isPrefix), base, p1, act, isPrefix, lim)
  {
    if act >= 0 {
      FieldReads(b, t, base, act, |t|, lim);
      assert t[act..|t|] == t[act..];
    }
    if isPrefix {
      assert b[base..base + p1] == t[..p1];
    } else {
      var n := if p2 >= 0 then p2 else |t|;
      FieldReads(b, t, base, 0, n, lim);
      assert t[0..n] == t[..n];
    }
  }

  /** The same as a value, for contracts that only pass it on. */
  ghost const STORED: (seq<byte>, Line, nat, Info, nat) -> bool :=
    (b: seq<byte>, line: Line, base: nat, info: Info, lim: nat) =>
      info.Row? && Stored(b, line, base, info.p1, info.act, info.isPrefix, lim)

  /** A classified text and what it says. */
  ghost predicate Says(info: Info, t: seq<byte>, line: Line)
  {
    && info.Row? && t != [] && Row(0, |t|, info.p1, info.p2, info.act, info.isPrefix).Within(|t|)
    && line == TextRow(t, info.p1, info.p2, info.act, info.isPrefix)
  }

  /** Once cut, the text is stored as what it says. */
  ghost predicate Stores(info: Info, t: seq<byte>, line: Line, base: nat, lim: nat)
    requires info.Row?
  {
    forall b :: lim <= |b| && IsCut(b, t, base, info.p2) ==> STORED(b, line, base, info, lim)
  }

  ghost const STORES: (Info, seq<byte>, Line, nat, nat) -> bool :=
    (info: Info, t: seq<byte>, line: Line, base: nat, lim: nat) => info.Row? && Stores(info, t, line, base, lim)

  lemma CutStored(b: seq<byte>, t: seq<byte>, base: nat, info: Info, line: Line, lim: nat)
    requires Says(info, t, line) && base + |t| < lim <= |b| && IsCut(b, t, base, info.p2)
    ensures STORED(b, line, base, info, lim)
  {
    CutReads(b, t, base, info.p1, info.p2, info.act, info.isPrefix, lim);
  }

  ghost predicate IsAt(b: seq<byte>, t: seq<byte>, base: nat)
  {
    base + |t| <= |b| && forall k :: 0 <= k < |t| ==> b[base + k] == t[k]
  }

  lemma SliceIsAt(b: seq<byte>, p: nat, stop: nat, start: nat, end: nat)
    requires p <= stop <= |b| && start <= end <= stop - p
    ensures IsAt(b, b[p..stop][start..end], p + start)
  {
  }

  /** The text stands at base with its NULs: one at its end, one at its second bar. */
  ghost predicate IsCut(b: seq<byte>, t: seq<byte>, base: nat, p2: int)
  {
    && base + |t| < |b| && p2 < |t| && b[base + |t|] == 0 && (p2 >= 0 ==> b[base + p2] == 0)
    && forall k :: 0 <= k < |t| && k != p2 ==> b[base + k] == t[k]
  }

  /** Write the NULs of a row: behind its last field, and on its second bar. */
  method Terminate(buf: array<byte>, base: nat, end: nat, p2: int, ghost t: seq<byte>, ghost p: nat, ghost stop: nat,
                   ghost rows: array<RowPtr>, ghost nr: nat, ghost prefixes: array<PrefixPtr>, ghost np: nat)
    requires p <= base <= end <= stop < buf.Length && base + p2 < end == base + |t| && IsAt(buf[..], t, base)
    requires nr <= rows.Length && np <= prefixes.Length
    modifies buf
    ensures IsCut(buf[..], t, base, p2)
    ensures buf[..p] == old(buf[..p]) && buf[stop + 1..] == old(buf[stop + 1..])
    ensures rows[..nr] == old(rows[..nr]) && prefixes[..np] == old(prefixes[..np])
  {
    buf[end] := 0;
    if p2 >= 0 { buf[base + p2] := 0; }
  }

  // ----- unmask_ban_parse

  method StoreRow(buf: array<byte>, rows: array<RowPtr>, nr: nat, ptr: RowPtr, sorted0: bool,
                  ghost dr: seq<Ban>, ghost ban: Ban, ghost lim: nat) returns (ok: bool, sorted: bool)
    requires nr <= rows.Length && RowsAre(buf[..], rows[..nr], dr, lim) && RowIs(buf[..], ptr, ban, lim)
    requires sorted0 ==> InOrder(dr)
    modifies rows
    ensures ok <==> nr < rows.Length
    ensures ok ==> RowsAre(buf[..], rows[..nr + 1], dr + [ban], lim) && (sorted ==> InOrder(dr + [ban]))
  {
    sorted := sorted0;
    if nr >= rows.Length { return false, sorted; }
    RowsLength(buf[..], rows[..nr], dr, lim);
    rows[nr] := ptr;
    RowsSnoc(buf[..], rows[..nr], dr, ptr, ban, lim);
    assert rows[..nr + 1] == rows[..nr] + [ptr];
    if nr > 0 && sorted {
      LastRow(buf[..], rows[..nr], dr, lim);
      RowRead(buf[..], ptr, ban, lim);
      if Cmp(CStrAt(buf[..], rows[nr - 1].key), CStrAt(buf[..], rows[nr].key)) > 0 { sorted := false; }
    }
    if sorted { InOrderSnoc(dr, ban); }
    ok := true;
  }

  lemma RowsSnoc(b: seq<byte>, rs: seq<RowPtr>, dr: seq<Ban>, r: RowPtr, ban: Ban, lim: nat)
    requires RowsAre(b, rs, dr, lim) && RowIs(b, r, ban, lim)
    ensures RowsAre(b, rs + [r], dr + [ban], lim)
  {
    assert (rs + [r])[..|rs|] == rs && (dr + [ban])[..|dr|] == dr;
  }

  lemma LastRow(b: seq<byte>, rs: seq<RowPtr>, dr: seq<Ban>, lim: nat)
    requires RowsAre(b, rs, dr, lim) && rs != []
    ensures dr != [] && BanAt(b)(rs[|rs| - 1]) == dr[|dr| - 1]
  {
    RowRead(b, rs[|rs| - 1], dr[|dr| - 1], lim);
  }

  /** What the flag tracks: no key is below the one before it. */
  ghost predicate InOrder(dr: seq<Ban>)
  {
    var n := |dr|;
    n < 2 || (BY_KEY(dr[n - 2], dr[n - 1]) && InOrder(dr[..n - 1]))
  }

  lemma InOrderSnoc(dr: seq<Ban>, ban: Ban)
    ensures InOrder(dr + [ban]) <==> InOrder(dr) && (dr != [] ==> BY_KEY(dr[|dr| - 1], ban))
  {
    var s := dr + [ban];
    assert s[..|dr|] == dr;
    assert |dr| > 0 ==> s[|s| - 2] == dr[|dr| - 1];
  }

  lemma {:induction false} SortedInOrder(dr: seq<Ban>)
    requires SortedBy(BY_KEY, dr)
    ensures InOrder(dr)
  {
    if |dr| >= 2 {
      var front := dr[..|dr| - 1];
      assert BY_KEY(dr[|dr| - 2], dr[|dr| - 1]);
      forall i, j | 0 <= i < j < |front| ensures BY_KEY(front[i], front[j]) { assert BY_KEY(dr[i], dr[j]); }
      SortedInOrder(front);
    }
  }

  /** Comparing neighbours decides sortedness. */
  lemma {:induction false} InOrderSorted(dr: seq<Ban>)
    ensures InOrder(dr) <==> SortedBy(BY_KEY, dr)
  {
    if SortedBy(BY_KEY, dr) { SortedInOrder(dr); }
    if InOrder(dr) && |dr| >= 2 {
      var n := |dr| - 1;
      InOrderSorted(dr[..n]);
      ByKeySnoc(dr[..n], dr[n]);
      assert dr[..n] + [dr[n]] == dr;
    }
  }

  lemma ByKeySnoc(dr: seq<Ban>, ban: Ban)
    requires SortedBy(BY_KEY, dr) && dr != [] && BY_KEY(dr[|dr| - 1], ban)
    ensures SortedBy(BY_KEY, dr + [ban])
  {
    ByKeyTotal();
    SortedSnoc(BY_KEY, dr, ban);
  }

  /** One more at the end of a sorted list. */
  lemma SortedSnoc<T(!new)>(leq: (T, T) -> bool, s: seq<T>, x: T)
    requires Total(leq) && SortedBy(leq, s) && s != [] && leq(s[|s| - 1], x)
    ensures SortedBy(leq, s + [x])
  {
    forall i | 0 <= i < |s| ensures leq(s[i], x) { assert i < |s| - 1 ==> leq(s[i], s[|s| - 1]); }
  }

  method StorePrefix(buf: array<byte>, prefixes: array<PrefixPtr>, np: nat, ptr: PrefixPtr,
                     ghost dp: seq<Ban>, ghost ban: Ban, ghost lim: nat) returns (ok: bool)
    requires np <= prefixes.Length && PrefixesAre(buf[..], prefixes[..np], dp, lim) && PrefixIs(buf[..], ptr, ban, lim)
    modifies prefixes
    ensures ok <==> np < prefixes.Length
    ensures ok ==> PrefixesAre(buf[..], prefixes[..np + 1], dp + [ban], lim)
  {
    if np >= prefixes.Length { return false; }
    PrefixesLength(buf[..], prefixes[..np], dp, lim);
    prefixes[np] := ptr;
    assert prefixes[..np + 1][..np] == prefixes[..np];
    assert (dp + [ban])[..np] == dp;
    ok := true;
  }

  /** What is in memory: the rows read so far, their texts below lim. */
  ghost predicate InMemory(b: seq<byte>, rs: seq<RowPtr>, dr: seq<Ban>, ps: seq<PrefixPtr>, dp: seq<Ban>, lim: nat)
  {
    RowsAre(b, rs, dr, lim) && PrefixesAre(b, ps, dp, lim)
  }

  /** What the classifier's answer for a line at p promises about the buffer once cut. */
  ghost predicate Promises(raw: seq<byte>, info: Info, t: seq<byte>, line: Line, p: nat, lim: nat)
  {
    if info.NoRow? then line == Skip else PromisesRow(raw, info, t, line, p + info.start, lim)
  }

  ghost predicate PromisesRow(raw: seq<byte>, info: Info, t: seq<byte>, line: Line, base: nat, lim: nat)
    requires info.Row?
  {
    && info.start <= info.end <= |raw| && t == raw[info.start..info.end] && info.p2 < |t|
    && STORES(info, t, line, base, lim)
  }

  lemma RowPromised(raw: seq<byte>, info: Info, line: Line, t: seq<byte>, base: nat, lim: nat)
    requires info.Row? && info.Within(|raw|) && line == info.View(raw) && t == raw[info.start..info.end]
    requires base + |t| < lim
    ensures PromisesRow(raw, info, t, line, base, lim)
  {
    forall b | lim <= |b| && IsCut(b, t, base, info.p2) ensures STORED(b, line, base, info, lim) {
      CutStored(b, t, base, info, line, lim);
    }
  }

  lemma ViewPromises(raw: seq<byte>, info: Info, t: seq<byte>, line: Line, p: nat, lim: nat)
    requires info.Within(|raw|) && t == info.Text(raw) && line == info.View(raw) && p + |raw| < lim
    ensures Promises(raw, info, t, line, p, lim)
  {
    if info.Row? { RowPromised(raw, info, line, t, p + info.start, lim); }
  }

  /** A line that is a row is cut where it lies; the rows of other lines stay. */
  method ClassifyAndCut(buf: array<byte>, p: nat, stop: nat, ghost line: Line,
                        ghost rows: array<RowPtr>, ghost nr: nat, ghost prefixes: array<PrefixPtr>, ghost np: nat)
    returns (info: Info)
    requires p <= stop < buf.Length && line == LINE(buf[p..stop])
    requires nr <= rows.Length && np <= prefixes.Length
    modifies buf
    ensures info.NoRow? ==> line == Skip
    ensures info.Row? ==> STORED(buf[..], line, p + info.start, info, stop + 1)
    ensures buf[..p] == old(buf[..p]) && buf[stop + 1..] == old(buf[stop + 1..])
    ensures rows[..nr] == old(rows[..nr]) && prefixes[..np] == old(prefixes[..np])
  {
    ghost var t;
    info, t := ClassifyLine(buf[p..stop], p, stop + 1, line);
    if info.Row? {
      SliceIsAt(buf[..], p, stop, info.start, info.end);
      CutRow(buf, p, stop, info, t, line, rows, nr, prefixes, np);
    }
  }

  /** The classifier's answer for a line at p, as a promise about the buffer once cut. */
  method ClassifyLine(raw: seq<byte>, ghost p: nat, ghost lim: nat, ghost line: Line)
    returns (info: Info, ghost t: seq<byte>)
    requires line == LINE(raw) && p + |raw| < lim
    ensures Promises(raw, info, t, line, p, lim)
  {
    info := Classify(raw);
    t := info.Text(raw);
    ViewPromises(raw, info, t, line, p, lim);
  }

  method CutRow(buf: array<byte>, p: nat, stop: nat, info: Info, ghost t: seq<byte>, ghost line: Line,
                        ghost rows: array<RowPtr>, ghost nr: nat, ghost prefixes: array<PrefixPtr>, ghost np: nat)
    requires p <= stop < buf.Length && info.Row? && info.end == info.start + |t| && info.start + |t| <= stop - p
    requires info.p2 < |t| && STORES(info, t, line, p + info.start, stop + 1) && IsAt(buf[..], t, p + info.start)
    requires nr <= rows.Length && np <= prefixes.Length
    modifies buf
    ensures STORED(buf[..], line, p + info.start, info, stop + 1)
    ensures buf[..p] == old(buf[..p]) && buf[stop + 1..] == old(buf[stop + 1..])
    ensures rows[..nr] == old(rows[..nr]) && prefixes[..np] == old(prefixes[..np])
  {
    Terminate(buf, p + info.start, p + info.end, info.p2, t, p, stop, rows, nr, prefixes, np);
  }

  /** Store the row of a classified and cut line, if it has one. */
  method StoreLine(buf: array<byte>, p: nat, info: Info, rows: array<RowPtr>, nr0: nat, prefixes: array<PrefixPtr>,
                   np0: nat, sorted0: bool, ghost line: Line, ghost lim: nat, ghost dr: seq<Ban>, ghost dp: seq<Ban>)
    returns (ok: bool, nr: nat, np: nat, sorted: bool)
    requires nr0 <= rows.Length && np0 <= prefixes.Length
    requires if info.Row? then STORED(buf[..], line, p + info.start, info, lim) else line == Skip
    requires InMemory(buf[..], rows[..nr0], dr, prefixes[..np0], dp, lim)
    requires sorted0 ==> InOrder(dr)
    modifies rows, prefixes
    ensures buf[..] == old(buf[..])
    ensures ok <==> |dr + ExactBans(line)| <= rows.Length && |dp + PrefixBans(line)| <= prefixes.Length
    ensures ok ==> nr <= rows.Length && np <= prefixes.Length
    ensures ok ==> InMemory(buf[..], rows[..nr], dr + ExactBans(line), prefixes[..np], dp + PrefixBans(line), lim)
    ensures ok && sorted ==> InOrder(dr + ExactBans(line))
  {
    if info.NoRow? {
      SkippedLine(buf[..], rows[..nr0], dr, prefixes[..np0], dp, lim);
      return true, nr0, np0, sorted0;
    }
    ok, nr, np, sorted := StoreBan(buf, p + info.start, info, line, rows, nr0, prefixes, np0, sorted0, lim, dr, dp);
  }

  lemma SkippedLine(b: seq<byte>, rs: seq<RowPtr>, dr: seq<Ban>, ps: seq<PrefixPtr>, dp: seq<Ban>, lim: nat)
    requires InMemory(b, rs, dr, ps, dp, lim)
    ensures dr + ExactBans(Skip) == dr && dp + PrefixBans(Skip) == dp && |dr| == |rs| && |dp| == |ps|
  {
    RowsLength(b, rs, dr, lim);
    PrefixesLength(b, ps, dp, lim);
  }

  /** Cutting the bytes from p to stop leaves what lies below p in memory. */
  lemma KeptBelow(b: seq<byte>, b': seq<byte>, p: nat, rs: seq<RowPtr>, dr: seq<Ban>, ps: seq<PrefixPtr>, dp: seq<Ban>,
                  lim: nat, lim': nat)
    requires InMemory(b, rs, dr, ps, dp, lim) && lim <= p <= |b| && p <= lim' <= |b'| && b'[..p] == b[..p]
    ensures InMemory(b', rs, dr, ps, dp, lim')
  {
    PrefixOfPrefix(b', b, p, lim);
    AllKept(b, b', rs, dr, ps, dp, lim, lim');
  }

  lemma PrefixOfPrefix(a: seq<byte>, b: seq<byte>, p: nat, lim: nat)
    requires lim <= p <= |a| && p <= |b| && a[..p] == b[..p]
    ensures a[..lim] == b[..lim]
  {
    assert a[..lim] == a[..p][..lim] && b[..lim] == b[..p][..lim];
  }

  method StoreBan(buf: array<byte>, base: nat, info: Info, ghost line: Line, rows: array<RowPtr>, nr0: nat,
                   prefixes: array<PrefixPtr>, np0: nat, sorted0: bool, ghost lim: nat,
                   ghost dr: seq<Ban>, ghost dp: seq<Ban>)
    returns (ok: bool, nr: nat, np: nat, sorted: bool)
    requires nr0 <= rows.Length && np0 <= prefixes.Length && info.Row?
    requires InMemory(buf[..], rows[..nr0], dr, prefixes[..np0], dp, lim)
    requires STORED(buf[..], line, base, info, lim)
    requires sorted0 ==> InOrder(dr)
    modifies rows, prefixes
    ensures buf[..] == old(buf[..])
    ensures ok <==> |dr + ExactBans(line)| <= rows.Length && |dp + PrefixBans(line)| <= prefixes.Length
    ensures ok ==> nr <= rows.Length && np <= prefixes.Length
    ensures ok ==> InMemory(buf[..], rows[..nr], dr + ExactBans(line), prefixes[..np], dp + PrefixBans(line), lim)
    ensures ok && sorted ==> InOrder(dr + ExactBans(line))
  {
    nr, np, sorted := nr0, np0, sorted0;
    var act := ActPtr(base, info.act);
    RowsLength(buf[..], rows[..nr0], dr, lim);
    PrefixesLength(buf[..], prefixes[..np0], dp, lim);
    assert dr + [] == dr && dp + [] == dp;
    if info.isPrefix {
      ok := StorePrefix(buf, prefixes, np0, PrefixPtr(base, info.p1, act), dp, line.ban, lim);
      np := np0 + 1;
    } else {
      ok, sorted := StoreRow(buf, rows, nr0, RowPtr(base, act), sorted0, dr, line.ban, lim);
      nr := nr0 + 1;
    }
  }

  /** The loop over the lines. */
  method ParseLines(buf: array<byte>, len: nat, rows: array<RowPtr>, prefixes: array<PrefixPtr>)
    returns (ok: bool, nr: nat, np: nat, sorted: bool)
    requires len < buf.Length
    modifies buf, rows, prefixes
    ensures ok <==> |Rows(old(buf[..len]))| <= rows.Length && |Prefixes(old(buf[..len]))| <= prefixes.Length
    ensures ok ==> nr <= rows.Length && np <= prefixes.Length
    ensures ok ==>
      InMemory(buf[..], rows[..nr], Rows(old(buf[..len])), prefixes[..np], Prefixes(old(buf[..len])), len + 1)
    ensures ok && sorted ==> SortedBy(BY_KEY, Rows(old(buf[..len])))
  {
    ghost var orig := buf[..len];
    buf[len] := 0;
    ok, nr, np, sorted := true, 0, 0, true;
    var p := 0;
    ghost var lim, dr, dp := 0, [], [];
    StandingStart(orig, buf[..], rows[..nr], prefixes[..np]);
    while p < len
      invariant 0 <= p <= len && nr <= rows.Length && np <= prefixes.Length
      invariant Standing(orig, buf[..], p, lim, rows[..nr], prefixes[..np], dr, dp)
      invariant sorted ==> InOrder(dr)
    {
      ok, p, nr, np, sorted, lim, dr, dp := ParseTurn(buf, len, p, rows, nr, prefixes, np, sorted, orig, lim, dr, dp);
      if !ok { return; }
    }
    StandingEnd(orig, buf[..], lim, rows[..nr], prefixes[..np], dr, dp);
  }

  lemma StandingStart(orig: seq<byte>, b: seq<byte>, rs: seq<RowPtr>, ps: seq<PrefixPtr>)
    requires |orig| < |b| && b[..|orig|] == orig && rs == [] && ps == []
    ensures Standing(orig, b, 0, 0, rs, ps, [], []) && InOrder([])
  {
    CollectedStart(LINE, orig);
    EmptyLine();
  }

  lemma StandingEnd(orig: seq<byte>, b: seq<byte>, lim: nat, rs: seq<RowPtr>, ps: seq<PrefixPtr>, dr: seq<Ban>,
                    dp: seq<Ban>)
    requires Standing(orig, b, |orig|, lim, rs, ps, dr, dp)
    ensures |rs| == |Rows(orig)| && |ps| == |Prefixes(orig)|
    ensures InMemory(b, rs, Rows(orig), ps, Prefixes(orig), |orig| + 1)
    ensures InOrder(dr) ==> SortedBy(BY_KEY, Rows(orig))
  {
    CollectedAll(LINE, orig, dr, dp);
    SkippedLine(b, rs, dr, ps, dp, lim);
    AllKept(b, b, rs, dr, ps, dp, lim, |orig| + 1);
    if InOrder(dr) { InOrderSorted(dr); }
  }

  /** Where the parse stands: lines before p are collected and in memory, the bytes from
      p on are still the file's. */
  ghost predicate Standing(orig: seq<byte>, b: seq<byte>, p: nat, lim: nat, rs: seq<RowPtr>, ps: seq<PrefixPtr>,
                           dr: seq<Ban>, dp: seq<Ban>)
  {
    && p <= |orig| < |b| && lim <= |orig| + 1 && (p < |orig| ==> lim <= p) && b[p..|orig|] == orig[p..]
    && Collected(LINE, orig, p, dr, dp) && InMemory(b, rs, dr, ps, dp, lim)
  }

  /** One turn of the loop. */
  method ParseTurn(buf: array<byte>, len: nat, p0: nat, rows: array<RowPtr>, nr0: nat, prefixes: array<PrefixPtr>,
                   np0: nat, sorted0: bool, ghost orig: seq<byte>, ghost lim0: nat, ghost dr0: seq<Ban>,
                   ghost dp0: seq<Ban>)
    returns (ok: bool, p: nat, nr: nat, np: nat, sorted: bool, ghost lim: nat, ghost dr: seq<Ban>, ghost dp: seq<Ban>)
    requires |orig| == len && p0 < len && nr0 <= rows.Length && np0 <= prefixes.Length
    requires Standing(orig, buf[..], p0, lim0, rows[..nr0], prefixes[..np0], dr0, dp0)
    requires sorted0 ==> InOrder(dr0)
    modifies buf, rows, prefixes
    ensures p0 < p <= len
    ensures !ok ==> |Rows(orig)| > rows.Length || |Prefixes(orig)| > prefixes.Length
    ensures ok ==> nr <= rows.Length && np <= prefixes.Length
    ensures ok ==> Standing(orig, buf[..], p, lim, rows[..nr], prefixes[..np], dr, dp)
    ensures ok && sorted ==> InOrder(dr)
  {
    var stop := p0 + IndexOf(buf[p0..len], NL);
    ghost var b, rest, line := buf[..], buf[stop + 1..], LINE(orig[p0..stop]);
    dr, dp, lim := dr0 + ExactBans(line), dp0 + PrefixBans(line), stop + 1;
    NextLine(orig, b, p0, stop, line, dr0, dp0);
    var info := ClassifyAndCut(buf, p0, stop, line, rows, nr0, prefixes, np0);
    KeptBelow(b, buf[..], p0, rows[..nr0], dr0, prefixes[..np0], dp0, lim0, lim);
    ok, nr, np, sorted := StoreLine(buf, p0, info, rows, nr0, prefixes, np0, sorted0, line, lim, dr0, dp0);
    p := if stop < len then stop + 1 else len;
    if ok { StandingAfter(orig, buf[..], p0, stop, p, rest, rows[..nr], prefixes[..np], dr, dp); }
  }

  lemma StandingAfter(orig: seq<byte>, b: seq<byte>, p0: nat, stop: nat, p: nat, rest: seq<byte>,
                      rs: seq<RowPtr>, ps: seq<PrefixPtr>, dr: seq<Ban>, dp: seq<Ban>)
    requires p0 <= stop <= |orig| < |b| && b[stop + 1..] == rest && p == NextStart(orig, stop)
    requires stop < |orig| ==> rest[..|orig| - stop - 1] == orig[stop + 1..]
    requires Collected(LINE, orig, p, dr, dp) && InMemory(b, rs, dr, ps, dp, stop + 1)
    ensures Standing(orig, b, p, stop + 1, rs, ps, dr, dp)
  {
    SameRest(b, orig, p0, stop, rest);
  }

  /** The next line of the buffer is the file's, and its rows come next. */
  lemma NextLine(orig: seq<byte>, b: seq<byte>, p: nat, stop: nat, line: Line, dr: seq<Ban>, dp: seq<Ban>)
    requires p < |orig| < |b| && b[p..|orig|] == orig[p..] && stop == p + IndexOf(b[p..|orig|], NL)
    requires line == LINE(orig[p..stop]) && Collected(LINE, orig, p, dr, dp)
    ensures b[p..stop] == orig[p..stop]
    ensures stop < |orig| ==> b[stop + 1..][..|orig| - stop - 1] == orig[stop + 1..]
    ensures Collected(LINE, orig, NextStart(orig, stop), dr + ExactBans(line), dp + PrefixBans(line))
    ensures |dr + ExactBans(line)| <= |Rows(orig)| && |dp + PrefixBans(line)| <= |Prefixes(orig)|
  {
    EmptyLine();
    CollectedNext(LINE, orig, p, stop, dr, dp);
    SameLine(b, orig, p, stop);
  }

  lemma SameLine(b: seq<byte>, orig: seq<byte>, p: nat, stop: nat)
    requires p <= stop <= |orig| < |b| && b[p..|orig|] == orig[p..]
    ensures b[p..stop] == orig[p..stop]
    ensures stop < |orig| ==> b[stop + 1..][..|orig| - stop - 1] == orig[stop + 1..]
  {
    assert forall k :: p <= k < |orig| ==> b[k] == b[p..|orig|][k - p] == orig[p..][k - p] == orig[k];
  }

  lemma SameRest(b: seq<byte>, orig: seq<byte>, p: nat, stop: nat, rest: seq<byte>)
    requires p <= stop <= |orig| < |b| && b[stop + 1..] == rest
    requires stop < |orig| ==> rest[..|orig| - stop - 1] == orig[stop + 1..]
    ensures stop < |orig| ==> b[stop + 1..|orig|] == orig[stop + 1..]
  {
    if stop < |orig| { assert b[stop + 1..|orig|] == b[stop + 1..][..|orig| - stop - 1]; }
  }

  // ----- the sort, and the parse as a whole

  function ByPtr(b: seq<byte>): (RowPtr, RowPtr) -> bool
  {
    (x: RowPtr, y: RowPtr) => BY_KEY(BanAt(b)(x), BanAt(b)(y))
  }

  lemma ByPtrTotal(b: seq<byte>)
    ensures Total(ByPtr(b))
  {
    ByKeyTotal();
    var leq := ByPtr(b);
    forall x, y ensures leq(x, y) || leq(y, x) {
      assert BY_KEY(BanAt(b)(x), BanAt(b)(y)) || BY_KEY(BanAt(b)(y), BanAt(b)(x));
    }
    forall x, y, z | leq(x, y) && leq(y, z) ensures leq(x, z) { assert BY_KEY(BanAt(b)(x), BanAt(b)(z)); }
  }

  /** qsort: some order of the rows that the comparator accepts. */
  method SortRows(b: seq<byte>, rows: array<RowPtr>, n: nat)
    requires n <= rows.Length
    modifies rows
    ensures Permutes(rows[..n], old(rows[..n])) && SortedBy(ByPtr(b), rows[..n])
  {
    var r := Sort(ByPtr(b), rows[..n]);
    ByPtrTotal(b);
    SortFacts(ByPtr(b), rows[..n]);
    PermutesLength(r, rows[..n]);
    forall i | 0 <= i < n { rows[i] := r[i]; }
    assert rows[..n] == r;
  }

  function One(b: seq<byte>): RowPtr -> seq<Ban> { (r: RowPtr) => [BanAt(b)(r)] }

  lemma {:induction false} BansFlat(b: seq<byte>, rs: seq<RowPtr>)
    ensures Bans(b, rs) == FlatMap(One(b), rs)
  {
    if rs != [] {
      BansFlat(b, rs[1..]);
      assert Bans(b, rs) == [BanAt(b)(rs[0])] + Bans(b, rs[1..]);
    }
  }

  lemma BansPermute(b: seq<byte>, rs: seq<RowPtr>, qs: seq<RowPtr>)
    requires Permutes(rs, qs)
    ensures Permutes(Bans(b, rs), Bans(b, qs))
  {
    BansFlat(b, rs);
    BansFlat(b, qs);
    FlatMapPermutes(One(b), rs, qs);
  }

  lemma BansSorted(b: seq<byte>, rs: seq<RowPtr>)
    requires SortedBy(ByPtr(b), rs)
    ensures SortedBy(BY_KEY, Bans(b, rs))
  {
    var s := Bans(b, rs);
    forall i, j | 0 <= i < j < |s| ensures BY_KEY(s[i], s[j]) { assert ByPtr(b)(rs[i], rs[j]); }
  }

  lemma {:induction false} BansRead(b: seq<byte>, rs: seq<RowPtr>, dr: seq<Ban>, lim: nat)
    requires RowsAre(b, rs, dr, lim)
    ensures Bans(b, rs) == dr
  {
    RowsLength(b, rs, dr, lim);
    if rs != [] {
      var i := |rs| - 1;
      RowRead(b, rs[i], dr[i], lim);
      BansRead(b, rs[..i], dr[..i], lim);
      assert Bans(b, rs) == Bans(b, rs[..i]) + [BanAt(b)(rs[i])];
      assert dr == dr[..i] + [dr[i]];
    }
  }

  ghost predicate PrefixReads(b: seq<byte>, p: PrefixPtr, ban: Ban)
  {
    p.prefix + p.len <= |b| && PrefixAt(b, p) == ban
  }

  /** The prefix rows, read back, are these bans in this order. */
  ghost predicate PrefixesRead(b: seq<byte>, ps: seq<PrefixPtr>, bans: seq<Ban>)
  {
    |ps| == |bans| && forall i :: 0 <= i < |ps| ==> PrefixReads(b, ps[i], bans[i])
  }

  lemma {:induction false} PrefixesReadBack(b: seq<byte>, ps: seq<PrefixPtr>, dp: seq<Ban>, lim: nat)
    requires PrefixesAre(b, ps, dp, lim)
    ensures PrefixesRead(b, ps, dp)
  {
    PrefixesLength(b, ps, dp, lim);
    if ps != [] {
      var i := |ps| - 1;
      PrefixesReadBack(b, ps[..i], dp[..i], lim);
      if ps[i].action >= 0 { HoldsRead(b, ps[i].action, dp[i].action, lim); }
      assert PrefixReads(b, ps[i], dp[i]);
      forall k | 0 <= k < |ps| ensures PrefixReads(b, ps[k], dp[k]) {
        if k < i { assert PrefixReads(b, ps[..i][k], dp[..i][k]); }
      }
    }
  }

  /** The rows of a file, in key order. */
  ghost predicate RowsIndex(text: seq<byte>, bans: seq<Ban>)
  {
    Permutes(bans, Rows(text)) && SortedBy(BY_KEY, bans)
  }

  /** unmask_ban_parse. */
  method Parse(buf: array<byte>, len: nat, rows: array<RowPtr>, prefixes: array<PrefixPtr>)
    returns (ok: bool, nr: nat, np: nat)
    requires len < buf.Length
    modifies buf, rows, prefixes
    ensures ok <==> |Rows(old(buf[..len]))| <= rows.Length && |Prefixes(old(buf[..len]))| <= prefixes.Length
    ensures ok ==> nr == |Rows(old(buf[..len]))| <= rows.Length && np == |Prefixes(old(buf[..len]))| <= prefixes.Length
    ensures ok ==> RowsIndex(old(buf[..len]), Bans(buf[..], rows[..nr]))
    ensures ok ==> PrefixesRead(buf[..], prefixes[..np], Prefixes(old(buf[..len])))
  {
    ghost var text := buf[..len];
    var sorted;
    ok, nr, np, sorted := ParseLines(buf, len, rows, prefixes);
    if !ok { return false, 0, 0; }
    ReadBack(buf[..], rows[..nr], Rows(text), prefixes[..np], Prefixes(text), len + 1);
    SortIfNeeded(buf, rows, nr, sorted, text, prefixes);
  }

  lemma ReadBack(b: seq<byte>, rs: seq<RowPtr>, dr: seq<Ban>, ps: seq<PrefixPtr>, dp: seq<Ban>, lim: nat)
    requires InMemory(b, rs, dr, ps, dp, lim)
    ensures Bans(b, rs) == dr && |rs| == |dr| && PrefixesRead(b, ps, dp)
  {
    BansRead(b, rs, dr, lim);
    PrefixesReadBack(b, ps, dp, lim);
  }

  /** The sorted flag saves the sort, and only then. */
  method SortIfNeeded(buf: array<byte>, rows: array<RowPtr>, nr: nat, sorted: bool, ghost text: seq<byte>,
                      ghost prefixes: array<PrefixPtr>)
    requires nr <= rows.Length && Bans(buf[..], rows[..nr]) == Rows(text)
    requires sorted ==> SortedBy(BY_KEY, Rows(text))
    modifies rows
    ensures RowsIndex(text, Bans(buf[..], rows[..nr]))
    ensures buf[..] == old(buf[..]) && prefixes[..] == old(prefixes[..])
  {
    if nr > 1 && !sorted {
      ghost var was := rows[..nr];
      SortRows(buf[..], rows, nr);
      BansPermute(buf[..], rows[..nr], was);
      BansSorted(buf[..], rows[..nr]);
    }
  }

  // ----- unmask_ban_lookup

  /** The list carries a ban under this key. */
  ghost predicate HasKey(bans: seq<Ban>, key: seq<byte>)
  {
    exists i :: 0 <= i < |bans| && bans[i].key == key
  }

  /** A found action belongs to a ban with that key; a miss means there is none. */
  ghost predicate Finds(bans: seq<Ban>, key: seq<byte>, found: Option<seq<byte>>)
  {
    match found
    case None => !HasKey(bans, key)
    case Some(action) => Ban(key, action) in bans
  }

  ghost predicate Outside(bans: seq<Ban>, key: seq<byte>, lo: nat, hi: nat)
  {
    && lo <= hi <= |bans| && (forall i :: 0 <= i < lo ==> bans[i].key != key)
    && (forall i :: hi <= i < |bans| ==> bans[i].key != key)
  }

  lemma RaiseLow(bans: seq<Ban>, key: seq<byte>, lo: nat, hi: nat, mid: nat)
    requires SortedBy(BY_KEY, bans) && Outside(bans, key, lo, hi) && lo <= mid < hi && Cmp(bans[mid].key, key) < 0
    ensures Outside(bans, key, mid + 1, hi)
  {
    forall i | 0 <= i <= mid ensures bans[i].key != key {
      if i < mid {
        assert BY_KEY(bans[i], bans[mid]);
        CmpSwap(bans[i].key, bans[mid].key);
      }
      CmpZero(bans[mid].key, key);
    }
  }

  lemma LowerHigh(bans: seq<Ban>, key: seq<byte>, lo: nat, hi: nat, mid: nat)
    requires SortedBy(BY_KEY, bans) && Outside(bans, key, lo, hi) && lo <= mid < hi && Cmp(bans[mid].key, key) > 0
    ensures Outside(bans, key, lo, mid)
  {
    forall i | mid <= i < |bans| ensures bans[i].key != key {
      if i > mid { assert BY_KEY(bans[mid], bans[i]); }
      CmpZero(bans[mid].key, key);
    }
  }

  /** unmask_ban_lookup. */
  method Lookup(b: seq<byte>, rows: seq<RowPtr>, key: seq<byte>) returns (found: Option<seq<byte>>)
    requires SortedBy(BY_KEY, Bans(b, rows))
    ensures Finds(Bans(b, rows), key, found)
  {
    var lo, hi := 0, |rows|;
    ghost var bans := Bans(b, rows);
    while lo < hi
      invariant lo <= hi <= |rows| && Outside(bans, key, lo, hi)
    {
      var mid := lo + (hi - lo) / 2;
      var c := Cmp(CStrAt(b, rows[mid].key), key);
      if c == 0 {
        CmpZero(bans[mid].key, key);
        assert bans[mid] == BanAt(b)(rows[mid]);
        return Some(ActionAt(b, rows[mid].action));
      }
      if c < 0 {
        RaiseLow(bans, key, lo, hi, mid);
        lo := mid + 1;
      } else {
        LowerHigh(bans, key, lo, hi, mid);
        hi := mid;
      }
    }
    found := None;
  }
}
