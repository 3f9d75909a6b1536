/** The rules of one ban-file line (ban_list.c), as a reader of the file would state them:
    split at '|', trim, default to "deny".  And the classifier proved against them. */
module BanLines {
  import opened Bytes

  const NL: byte := 10
  const PIPE: byte := 124
  const SLASH: byte := 47
  const HASH: byte := 35
  const DENY: seq<byte> := [100, 101, 110, 121]

  /** A ban: what it is keyed by, and its action. */
  datatype Ban = Ban(key: seq<byte>, action: seq<byte>)
  datatype Line = Skip | Exact(ban: Ban) | Prefix(ban: Ban)

  predicate Lead(c: byte) { c == 32 || c == 9 }
  predicate Trail(c: byte) { c == 13 || c == 32 || c == 9 }

  function TrimTrail(s: seq<byte>): seq<byte>
  {
    if s != [] && Trail(s[|s| - 1]) then TrimTrail(s[..|s| - 1]) else s
  }

  function TrimLead(s: seq<byte>): seq<byte>
  {
    if s != [] && Lead(s[0]) then TrimLead(s[1..]) else s
  }

  function Trim(s: seq<byte>): seq<byte> { TrimLead(TrimTrail(s)) }

  /** The fourth field and whatever follows it, or "deny" when there is none. */
  function ActionOf(fields: seq<seq<byte>>): seq<byte>
  {
    if |fields| < 4 then DENY else ActionText(Join(fields[3..], PIPE))
  }

  function ActionText(text: seq<byte>): seq<byte> { if text == [] then DENY else CStr(text) }

  function KeyOf(text: seq<byte>, fields: seq<seq<byte>>): seq<byte>
  {
    if |fields| >= 3 then fields[0] + [PIPE] + fields[1] else text
  }

  /** "<addr>/<len>|" with nothing in the JA4 field. */
  predicate IsPrefixRow(fields: seq<seq<byte>>)
  {
    |fields| >= 2 && SLASH in fields[0] && fields[1] == []
  }

  function RowOf(text: seq<byte>, fields: seq<seq<byte>>): Line
    requires fields != []
  {
    if IsPrefixRow(fields) then Prefix(Ban(fields[0], ActionOf(fields)))
    else Exact(Ban(CStr(KeyOf(text, fields)), ActionOf(fields)))
  }

  /** What a line says. */
  function LineOf(raw: seq<byte>): Line
  {
    var text := Trim(raw);
    if text == [] || text[0] == HASH then Skip else RowOf(text, Split(text, PIPE))
  }

  const LINE: seq<byte> -> Line := (raw: seq<byte>) => LineOf(raw)

  lemma EmptyLine()
    ensures LINE([]) == Skip
  {
    assert Trim([]) == [];
  }

  // ----- the file, for any reading of its lines

  type Reader = seq<byte> -> Line

  function ExactBans(line: Line): seq<Ban> { if line.Exact? then [line.ban] else [] }
  function PrefixBans(line: Line): seq<Ban> { if line.Prefix? then [line.ban] else [] }

  function RowsBy(f: Reader, text: seq<byte>): seq<Ban>
    decreases |text|
  {
    var i := IndexOf(text, NL);
    ExactBans(f(text[..i])) + (if i == |text| then [] else RowsBy(f, text[i + 1..]))
  }

  function PrefixesBy(f: Reader, text: seq<byte>): seq<Ban>
    decreases |text|
  {
    var i := IndexOf(text, NL);
    PrefixBans(f(text[..i])) + (if i == |text| then [] else PrefixesBy(f, text[i + 1..]))
  }

  /** The exact rows of a file, in order. */
  function Rows(text: seq<byte>): seq<Ban> { RowsBy(LINE, text) }

  /** The prefix rows of a file, in order. */
  function Prefixes(text: seq<byte>): seq<Ban> { PrefixesBy(LINE, text) }

  function LinesRows(f: Reader, lines: seq<seq<byte>>): seq<Ban>
  {
    if lines == [] then [] else ExactBans(f(lines[0])) + LinesRows(f, lines[1..])
  }

  function LinesPrefixes(f: Reader, lines: seq<seq<byte>>): seq<Ban>
  {
    if lines == [] then [] else PrefixBans(f(lines[0])) + LinesPrefixes(f, lines[1..])
  }

  /** The same, line by line over the split file. */
  lemma {:induction false} RowsByLine(f: Reader, text: seq<byte>)
    ensures RowsBy(f, text) == LinesRows(f, Split(text, NL))
    ensures PrefixesBy(f, text) == LinesPrefixes(f, Split(text, NL))
    decreases |text|
  {
    var i, lines := IndexOf(text, NL), Split(text, NL);
    if i < |text| {
      RowsByLine(f, text[i + 1..]);
      assert lines[1..] == Split(text[i + 1..], NL);
    } else {
      assert text[..i] == text && lines[1..] == [];
      assert LinesRows(f, []) == [] && LinesPrefixes(f, []) == [];
    }
  }

  /** Where a scanner stands: what it has collected, and what is left to read. */
  ghost predicate Collected(f: Reader, text: seq<byte>, p: nat, dr: seq<Ban>, dp: seq<Ban>)
  {
    p <= |text| && dr + RowsBy(f, text[p..]) == RowsBy(f, text) && dp + PrefixesBy(f, text[p..]) == PrefixesBy(f, text)
  }

  lemma CollectedStart(f: Reader, text: seq<byte>)
    ensures Collected(f, text, 0, [], [])
  {
    assert text[0..] == text;
  }

  lemma CollectedAll(f: Reader, text: seq<byte>, dr: seq<Ban>, dp: seq<Ban>)
    requires Collected(f, text, |text|, dr, dp) && f([]) == Skip
    ensures dr == RowsBy(f, text) && dp == PrefixesBy(f, text)
  {
    assert text[|text|..] == [];
    assert RowsBy(f, []) == [] && PrefixesBy(f, []) == [];
  }

  function NextStart(text: seq<byte>, stop: nat): nat { if stop >= |text| then |text| else stop + 1 }

  /** One line further: the line up to the next newline, then the rest. */
  lemma CollectedNext(f: Reader, text: seq<byte>, p: nat, stop: nat, dr: seq<Ban>, dp: seq<Ban>)
    requires Collected(f, text, p, dr, dp) && stop == p + IndexOf(text[p..], NL) && f([]) == Skip
    ensures var line := f(text[p..stop]);
      && Collected(f, text, NextStart(text, stop), dr + ExactBans(line), dp + PrefixBans(line))
      && |dr + ExactBans(line)| <= |RowsBy(f, text)| && |dp + PrefixBans(line)| <= |PrefixesBy(f, text)|
  {
    var line := f(text[p..stop]);
    RowsByStep(f, text, p, stop);
    if stop < |text| {
      Regroup(dr, ExactBans(line), RowsBy(f, text[stop + 1..]));
      Regroup(dp, PrefixBans(line), PrefixesBy(f, text[stop + 1..]));
    } else {
      assert text[|text|..] == [] && RowsBy(f, []) == [] && PrefixesBy(f, []) == [];
    }
  }

  lemma RowsByStep(f: Reader, text: seq<byte>, p: nat, stop: nat)
    requires p <= |text| && stop == p + IndexOf(text[p..], NL)
    ensures var line := f(text[p..stop]);
      && (stop == |text| ==> RowsBy(f, text[p..]) == ExactBans(line) && PrefixesBy(f, text[p..]) == PrefixBans(line))
      && (stop < |text| ==> RowsBy(f, text[p..]) == ExactBans(line) + RowsBy(f, text[stop + 1..])
                            && PrefixesBy(f, text[p..]) == PrefixBans(line) + PrefixesBy(f, text[stop + 1..]))
  {
    SubSlices(text, p, stop);
    RowsByFirst(f, text[p..], stop - p, text[p..stop], if stop < |text| then text[stop + 1..] else []);
  }

  lemma RowsByFirst(f: Reader, s: seq<byte>, i: nat, raw: seq<byte>, rest: seq<byte>)
    requires i == IndexOf(s, NL) && raw == s[..i] && (i < |s| ==> rest == s[i + 1..])
    ensures var line := f(raw);
      && (i == |s| ==> RowsBy(f, s) == ExactBans(line) && PrefixesBy(f, s) == PrefixBans(line))
      && (i < |s| ==> RowsBy(f, s) == ExactBans(line) + RowsBy(f, rest)
                      && PrefixesBy(f, s) == PrefixBans(line) + PrefixesBy(f, rest))
  {
    var line := f(raw);
    assert ExactBans(line) + [] == ExactBans(line) && PrefixBans(line) + [] == PrefixBans(line);
  }

  lemma SubSlices(text: seq<byte>, p: nat, stop: nat)
    requires p <= stop <= |text|
    ensures text[p..][..stop - p] == text[p..stop]
    ensures stop < |text| ==> text[p..][stop - p + 1..] == text[stop + 1..]
  {
  }

  // ----- the rules, by the positions of the bars

  ghost predicate BarFree(t: seq<byte>, from: nat, to: nat)
    requires to <= |t|
  {
    forall k :: from <= k < to ==> t[k] != PIPE
  }

  lemma FirstBar(t: seq<byte>, from: nat, d: nat)
    requires from <= d <= |t| && BarFree(t, from, d) && (d < |t| ==> t[d] == PIPE)
    ensures d == |t| ==> Split(t[from..], PIPE) == [t[from..]]
    ensures d < |t| ==> Split(t[from..], PIPE) == [t[from..d]] + Split(t[d + 1..], PIPE)
  {
    var r := t[from..];
    assert r[..d - from] == t[from..d];
    assert PIPE !in r[..d - from];
    IndexOfUnique(r, PIPE, d - from);
    if d < |t| { assert r[d - from + 1..] == t[d + 1..]; }
  }

  lemma OneBarFields(t: seq<byte>, p1: nat)
    requires p1 < |t| && BarFree(t, 0, p1) && t[p1] == PIPE && BarFree(t, p1 + 1, |t|)
    ensures Split(t, PIPE) == [t[..p1], t[p1 + 1..]]
  {
    assert t[0..] == t && t[0..p1] == t[..p1];
    FirstBar(t, 0, p1);
    FirstBar(t, p1 + 1, |t|);
  }

  lemma TwoBarFields(t: seq<byte>, p1: nat, p2: nat)
    requires p1 < p2 < |t| && BarFree(t, 0, p1) && t[p1] == PIPE
    requires BarFree(t, p1 + 1, p2) && t[p2] == PIPE
    ensures Split(t, PIPE) == [t[..p1], t[p1 + 1..p2]] + Split(t[p2 + 1..], PIPE)
  {
    assert t[0..] == t && t[0..p1] == t[..p1];
    FirstBar(t, 0, p1);
    FirstBar(t, p1 + 1, p2);
    Pair(t[..p1], t[p1 + 1..p2], Split(t[p2 + 1..], PIPE));
  }

  lemma Pair(a: seq<byte>, b: seq<byte>, rest: seq<seq<byte>>)
    ensures [a] + ([b] + rest) == [a, b] + rest
  {
  }

  lemma RowOfTwo(t: seq<byte>, a: seq<byte>, b: seq<byte>)
    ensures RowOf(t, [a, b]) ==
      if SLASH in a && b == [] then Prefix(Ban(a, DENY)) else Exact(Ban(CStr(t), DENY))
  {
  }

  lemma RowOfMore(t: seq<byte>, a: seq<byte>, b: seq<byte>, rest: seq<seq<byte>>)
    requires rest != []
    ensures var action := if |rest| < 2 then DENY else ActionText(Join(rest[1..], PIPE));
      RowOf(t, [a, b] + rest) ==
      if SLASH in a && b == [] then Prefix(Ban(a, action)) else Exact(Ban(CStr(a + [PIPE] + b), action))
  {
    var fs := [a, b] + rest;
    assert |rest| >= 2 ==> fs[3..] == rest[1..];
  }

  /** The action is what follows the third bar. */
  lemma ThirdBar(t: seq<byte>, from: nat, p3: nat)
    requires from <= p3 <= |t| && BarFree(t, from, p3) && (p3 < |t| ==> t[p3] == PIPE)
    ensures var rest := Split(t[from..], PIPE);
      && (|rest| < 2 <==> p3 == |t|) && (p3 < |t| ==> Join(rest[1..], PIPE) == t[p3 + 1..])
  {
    FirstBar(t, from, p3);
    if p3 < |t| {
      JoinSplit(t[p3 + 1..], PIPE);
      var more := Split(t[p3 + 1..], PIPE);
      assert ([t[from..p3]] + more)[1..] == more;
    }
  }

  // ----- unmask_ban_classify

  /** unmask_ban_line_t: where the trimmed text lies in the line, the first two bars and
      the action as offsets into that text, -1 for NULL. */
  datatype Info = NoRow | Row(start: nat, end: nat, p1: int, p2: int, act: int, isPrefix: bool)
  {
    ghost predicate Within(n: nat)
    {
      Row? ==>
        && start < end <= n && -1 <= p1 < end - start && -1 <= p2 < end - start && -1 <= act < end - start
        && (p2 >= 0 ==> 0 <= p1 < p2) && (act >= 0 ==> 0 <= p2 < act) && (isPrefix ==> p1 >= 0)
    }

    ghost function Text(line: seq<byte>): seq<byte>
      requires Within(|line|)
    {
      if NoRow? then [] else line[start..end]
    }

    /** The row these offsets describe. */
    ghost function View(line: seq<byte>): Line
      requires Within(|line|)
    {
      if NoRow? then Skip else TextRow(line[start..end], p1, p2, act, isPrefix)
    }
  }

  method TrimBounds(line: seq<byte>) returns (start: nat, end: nat)
    ensures start <= end <= |line| && line[start..end] == Trim(line)
  {
    end := |line|;
    assert line[..end] == line;
    while end > 0 && Trail(line[end - 1])
      invariant end <= |line| && TrimTrail(line[..end]) == TrimTrail(line)
    {
      TrailStep(line, end);
      end := end - 1;
    }
    start := TrimStart(line, end);
  }

  lemma TrailStep(line: seq<byte>, end: nat)
    requires 0 < end <= |line| && Trail(line[end - 1])
    ensures TrimTrail(line[..end]) == TrimTrail(line[..end - 1])
  {
    assert line[..end][..end - 1] == line[..end - 1];
  }

  method TrimStart(line: seq<byte>, end: nat) returns (start: nat)
    requires end <= |line|
    ensures start <= end && line[start..end] == TrimLead(line[..end])
  {
    start := 0;
    assert line[0..end] == line[..end];
    while start < end && Lead(line[start])
      invariant start <= end && TrimLead(line[start..end]) == TrimLead(line[..end])
    {
      LeadStep(line, start, end);
      start := start + 1;
    }
  }

  lemma LeadStep(line: seq<byte>, start: nat, end: nat)
    requires start < end <= |line| && Lead(line[start])
    ensures TrimLead(line[start..end]) == TrimLead(line[start + 1..end])
  {
    assert line[start..end][1..] == line[start + 1..end];
  }

  /** memchr from `from`: the position of the next bar, or -1. */
  method NextBar(text: seq<byte>, from: nat) returns (at: int)
    requires from <= |text|
    ensures at == -1 ==> BarFree(text, from, |text|)
    ensures at != -1 ==> from <= at < |text| && text[at] == PIPE && BarFree(text, from, at)
  {
    at := from;
    while at < |text|
      invariant from <= at <= |text| && BarFree(text, from, at)
    {
      if text[at] == PIPE { return; }
      at := at + 1;
    }
    at := -1;
  }

  /** unmask_ban_classify. */
  method Classify(line: seq<byte>) returns (info: Info)
    ensures info.Within(|line|) && info.View(line) == LINE(line)
  {
    var start, end := TrimBounds(line);
    if start == end || line[start] == HASH { return NoRow; }
    var p1, p2, act, isPrefix := ClassifyText(line[start..end]);
    info := Row(start, end, p1, p2, act, isPrefix);
  }

  /** The bars of the trimmed text, the action and the prefix test. */
  method ClassifyText(text: seq<byte>) returns (p1: int, p2: int, act: int, isPrefix: bool)
    requires text != []
    ensures Row(0, |text|, p1, p2, act, isPrefix).Within(|text|)
    ensures RowOf(text, Split(text, PIPE)) == TextRow(text, p1, p2, act, isPrefix)
  {
    p2, act, isPrefix := -1, -1, false;
    p1 := NextBar(text, 0);
    if p1 < 0 {
      NoBarRow(text);
      return;
    }
    p2 := NextBar(text, p1 + 1);
    if p2 < 0 {
      isPrefix := SLASH in text[..p1] && p1 + 1 == |text|;
      OneBarRow(text, p1);
      return;
    }
    act, isPrefix := ClassifyFourFields(text, p1, p2);
  }

  method ClassifyFourFields(text: seq<byte>, p1: nat, p2: nat) returns (act: int, isPrefix: bool)
    requires p1 < p2 < |text| && BarFree(text, 0, p1) && text[p1] == PIPE
    requires BarFree(text, p1 + 1, p2) && text[p2] == PIPE
    ensures Row(0, |text|, p1, p2, act, isPrefix).Within(|text|)
    ensures RowOf(text, Split(text, PIPE)) == TextRow(text, p1, p2, act, isPrefix)
  {
    var p3 := NextBar(text, p2 + 1);
    act := if p3 >= 0 && p3 + 1 < |text| then p3 + 1 else -1;
    isPrefix := SLASH in text[..p1] && p2 == p1 + 1;
    ghost var q := if p3 < 0 then |text| else p3;
    assert act == if q + 1 < |text| then q + 1 else -1;
    BarsSplit(text, p1, p2, q);
    TwoBarRow(text, p1, p2, q, act, isPrefix);
  }

  ghost function TextRow(text: seq<byte>, p1: int, p2: int, act: int, isPrefix: bool): Line
    requires Row(0, |text|, p1, p2, act, isPrefix).Within(|text|)
  {
    var action := if act >= 0 then CStr(text[act..]) else DENY;
    if isPrefix then Prefix(Ban(text[..p1], action))
    else Exact(Ban(CStr(text[..if p2 >= 0 then p2 else |text|]), action))
  }

  lemma NoBarRow(t: seq<byte>)
    requires t != [] && BarFree(t, 0, |t|)
    ensures RowOf(t, Split(t, PIPE)) == TextRow(t, -1, -1, -1, false)
  {
    NoBarFields(t);
    RowOfOne(t);
    WholeText(t);
  }

  lemma NoBarFields(t: seq<byte>)
    requires BarFree(t, 0, |t|)
    ensures Split(t, PIPE) == [t]
  {
    assert PIPE !in t[..|t|];
    IndexOfUnique(t, PIPE, |t|);
  }

  lemma WholeText(t: seq<byte>)
    requires t != []
    ensures TextRow(t, -1, -1, -1, false) == Exact(Ban(CStr(t), DENY))
  {
    assert t[..|t|] == t;
  }

  lemma RowOfOne(t: seq<byte>)
    ensures RowOf(t, [t]) == Exact(Ban(CStr(t), DENY))
  {
  }

  lemma OneBarRow(t: seq<byte>, p1: nat)
    requires p1 < |t| && BarFree(t, 0, p1) && t[p1] == PIPE && BarFree(t, p1 + 1, |t|)
    ensures RowOf(t, Split(t, PIPE)) == TextRow(t, p1, -1, -1, SLASH in t[..p1] && p1 + 1 == |t|)
  {
    assert t[..|t|] == t;
    OneBarFields(t, p1);
    RowOfTwo(t, t[..p1], t[p1 + 1..]);
  }

  /** The fields of a text whose first bars are at p1, p2 and p3 (or the end). */
  ghost predicate SplitByBars(t: seq<byte>, p1: nat, p2: nat, p3: nat)
  {
    && p1 < p2 < p3 <= |t|
    && var rest := Split(t[p2 + 1..], PIPE);
       && Split(t, PIPE) == [t[..p1], t[p1 + 1..p2]] + rest
       && (|rest| < 2 <==> p3 == |t|) && (p3 < |t| ==> Join(rest[1..], PIPE) == t[p3 + 1..])
  }

  lemma BarsSplit(t: seq<byte>, p1: nat, p2: nat, p3: nat)
    requires p1 < p2 < p3 <= |t| && BarFree(t, 0, p1) && t[p1] == PIPE
    requires BarFree(t, p1 + 1, p2) && t[p2] == PIPE && BarFree(t, p2 + 1, p3) && (p3 < |t| ==> t[p3] == PIPE)
    ensures SplitByBars(t, p1, p2, p3)
  {
    TwoBarFields(t, p1, p2);
    ThirdBar(t, p2 + 1, p3);
  }

  lemma TwoBarRow(t: seq<byte>, p1: nat, p2: nat, p3: nat, act: int, isPrefix: bool)
    requires SplitByBars(t, p1, p2, p3) && t[p1] == PIPE
    requires act == (if p3 + 1 < |t| then p3 + 1 else -1) && isPrefix == (SLASH in t[..p1] && p2 == p1 + 1)
    ensures RowOf(t, Split(t, PIPE)) == TextRow(t, p1, p2, act, isPrefix)
  {
    RowFromFields(t, p1, p2, p3, act, isPrefix, Split(t, PIPE), Split(t[p2 + 1..], PIPE));
  }

  lemma RowFromFields(t: seq<byte>, p1: nat, p2: nat, p3: nat, act: int, isPrefix: bool,
                      fields: seq<seq<byte>>, rest: seq<seq<byte>>)
    requires p1 < p2 < p3 <= |t| && t[p1] == PIPE && rest != [] && fields == [t[..p1], t[p1 + 1..p2]] + rest
    requires (|rest| < 2 <==> p3 == |t|) && (p3 < |t| ==> Join(rest[1..], PIPE) == t[p3 + 1..])
    requires act == (if p3 + 1 < |t| then p3 + 1 else -1) && isPrefix == (SLASH in t[..p1] && p2 == p1 + 1)
    ensures RowOf(t, fields) == TextRow(t, p1, p2, act, isPrefix)
  {
    var action := if |rest| < 2 then DENY else ActionText(Join(rest[1..], PIPE));
    RowOfMore(t, t[..p1], t[p1 + 1..p2], rest);
    KeyUpToBar(t, p1, p2);
    assert action == if act >= 0 then CStr(t[act..]) else DENY;
    TextRowIs(t, p1, p2, act, isPrefix, action);
  }

  lemma KeyUpToBar(t: seq<byte>, p1: nat, p2: nat)
    requires p1 < p2 < |t| && t[p1] == PIPE
    ensures t[..p1] + [PIPE] + t[p1 + 1..p2] == t[..p2] && (t[p1 + 1..p2] == [] <==> p2 == p1 + 1)
  {
  }

  lemma TextRowIs(t: seq<byte>, p1: nat, p2: nat, act: int, isPrefix: bool, action: seq<byte>)
    requires Row(0, |t|, p1, p2, act, isPrefix).Within(|t|) && action == if act >= 0 then CStr(t[act..]) else DENY
    ensures TextRow(t, p1, p2, act, isPrefix)
         == if isPrefix then Prefix(Ban(t[..p1], action)) else Exact(Ban(CStr(t[..p2]), action))
  {
  }
}
