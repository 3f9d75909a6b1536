/** Bytes, and the byte-string operations that the C and the browser code share:
    searching (memchr), splitting and joining on a separator, C strings. */
module Bytes {

  type byte = x: int | 0 <= x < 256
  type word = x: int | 0 <= x < 0x1_0000_0000

  const COLON: byte := 58
  const SEMI: byte := 59

  /** The bytes of a text in ASCII. */
  function Ascii(s: string): (r: seq<byte>)
    requires forall i :: 0 <= i < |s| ==> s[i] < 128 as char
    ensures |r| == |s| && forall i :: 0 <= i < |r| ==> r[i] == s[i] as int
  {
    seq(|s|, i requires 0 <= i < |s| => s[i] as int)
  }

  /** memchr: the first position of `c`, or the length when there is none. */
  function IndexOf(s: seq<byte>, c: byte): (i: nat)
    ensures i <= |s|
  {
    if s == [] || s[0] == c then 0 else 1 + IndexOf(s[1..], c)
  }

  lemma {:induction false} IndexOfFacts(s: seq<byte>, c: byte)
    ensures c !in s[..IndexOf(s, c)]
    ensures IndexOf(s, c) < |s| ==> s[IndexOf(s, c)] == c
  {
    if s != [] && s[0] != c {
      IndexOfFacts(s[1..], c);
      assert s[..IndexOf(s, c)] == [s[0]] + s[1..][..IndexOf(s[1..], c)];
    }
  }

  lemma {:induction false} IndexOfUnique(s: seq<byte>, c: byte, i: nat)
    requires i <= |s| && c !in s[..i] && (i < |s| ==> s[i] == c)
    ensures IndexOf(s, c) == i
  {
    if i > 0 {
      assert s[0] == s[..i][0] && s[..i] == [s[0]] + s[1..][..i - 1];
      IndexOfUnique(s[1..], c, i - 1);
    }
  }

  lemma SubSlice<T>(s: seq<T>, a: nat, b: nat, c: nat, d: nat)
    requires a <= b <= |s| && c <= d <= b - a
    ensures s[a..b][c..d] == s[a + c..a + d]
  {
    var t := s[a..b];
    assert forall i :: 0 <= i < |t| ==> t[i] == s[a + i];
    assert forall i :: 0 <= i < d - c ==> t[c..d][i] == t[c + i];
  }

  /** The pieces between separators; always at least one piece. */
  function Split(s: seq<byte>, sep: byte): (parts: seq<seq<byte>>)
    ensures |parts| >= 1
    decreases |s|
  {
    var i := IndexOf(s, sep);
    if i == |s| then [s] else [s[..i]] + Split(s[i + 1..], sep)
  }

  function Join(parts: seq<seq<byte>>, sep: byte): seq<byte>
  {
    if parts == [] then []
    else if |parts| == 1 then parts[0]
    else parts[0] + [sep] + Join(parts[1..], sep)
  }

  lemma {:induction false} JoinSplit(s: seq<byte>, sep: byte)
    ensures Join(Split(s, sep), sep) == s
    decreases |s|
  {
    var i := IndexOf(s, sep);
    IndexOfFacts(s, sep);
    if i < |s| {
      JoinSplit(s[i + 1..], sep);
      JoinCons(s[..i], Split(s[i + 1..], sep), sep);
      CutAt(s, i);
    }
  }

  lemma JoinCons(head: seq<byte>, rest: seq<seq<byte>>, sep: byte)
    requires rest != []
    ensures Join([head] + rest, sep) == head + [sep] + Join(rest, sep)
  {
    assert ([head] + rest)[1..] == rest;
  }

  lemma CutAt(s: seq<byte>, i: nat)
    requires i < |s|
    ensures s == s[..i] + [s[i]] + s[i + 1..]
  {
  }

  lemma {:induction false} SplitJoin(parts: seq<seq<byte>>, sep: byte)
    requires |parts| >= 1
    requires forall i :: 0 <= i < |parts| ==> sep !in parts[i]
    ensures Split(Join(parts, sep), sep) == parts
  {
    var s := Join(parts, sep);
    if |parts| == 1 {
      assert s[..|s|] == s;
      IndexOfUnique(s, sep, |s|);
    } else {
      var n := |parts[0]|;
      assert s[..n] == parts[0];
      IndexOfUnique(s, sep, n);
      assert s[n + 1..] == Join(parts[1..], sep);
      SplitJoin(parts[1..], sep);
    }
  }

  lemma {:induction false} JoinSnoc(parts: seq<seq<byte>>, x: seq<byte>, sep: byte)
    requires parts != []
    ensures Join(parts + [x], sep) == Join(parts, sep) + [sep] + x
  {
    assert (parts + [x])[1..] == parts[1..] + [x];
    if |parts| > 1 {
      JoinSnoc(parts[1..], x, sep);
    }
  }

  lemma JoinFour(a: seq<byte>, b: seq<byte>, c: seq<byte>, d: seq<byte>, sep: byte)
    ensures Join([a, b, c, d], sep) == a + [sep] + (b + [sep] + (c + [sep] + d))
  {
    assert [a, b, c, d][1..] == [b, c, d] && [b, c, d][1..] == [c, d] && [c, d][1..] == [d];
    assert Join([c, d], sep) == c + [sep] + d;
    assert Join([b, c, d], sep) == b + [sep] + (c + [sep] + d);
  }

  /** What a C string function sees of a buffer: the bytes before the first NUL. */
  function CStr(s: seq<byte>): seq<byte> { s[..IndexOf(s, 0)] }

  lemma CStrFacts(s: seq<byte>)
    ensures 0 !in CStr(s) && CStr(s) <= s && (0 !in s ==> CStr(s) == s)
    ensures |CStr(s)| < |s| ==> s[|CStr(s)|] == 0
  {
    IndexOfFacts(s, 0);
  }

  lemma CStrUnique(s: seq<byte>, k: nat)
    requires k <= |s| && 0 !in s[..k] && (k < |s| ==> s[k] == 0)
    ensures CStr(s) == s[..k]
  {
    IndexOfUnique(s, 0, k);
  }

  function Min(a: int, b: int): int { if a < b then a else b }

  /** The first `n` elements, or all of them. */
  function Take<T>(s: seq<T>, n: nat): (r: seq<T>)
    ensures |r| == Min(n, |s|)
  {
    if |s| <= n then s else s[..n]
  }

  lemma TakeConcat<T>(a: seq<T>, b: seq<T>, n: nat)
    ensures Take(a + b, n) == Take(a, n) + Take(b, n - |Take(a, n)|)
  {
    if n < |a| {
      assert (a + b)[..n] == a[..n];
    } else if n < |a + b| {
      assert (a + b)[..n] == a + b[..n - |a|];
    }
  }

  lemma Regroup<T>(a: seq<T>, b: seq<T>, c: seq<T>)
    ensures a + (b + c) == a + b + c
  {
  }

  // ----- words

  /** A word as four bytes, most significant first: the digest byte order of RFC 6234. */
  function WordBytes(w: word): (s: seq<byte>)
    ensures |s| == 4
  {
    [w / 256 / 256 / 256, w / 256 / 256 % 256, w / 256 % 256, w % 256]
  }

  function WordsBytes(ws: seq<word>): (s: seq<byte>)
    ensures |s| == 4 * |ws|
  {
    if ws == [] then [] else WordsBytes(ws[..|ws| - 1]) + WordBytes(ws[|ws| - 1])
  }

  // ----- strcmp

  /** strcmp: the sign of the first difference, by unsigned bytes. */
  function Cmp(a: seq<byte>, b: seq<byte>): (c: int)
    ensures -1 <= c <= 1
  {
    if a == [] then (if b == [] then 0 else -1)
    else if b == [] then 1
    else if a[0] < b[0] then -1
    else if a[0] > b[0] then 1
    else Cmp(a[1..], b[1..])
  }

  lemma {:induction false} CmpZero(a: seq<byte>, b: seq<byte>)
    ensures Cmp(a, b) == 0 <==> a == b
  {
    if a != [] && b != [] && a[0] == b[0] {
      CmpZero(a[1..], b[1..]);
      assert a == [a[0]] + a[1..] && b == [b[0]] + b[1..];
    }
  }

  lemma {:induction false} CmpSwap(a: seq<byte>, b: seq<byte>)
    ensures Cmp(a, b) == -Cmp(b, a)
  {
    if a != [] && b != [] { CmpSwap(a[1..], b[1..]); }
  }

  lemma {:induction false} CmpTrans(a: seq<byte>, b: seq<byte>, c: seq<byte>)
    requires Cmp(a, b) <= 0 && Cmp(b, c) <= 0
    ensures Cmp(a, c) <= 0
  {
    if a != [] && b != [] && c != [] && a[0] == b[0] == c[0] { CmpTrans(a[1..], b[1..], c[1..]); }
  }
}
