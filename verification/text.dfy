/** Python `str` operations the scripts rely on, restricted to ASCII case
    mapping and ASCII whitespace. */
module Text {

  /** `str.isspace()` for the ASCII range: tab, newline, vertical tab, form
      feed, carriage return, the four information separators and space. */
  predicate IsSpace(c: char) {
    (9 <= c as int <= 13) || (28 <= c as int <= 32)
  }

  predicate IsUpperAscii(c: char) { 'A' <= c <= 'Z' }

  predicate IsLowerAscii(c: char) { 'a' <= c <= 'z' }

  function UpperChar(c: char): (u: char)
    ensures !IsLowerAscii(u)
    ensures IsLowerAscii(c) ==> u as int == c as int - 32
    ensures !IsLowerAscii(c) ==> u == c
  {
    if IsLowerAscii(c) then (c as int - 32) as char else c
  }

  function LowerChar(c: char): (l: char)
    ensures !IsUpperAscii(l)
    ensures IsUpperAscii(c) ==> l as int == c as int + 32
    ensures !IsUpperAscii(c) ==> l == c
  {
    if IsUpperAscii(c) then (c as int + 32) as char else c
  }

  /** `str.upper()` */
  function Upper(s: string): (u: string)
    ensures |u| == |s|
    ensures forall i :: 0 <= i < |s| ==> u[i] == UpperChar(s[i])
  {
    seq(|s|, i requires 0 <= i < |s| => UpperChar(s[i]))
  }

  /** `str.lower()` */
  function Lower(s: string): (l: string)
    ensures |l| == |s|
    ensures forall i :: 0 <= i < |s| ==> l[i] == LowerChar(s[i])
  {
    seq(|s|, i requires 0 <= i < |s| => LowerChar(s[i]))
  }

  /** Case-insensitive equality as the scripts write it: `a.upper() == b.upper()`. */
  predicate SameIgnoringCase(a: string, b: string) {
    Upper(a) == Upper(b)
  }

  predicate HasUpperAscii(s: string) {
    exists i :: 0 <= i < |s| && IsUpperAscii(s[i])
  }

  /** A lower-cased string never equals a string holding an upper-case letter. */
  lemma LowerNeverEqualsUpperCased(s: string, v: string)
    requires HasUpperAscii(v)
    ensures Lower(s) != v
  {
    var i :| 0 <= i < |v| && IsUpperAscii(v[i]);
    if |s| == |v| {
      assert !IsUpperAscii(Lower(s)[i]);
    }
  }

  /** `str.rstrip()` */
  function RStrip(s: string): (r: string)
    ensures |r| <= |s| && r == s[..|r|]
    ensures r == [] || !IsSpace(r[|r| - 1])
    ensures forall i :: |r| <= i < |s| ==> IsSpace(s[i])
  {
    if s != [] && IsSpace(s[|s| - 1]) then RStrip(s[..|s| - 1]) else s
  }

  /** `str.lstrip()` */
  function LStrip(s: string): (r: string)
    ensures |r| <= |s| && r == s[|s| - |r|..]
    ensures r == [] || !IsSpace(r[0])
    ensures forall i :: 0 <= i < |s| - |r| ==> IsSpace(s[i])
  {
    if s != [] && IsSpace(s[0]) then
      var r := LStrip(s[1..]);
      assert s[1..][|s| - 1 - |r|..] == s[|s| - |r|..];
      assert forall i :: 1 <= i < |s| - |r| ==> s[i] == s[1..][i - 1];
      r
    else s
  }

  /** `str.strip()` */
  function Strip(s: string): (r: string)
    ensures r == [] || (!IsSpace(r[0]) && !IsSpace(r[|r| - 1]))
    ensures (forall i :: 0 <= i < |s| ==> !IsSpace(s[i])) ==> r == s
  {
    RStrip(LStrip(s))
  }

  /** `sub in s` */
  predicate Contains(s: string, sub: string) {
    exists i | 0 <= i <= |s| - |sub| :: sub <= s[i..]
  }

  /** `s[lo:hi]` for non-negative bounds: both are clamped to the length. */
  function Slice(s: string, lo: nat, hi: nat): (r: string)
    ensures |r| == if lo >= |s| || hi <= lo then 0 else Min(hi, |s|) - lo
    ensures lo < |s| && lo < hi ==> r == s[lo..Min(hi, |s|)]
  {
    if lo >= |s| || hi <= lo then [] else s[lo..Min(hi, |s|)]
  }

  function Min(a: int, b: int): int { if a <= b then a else b }

  /** `s.split(c)` for a one-character separator: the pieces between
      separators, empty pieces included. */
  function Split(s: string, c: char): (parts: seq<string>)
    ensures parts != []
    decreases |s|
  {
    if c !in s then [s]
    else
      var i := IndexOf(s, c);
      [s[..i]] + Split(s[i + 1..], c)
  }

  /** Position of the first `c` in `s`. */
  function IndexOf(s: string, c: char): (i: nat)
    requires c in s
    ensures i < |s| && s[i] == c
    ensures forall j :: 0 <= j < i ==> s[j] != c
  {
    if s[0] == c then 0 else 1 + IndexOf(s[1..], c)
  }

  /** The first separator of `a + [c] + b` is the first one of `a`, or the
      glued one when `a` has none. */
  lemma IndexOfGlued(a: string, c: char, b: string)
    ensures IndexOf(a + [c] + b, c) == if c in a then IndexOf(a, c) else |a|
  {
    var s := a + [c] + b;
    assert s[..|a|] == a;
    assert s[|a|] == c;
    if c in a {
      var j := IndexOf(a, c);
      assert s[..j] == a[..j];
    }
  }

  /** Splitting a string glued at a separator is the concatenation of the
      pieces of each side. */
  lemma {:induction false} SplitAt(a: string, c: char, b: string)
    ensures Split(a + [c] + b, c) == Split(a, c) + Split(b, c)
    decreases |a|
  {
    IndexOfGlued(a, c, b);
    if c !in a {
      SplitFirstPiece(a, c, b);
    } else {
      var j := IndexOf(a, c);
      var a' := a[j + 1..];
      SplitFirstSeparator(a, c, b);
      SplitUnfold(a, c);
      SplitAt(a', c, b);
      var p, z, w := [a[..j]], Split(a', c), Split(b, c);
      assert p + (z + w) == (p + z) + w;
    }
  }

  lemma SplitUnfold(s: string, c: char)
    requires c in s
    ensures Split(s, c) == [s[..IndexOf(s, c)]] + Split(s[IndexOf(s, c) + 1..], c)
  {
  }

  lemma SplitFirstSeparator(a: string, c: char, b: string)
    requires c in a
    requires IndexOf(a + [c] + b, c) == IndexOf(a, c)
    ensures Split(a + [c] + b, c) == [a[..IndexOf(a, c)]] + Split(a[IndexOf(a, c) + 1..] + [c] + b, c)
  {
    var j := IndexOf(a, c);
    var s := a + [c] + b;
    SliceGlued(a, [c] + b, j);
    assert s == a + ([c] + b);
    assert a[j + 1..] + ([c] + b) == a[j + 1..] + [c] + b;
    SplitUnfold(s, c);
  }

  lemma SliceGlued(a: string, t: string, j: nat)
    requires j < |a|
    ensures (a + t)[..j] == a[..j]
    ensures (a + t)[j + 1..] == a[j + 1..] + t
  {
  }

  lemma SplitFirstPiece(a: string, c: char, b: string)
    requires c !in a
    requires IndexOf(a + [c] + b, c) == |a|
    ensures Split(a + [c] + b, c) == Split(a, c) + Split(b, c)
  {
    var s := a + [c] + b;
    assert s[..|a|] == a;
    assert s[|a| + 1..] == b;
  }

  /** `c.join(parts)`: the pieces with one separator between neighbours. */
  function Join(parts: seq<string>, c: char): string
    requires parts != []
  {
    if |parts| == 1 then parts[0] else parts[0] + [c] + Join(parts[1..], c)
  }

  /** Pieces free of the separator come back out of the string they were
      joined into. */
  lemma {:induction false} SplitJoin(parts: seq<string>, c: char)
    requires parts != []
    requires forall k :: 0 <= k < |parts| ==> c !in parts[k]
    ensures Split(Join(parts, c), c) == parts
  {
    if |parts| > 1 {
      SplitJoin(parts[1..], c);
      SplitAt(parts[0], c, Join(parts[1..], c));
      assert [parts[0]] + parts[1..] == parts;
    }
  }

  lemma JoinCons(p: string, rest: seq<string>, c: char)
    requires rest != []
    ensures Join([p] + rest, c) == p + [c] + Join(rest, c)
  {
    assert ([p] + rest)[1..] == rest;
  }

  /** Five pieces joined: the separator between each two. */
  lemma Join5(c: char, x1: string, x2: string, x3: string, x4: string, x5: string)
    ensures Join([x1, x2, x3, x4, x5], c) == x1 + [c] + x2 + [c] + x3 + [c] + x4 + [c] + x5
  {
    JoinCons(x4, [x5], c);
    assert [x4] + [x5] == [x4, x5];
    JoinCons(x3, [x4, x5], c);
    assert [x3] + [x4, x5] == [x3, x4, x5];
    JoinCons(x2, [x3, x4, x5], c);
    assert [x2] + [x3, x4, x5] == [x2, x3, x4, x5];
    JoinCons(x1, [x2, x3, x4, x5], c);
    assert [x1] + [x2, x3, x4, x5] == [x1, x2, x3, x4, x5];
  }

  lemma Reassemble(s: string, i: nat)
    requires i < |s|
    ensures s[..i] + [s[i]] + s[i + 1..] == s
  {
  }

  /** Joining the pieces of a split gives the string back. */
  lemma {:induction false} JoinSplit(s: string, c: char)
    ensures Join(Split(s, c), c) == s
    decreases |s|
  {
    if c in s {
      var i := IndexOf(s, c);
      var rest := Split(s[i + 1..], c);
      JoinSplit(s[i + 1..], c);
      SplitUnfold(s, c);
      JoinCons(s[..i], rest, c);
      Reassemble(s, i);
    }
  }

  /** A non-empty run of non-space characters. */
  predicate IsWord(w: string) {
    w != [] && forall j :: 0 <= j < |w| ==> !IsSpace(w[j])
  }

  /** `str.split()` with no argument: the maximal runs of non-space
      characters, in order. */
  function Words(s: string): (ws: seq<string>)
    ensures forall k :: 0 <= k < |ws| ==> IsWord(ws[k])
    decreases |s|
  {
    var t := LStrip(s);
    if t == [] then []
    else
      var n := WordLength(t);
      var rest := Words(t[n..]);
      ConsWords(t[..n], rest);
      [t[..n]] + rest
  }

  lemma ConsWords(w: string, rest: seq<string>)
    requires IsWord(w) && forall k :: 0 <= k < |rest| ==> IsWord(rest[k])
    ensures forall k :: 0 <= k < |[w] + rest| ==> IsWord(([w] + rest)[k])
  {
    forall k | 0 <= k < |[w] + rest|
      ensures IsWord(([w] + rest)[k])
    {
      if k > 0 {
        assert ([w] + rest)[k] == rest[k - 1];
      }
    }
  }

  /** Length of the leading run of non-space characters. */
  function WordLength(s: string): (n: nat)
    ensures n <= |s|
    ensures forall j :: 0 <= j < n ==> !IsSpace(s[j])
    ensures n < |s| ==> IsSpace(s[n])
    ensures s != [] && !IsSpace(s[0]) ==> n >= 1
  {
    if s == [] || IsSpace(s[0]) then 0 else 1 + WordLength(s[1..])
  }
}
