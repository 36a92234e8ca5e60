/** The JavaScript string operations the resolution-key parser of index.js is
    built from: String.prototype.split with a one-character separator,
    String.prototype.trim, and the split at every `@` that is not the string's
    first character (the regular expression `/(?<!^)@/`). */
module Strings {

  /** The characters String.prototype.trim removes: the ECMAScript WhiteSpace
      code points (tab, vertical tab, form feed, space, no-break space, the
      byte-order mark and the Unicode space separators) and the four
      LineTerminator code points. */
  predicate IsWhiteSpace(ch: char) {
    || ch == '\t' || ch == '\n' || ch == '\U{B}' || ch == '\U{C}' || ch == '\r'
    || ch == ' ' || ch == '\U{A0}' || ch == '\U{1680}'
    || ('\U{2000}' <= ch <= '\U{200A}')
    || ch == '\U{2028}' || ch == '\U{2029}' || ch == '\U{202F}' || ch == '\U{205F}'
    || ch == '\U{3000}' || ch == '\U{FEFF}'
  }

  /** The number of occurrences of `c` in `s`. */
  function Count(s: string, c: char): nat {
    if s == [] then 0 else (if s[0] == c then 1 else 0) + Count(s[1..], c)
  }

  lemma {:induction false} CountZero(s: string, c: char)
    ensures Count(s, c) == 0 <==> c !in s
  {
    if s != [] {
      CountZero(s[1..], c);
      assert s == [s[0]] + s[1..];
    }
  }

  /** Array.prototype.join with a one-character separator: the parts with `c`
      between each two neighbours. */
  function Join(parts: seq<string>, c: char): string {
    if parts == [] then []
    else if |parts| == 1 then parts[0]
    else parts[0] + [c] + Join(parts[1..], c)
  }

  /** Joining after gluing `x` in front of the first part is gluing `x` in front
      of the joined string. */
  lemma JoinPrepend(x: string, p: seq<string>, c: char)
    requires p != []
    ensures Join([x + p[0]] + p[1..], c) == x + Join(p, c)
  {
    var q := [x + p[0]] + p[1..];
    assert q[1..] == p[1..];
  }

  /** Every character of every part occurs in the joined string, at the offset
      the parts before it and their separators push it to. */
  lemma {:induction false} JoinContains(parts: seq<string>, c: char, i: nat, k: nat)
    requires i < |parts| && k < |parts[i]|
    ensures parts[i][k] in Join(parts, c)
  {
    if i == 0 {
      if |parts| > 1 {
        assert Join(parts, c)[k] == parts[0][k];
      }
    } else {
      JoinContains(parts[1..], c, i - 1, k);
      var rest := Join(parts[1..], c);
      var j :| 0 <= j < |rest| && rest[j] == parts[i][k];
      assert Join(parts, c)[|parts[0]| + 1 + j] == rest[j];
    }
  }

  /** The first part is a prefix of the joined string, followed there by the
      separator exactly when there is a second part. */
  lemma JoinFirst(parts: seq<string>, c: char)
    requires parts != []
    ensures |parts[0]| <= |Join(parts, c)|
    ensures Join(parts, c)[..|parts[0]|] == parts[0]
    ensures |parts| == 1 <==> |parts[0]| == |Join(parts, c)|
    ensures |parts| > 1 ==> Join(parts, c)[|parts[0]|] == c
  {
  }

  /** String.prototype.split(c) for a one-character separator `c`: the maximal
      pieces of `s` between occurrences of `c`. There is always one piece more
      than there are separators, so the empty string gives `[""]`. */
  function SplitOn(s: string, c: char): (r: seq<string>)
    ensures |r| == Count(s, c) + 1
    ensures forall i :: 0 <= i < |r| ==> c !in r[i]
    ensures Join(r, c) == s
  {
    if s == [] then [[]]
    else
      var rest := SplitOn(s[1..], c);
      if s[0] == c then
        assert s == [c] + s[1..];
        [[]] + rest
      else
        JoinPrepend([s[0]], rest, c);
        assert s == [s[0]] + s[1..];
        [[s[0]] + rest[0]] + rest[1..]
  }

  /** When `c` does not occur in `a`, the first piece of `a + b` starts with all of `a`. */
  lemma {:induction false} SplitOnFirstAppend(a: string, b: string, c: char)
    requires c !in a
    ensures SplitOn(a + b, c)[0] == a + SplitOn(b, c)[0]
  {
    if a != [] {
      assert (a + b)[1..] == a[1..] + b;
      assert SplitOn(a + b, c)[0] == [a[0]] + SplitOn(a[1..] + b, c)[0];
      SplitOnFirstAppend(a[1..], b, c);
      var x := SplitOn(b, c)[0];
      assert a + x == [a[0]] + (a[1..] + x);
    } else {
      assert a + b == b;
    }
  }

  /** Splitting `a + [c] + b` where `c` does not occur in `a` gives `a` and then the pieces of `b`. */
  lemma {:induction false} SplitOnAppend(a: string, b: string, c: char)
    requires c !in a
    ensures SplitOn(a + [c] + b, c) == [a] + SplitOn(b, c)
  {
    if a == [] {
      assert a + [c] + b == [c] + b;
      assert ([c] + b)[1..] == b;
    } else {
      assert (a + [c] + b)[1..] == a[1..] + [c] + b;
      SplitOnAppend(a[1..], b, c);
      assert a == [a[0]] + a[1..];
    }
  }

  /** A string without the separator is a single piece. */
  lemma SplitOnNone(s: string, c: char)
    requires c !in s
    ensures SplitOn(s, c) == [s]
  {
    CountZero(s, c);
  }

  /** Split is the inverse of join on parts that do not contain the separator. */
  lemma {:induction false} SplitOnJoin(parts: seq<string>, c: char)
    requires parts != []
    requires forall i :: 0 <= i < |parts| ==> c !in parts[i]
    ensures SplitOn(Join(parts, c), c) == parts
  {
    if |parts| == 1 {
      SplitOnNone(parts[0], c);
    } else {
      SplitOnJoin(parts[1..], c);
      SplitOnAppend(parts[0], Join(parts[1..], c), c);
      assert [parts[0]] + parts[1..] == parts;
    }
  }

  /** `s` without its leading white space. */
  function TrimStart(s: string): (r: string)
    ensures |r| <= |s| && r == s[|s| - |r|..]
    ensures forall k :: 0 <= k < |s| - |r| ==> IsWhiteSpace(s[k])
    ensures r == [] || !IsWhiteSpace(r[0])
  {
    if s != [] && IsWhiteSpace(s[0]) then TrimStart(s[1..]) else s
  }

  /** `s` without its trailing white space. */
  function TrimEnd(s: string): (r: string)
    ensures |r| <= |s| && r == s[..|r|]
    ensures forall k :: |r| <= k < |s| ==> IsWhiteSpace(s[k])
    ensures r == [] || !IsWhiteSpace(r[|r| - 1])
  {
    if s != [] && IsWhiteSpace(s[|s| - 1]) then TrimEnd(s[..|s| - 1]) else s
  }

  /** `r` is `s` with all of its leading and all of its trailing white space
      removed: a slice of `s` whose outside is white space and whose ends are not. */
  ghost predicate IsTrimOf(r: string, s: string) {
    && (r == [] || (!IsWhiteSpace(r[0]) && !IsWhiteSpace(r[|r| - 1])))
    && exists i, j ::
         && 0 <= i <= j <= |s| && r == s[i..j]
         && (forall k :: 0 <= k < i ==> IsWhiteSpace(s[k]))
         && (forall k :: j <= k < |s| ==> IsWhiteSpace(s[k]))
  }

  /** String.prototype.trim. */
  function Trim(s: string): (r: string)
    ensures IsTrimOf(r, s)
  {
    var t := TrimStart(s);
    var r := TrimEnd(t);
    var i := |s| - |t|;
    assert s[i..i + |r|] == r;
    r
  }

  /** The first and last characters of a non-empty slice. */
  lemma SliceEnds(r: string, s: string, i: int, j: int)
    ensures 0 <= i <= j <= |s| && r == s[i..j] && r != [] ==>
      s[i] == r[0] && s[j - 1] == r[|r| - 1]
  {
  }

  /** There is only one way to trim a string: `IsTrimOf` determines `Trim`. */
  lemma TrimUnique(r1: string, r2: string, s: string)
    requires IsTrimOf(r1, s) && IsTrimOf(r2, s)
    ensures r1 == r2
  {
    var i1, j1 :| 0 <= i1 <= j1 <= |s| && r1 == s[i1..j1]
      && (forall k :: 0 <= k < i1 ==> IsWhiteSpace(s[k]))
      && (forall k :: j1 <= k < |s| ==> IsWhiteSpace(s[k]));
    var i2, j2 :| 0 <= i2 <= j2 <= |s| && r2 == s[i2..j2]
      && (forall k :: 0 <= k < i2 ==> IsWhiteSpace(s[k]))
      && (forall k :: j2 <= k < |s| ==> IsWhiteSpace(s[k]));
    SliceEnds(r1, s, i1, j1);
    SliceEnds(r2, s, i2, j2);
    if r1 != [] && r2 != [] {
      assert !(i1 < i2) && !(i2 < i1);
      assert !(j1 < j2) && !(j2 < j1);
    }
  }

  /** Trimming a string that starts and ends with non-white-space leaves it unchanged. */
  lemma TrimNone(s: string)
    requires s == [] || (!IsWhiteSpace(s[0]) && !IsWhiteSpace(s[|s| - 1]))
    ensures Trim(s) == s
  {
    assert IsTrimOf(s, s) by {
      assert s == s[0..|s|];
    }
    TrimUnique(Trim(s), s, s);
  }

  /** Trimming never introduces a character. */
  lemma TrimContains(s: string, k: nat)
    requires k < |Trim(s)|
    ensures Trim(s)[k] in s
  {
    var r := Trim(s);
    var i, j :| 0 <= i <= j <= |s| && r == s[i..j];
    assert r[k] == s[i..j][k] == s[i + k];
  }

  /** Leading white space is removed up to the first non-white-space character. */
  lemma {:induction false} TrimStartPad(pad: string, x: string)
    requires forall k :: 0 <= k < |pad| ==> IsWhiteSpace(pad[k])
    requires x != [] && !IsWhiteSpace(x[0])
    ensures TrimStart(pad + x) == x
  {
    if pad != [] {
      assert (pad + x)[1..] == pad[1..] + x;
      TrimStartPad(pad[1..], x);
    }
  }

  /** Trailing white space never reaches into a prefix `u` that ends in non-white-space. */
  lemma {:induction false} TrimEndAfter(u: string, v: string)
    requires u != [] && !IsWhiteSpace(u[|u| - 1])
    ensures TrimEnd(u + v) == u + TrimEnd(v)
  {
    if v != [] && IsWhiteSpace(v[|v| - 1]) {
      assert (u + v)[..|u + v| - 1] == u + v[..|v| - 1];
      TrimEndAfter(u, v[..|v| - 1]);
    } else if v == [] {
      assert u + v == u;
    }
  }

  /** Trimming `pad + u + v` where `pad` is white space and `u` starts and ends
      with non-white-space keeps all of `u`. */
  lemma TrimAround(pad: string, u: string, v: string)
    requires forall k :: 0 <= k < |pad| ==> IsWhiteSpace(pad[k])
    requires u != [] && !IsWhiteSpace(u[0]) && !IsWhiteSpace(u[|u| - 1])
    ensures Trim(pad + u + v) == u + TrimEnd(v)
  {
    assert pad + u + v == pad + (u + v);
    TrimStartPad(pad, u + v);
    TrimEndAfter(u, v);
  }

  /** The split `s.split(/(?<!^)@/)` generalised to any separator `c`: `s` cut
      at every occurrence of `c` whose index is greater than 0. An occurrence at
      index 0 stays part of the first piece. */
  function SplitAtNonInitial(s: string, c: char): (r: seq<string>)
    ensures s == [] ==> r == [[]]
    ensures s != [] ==> |r| == Count(s[1..], c) + 1
    ensures r != [] && Join(r, c) == s
    ensures forall k :: 0 < k < |r[0]| ==> r[0][k] != c
    ensures forall i :: 1 <= i < |r| ==> c !in r[i]
  {
    if s == [] then [[]]
    else
      var p := SplitOn(s[1..], c);
      JoinPrepend([s[0]], p, c);
      assert s == [s[0]] + s[1..];
      assert forall k :: 0 < k < |[s[0]] + p[0]| ==> ([s[0]] + p[0])[k] == p[0][k - 1];
      [[s[0]] + p[0]] + p[1..]
  }

  /** The first piece of the non-initial split: the longest prefix of `s`
      without `c` after its first character. */
  lemma FirstPieceAtNonInitial(s: string, c: char)
    ensures var n := SplitAtNonInitial(s, c)[0];
      && |n| <= |s| && n == s[..|n|]
      && (forall k :: 0 < k < |n| ==> n[k] != c)
      && (|n| < |s| ==> 0 < |n| && s[|n|] == c)
  {
    var r := SplitAtNonInitial(s, c);
    JoinFirst(r, c);
  }

  /** When the first character of `u` is followed by no `c`, the first piece of
      the non-initial split of `u + [c] + w` is `u`. */
  lemma SplitAtNonInitialFirst(u: string, w: string, c: char)
    requires u != [] && c !in u[1..]
    ensures SplitAtNonInitial(u + [c] + w, c)[0] == u
  {
    var s := u + [c] + w;
    assert s[1..] == u[1..] + ([c] + w);
    SplitOnFirstAppend(u[1..], [c] + w, c);
    assert u == [u[0]] + u[1..];
  }
}
