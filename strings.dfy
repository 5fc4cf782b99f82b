/**
 Strings: the two string operations the employee store relies on.
 - `LexLess` is the ordering Python uses to compare `str` values (code point
   by code point, a proper prefix first). The grouped results of the store
   are keyed by department in this order, so it decides ties in
   `Queries.HighestSalaryDep`.
 - `Join` is `'-'.join(parts)`; `Split` is `s.split('-')`, its inverse on
   parts that contain no separator.
 */
module Strings {

  /** The separator used when the employee names are displayed. */
  const Sep: char := '-'

  /** The length of the longest common prefix of `a` and `b`. */
  function CommonPrefix(a: string, b: string): (k: nat)
    ensures k <= |a| && k <= |b|
    ensures a[..k] == b[..k]
    ensures k < |a| && k < |b| ==> a[k] != b[k]
    decreases |a|
  {
    if |a| > 0 && |b| > 0 && a[0] == b[0] then
      var k := 1 + CommonPrefix(a[1..], b[1..]);
      assert a[..k] == [a[0]] + a[1..][..k - 1] && b[..k] == [b[0]] + b[1..][..k - 1];
      assert k < |a| && k < |b| ==> a[k] == a[1..][k - 1] && b[k] == b[1..][k - 1];
      k
    else 0
  }

  /** Python's `a < b` on strings: at the first position where they differ
      the smaller code point wins, and a proper prefix comes first. */
  predicate LexLess(a: string, b: string)
    ensures LexLess(a, b) <==>
      var k := CommonPrefix(a, b);
      (k == |a| && k < |b|) || (k < |a| && k < |b| && a[k] < b[k])
    decreases |a|
  {
    if |a| == 0 then |b| > 0
    else if |b| == 0 then false
    else
      var k := CommonPrefix(a, b);
      assert a[0] == b[0] ==> k == 1 + CommonPrefix(a[1..], b[1..]) && (k < |a| && k < |b| ==> a[k] == a[1..][k - 1] && b[k] == b[1..][k - 1]);
      a[0] < b[0] || (a[0] == b[0] && LexLess(a[1..], b[1..]))
  }

  lemma {:induction false} LexLessIrreflexive(a: string)
    ensures !LexLess(a, a)
    decreases |a|
  {
    if |a| > 0 {
      LexLessIrreflexive(a[1..]);
    }
  }

  lemma {:induction false} LexLessTransitive(a: string, b: string, c: string)
    requires LexLess(a, b) && LexLess(b, c)
    ensures LexLess(a, c)
    decreases |a|
  {
    if |a| > 0 && a[0] == b[0] && b[0] == c[0] {
      LexLessTransitive(a[1..], b[1..], c[1..]);
    }
  }

  /** Two different strings are always ordered one way or the other. */
  lemma {:induction false} LexLessTotal(a: string, b: string)
    requires a != b
    ensures LexLess(a, b) || LexLess(b, a)
    decreases |a|
  {
    if |a| > 0 && |b| > 0 && a[0] == b[0] {
      assert a == [a[0]] + a[1..] && b == [b[0]] + b[1..];
      LexLessTotal(a[1..], b[1..]);
    }
  }

  lemma LexLessAsymmetric(a: string, b: string)
    requires LexLess(a, b)
    ensures !LexLess(b, a)
  {
    if LexLess(b, a) {
      LexLessTransitive(a, b, a);
      LexLessIrreflexive(a);
    }
  }

  /** The length of a join: every part, plus one separator between neighbours. */
  function TotalLength(parts: seq<string>): nat
  {
    if |parts| == 0 then 0 else |parts[0]| + TotalLength(parts[1..])
  }

  /** Where `parts[i]` starts in `'-'.join(parts)`: after the earlier parts and their separators. */
  function Offset(parts: seq<string>, i: nat): nat
    requires i <= |parts|
  {
    TotalLength(parts[..i]) + i
  }

  /** `parts[i]` stands in `s` at its offset, followed by the separator unless it is the last part. */
  predicate PartAt(s: string, parts: seq<string>, i: nat)
    requires i < |parts|
  {
    var o := Offset(parts, i);
    && o + |parts[i]| <= |s|
    && s[o..o + |parts[i]|] == parts[i]
    && (i + 1 < |parts| ==> o + |parts[i]| < |s| && s[o + |parts[i]|] == Sep)
  }

  /** `'-'.join(parts)`: every part in its place with a separator between
      neighbours, and nothing else. */
  function Join(parts: seq<string>): (r: string)
    ensures |parts| > 0 ==> |r| == TotalLength(parts) + |parts| - 1
    ensures forall i :: 0 <= i < |parts| ==> PartAt(r, parts, i)
  {
    if |parts| == 0 then ""
    else if |parts| == 1 then
      assert parts[..0] == [];
      parts[0]
    else
      var rest := Join(parts[1..]);
      var r := parts[0] + [Sep] + rest;
      assert forall i :: 0 <= i < |parts| ==> PartAt(r, parts, i) by {
        forall i | 0 <= i < |parts| ensures PartAt(r, parts, i) {
          PartAtCons(parts, rest, i);
        }
      }
      r
  }

  /** A part of the tail keeps its place, shifted by the head and one separator. */
  lemma PartAtCons(parts: seq<string>, rest: string, i: nat)
    requires |parts| >= 2 && i < |parts|
    requires forall j :: 0 <= j < |parts| - 1 ==> PartAt(rest, parts[1..], j)
    requires |rest| == TotalLength(parts[1..]) + |parts| - 2
    ensures PartAt(parts[0] + [Sep] + rest, parts, i)
  {
    var r := parts[0] + [Sep] + rest;
    var k := |parts[0]| + 1;
    assert r[k..] == rest;
    if i == 0 {
      assert parts[..0] == [];
      assert r[0..|parts[0]|] == parts[0];
    } else {
      var o := Offset(parts[1..], i - 1);
      assert Offset(parts, i) == k + o by {
        assert parts[..i][1..] == parts[1..][..i - 1];
      }
      assert PartAt(rest, parts[1..], i - 1);
      assert parts[1..][i - 1] == parts[i];
      var n := |parts[i]|;
      assert r[k + o..k + o + n] == rest[o..o + n];
      if i + 1 < |parts| {
        assert r[k + o + n] == rest[o + n];
      }
    }
  }

  /** `s.split('-')`: never empty, no part holds the separator, and joining
      the parts with '-' gives `s` back. */
  function Split(s: string): (r: seq<string>)
    ensures |r| > 0
    ensures forall i :: 0 <= i < |r| ==> Sep !in r[i]
    ensures Join(r) == s
    decreases |s|
  {
    if |s| == 0 then [""]
    else
      var rest := Split(s[1..]);
      if s[0] == Sep then
        var r := [""] + rest;
        assert r[1..] == rest;
        assert s == [Sep] + s[1..];
        r
      else
        var head := [s[0]] + rest[0];
        var r := [head] + rest[1..];
        assert r[1..] == rest[1..];
        assert forall i :: 1 <= i < |r| ==> r[i] == rest[i];
        assert s == [s[0]] + s[1..];
        assert |rest| > 1 ==> Join(rest) == rest[0] + [Sep] + Join(rest[1..]);
        r
  }

  lemma {:induction false} SplitNoSep(a: string)
    requires Sep !in a
    ensures Split(a) == [a]
    decreases |a|
  {
    if |a| > 0 {
      assert Sep !in a[1..] by {
        forall k | 0 <= k < |a[1..]| ensures a[1..][k] != Sep {
          assert a[1..][k] == a[k + 1];
        }
      }
      SplitNoSep(a[1..]);
      assert [a[0]] + a[1..] == a;
    }
  }

  lemma {:induction false} SplitAtFirstSep(a: string, b: string)
    requires Sep !in a
    ensures Split(a + [Sep] + b) == [a] + Split(b)
    decreases |a|
  {
    var s := a + [Sep] + b;
    if |a| == 0 {
      assert s == [Sep] + b;
      assert s[1..] == b;
    } else {
      assert s[1..] == a[1..] + [Sep] + b;
      assert Sep !in a[1..] by {
        forall k | 0 <= k < |a[1..]| ensures a[1..][k] != Sep {
          assert a[1..][k] == a[k + 1];
        }
      }
      SplitAtFirstSep(a[1..], b);
      assert [a[0]] + a[1..] == a;
    }
  }

  /** Splitting a join gives the parts back, when no part holds the separator.
      (`[]` and `[""]` both join to `""`, so the empty list is excluded.) */
  lemma {:induction false} SplitJoin(parts: seq<string>)
    requires |parts| > 0
    requires forall i :: 0 <= i < |parts| ==> Sep !in parts[i]
    ensures Split(Join(parts)) == parts
  {
    if |parts| == 1 {
      SplitNoSep(parts[0]);
    } else {
      SplitJoin(parts[1..]);
      SplitAtFirstSep(parts[0], Join(parts[1..]));
      assert [parts[0]] + parts[1..] == parts;
    }
  }
}
