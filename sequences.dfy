/** Sums, running offsets (numpy.cumsum with a leading 0) and concatenation of sequences. */
module Sequences {

  function Sum(s: seq<nat>): nat
  {
    if s == [] then 0 else Sum(s[..|s| - 1]) + s[|s| - 1]
  }

  /** Summing one more element of s adds that element. */
  lemma {:induction false} SumPrefixes(s: seq<nat>)
    ensures forall i :: 0 <= i < |s| ==> Sum(s[..i + 1]) == Sum(s[..i]) + s[i]
  {
    forall i | 0 <= i < |s|
      ensures Sum(s[..i + 1]) == Sum(s[..i]) + s[i]
    {
      assert s[..i + 1][..i] == s[..i];
    }
  }

  /** The running totals [0, s[0], s[0] + s[1], ...]: entry i is where block i starts. */
  function Offsets(s: seq<nat>): (r: seq<nat>)
    ensures |r| == |s| + 1
    ensures r[0] == 0 && r[|s|] == Sum(s)
    ensures forall i :: 0 <= i < |s| ==> r[i + 1] == r[i] + s[i]
  {
    SumPrefixes(s);
    assert s[..|s|] == s;
    seq(|s| + 1, i requires 0 <= i <= |s| => Sum(s[..i]))
  }

  lemma {:induction false} OffsetsMonotone(s: seq<nat>, i: nat, j: nat)
    requires i <= j <= |s|
    ensures Offsets(s)[i] <= Offsets(s)[j]
  {
    if i < j {
      OffsetsMonotone(s, i, j - 1);
    }
  }

  /** The offsets of a prefix are a prefix of the offsets. */
  lemma {:induction false} OffsetsPrefix(s: seq<nat>, n: nat)
    requires n <= |s|
    ensures Offsets(s[..n]) == Offsets(s)[..n + 1]
  {
    forall i | 0 <= i <= n
      ensures Offsets(s[..n])[i] == Offsets(s)[i]
    {
      assert s[..n][..i] == s[..i];
    }
  }

  function Concat<T>(ss: seq<seq<T>>): seq<T>
  {
    if ss == [] then [] else Concat(ss[..|ss| - 1]) + ss[|ss| - 1]
  }

  function Lengths<T>(ss: seq<seq<T>>): (r: seq<nat>)
    ensures |r| == |ss| && forall i :: 0 <= i < |ss| ==> r[i] == |ss[i]|
  {
    seq(|ss|, i requires 0 <= i < |ss| => |ss[i]|)
  }

  lemma {:induction false} AppendAssoc<T>(a: seq<T>, b: seq<T>, c: seq<T>)
    ensures a + (b + c) == (a + b) + c
  {
  }

  lemma {:induction false} ConcatLength<T>(ss: seq<seq<T>>)
    ensures |Concat(ss)| == Sum(Lengths(ss))
  {
    if ss != [] {
      var p := ss[..|ss| - 1];
      ConcatLength(p);
      assert Lengths(ss)[..|ss| - 1] == Lengths(p);
    }
  }

  /** Element k of block i sits at position Offsets(Lengths(ss))[i] + k of the concatenation. */
  lemma {:induction false} ConcatAt<T>(ss: seq<seq<T>>, i: nat, k: nat)
    requires i < |ss| && k < |ss[i]|
    ensures |Concat(ss)| == Sum(Lengths(ss))
    ensures Offsets(Lengths(ss))[i] + k < |Concat(ss)|
    ensures Concat(ss)[Offsets(Lengths(ss))[i] + k] == ss[i][k]
  {
    ConcatLength(ss);
    var n := |ss|;
    var p := ss[..n - 1];
    var L, Lp := Lengths(ss), Lengths(p);
    assert L[..n - 1] == Lp;
    OffsetsPrefix(L, n - 1);
    assert Offsets(Lp)[i] == Offsets(L)[i];
    ConcatLength(p);
    var c, cp := Concat(ss), Concat(p);
    assert c == cp + ss[n - 1];
    if i < n - 1 {
      ConcatAt(p, i, k);
      assert c[Offsets(Lp)[i] + k] == cp[Offsets(Lp)[i] + k];
    } else {
      assert Offsets(Lp)[i] == |cp|;
    }
  }
}
