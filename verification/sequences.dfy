/** Generic facts about sequences, kept apart so that proofs about text do not pay for them. */
module Sequences {

  /** The elements of every inner sequence, in order. */
  function Concat<T>(xss: seq<seq<T>>): seq<T> {
    if |xss| == 0 then [] else Concat(xss[..|xss| - 1]) + xss[|xss| - 1]
  }

  /** Each group of pieces joined into one sequence. */
  function Joined<T>(groups: seq<seq<seq<T>>>): (js: seq<seq<T>>)
    ensures |js| == |groups|
    ensures forall i :: 0 <= i < |groups| ==> js[i] == Concat(groups[i])
  {
    seq(|groups|, i requires 0 <= i < |groups| => Concat(groups[i]))
  }

  lemma {:induction false} ConcatAppend<T>(a: seq<seq<T>>, b: seq<seq<T>>)
    ensures Concat(a + b) == Concat(a) + Concat(b)
  {
    if |b| > 0 {
      assert (a + b)[..|a + b| - 1] == a + b[..|b| - 1];
      ConcatAppend(a, b[..|b| - 1]);
    } else {
      assert a + b == a;
    }
  }

  /** The running concatenations of a four-part sequence. */
  lemma ConcatFour<T>(a: seq<T>, b: seq<T>, c: seq<T>, d: seq<T>)
    ensures Concat([a, b, c, d][..0]) == []
    ensures Concat([a, b, c, d][..1]) == a
    ensures Concat([a, b, c, d][..2]) == a + b
    ensures Concat([a, b, c, d][..3]) == a + b + c
    ensures Concat([a, b, c, d][..4]) == a + b + c + d
  {
    var xs := [a, b, c, d];
    assert xs[..0] == [];
    assert xs[..1] == [a] && [a][..0] == [];
    assert xs[..2] == [a, b] && [a, b][..1] == [a];
    assert xs[..3] == [a, b, c] && [a, b, c][..2] == [a, b];
    assert xs[..4] == xs && xs[..3] == [a, b, c];
  }

  lemma {:induction false} ConcatTakeIsPrefix<T>(xss: seq<seq<T>>, k: nat)
    requires k <= |xss|
    ensures Concat(xss[..k]) <= Concat(xss)
  {
    assert xss == xss[..k] + xss[k..];
    ConcatAppend(xss[..k], xss[k..]);
  }

  /** Whole parts before part `i`, then a prefix of part `i` split into pieces, are a prefix of the whole. */
  lemma PartialIsPrefix<T>(xss: seq<seq<T>>, i: nat, pieces: seq<seq<T>>, j: nat)
    requires i < |xss| && j <= |pieces| && Concat(pieces) == xss[i]
    ensures Concat(xss[..i]) + Concat(pieces[..j]) <= Concat(xss)
  {
    ConcatTakeIsPrefix(pieces, j);
    PrefixExtend(Concat(xss[..i]), xss[i], Concat(pieces[..j]));
    ConcatStep(xss, i);
    ConcatTakeIsPrefix(xss, i + 1);
  }

  lemma ConcatStep<T>(xss: seq<seq<T>>, i: nat)
    requires i < |xss|
    ensures Concat(xss[..i + 1]) == Concat(xss[..i]) + xss[i]
  {
    assert xss[..i + 1][..i] == xss[..i];
  }

  /** Appending part `j` to a text that ends in the parts before it. */
  lemma ConcatStepAfter<T>(prefix: seq<T>, xss: seq<seq<T>>, j: nat)
    requires j < |xss|
    ensures prefix + Concat(xss[..j]) + xss[j] == prefix + Concat(xss[..j + 1])
  {
    ConcatStep(xss, j);
  }

  lemma TakeAll<T>(x: seq<T>)
    ensures x[..|x|] == x
  {
  }

  lemma PrefixExtend<T>(x: seq<T>, y: seq<T>, p: seq<T>)
    requires p <= y
    ensures x + p <= x + y
  {
    assert (x + y)[..|x + p|] == x + p;
  }

  /** The fields of `h a mi b sec c ms` when the last six parts have lengths 1, 2, 1, 2, 1, 3. */
  lemma SevenParts<T>(h: seq<T>, a: seq<T>, mi: seq<T>, b: seq<T>, sec: seq<T>, c: seq<T>, ms: seq<T>)
    requires |a| == 1 && |mi| == 2 && |b| == 1 && |sec| == 2 && |c| == 1 && |ms| == 3
    ensures var s := h + a + mi + b + sec + c + ms; var n := |s|;
      && n == |h| + 10
      && s[..n - 10] == h && s[n - 10] == a[0] && s[n - 9..n - 7] == mi && s[n - 7] == b[0]
      && s[n - 6..n - 4] == sec && s[n - 4] == c[0] && s[n - 3..] == ms
  {
  }

  lemma AppendAssoc<T>(a: seq<T>, b: seq<T>, c: seq<T>)
    ensures a + (b + c) == a + b + c
  {
  }

  lemma MiddleOf<T>(x: seq<T>, y: seq<T>, z: seq<T>)
    ensures (x + y + z)[|x|..|x| + |y|] == y
    ensures (x + y + z)[..|x|] == x
    ensures (x + y + z)[|x| + |y|..] == z
  {
  }

  /** The indices `0 .. n - 1` in increasing order. */
  function Range(n: nat): (r: seq<nat>)
    ensures |r| == n
    ensures forall i :: 0 <= i < n ==> r[i] == i
  {
    seq(n, i => i)
  }

  /** The sum of `f` over the elements of `xs`. */
  function SumOver<T>(xs: seq<T>, f: T -> int): int {
    if |xs| == 0 then 0 else SumOver(xs[..|xs| - 1], f) + f(xs[|xs| - 1])
  }

  lemma {:induction false} SumOverAppend<T>(xs: seq<T>, ys: seq<T>, f: T -> int)
    ensures SumOver(xs + ys, f) == SumOver(xs, f) + SumOver(ys, f)
    decreases |ys|
  {
    if |ys| > 0 {
      assert (xs + ys)[..|xs + ys| - 1] == xs + ys[..|ys| - 1];
      SumOverAppend(xs, ys[..|ys| - 1], f);
    } else {
      assert xs + ys == xs;
    }
  }

  lemma MultisetRemoveAt<T>(ys: seq<T>, k: nat)
    requires k < |ys|
    ensures multiset(ys[..k] + ys[k + 1..]) == multiset(ys) - multiset{ys[k]}
  {
    assert ys == ys[..k] + [ys[k]] + ys[k + 1..];
  }

  lemma SumOverSingle<T>(x: T, f: T -> int)
    ensures SumOver([x], f) == f(x)
  {
    assert [x][..0] == [];
  }

  lemma {:induction false} SumOverRemoveAt<T>(ys: seq<T>, k: nat, f: T -> int)
    requires k < |ys|
    ensures SumOver(ys, f) == SumOver(ys[..k] + ys[k + 1..], f) + f(ys[k])
  {
    var a, x, b := ys[..k], ys[k], ys[k + 1..];
    calc {
      SumOver(ys, f);
    == { assert ys == a + ([x] + b); }
      SumOver(a + ([x] + b), f);
    == { SumOverAppend(a, [x] + b, f); SumOverAppend([x], b, f); SumOverSingle(x, f); }
      SumOver(a, f) + f(x) + SumOver(b, f);
    == { SumOverAppend(a, b, f); }
      SumOver(a + b, f) + f(x);
    }
  }

  /** A sum does not depend on the order of its terms. */
  lemma {:induction false} SumOverPermutation<T>(xs: seq<T>, ys: seq<T>, f: T -> int)
    requires multiset(xs) == multiset(ys)
    ensures SumOver(xs, f) == SumOver(ys, f)
    decreases |xs|
  {
    if |xs| > 0 {
      var x := xs[|xs| - 1];
      var rest := xs[..|xs| - 1];
      MultisetRemoveAt(xs, |xs| - 1);
      assert rest == xs[..|xs| - 1] + xs[|xs|..];
      assert x in multiset(ys);
      var k :| 0 <= k < |ys| && ys[k] == x;
      MultisetRemoveAt(ys, k);
      SumOverPermutation(rest, ys[..k] + ys[k + 1..], f);
      SumOverRemoveAt(ys, k, f);
    } else {
      assert |ys| == |multiset(ys)| == 0;
    }
  }
}
