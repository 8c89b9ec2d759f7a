/**
  Sequence operations shared by the loader and the filter engine: a boolean mask
  (`Keep`), the subsequence relation it produces, and row-wise concatenation.
*/
module Seqs {

  /** The elements of `s` that satisfy `p`, in their original order: a boolean mask applied to a table. */
  function Keep<T(==)>(s: seq<T>, p: T -> bool): (r: seq<T>)
    ensures |r| <= |s|
  {
    if s == [] then []
    else if p(s[0]) then [s[0]] + Keep(s[1..], p) else Keep(s[1..], p)
  }

  /** `a` is `b` with some elements deleted: the survivors keep their order and their contents. */
  predicate IsSubsequence<T(==)>(a: seq<T>, b: seq<T>)
    decreases |b|
  {
    a == [] || (b != [] && ((a[0] == b[0] && IsSubsequence(a[1..], b[1..])) || IsSubsequence(a, b[1..])))
  }

  lemma {:induction false} SubsequenceReflexive<T>(s: seq<T>)
    ensures IsSubsequence(s, s)
  {
    if s != [] {
      SubsequenceReflexive(s[1..]);
    }
  }

  lemma {:induction false} SubsequenceTransitive<T>(a: seq<T>, b: seq<T>, c: seq<T>)
    requires IsSubsequence(a, b) && IsSubsequence(b, c)
    ensures IsSubsequence(a, c)
    decreases |c|
  {
    if a != [] {
      if IsSubsequence(b, c[1..]) {
        SubsequenceTransitive(a, b, c[1..]);
      } else if a[0] == b[0] && IsSubsequence(a[1..], b[1..]) {
        SubsequenceTransitive(a[1..], b[1..], c[1..]);
      } else {
        SubsequenceTransitive(a, b[1..], c[1..]);
      }
    }
  }

  /** A subsequence is no longer than the original and holds only elements of it. */
  lemma {:induction false} SubsequenceMembers<T>(a: seq<T>, b: seq<T>)
    requires IsSubsequence(a, b)
    ensures |a| <= |b|
    ensures forall x :: x in a ==> x in b
    decreases |b|
  {
    if a != [] {
      if a[0] == b[0] && IsSubsequence(a[1..], b[1..]) {
        SubsequenceMembers(a[1..], b[1..]);
        assert a == [a[0]] + a[1..];
        assert b == [b[0]] + b[1..];
      } else {
        SubsequenceMembers(a, b[1..]);
        assert b == [b[0]] + b[1..];
      }
    }
  }

  /** Membership in a masked sequence: present in the original and passing the mask. */
  lemma {:induction false} KeepMembers<T>(s: seq<T>, p: T -> bool)
    ensures forall x :: x in Keep(s, p) <==> x in s && p(x)
  {
    if s != [] {
      assert s == [s[0]] + s[1..];
      KeepMembers(s[1..], p);
    }
  }

  lemma {:induction false} KeepIsSubsequence<T>(s: seq<T>, p: T -> bool)
    ensures IsSubsequence(Keep(s, p), s)
  {
    if s != [] {
      KeepIsSubsequence(s[1..], p);
      if p(s[0]) {
        assert Keep(s, p)[1..] == Keep(s[1..], p);
      }
    }
  }

  /** A mask that every element passes is the identity. */
  lemma {:induction false} KeepAll<T>(s: seq<T>, p: T -> bool)
    requires forall x :: x in s ==> p(x)
    ensures Keep(s, p) == s
  {
    if s != [] {
      assert s == [s[0]] + s[1..];
      KeepAll(s[1..], p);
    }
  }

  /** Two masks that agree on every element of `s` select the same rows. */
  lemma {:induction false} KeepCongruent<T>(s: seq<T>, p: T -> bool, q: T -> bool)
    requires forall x :: x in s ==> p(x) == q(x)
    ensures Keep(s, p) == Keep(s, q)
  {
    if s != [] {
      assert s == [s[0]] + s[1..];
      KeepCongruent(s[1..], p, q);
    }
  }

  /** Masking distributes over concatenation. */
  lemma {:induction false} KeepAppend<T>(a: seq<T>, b: seq<T>, p: T -> bool)
    ensures Keep(a + b, p) == Keep(a, p) + Keep(b, p)
  {
    if a == [] {
      assert a + b == b;
    } else {
      assert (a + b)[1..] == a[1..] + b;
      KeepAppend(a[1..], b, p);
    }
  }

  /** Row-wise concatenation of tables, in order. */
  function Flatten<T>(ts: seq<seq<T>>): seq<T>
  {
    if ts == [] then [] else ts[0] + Flatten(ts[1..])
  }

  /** The sum of the lengths of the tables. */
  function TotalLength<T>(ts: seq<seq<T>>): nat
  {
    if ts == [] then 0 else |ts[0]| + TotalLength(ts[1..])
  }

  lemma {:induction false} FlattenLength<T>(ts: seq<seq<T>>)
    ensures |Flatten(ts)| == TotalLength(ts)
  {
    if ts != [] {
      FlattenLength(ts[1..]);
    }
  }

  /** In a chain where each sequence is a subsequence of the one before, every later one is a subsequence of every earlier one. */
  lemma {:induction false} SubsequenceChain<T>(chain: seq<seq<T>>, i: nat, j: nat)
    requires forall k :: 0 <= k < |chain| - 1 ==> IsSubsequence(chain[k + 1], chain[k])
    requires i <= j < |chain|
    ensures IsSubsequence(chain[j], chain[i])
    decreases j
  {
    if i == j {
      SubsequenceReflexive(chain[i]);
    } else {
      SubsequenceChain(chain, i, j - 1);
      SubsequenceTransitive(chain[j], chain[j - 1], chain[i]);
    }
  }

  /**
    Masks applied one after another compose by conjunction: an element survives the
    first `n` masks iff it is in the first sequence and passes each of them.
  */
  lemma {:induction false} KeepChainMembers<T>(chain: seq<seq<T>>, masks: seq<T -> bool>, n: nat)
    requires |chain| == |masks| + 1
    requires forall k :: 0 <= k < |masks| ==> chain[k + 1] == Keep(chain[k], masks[k])
    requires n <= |masks|
    ensures forall x :: x in chain[n] <==> x in chain[0] && forall k :: 0 <= k < n ==> masks[k](x)
  {
    if n > 0 {
      KeepChainMembers(chain, masks, n - 1);
      KeepMembers(chain[n - 1], masks[n - 1]);
    }
  }

  /** Two masks applied in turn are one mask that asks for both. */
  lemma {:induction false} KeepKeep<T>(s: seq<T>, p: T -> bool, q: T -> bool)
    ensures Keep(Keep(s, p), q) == Keep(s, x => p(x) && q(x))
  {
    if s != [] {
      KeepKeep(s[1..], p, q);
      if p(s[0]) {
        assert Keep(s, p)[1..] == Keep(s[1..], p);
      }
    }
  }

  /** `x` passes each of the first `n` masks. */
  predicate PassesAll<T>(masks: seq<T -> bool>, n: nat, x: T)
  {
    forall k :: 0 <= k < n && k < |masks| ==> masks[k](x)
  }

  /** The sequence after `n` masks is the first sequence under the single mask "passes all `n`". */
  lemma {:induction false} KeepChainAll<T>(chain: seq<seq<T>>, masks: seq<T -> bool>, n: nat)
    requires |chain| == |masks| + 1
    requires forall k :: 0 <= k < |masks| ==> chain[k + 1] == Keep(chain[k], masks[k])
    requires n <= |masks|
    ensures chain[n] == Keep(chain[0], x => PassesAll(masks, n, x))
  {
    if n == 0 {
      KeepAll(chain[0], x => PassesAll(masks, 0, x));
    } else {
      KeepChainAll(chain, masks, n - 1);
      var before := x => PassesAll(masks, n - 1, x);
      KeepKeep(chain[0], before, masks[n - 1]);
      KeepCongruent(chain[0], x => before(x) && masks[n - 1](x), x => PassesAll(masks, n, x));
    }
  }

  /** One of the first `n` flags is set. */
  predicate AnyUpTo(flags: seq<bool>, n: nat)
    requires n <= |flags|
  {
    n > 0 && (AnyUpTo(flags, n - 1) || flags[n - 1])
  }

  lemma {:induction false} AnyUpToIff(flags: seq<bool>, n: nat)
    requires n <= |flags|
    ensures AnyUpTo(flags, n) <==> exists i :: 0 <= i < n && flags[i]
  {
    if n > 0 {
      AnyUpToIff(flags, n - 1);
    }
  }

  lemma {:induction false} AnyUpToMonotone(flags: seq<bool>, i: nat, j: nat)
    requires i <= j <= |flags| && AnyUpTo(flags, i)
    ensures AnyUpTo(flags, j)
    decreases j
  {
    if i < j {
      AnyUpToMonotone(flags, i, j - 1);
    }
  }
}
