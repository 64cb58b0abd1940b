/** `merge_desc_to_asc` (src/lib.rs:74-123): merges a strictly descending
    vector `a` with a non-increasing stream `b` into one strictly ascending,
    duplicate-free list.

    The source recurses down both inputs, clears `a` at the bottom and pushes
    on the way back up; every read of `a` happens before the clear. So the
    vector it leaves behind is the sequence of pushes in unwinding order, which
    is what `MergeInner` returns for the same `(a, idx, b)`. */
module Merge {

  predicate StrictlyAscending(s: seq<int>) {
    forall i, j :: 0 <= i < j < |s| ==> s[i] < s[j]
  }

  predicate StrictlyDescending(s: seq<int>) {
    forall i, j :: 0 <= i < j < |s| ==> s[i] > s[j]
  }

  predicate NonDecreasing(s: seq<int>) {
    forall i, j :: 0 <= i < j < |s| ==> s[i] <= s[j]
  }

  predicate NonIncreasing(s: seq<int>) {
    forall i, j :: 0 <= i < j < |s| ==> s[i] >= s[j]
  }

  lemma AppendAscending(r: seq<int>, v: int)
    requires StrictlyAscending(r) && forall x :: x in r ==> x < v
    ensures StrictlyAscending(r + [v])
  {
    assert forall i :: 0 <= i < |r| ==> r[i] in r;
  }

  /** After a head that the next element does not repeat, a non-increasing
      sequence stays strictly below its head. */
  lemma TailBelow(b: seq<int>)
    requires |b| > 0 && NonIncreasing(b)
    requires |b| == 1 || b[1] != b[0]
    ensures forall x :: x in b[1..] ==> x < b[0]
  {
    forall x | x in b[1..]
      ensures x < b[0]
    {
      var i :| 0 <= i < |b[1..]| && b[1..][i] == x;
      if i > 0 {
        assert b[1] >= b[i + 1];
      }
    }
  }

  /** A strictly descending sequence whose element at i is below v stays
      below v from i on. */
  lemma DescendingSuffixBelow(a: seq<int>, i: nat, v: int)
    requires StrictlyDescending(a) && i <= |a|
    requires i < |a| ==> a[i] < v
    ensures forall x :: x in a[i..] ==> x < v
  {
    forall x | x in a[i..]
      ensures x < v
    {
      var j :| i <= j < |a| && a[j] == x;
      if i < j {
        assert a[i] > a[j];
      }
    }
  }

  /** `merge_desc_to_asc_inner(a, idx, b)`: the contents of `a` afterwards. A
      value of `b` is pushed only when the next value of `b` differs from it,
      and a value at the heads of both inputs consumes one element of each.
      Whatever the order of the inputs, nothing is lost and nothing is made
      up. */
  function MergeInner(a: seq<int>, idx: nat, b: seq<int>): (r: seq<int>)
    requires idx <= |a|
    ensures forall x :: x in r <==> x in a[idx..] || x in b
    decreases |a| - idx + |b|
  {
    if idx >= |a| then
      if |b| > 0 then
        var value := b[0];
        var rest := b[1..];
        var r := MergeInner(a, idx, rest);
        if |rest| > 0 && rest[0] == value then r else r + [value]
      else
        []
    else
      var va := a[idx];
      if |b| > 0 then
        var vb := b[0];
        if va > vb then
          MergeInner(a, idx + 1, b) + [va]
        else
          var rest := b[1..];
          var r := MergeInner(a, if va == vb then idx + 1 else idx, rest);
          if |rest| > 0 && rest[0] == vb then r else r + [vb]
      else
        MergeInner(a, idx + 1, b) + [va]
  }

  /** With `a` strictly descending and `b` non-increasing, as the source
      documents its inputs, the merge is strictly ascending: every push is
      larger than everything pushed before it, and equal values collapse. */
  lemma {:induction false} MergeInnerAscending(a: seq<int>, idx: nat, b: seq<int>)
    requires idx <= |a|
    requires StrictlyDescending(a) && NonIncreasing(b)
    ensures StrictlyAscending(MergeInner(a, idx, b))
    decreases |a| - idx + |b|
  {
    if idx >= |a| {
      if |b| > 0 {
        var rest := b[1..];
        MergeInnerAscending(a, idx, rest);
        assert a[idx..] == [];
        if !(|rest| > 0 && rest[0] == b[0]) {
          TailBelow(b);
          AppendAscending(MergeInner(a, idx, rest), b[0]);
        }
      }
    } else {
      var va := a[idx];
      if |b| > 0 {
        var vb := b[0];
        if va > vb {
          MergeInnerAscending(a, idx + 1, b);
          DescendingSuffixBelow(a, idx + 1, va);
          assert forall x :: x in b ==> x <= vb;
          AppendAscending(MergeInner(a, idx + 1, b), va);
        } else {
          var rest := b[1..];
          var idx' := if va == vb then idx + 1 else idx;
          MergeInnerAscending(a, idx', rest);
          if !(|rest| > 0 && rest[0] == vb) {
            TailBelow(b);
            DescendingSuffixBelow(a, idx', vb);
            AppendAscending(MergeInner(a, idx', rest), vb);
          }
        }
      } else {
        MergeInnerAscending(a, idx + 1, b);
        DescendingSuffixBelow(a, idx + 1, va);
        AppendAscending(MergeInner(a, idx + 1, b), va);
      }
    }
  }

  /** `merge_desc_to_asc(a, b)`: the merge started at the front of both. */
  function MergeDescToAsc(a: seq<int>, b: seq<int>): (r: seq<int>)
    ensures forall x :: x in r <==> x in a || x in b
  {
    assert a[0..] == a;
    MergeInner(a, 0, b)
  }

  /** For a strictly descending `a` and a non-increasing `b` the merge is the
      strictly ascending, duplicate-free union of the two. */
  lemma MergeDescToAscSorted(a: seq<int>, b: seq<int>)
    requires StrictlyDescending(a) && NonIncreasing(b)
    ensures StrictlyAscending(MergeDescToAsc(a, b))
  {
    MergeInnerAscending(a, 0, b);
  }

  /** The example of the source's own test. */
  lemma MergeExample()
    ensures MergeDescToAsc([3, 2, 1], [4, 3, 2, 1]) == [1, 2, 3, 4]
  {
  }

  /** A vector with a repeated value keeps the repeat: the merge does not
      deduplicate `a` itself, which is why its callers pass a duplicate-free
      `a`. */
  lemma MergeKeepsRepeatsOfA()
    ensures MergeDescToAsc([3, 3], []) == [3, 3]
  {
  }
}
