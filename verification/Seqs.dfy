/** Position-based list edits shared by the builder and the question editor. */
module Seqs {

  /** Every element except the one at position `k`: the source's `list.filter((_, i) => i !== k)`.
      An index outside the list keeps every element. */
  function RemoveAt<T>(s: seq<T>, k: int): (r: seq<T>)
    ensures 0 <= k < |s| ==> |r| == |s| - 1
    ensures 0 <= k < |s| ==> forall i :: 0 <= i < k ==> r[i] == s[i]
    ensures 0 <= k < |s| ==> forall i :: k <= i < |r| ==> r[i] == s[i + 1]
    ensures !(0 <= k < |s|) ==> r == s
  {
    if 0 <= k < |s| then s[..k] + s[k + 1..] else s
  }

  /** Removing one position loses exactly that one element. */
  lemma RemoveAtMultiset<T>(s: seq<T>, k: int)
    requires 0 <= k < |s|
    ensures multiset(RemoveAt(s, k)) + multiset{s[k]} == multiset(s)
  {
    assert s == s[..k] + [s[k]] + s[k + 1..];
  }

  /** Reference description of a move: the position in the old list that ends up at `i`
      when the element at `from` is taken out and put back in at `to`. */
  function MovedFrom(from: nat, to: nat, i: nat): (j: nat)
  {
    if i == to then from
    else if from < to && from <= i < to then i + 1
    else if to < from && to < i <= from then i - 1
    else i
  }

  /** `splice(from, 1)` followed by `splice(to, 0, moved)`, for indices inside the list. */
  function Move<T>(s: seq<T>, from: nat, to: nat): (r: seq<T>)
    requires from < |s| && to < |s|
    ensures |r| == |s|
    ensures forall i :: 0 <= i < |r| ==> MovedFrom(from, to, i) < |s| && r[i] == s[MovedFrom(from, to, i)]
  {
    var rest := s[..from] + s[from + 1..];
    rest[..to] + [s[from]] + rest[to..]
  }

  /** A move only rearranges: the same elements with the same multiplicities. */
  lemma MoveMultiset<T>(s: seq<T>, from: nat, to: nat)
    requires from < |s| && to < |s|
    ensures multiset(Move(s, from, to)) == multiset(s)
  {
    var rest := s[..from] + s[from + 1..];
    calc {
      multiset(s);
      { assert s == s[..from] + [s[from]] + s[from + 1..]; }
      multiset(s[..from]) + multiset{s[from]} + multiset(s[from + 1..]);
      multiset(rest) + multiset{s[from]};
      { assert rest == rest[..to] + rest[to..]; }
      multiset(rest[..to]) + multiset{s[from]} + multiset(rest[to..]);
      multiset(rest[..to] + [s[from]] + rest[to..]);
    }
  }

  /** Moving the element back from where it landed undoes the move. */
  lemma MoveInverse<T>(s: seq<T>, from: nat, to: nat)
    requires from < |s| && to < |s|
    ensures Move(Move(s, from, to), to, from) == s
  {
  }
}
