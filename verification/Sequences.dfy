/** Sequence operations several components share. */
module Sequences {

  function LastN<S>(s: seq<S>, n: nat): (r: seq<S>)
    ensures |r| == if |s| <= n then |s| else n
  {
    if |s| <= n then s else s[|s| - n..]
  }

  // The last n, in order, however they came to be the last.
  lemma LastNIsLast<S>(front: seq<S>, back: seq<S>, n: nat)
    ensures |back| == n || (front == [] && |back| < n) ==> LastN(front + back, n) == back
  {
    if |back| == n {
      assert (front + back)[|front|..] == back;
    } else if front == [] {
      assert front + back == back;
    }
  }

  lemma LastNStep<S>(s: seq<S>, x: S, n: nat)
    requires 0 < n
    ensures LastN(LastN(s, n) + [x], n) == LastN(s + [x], n)
  {
  }

  function Flatten<T>(packets: seq<seq<T>>): seq<T> {
    if packets == [] then [] else Flatten(packets[..|packets| - 1]) + packets[|packets| - 1]
  }

  lemma FlattenPush<T>(packets: seq<seq<T>>, packet: seq<T>)
    ensures Flatten(packets + [packet]) == Flatten(packets) + packet
  {
    assert (packets + [packet])[..|packets|] == packets;
  }

  lemma {:induction false} FlattenConcat<T>(front: seq<seq<T>>, back: seq<seq<T>>)
    ensures Flatten(front + back) == Flatten(front) + Flatten(back)
  {
    if back == [] {
      assert front + back == front;
    } else {
      FlattenConcat(front, back[..|back| - 1]);
      assert (front + back)[..|front + back| - 1] == front + back[..|back| - 1];
    }
  }

  lemma FlattenCons<T>(packet: seq<T>, packets: seq<seq<T>>)
    ensures Flatten([packet] + packets) == packet + Flatten(packets)
  {
    FlattenConcat([packet], packets);
    FlattenPush([], packet);
    assert [packet] == [] + [packet];
  }

  lemma Reassociate<T>(a: seq<T>, b: seq<T>, c: seq<T>)
    ensures a + b + c == a + (b + c)
  {
  }

  lemma HeadTail<T>(s: seq<T>)
    requires s != []
    ensures s == [s[0]] + s[1..]
  {
  }

  lemma TailOfConcat<T>(a: seq<T>, b: seq<T>)
    requires a != []
    ensures (a + b)[0] == a[0] && (a + b)[1..] == a[1..] + b
  {
  }

  lemma SplitAround<T>(s: seq<T>, i: nat)
    requires i < |s|
    ensures s == s[..i] + [s[i]] + s[i + 1..]
  {
  }

  lemma PrefixStep<T>(s: seq<T>, i: nat)
    requires i < |s|
    ensures s[..i] + [s[i]] == s[..i + 1]
  {
  }

  lemma PrefixOfPrefix<T>(s: seq<T>, m: nat, n: nat)
    requires n <= m <= |s|
    ensures s[..m][..n] == s[..n]
  {
  }

  // How often `x` occurs in `s`.
  ghost function Count<T>(s: seq<T>, x: T): nat {
    if s == [] then 0 else Count(s[..|s| - 1], x) + if s[|s| - 1] == x then 1 else 0
  }

  lemma CountPush<T(!new)>(s: seq<T>, y: T)
    ensures forall x :: Count(s + [y], x) == Count(s, x) + if y == x then 1 else 0
  {
    assert (s + [y])[..|s|] == s;
  }

  lemma {:induction false} CountConcat<T(!new)>(front: seq<T>, back: seq<T>)
    ensures forall x :: Count(front + back, x) == Count(front, x) + Count(back, x)
  {
    if back == [] {
      assert front + back == front;
    } else {
      CountConcat(front, back[..|back| - 1]);
      assert (front + back)[..|front + back| - 1] == front + back[..|back| - 1];
    }
  }

  // `Vec::swap_remove`: the last element takes the place of the removed one.
  function SwapRemove<T>(s: seq<T>, i: nat): (r: seq<T>)
    requires i < |s|
    ensures |r| == |s| - 1
    ensures forall k | 0 <= k < |r| :: r[k] == if k == i then s[|s| - 1] else s[k]
  {
    if i == |s| - 1 then s[..i] else s[..|s| - 1][i := s[|s| - 1]]
  }

  // It loses that one element and nothing else, also within the part not looked at yet.
  lemma SwapRemoveCount<T(!new)>(s: seq<T>, i: nat, from: nat)
    requires from <= i < |s|
    ensures forall x :: Count(s[from..], x) == Count(SwapRemove(s, i)[from..], x) + if s[i] == x then 1 else 0
  {
    var last, r := |s| - 1, SwapRemove(s, i);
    assert s[from..] == s[from..last] + [s[last]];
    CountPush(s[from..last], s[last]);
    if i < last {
      var front, middle := s[from..i], s[i + 1..last];
      assert s[from..last] == front + [s[i]] + middle && r[from..] == front + [s[last]] + middle;
      CountConcat(front + [s[i]], middle);
      CountPush(front, s[i]);
      CountConcat(front + [s[last]], middle);
      CountPush(front, s[last]);
    }
  }

  lemma SliceOfSlice<T>(s: seq<T>, from: nat, to: nat, p: nat, q: nat)
    requires from <= to <= |s| && p <= q <= to - from
    ensures s[from..to][p..q] == s[from + p..from + q]
  {
    var inner, outer := s[from..to], s[from + p..from + q];
    forall k | 0 <= k < q - p
      ensures inner[p..q][k] == outer[k]
    {
      assert inner[p + k] == s[from + (p + k)];
    }
  }

  predicate OccursAt(needle: string, haystack: string, p: nat) {
    p + |needle| <= |haystack| && haystack[p..p + |needle|] == needle
  }

  // Python's `needle in haystack`, Rust's `haystack.contains(needle)`.
  predicate Occurs(needle: string, haystack: string) {
    exists p | 0 <= p <= |haystack| - |needle| :: OccursAt(needle, haystack, p)
  }

  // Looking inside a part of the file is looking inside the file.
  lemma OccursInPart(needle: string, file: string, start: nat, part: string, p: nat)
    requires start + |part| <= |file| && file[start..start + |part|] == part && p + |needle| <= |part|
    ensures OccursAt(needle, part, p) <==> OccursAt(needle, file, start + p)
  {
    SliceOfSlice(file, start, start + |part|, p, p + |needle|);
  }
}
