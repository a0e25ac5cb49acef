/** core/util/rand.go: drawing without replacement, and shuffling. The random choices are arbitrary. */
module Rands {

  ghost predicate NoDup<T>(s: seq<T>) {
    forall i, j :: 0 <= i < j < |s| ==> s[i] != s[j]
  }

  function Without<T>(s: seq<T>, i: nat): seq<T>
    requires i < |s|
  {
    s[..i] + s[i + 1..]
  }

  lemma WithoutMultiset<T>(s: seq<T>, i: nat)
    requires i < |s|
    ensures multiset(s) == multiset(Without(s, i)) + multiset{s[i]}
  {
    assert s == s[..i] + [s[i]] + s[i + 1..];
  }

  datatype Drawn = Item(value: nat) | ErrNoItem

  class Rand {
    var items: seq<nat>
    ghost const Max: nat
    ghost var Taken: seq<nat>  // what has been drawn, in order

    /** What has been drawn and what is left are 0..Max, each number once. */
    ghost predicate Valid()
      reads this
    {
      && NoDup(Taken + items)
      && |Taken| + |items| == Max
      && forall v :: 0 <= v < Max <==> v in Taken + items
    }

    constructor (max: nat)
      ensures Valid() && Max == max && Taken == [] && |items| == max && forall i :: 0 <= i < max ==> items[i] == i
    {
      items := seq(max, i => i);
      Max, Taken := max, [];
      new;
      assert Taken + items == items;
      forall v
        ensures 0 <= v < max <==> v in Taken + items
      {
        if 0 <= v < max {
          assert items[v] == v;
        }
      }
    }

    /** Any number that is left, each once; then ErrNoItem. */
    method Next() returns (r: Drawn)
      requires Valid()
      modifies this
      ensures Valid()
      ensures r.ErrNoItem? <==> old(items) == []
      ensures r.ErrNoItem? ==> items == old(items) && Taken == old(Taken)
      ensures r.Item? ==> r.value in old(items) && r.value !in old(Taken) && r.value < Max
      ensures r.Item? ==> Taken == old(Taken) + [r.value] && |items| == |old(items)| - 1
    {
      if |items| > 0 {
        var i :| 0 <= i < |items|;
        var it := items[i];
        ghost var before := Taken + items;
        assert it == before[|Taken| + i] && it in before;
        items := items[..i] + items[i + 1..];
        Taken := Taken + [it];
        TakeOne(before, Taken + items, |Taken| - 1, i);
        return Item(it);
      }
      return ErrNoItem;
    }
  }

  /** Moving one element forward keeps the elements and that they are different. */
  lemma TakeOne(before: seq<nat>, after: seq<nat>, taken: nat, i: nat)
    requires taken + i < |before| && NoDup(before)
    requires after == before[..taken] + [before[taken + i]] + before[taken..taken + i] + before[taken + i + 1..]
    ensures NoDup(after) && |after| == |before| && (forall v :: v in after <==> v in before)
  {
    forall v | v in before
      ensures v in after
    {
      var k :| 0 <= k < |before| && before[k] == v;
      var m := if k < taken then k else if k < taken + i then k + 1 else if k == taken + i then taken else k;
      assert after[m] == v;
    }
    forall m | 0 <= m < |after|
      ensures after[m] == before[Source(taken, i, m)]
    {
    }
    forall a, b | 0 <= a < b < |after|
      ensures after[a] != after[b]
    {
      assert Source(taken, i, a) != Source(taken, i, b);
    }
  }

  /** Where the m-th element came from. */
  function Source(taken: nat, i: nat, m: nat): nat {
    if m < taken then m else if m == taken then taken + i else if m <= taken + i then m - 1 else m
  }

  /** All max draws give the numbers below max in some order, and the next draw fails. */
  method DrawAll(max: nat) returns (drawn: seq<nat>, last: Drawn)
    ensures |drawn| == max && NoDup(drawn) && (forall v :: 0 <= v < max <==> v in drawn)
    ensures last == ErrNoItem
  {
    var r := new Rand(max);
    drawn := [];
    while |drawn| < max
      invariant r.Valid() && r.Max == max && r.Taken == drawn && fresh(r)
    {
      var d := r.Next();
      drawn := drawn + [d.value];
    }
    assert r.Taken + r.items == drawn;
    last := r.Next();
  }

  /** Shuffle returns the same items in an arbitrary order. */
  method Shuffle<T>(items: seq<T>) returns (shuffled: seq<T>)
    ensures multiset(shuffled) == multiset(items) && |shuffled| == |items|
  {
    shuffled := items;
    var i := |items|;
    while i > 1
      invariant i <= |items| == |shuffled| && multiset(shuffled) == multiset(items)
    {
      var j :| 0 <= j < i;
      shuffled := shuffled[i - 1 := shuffled[j]][j := shuffled[i - 1]];
      i := i - 1;
    }
  }

  lemma {:induction false} NoDupCounts<T>(s: seq<T>)
    requires NoDup(s)
    ensures forall x :: multiset(s)[x] <= 1
  {
    if s != [] {
      var front, last := s[..|s| - 1], s[|s| - 1];
      assert s == front + [last];
      NoDupCounts(front);
      assert last !in front;
    }
  }

  lemma CountsNoDup<T>(s: seq<T>)
    requires forall x :: multiset(s)[x] <= 1
    ensures NoDup(s)
  {
    forall i, j | 0 <= i < j < |s|
      ensures s[i] != s[j]
    {
      assert s == s[..j] + s[j..];
      assert s[i] in s[..j] && s[j] in s[j..];
      assert multiset(s)[s[i]] == multiset(s[..j])[s[i]] + multiset(s[j..])[s[i]];
    }
  }

  /** Rearranging keeps elements different. */
  lemma NoDupRearranged<T>(s: seq<T>, t: seq<T>)
    requires NoDup(s) && multiset(s) == multiset(t)
    ensures NoDup(t)
  {
    NoDupCounts(s);
    CountsNoDup(t);
  }
}
