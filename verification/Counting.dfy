/** How often a number occurs in a list. */
module Counting {
  function Count(s: seq<nat>, x: nat): nat {
    if s == [] then 0 else (if s[0] == x then 1 else 0) + Count(s[1..], x)
  }

  lemma CountNone()
    ensures forall x: nat :: Count([], x) == 0
  {
  }

  lemma {:induction false} CountConcat(a: seq<nat>, b: seq<nat>, x: nat)
    ensures Count(a + b, x) == Count(a, x) + Count(b, x)
    decreases |a|
  {
    if a == [] {
      assert a + b == b;
    } else {
      assert (a + b)[0] == a[0] && (a + b)[1..] == a[1..] + b;
      CountConcat(a[1..], b, x);
    }
  }

  lemma CountOne(y: nat, s: seq<nat>, x: nat)
    ensures Count([y] + s, x) == (if y == x then 1 else 0) + Count(s, x)
  {
    assert ([y] + s)[1..] == s;
  }

  lemma {:induction false} CountIn(s: seq<nat>, x: nat)
    ensures Count(s, x) > 0 <==> x in s
    decreases |s|
  {
    if s != [] {
      CountIn(s[1..], x);
    }
  }

  lemma {:induction false} Distinct(s: seq<nat>)
    requires forall x: nat :: Count(s, x) <= 1
    ensures forall j, k :: 0 <= j < k < |s| ==> s[j] != s[k]
    decreases |s|
  {
    if s != [] {
      var tail := s[1..];
      forall x: nat
        ensures Count(tail, x) <= Count(s, x)
      {
      }
      Distinct(tail);
      CountIn(tail, s[0]);
      assert forall k :: 1 <= k < |s| ==> s[k] == tail[k - 1];
    }
  }
}
