/**
 Sizes of finite sets.
 */
module Counting {

  lemma {:induction false} InjectionBound(f: seq<nat>, s: set<nat>, t: set<nat>)
    requires forall x :: x in s ==> x < |f| && f[x] in t
    requires forall x, y :: x in s && y in s && x != y ==> f[x] != f[y]
    ensures |s| <= |t|
    decreases s
  {
    if s == {} {
    } else {
      var x :| x in s;
      InjectionBound(f, s - {x}, t - {f[x]});
    }
  }

  lemma {:induction false} SubsetSize<T>(s: set<T>, t: set<T>)
    requires s <= t
    ensures |s| <= |t|
    decreases s
  {
    if s == {} {
    } else {
      var x :| x in s;
      SubsetSize(s - {x}, t - {x});
    }
  }

  ghost function Below(n: nat): (s: set<nat>)
    ensures |s| == n && forall x :: x in s <==> 0 <= x < n
  {
    if n == 0 then {}
    else
      Below(n - 1) + {n - 1}
  }

  lemma {:induction false} DistinctBound(q: seq<nat>, n: nat)
    requires forall i :: 0 <= i < |q| ==> q[i] < n
    requires forall i, j :: 0 <= i < j < |q| ==> q[i] != q[j]
    ensures |q| <= n
  {
    InjectionBound(q, Below(|q|), Below(n));
  }
}
