/**
 Lists of item names: the byte-wise order and the sorted-range algorithms that
 src/craftdef.cpp takes from the C++ library (sort, set_difference, partition_copy), and
 permutations of list positions.
 */
module NameLists {
  import opened Counting

  // ---------------------------------------------------------------- order on names

  predicate Less(a: string, b: string) {
    if b == [] then false
    else if a == [] then true
    else a[0] < b[0] || (a[0] == b[0] && Less(a[1..], b[1..]))
  }

  lemma {:induction false} LessIrreflexive(a: string)
    ensures !Less(a, a)
  {
    if a == [] {
    } else {
      LessIrreflexive(a[1..]);
    }
  }

  lemma {:induction false} LessTransitive(a: string, b: string, c: string)
    requires Less(a, b) && Less(b, c)
    ensures Less(a, c)
  {
    if a != [] && a[0] == b[0] == c[0] {
      LessTransitive(a[1..], b[1..], c[1..]);
    }
  }

  lemma {:induction false} LessTotal(a: string, b: string)
    ensures Less(a, b) || a == b || Less(b, a)
  {
    if a != [] && b != [] && a[0] == b[0] {
      LessTotal(a[1..], b[1..]);
      assert a == [a[0]] + a[1..] && b == [b[0]] + b[1..];
    }
  }

  // ---------------------------------------------------------------- sorting

  // s is in order, and nothing in it comes before lo.
  ghost predicate SortedFrom(lo: string, s: seq<string>)
    decreases s
  {
    s == [] || (!Less(s[0], lo) && SortedFrom(s[0], s[1..]))
  }

  ghost predicate Sorted(s: seq<string>) {
    s == [] || SortedFrom(s[0], s[1..])
  }

  lemma {:induction false} SortedFromBound(lo: string, s: seq<string>, x: string)
    requires SortedFrom(lo, s) && x in s
    ensures !Less(x, lo)
    decreases s
  {
    if x == s[0] {
    } else {
      SortedFromBound(s[0], s[1..], x);
      LessTotal(s[0], lo);
      if Less(x, lo) {
        LessTotal(x, s[0]);
        if Less(lo, s[0]) {
          LessTransitive(x, lo, s[0]);
        }
      }
    }
  }

  function InsertName(x: string, s: seq<string>): (r: seq<string>)
    ensures multiset(r) == multiset{x} + multiset(s)
  {
    if s == [] then [x]
    else if Less(s[0], x) then
      assert s == [s[0]] + s[1..];
      [s[0]] + InsertName(x, s[1..])
    else [x] + s
  }

  function Sort(s: seq<string>): (r: seq<string>)
    ensures multiset(r) == multiset(s)
  {
    if s == [] then []
    else
      assert s == [s[0]] + s[1..];
      InsertName(s[0], Sort(s[1..]))
  }

  lemma {:induction false} InsertKeepsSortedFrom(lo: string, x: string, s: seq<string>)
    requires SortedFrom(lo, s) && !Less(x, lo)
    ensures SortedFrom(lo, InsertName(x, s))
    decreases s
  {
    if s == [] {
    } else {
      if Less(s[0], x) {
        LessTotal(x, s[0]);
        if Less(x, s[0]) {
          LessTransitive(x, s[0], x);
          LessIrreflexive(x);
        }
        InsertKeepsSortedFrom(s[0], x, s[1..]);
        var r := InsertName(x, s);
        assert r[1..] == InsertName(x, s[1..]);
      } else {
        assert ([x] + s)[1..] == s;
      }
    }
  }

  lemma {:induction false} SortIsSorted(s: seq<string>)
    ensures Sorted(Sort(s))
  {
    if s == [] {
    } else {
      SortIsSorted(s[1..]);
      var t := Sort(s[1..]);
      if t != [] {
        if Less(t[0], s[0]) {
          LessTotal(s[0], t[0]);
          if Less(s[0], t[0]) {
            LessTransitive(s[0], t[0], s[0]);
            LessIrreflexive(s[0]);
          }
          InsertKeepsSortedFrom(t[0], s[0], t[1..]);
          assert Sort(s)[1..] == InsertName(s[0], t[1..]);
        } else {
          assert ([s[0]] + t)[1..] == t;
        }
      }
    }
  }

  // Nothing in a sorted list comes before its head.
  lemma SortedHead(s: seq<string>, x: string)
    requires Sorted(s) && x in s
    ensures !Less(x, s[0])
  {
    LessIrreflexive(x);
    if x != s[0] {
      SortedFromBound(s[0], s[1..], x);
    }
  }

  // A sorted list is determined by its contents.
  lemma {:induction false} SortedUnique(a: seq<string>, b: seq<string>)
    requires Sorted(a) && Sorted(b) && multiset(a) == multiset(b)
    ensures a == b
  {
    hide Less;
    assert |multiset(a)| == |a| && |multiset(b)| == |b|;
    if a == [] {
    } else {
      assert a[0] in multiset(a) && b[0] in multiset(b);
      SortedHead(a, b[0]);
      SortedHead(b, a[0]);
      LessTotal(a[0], b[0]);
      assert a == [a[0]] + a[1..] && b == [b[0]] + b[1..];
      CancelHead(a[0], multiset(a[1..]), multiset(b[1..]));
      SortedUnique(a[1..], b[1..]);
    }
  }

  // ---------------------------------------------------------------- sorted merge

  // std::set_difference on sorted ranges.
  function SetDifference(a: seq<string>, b: seq<string>): seq<string>
    decreases |a| + |b|
  {
    if a == [] then []
    else if b == [] then a
    else if Less(a[0], b[0]) then [a[0]] + SetDifference(a[1..], b)
    else if Less(b[0], a[0]) then SetDifference(a, b[1..])
    else SetDifference(a[1..], b[1..])
  }

  lemma SmallerIsMissing(s: seq<string>, x: string)
    requires Sorted(s) && s != [] && Less(x, s[0])
    ensures x !in multiset(s)
  {
    if x in s {
      SortedHead(s, x);
    }
  }

  lemma DifferenceSteps<T>(x: T, a: multiset<T>, b: multiset<T>)
    ensures x !in b ==> (multiset{x} + a) - b == multiset{x} + (a - b)
    ensures x !in a ==> a - (multiset{x} + b) == a - b
    ensures (multiset{x} + a) - (multiset{x} + b) == a - b
  {}

  lemma {:induction false} SetDifferenceContents(a: seq<string>, b: seq<string>)
    requires Sorted(a) && Sorted(b)
    ensures multiset(SetDifference(a, b)) == multiset(a) - multiset(b)
    decreases |a| + |b|
  {
    hide Less;
    if a == [] || b == [] {
    } else {
      assert a == [a[0]] + a[1..] && b == [b[0]] + b[1..];
      if Less(a[0], b[0]) {
        SmallerIsMissing(b, a[0]);
        SetDifferenceContents(a[1..], b);
        DifferenceSteps(a[0], multiset(a[1..]), multiset(b));
      } else if Less(b[0], a[0]) {
        SmallerIsMissing(a, b[0]);
        SetDifferenceContents(a, b[1..]);
        DifferenceSteps(b[0], multiset(a), multiset(b[1..]));
      } else {
        LessTotal(a[0], b[0]);
        SetDifferenceContents(a[1..], b[1..]);
        DifferenceSteps(a[0], multiset(a[1..]), multiset(b[1..]));
      }
    }
  }

  // ---------------------------------------------------------------- filters

  function Keep(s: seq<string>, p: string -> bool): (r: seq<string>)
    ensures forall x :: x in r <==> x in s && p(x)
    ensures |r| <= |s|
  {
    if s == [] then [] else (if p(s[0]) then [s[0]] else []) + Keep(s[1..], p)
  }

  lemma {:induction false} KeepAppend(s: seq<string>, t: seq<string>, p: string -> bool)
    ensures Keep(s + t, p) == Keep(s, p) + Keep(t, p)
  {
    if s == [] {
      assert s + t == t;
    } else {
      assert (s + t)[1..] == s[1..] + t;
      KeepAppend(s[1..], t, p);
    }
  }

  lemma {:induction false} PartitionContents(s: seq<string>, p: string -> bool, q: string -> bool)
    requires forall x :: q(x) == !p(x)
    ensures multiset(Keep(s, p)) + multiset(Keep(s, q)) == multiset(s)
  {
    if s == [] {
    } else {
      assert s == [s[0]] + s[1..];
      PartitionContents(s[1..], p, q);
    }
  }

  lemma {:induction false} KeepContents(s: seq<string>, t: seq<string>, p: string -> bool)
    requires multiset(s) == multiset(t)
    ensures multiset(Keep(s, p)) == multiset(Keep(t, p))
  {
    assert |multiset(s)| == |s| && |multiset(t)| == |t|;
    if s == [] {
    } else {
      assert s[0] in multiset(t);
      var k :| 0 <= k < |t| && t[k] == s[0];
      var t' := t[..k] + t[k + 1..];
      assert s == [s[0]] + s[1..];
      assert t == t[..k] + ([t[k]] + t[k + 1..]);
      assert multiset(t') == multiset(t) - multiset{s[0]};
      KeepContents(s[1..], t', p);
      KeepAppend(t[..k], t[k + 1..], p);
      KeepAppend(t[..k], [t[k]] + t[k + 1..], p);
      KeepAppend([t[k]], t[k + 1..], p);
      KeepAppend([s[0]], s[1..], p);
    }
  }

  lemma {:induction false} KeepKeepsSorted(lo: string, s: seq<string>, p: string -> bool)
    requires SortedFrom(lo, s)
    ensures SortedFrom(lo, Keep(s, p)) && Sorted(Keep(s, p))
    decreases s
  {
    if s == [] {
    } else {
      if p(s[0]) {
        KeepKeepsSorted(s[0], s[1..], p);
        assert Keep(s, p) == [s[0]] + Keep(s[1..], p);
        assert ([s[0]] + Keep(s[1..], p))[1..] == Keep(s[1..], p);
      } else {
        SortedFromWeaken(lo, s[0], s[1..]);
        KeepKeepsSorted(lo, s[1..], p);
        assert Keep(s, p) == Keep(s[1..], p);
      }
    }
  }

  lemma SortedFromWeaken(lo: string, mid: string, s: seq<string>)
    requires SortedFrom(mid, s) && !Less(mid, lo)
    ensures SortedFrom(lo, s)
  {
    if s != [] && Less(s[0], lo) {
      LessTotal(mid, s[0]);
      if Less(mid, s[0]) {
        LessTransitive(mid, s[0], lo);
      }
    }
  }

  // ---------------------------------------------------------------- permutations

  ghost predicate IsPermutation(f: seq<nat>) {
    && (forall i :: 0 <= i < |f| ==> f[i] < |f|)
    && (forall i, j :: 0 <= i < j < |f| ==> f[i] != f[j])
  }

  // Every position is hit.
  lemma MissedSlot(f: seq<nat>, j: nat)
    requires IsPermutation(f) && j < |f| && forall i :: 0 <= i < |f| ==> f[i] != j
    ensures |Below(|f|)| <= |Below(|f|) - {j}|
  {
    hide Below;
    InjectionBound(f, Below(|f|), Below(|f|) - {j});
  }

  lemma PermutationOnto(f: seq<nat>, j: nat)
    requires IsPermutation(f) && j < |f|
    ensures exists i :: 0 <= i < |f| && f[i] == j
  {
    hide Below;
    if !exists i :: 0 <= i < |f| && f[i] == j {
      MissedSlot(f, j);
    }
  }

  lemma {:induction false} InverseUpTo(f: seq<nat>, n: nat) returns (g: seq<nat>)
    requires IsPermutation(f) && n <= |f|
    ensures |g| == n && forall j :: 0 <= j < n ==> g[j] < |f| && f[g[j]] == j
  {
    if n == 0 {
      g := [];
    } else {
      var h := InverseUpTo(f, n - 1);
      PermutationOnto(f, n - 1);
      var i :| 0 <= i < |f| && f[i] == n - 1;
      g := h + [i];
    }
  }

  lemma Inverse(f: seq<nat>) returns (g: seq<nat>)
    requires IsPermutation(f)
    ensures |g| == |f| && IsPermutation(g)
    ensures forall j :: 0 <= j < |f| ==> f[g[j]] == j
  {
    g := InverseUpTo(f, |f|);
  }

  function RemoveAt<T>(a: seq<T>, k: nat): (r: seq<T>)
    requires k < |a|
    ensures |r| == |a| - 1
    ensures forall i :: 0 <= i < |r| ==> r[i] == if i < k then a[i] else a[i + 1]
    ensures multiset(a) == multiset{a[k]} + multiset(r)
  {
    assert a == a[..k] + ([a[k]] + a[k + 1..]);
    a[..k] + a[k + 1..]
  }

  lemma CancelHead<T>(x: T, a: multiset<T>, b: multiset<T>)
    requires multiset{x} + a == multiset{x} + b
    ensures a == b
  {
    assert a == (multiset{x} + a) - multiset{x};
  }

  // A permutation of the positions around k, with k put in front.
  function PutFirst(k: nat, g: seq<nat>): (f: seq<nat>)
    ensures |f| == |g| + 1 && f[0] == k
    ensures forall i :: 0 <= i < |g| ==> f[i + 1] == if g[i] < k then g[i] else g[i] + 1
  {
    [k] + seq(|g|, i requires 0 <= i < |g| => if g[i] < k then g[i] else g[i] + 1)
  }

  lemma PutFirstPermutes(k: nat, g: seq<nat>)
    requires IsPermutation(g) && k <= |g|
    ensures IsPermutation(PutFirst(k, g))
  {
    var f := PutFirst(k, g);
    forall i, j | 0 <= i < j < |f| ensures f[i] != f[j] {
      assert f[j] == if g[j - 1] < k then g[j - 1] else g[j - 1] + 1;
      if i > 0 {
        assert f[i] == if g[i - 1] < k then g[i - 1] else g[i - 1] + 1;
      }
    }
    forall i | 0 <= i < |f| ensures f[i] < |f| {
      if i > 0 {
        assert f[i] == if g[i - 1] < k then g[i - 1] else g[i - 1] + 1;
      }
    }
  }

  // Lists with equal contents are rearrangements of each other.
  lemma {:induction false} Rearrange<T>(a: seq<T>, b: seq<T>) returns (f: seq<nat>)
    requires multiset(a) == multiset(b)
    ensures |f| == |a| == |b| && IsPermutation(f)
    ensures forall i :: 0 <= i < |b| ==> b[i] == a[f[i]]
    decreases |b|
  {
    hide RemoveAt, PutFirst, IsPermutation;
    assert |a| == |multiset(a)| == |multiset(b)| == |b|;
    if b == [] {
      f := [];
      NothingPermutes();
    } else {
      var k := HeadElsewhere(a, b);
      var g := Rearrange(RemoveAt(a, k), b[1..]);
      f := PutFirst(k, g);
      PutFirstPermutes(k, g);
      PutFirstReads(a, b, k, g);
    }
  }

  lemma NothingPermutes()
    ensures IsPermutation([])
  {}

  // Where the first of b stands in a; without the two, the rest still has the same contents.
  lemma HeadElsewhere<T>(a: seq<T>, b: seq<T>) returns (k: nat)
    requires multiset(a) == multiset(b) && b != []
    ensures k < |a| && a[k] == b[0] && multiset(RemoveAt(a, k)) == multiset(b[1..])
  {
    assert b[0] in multiset(a);
    k :| 0 <= k < |a| && a[k] == b[0];
    assert b == [b[0]] + b[1..];
    CancelHead(b[0], multiset(RemoveAt(a, k)), multiset(b[1..]));
  }

  lemma PutFirstReads<T>(a: seq<T>, b: seq<T>, k: nat, g: seq<nat>)
    requires k < |a| == |b| && b[0] == a[k] && |g| == |a| - 1 && IsPermutation(g)
    requires forall i :: 0 <= i < |g| ==> b[1..][i] == RemoveAt(a, k)[g[i]]
    ensures IsPermutation(PutFirst(k, g)) ==> forall i :: 0 <= i < |b| ==> b[i] == a[PutFirst(k, g)[i]]
  {
    hide RemoveAt, PutFirst;
    forall i | 0 < i < |b| ensures PutFirst(k, g)[i] < |a| && b[i] == a[PutFirst(k, g)[i]] {
      BehindFirst(a, b, k, g, i - 1);
    }
  }

  lemma BehindFirst<T>(a: seq<T>, b: seq<T>, k: nat, g: seq<nat>, i: nat)
    requires k < |a| == |b| && |g| == |a| - 1 && i < |g| && g[i] < |g| && b[1..][i] == RemoveAt(a, k)[g[i]]
    ensures var j := PutFirst(k, g)[i + 1]; j < |a| && b[i + 1] == a[j]
  {}

  // f[1..] as a permutation of the positions around f[0].
  function DropFirst(f: seq<nat>): (g: seq<nat>)
    requires f != []
    ensures |g| == |f| - 1
    ensures forall i :: 0 <= i < |g| ==> g[i] == if f[i + 1] <= f[0] then f[i + 1] else f[i + 1] - 1
  {
    seq(|f| - 1, i requires 0 <= i < |f| - 1 => if f[i + 1] <= f[0] then f[i + 1] else f[i + 1] - 1)
  }

  lemma DropFirstPermutes(f: seq<nat>)
    requires f != [] && IsPermutation(f)
    ensures IsPermutation(DropFirst(f))
    ensures forall i :: 1 <= i < |f| ==> f[i] != f[0]
  {
    var g := DropFirst(f);
    forall i, j | 0 <= i < j < |g| ensures g[i] != g[j] {
      assert f[i + 1] != f[j + 1] && f[i + 1] != f[0] && f[j + 1] != f[0];
    }
    forall i | 0 <= i < |g| ensures g[i] < |g| {
      assert f[i + 1] != f[0];
    }
  }

  // Reading a list through a permutation keeps its contents.
  lemma {:induction false} ReadThrough<T>(a: seq<T>, f: seq<nat>, b: seq<T>)
    requires |a| == |f| == |b| && IsPermutation(f)
    requires forall i :: 0 <= i < |b| ==> b[i] == a[f[i]]
    ensures multiset(a) == multiset(b)
  {
    if b == [] {
      assert a == [];
    } else {
      var k := f[0];
      var a', g, b' := RemoveAt(a, k), DropFirst(f), b[1..];
      DropFirstPermutes(f);
      forall i | 0 <= i < |b'| ensures b'[i] == a'[g[i]] {
        assert b'[i] == b[i + 1] == a[f[i + 1]] && f[i + 1] != f[0];
      }
      ReadThrough(a', g, b');
      assert b == [b[0]] + b';
    }
  }
}
