/**
 Removing "." and ".." from path names (fs::RemoveRelativePathComponents of src/filesys.cpp), with "/"
 as the directory delimiter.
 */
module PathNames {
  import opened Basics

  const DIR_DELIM: string := "/"

  predicate IsDirDelimiter(c: char) {
    c == '/'
  }

  predicate NoDelimiter(s: string) {
    forall i :: 0 <= i < |s| ==> !IsDirDelimiter(s[i])
  }

  predicate AllDelimiters(s: string) {
    forall i :: 0 <= i < |s| ==> IsDirDelimiter(s[i])
  }

  // ---------------------------------------------------------------- the parts of a path

  // A component with the delimiters in front of it.
  datatype Part = Part(gap: string, name: string)

  // s[a..b] are delimiters, and all there are in front of b.
  predicate GapAt(s: string, a: nat, b: nat) {
    a <= b <= |s| && (forall i :: a <= i < b ==> IsDirDelimiter(s[i])) && (a > 0 ==> !IsDirDelimiter(s[a - 1]))
  }

  // s[b..e] is a component, or nothing.
  predicate NameAt(s: string, b: nat, e: nat) {
    b <= e <= |s| && (forall i :: b <= i < e ==> !IsDirDelimiter(s[i])) && (b > 0 ==> IsDirDelimiter(s[b - 1]))
  }

  function GapBefore(s: string, b: nat): (a: nat)
    requires b <= |s|
    ensures a <= b && GapAt(s, a, b)
  {
    if b == 0 || !IsDirDelimiter(s[b - 1]) then b else GapBefore(s, b - 1)
  }

  function NameBefore(s: string, e: nat): (b: nat)
    requires e <= |s|
    ensures b <= e && NameAt(s, b, e) && (e > 0 && !IsDirDelimiter(s[e - 1]) ==> b < e)
  {
    if e == 0 || IsDirDelimiter(s[e - 1]) then e else NameBefore(s, e - 1)
  }

  lemma NameUnique(s: string, b: nat, e: nat)
    requires NameAt(s, b, e)
    ensures NameBefore(s, e) == b
  {}

  // The components of s[..n] with the delimiters in front of them; those at the end are left out.
  function Parts(s: string, n: nat): seq<Part>
    requires n <= |s|
    decreases n
  {
    var e := GapBefore(s, n);
    if e == 0 then []
    else
      var b := NameBefore(s, e);
      var a := GapBefore(s, b);
      Parts(s, a) + [Part(s[a..b], s[b..e])]
  }

  function PathParts(s: string): seq<Part> {
    Parts(s, |s|)
  }

  function Names(ps: seq<Part>): (cs: seq<string>)
    ensures |cs| == |ps| && forall i :: 0 <= i < |cs| ==> cs[i] == ps[i].name
  {
    seq(|ps|, i requires 0 <= i < |ps| => ps[i].name)
  }

  function Components(s: string): seq<string> {
    Names(PathParts(s))
  }

  function Joined(ps: seq<Part>): string {
    if ps == [] then "" else Joined(ps[..|ps| - 1]) + (ps[|ps| - 1].gap + ps[|ps| - 1].name)
  }

  lemma JoinedSnoc(ps: seq<Part>, c: Part)
    ensures Joined([]) == "" && Joined(ps + [c]) == Joined(ps) + (c.gap + c.name)
  {
    assert (ps + [c])[..|ps + [c]| - 1] == ps;
  }

  // Gaps of delimiters, none of them empty behind a component, between proper components.
  ghost predicate WellSpaced(ps: seq<Part>) {
    && (forall i :: 0 <= i < |ps| ==> ps[i].name != "" && NoDelimiter(ps[i].name) && AllDelimiters(ps[i].gap))
    && (forall i :: 0 < i < |ps| ==> ps[i].gap != "")
  }

  lemma WellSpacedSnoc(ps: seq<Part>, c: Part)
    requires WellSpaced(ps) && c.name != "" && NoDelimiter(c.name) && AllDelimiters(c.gap) && (ps != [] ==> c.gap != "")
    ensures WellSpaced(ps + [c])
  {
    hide NoDelimiter, AllDelimiters;
  }

  lemma CutPart(s: string, a: nat, b: nat, e: nat)
    requires GapAt(s, a, b) && NameAt(s, b, e)
    ensures AllDelimiters(s[a..b]) && NoDelimiter(s[b..e])
  {}

  lemma {:induction false} PartsWellSpaced(s: string, n: nat)
    requires n <= |s|
    ensures WellSpaced(Parts(s, n)) && (n > 0 && !IsDirDelimiter(s[n - 1]) ==> Parts(s, n) != [])
    decreases n
  {
    hide WellSpaced, NoDelimiter, AllDelimiters;
    var e := GapBefore(s, n);
    if e == 0 {
      NoPartsSpaced();
    } else {
      var b := NameBefore(s, e);
      var a := GapBefore(s, b);
      PartsWellSpaced(s, a);
      CutPart(s, a, b, e);
      if a == 0 {
        NothingInFront(s);
      }
      WellSpacedSnoc(Parts(s, a), Part(s[a..b], s[b..e]));
    }
  }

  lemma NoPartsSpaced()
    ensures WellSpaced([])
  {}

  lemma NothingInFront(s: string)
    ensures Parts(s, 0) == []
  {}

  // ---------------------------------------------------------------- only the text in front matters

  predicate SamePrefix(s: string, t: string, n: nat) {
    n <= |s| && n <= |t| && s[..n] == t[..n]
  }

  lemma CutsPrefix(s: string, t: string, n: nat)
    requires SamePrefix(s, t, n)
    ensures GapBefore(s, n) == GapBefore(t, n) && NameBefore(s, n) == NameBefore(t, n)
  {
    assert forall i :: 0 <= i < n ==> s[i] == s[..n][i] == t[..n][i] == t[i];
    NameUnique(t, NameBefore(s, n), n);
  }

  lemma ShorterPrefix(s: string, t: string, m: nat, n: nat)
    requires SamePrefix(s, t, n) && m <= n
    ensures SamePrefix(s, t, m)
  {
    assert s[..m] == s[..n][..m] && t[..m] == t[..n][..m];
  }

  lemma {:induction false} PartsPrefix(s: string, t: string, n: nat)
    requires SamePrefix(s, t, n) && n <= |s| && n <= |t|
    ensures Parts(s, n) == Parts(t, n)
    decreases n
  {
    hide SamePrefix, GapAt, NameAt;
    CutsPrefix(s, t, n);
    var e := GapBefore(s, n);
    if e == 0 {
    } else {
      ShorterPrefix(s, t, e, n);
      CutsPrefix(s, t, e);
      var b := NameBefore(s, e);
      ShorterPrefix(s, t, b, n);
      CutsPrefix(s, t, b);
      var a := GapBefore(s, b);
      ShorterPrefix(s, t, a, n);
      PartsPrefix(s, t, a);
    }
  }

  // Delimiters at the end belong to no part.
  lemma PartsBeforeGap(s: string, a: nat, b: nat)
    requires GapAt(s, a, b)
    ensures Parts(s, b) == Parts(s, a) && GapBefore(s, b) == a
  {
  }

  // ---------------------------------------------------------------- normalisation

  predicate IsName(c: string) {
    c != "." && c != ".."
  }

  // Left to right: "." is dropped, ".." pops, anything else is pushed. None when ".." finds nothing to pop.
  function Normalise(cs: seq<string>): Option<seq<string>> {
    if cs == [] then Some([])
    else
      var c, before := cs[|cs| - 1], Normalise(cs[..|cs| - 1]);
      if before.None? || c == "." then before
      else if c == ".." then
        if before.value == [] then None else Some(before.value[..|before.value| - 1])
      else Some(before.value + [c])
  }

  // The delimiter in front of everything, if there is any.
  function Lead(ps: seq<Part>): string
    requires ps != []
  {
    if ps[0].gap == "" then "" else DIR_DELIM
  }

  // What stands in front of a component: its own delimiters if the component before it stays, otherwise one.
  function GapBehind(before: seq<Part>, stack: seq<Part>, gap: string): string {
    if before == [] || IsName(before[|before| - 1].name) then gap
    else if stack == [] then Lead(before)
    else DIR_DELIM
  }

  // The same, delimiters included.
  function NormaliseParts(ps: seq<Part>): Option<seq<Part>> {
    if ps == [] then Some([])
    else
      var c, init := ps[|ps| - 1], ps[..|ps| - 1];
      var before := NormaliseParts(init);
      if before.None? || c.name == "." then before
      else if c.name == ".." then
        if before.value == [] then None else Some(before.value[..|before.value| - 1])
      else Some(before.value + [Part(GapBehind(init, before.value, c.gap), c.name)])
  }

  lemma NormaliseStep(init: seq<Part>, c: Part)
    ensures var before := NormaliseParts(init);
      NormaliseParts(init + [c]) ==
        if before.None? || c.name == "." then before
        else if c.name == ".." then
          if before.value == [] then None else Some(before.value[..|before.value| - 1])
        else Some(before.value + [Part(GapBehind(init, before.value, c.gap), c.name)])
  {
    assert (init + [c])[..|init + [c]| - 1] == init;
  }

  lemma LastNameStays(ps: seq<Part>)
    ensures ps != [] && IsName(ps[|ps| - 1].name) && NormaliseParts(ps).Some? ==> NormaliseParts(ps).value != []
  {}

  lemma {:induction false} NormaliseNames(ps: seq<Part>)
    ensures match NormaliseParts(ps)
      case None => Normalise(Names(ps)) == None
      case Some(stack) => Normalise(Names(ps)) == Some(Names(stack))
  {
    if ps == [] {
      assert Names(ps) == [];
    } else {
      var init := ps[..|ps| - 1];
      NormaliseNames(init);
      assert Names(ps)[..|ps| - 1] == Names(init);
      if NormaliseParts(init).Some? && NormaliseParts(ps).Some? {
        var before, stack := NormaliseParts(init).value, NormaliseParts(ps).value;
        assert Names(stack) == if ps[|ps| - 1].name == "." then Names(before)
          else if ps[|ps| - 1].name == ".." then Names(before)[..|before| - 1] else Names(before) + [ps[|ps| - 1].name];
      }
    }
  }

  lemma {:induction false} NormalisedWellSpaced(ps: seq<Part>)
    requires WellSpaced(ps)
    ensures NormaliseParts(ps).Some? ==>
      var stack := NormaliseParts(ps).value;
      WellSpaced(stack) && (forall i :: 0 <= i < |stack| ==> IsName(stack[i].name))
      && (stack != [] ==> (stack[0].gap == "" <==> ps[0].gap == ""))
  {
    hide NoDelimiter;
    if ps == [] {
    } else {
      NormalisedWellSpaced(ps[..|ps| - 1]);
      LastNameStays(ps[..|ps| - 1]);
    }
  }

  // The text of the result.
  function NormalText(original: string): string {
    var stack := NormaliseParts(PathParts(original));
    if stack.None? then "" else Joined(stack.value)
  }

  // ---------------------------------------------------------------- from the back

  /**
   What the loop makes of the parts ps, the delimiters g behind them and the text t it has kept, with k
   components still to be removed: how many of these are left over, and the path.
   */
  function BackwardText(ps: seq<Part>, g: string, k: nat, t: string): (nat, string) {
    if ps == [] then (k, g + t)
    else
      var c, init := ps[|ps| - 1], ps[..|ps| - 1];
      if IsName(c.name) && k == 0 then BackwardText(init, c.gap, 0, c.name + (g + t))
      else
        var k1 := if c.name == "." then k else if c.name == ".." then k + 1 else k - 1;
        if init == [] then (k1, Lead(ps) + t) else BackwardText(init, DIR_DELIM, k1, t)
  }

  // What the forward normalisation says it should be.
  ghost predicate Yields(ps: seq<Part>, g: string, k: nat, t: string, r: (nat, string))
    requires ps != []
  {
    match NormaliseParts(ps)
    case None => r.0 > 0
    case Some(stack) =>
      if k > |stack| then r.0 > 0
      else r == (0, Connected(ps, stack[..|stack| - k], g, k, t))
  }

  // The parts kept, and the text behind them.
  function Connected(ps: seq<Part>, kept: seq<Part>, g: string, k: nat, t: string): string
    requires ps != []
  {
    if k == 0 && IsName(ps[|ps| - 1].name) then Joined(kept) + (g + t)
    else if kept == [] then Lead(ps) + t
    else Joined(kept) + (DIR_DELIM + t)
  }

  lemma Regroup(a: string, gap: string, name: string, rest: string)
    ensures a + (gap + (name + rest)) == a + (gap + name) + rest && "" + (gap + (name + rest)) == gap + (name + rest)
  {
    assert gap + (name + rest) == (gap + name) + rest;
  }

  lemma FirstYields(c: Part, g: string, k: nat, t: string)
    ensures Yields([c], g, k, t, BackwardText([c], g, k, t))
  {
    NormaliseStep([], c);
    assert [] + [c] == [c] && [c][..0] == [] && [c][..1] == [c];
    Regroup("", c.gap, c.name, g + t);
    JoinedSnoc([], c);
    assert "" + (c.gap + c.name) == c.gap + c.name;
  }

  lemma KeptYields(init: seq<Part>, c: Part, g: string, t: string, r: (nat, string))
    requires init != [] && IsName(c.name) && Yields(init, c.gap, 0, c.name + (g + t), r)
    ensures Yields(init + [c], g, 0, t, r)
  {
    hide NormaliseParts, Joined, Lead;
    NormaliseStep(init, c);
    LastNameStays(init);
    if NormaliseParts(init).Some? {
      var stack := NormaliseParts(init).value;
      var gap := GapBehind(init, stack, c.gap);
      assert stack[..|stack|] == stack && (stack + [Part(gap, c.name)])[..|stack| + 1] == stack + [Part(gap, c.name)];
      JoinedSnoc(stack, Part(gap, c.name));
      Regroup(Joined(stack), gap, c.name, g + t);
    }
  }

  lemma LeadSnoc(init: seq<Part>, c: Part)
    requires init != []
    ensures Lead(init + [c]) == Lead(init)
  {}

  lemma RemovedYields(init: seq<Part>, c: Part, g: string, k: nat, k1: nat, t: string, r: (nat, string))
    requires init != [] && Yields(init, DIR_DELIM, k1, t, r)
    requires !IsName(c.name) || k > 0
    requires if c.name == "." then k1 == k else if c.name == ".." then k1 == k + 1 else k == k1 + 1
    ensures Yields(init + [c], g, k, t, r)
  {
    hide NormaliseParts, Connected;
    RemovedStack(init, c, k, k1);
    if NormaliseParts(init).Some? && k1 <= |NormaliseParts(init).value| {
      var before := NormaliseParts(init).value;
      LastNameStays(init);
      RemovedConnected(init, c, before[..|before| - k1], g, k, k1, t);
    }
  }

  // Removing c leaves the stack that one component less, or more, to remove leaves without it.
  lemma RemovedStack(init: seq<Part>, c: Part, k: nat, k1: nat)
    requires !IsName(c.name) || k > 0
    requires if c.name == "." then k1 == k else if c.name == ".." then k1 == k + 1 else k == k1 + 1
    ensures var before, stack := NormaliseParts(init), NormaliseParts(init + [c]);
      if before.None? || k1 > |before.value| then stack.None? || k > |stack.value|
      else stack.Some? && k <= |stack.value| && stack.value[..|stack.value| - k] == before.value[..|before.value| - k1]
  {
    hide NormaliseParts, GapBehind;
    NormaliseStep(init, c);
  }

  lemma RemovedConnected(init: seq<Part>, c: Part, kept: seq<Part>, g: string, k: nat, k1: nat, t: string)
    requires init != [] && (!IsName(c.name) || k > 0)
    requires k1 == 0 && IsName(init[|init| - 1].name) ==> kept != []
    ensures Connected(init + [c], kept, g, k, t) == Connected(init, kept, DIR_DELIM, k1, t)
  {
    hide Joined, Lead;
    LeadSnoc(init, c);
  }

  /**
   Resolving ".." from the back with a counter gives the text that a stack from the front gives; the counter is
   left over exactly when the stack would be popped empty.
   */
  lemma {:induction false} BackwardIsForward(ps: seq<Part>, g: string, k: nat, t: string)
    requires ps != []
    ensures Yields(ps, g, k, t, BackwardText(ps, g, k, t))
  {
    hide Yields;
    var c, init := ps[|ps| - 1], ps[..|ps| - 1];
    assert ps == init + [c];
    if init == [] {
      FirstYields(c, g, k, t);
    } else if IsName(c.name) && k == 0 {
      BackwardIsForward(init, c.gap, 0, c.name + (g + t));
      KeptYields(init, c, g, t, BackwardText(init, c.gap, 0, c.name + (g + t)));
    } else {
      var k1 := if c.name == "." then k else if c.name == ".." then k + 1 else k - 1;
      BackwardIsForward(init, DIR_DELIM, k1, t);
      RemovedYields(init, c, g, k, k1, t, BackwardText(init, DIR_DELIM, k1, t));
    }
  }

  // ---------------------------------------------------------------- the loop

  // What the loop makes of the text ahead of it, up to pos, and the text t it has kept.
  ghost function Ahead(s: string, pos: nat, k: nat, t: string): (nat, string)
    requires pos <= |s|
  {
    BackwardText(Parts(s, pos), s[GapBefore(s, pos)..pos], k, t)
  }

  ghost function Whole(original: string): (nat, string) {
    Ahead(original, |original|, 0, "")
  }

  // It is what the loop makes of the whole original.
  ghost predicate Remains(original: string, path: string, pos: nat, dotdots: nat) {
    pos <= |path| && Whole(original) == Ahead(path, pos, dotdots, path[pos..])
  }

  // A turn finds its component at path[start..componentEnd], with delimiters from p before it and up to end behind.
  predicate Found(path: string, p: nat, start: nat, componentEnd: nat, end: nat) {
    GapAt(path, p, start) && NameAt(path, start, componentEnd) && GapAt(path, componentEnd, end)
  }

  lemma FoundPart(path: string, p: nat, start: nat, componentEnd: nat, end: nat)
    requires Found(path, p, start, componentEnd, end) && start < componentEnd
    ensures p <= start && end <= |path| && GapBefore(path, end) == componentEnd <= end
    ensures Parts(path, end) == Parts(path, p) + [Part(path[p..start], path[start..componentEnd])]
  {
    NameUnique(path, start, componentEnd);
  }

  lemma FoundFacts(path: string, p: nat, start: nat, componentEnd: nat, end: nat)
    requires Found(path, p, start, componentEnd, end)
    ensures p <= start <= componentEnd <= end <= |path| && (p > 0 ==> !IsDirDelimiter(path[p - 1]))
    ensures start == componentEnd ==> start == 0
    ensures Parts(path, start) == Parts(path, p) && GapBefore(path, start) == p
  {
    PartsBeforeGap(path, p, start);
  }

  // The turn's component is the last part.
  lemma AheadFound(path: string, p: nat, start: nat, componentEnd: nat, end: nat, k: nat, t: string)
    requires Found(path, p, start, componentEnd, end) && start < componentEnd
    ensures var name := path[start..componentEnd];
      Ahead(path, end, k, t) ==
        if IsName(name) && k == 0 then BackwardText(Parts(path, p), path[p..start], 0, name + (path[componentEnd..end] + t))
        else
          var k1 := if name == "." then k else if name == ".." then k + 1 else k - 1;
          if p == 0 then (k1, (if start == 0 then "" else DIR_DELIM) + t) else BackwardText(Parts(path, p), DIR_DELIM, k1, t)
  {
    hide GapAt, NameAt, WellSpaced, Found;
    FoundPart(path, p, start, componentEnd, end);
    FoundFacts(path, p, start, componentEnd, end);
    var part, init := Part(path[p..start], path[start..componentEnd]), Parts(path, p);
    assert Parts(path, end) == init + [part];
    assert (init + [part])[..|init + [part]| - 1] == init;
    PartsWellSpaced(path, p);
    assert p == 0 ==> init == [] && (path[p..start] == "" <==> start == 0);
  }

  lemma KeepStep(original: string, path: string, p: nat, start: nat, componentEnd: nat, end: nat)
    requires Remains(original, path, end, 0) && Found(path, p, start, componentEnd, end)
    requires start < componentEnd && IsName(path[start..componentEnd])
    ensures Remains(original, path, start, 0)
  {
    hide Parts, BackwardText, Whole, Found;
    FoundFacts(path, p, start, componentEnd, end);
    AheadFound(path, p, start, componentEnd, end, 0, path[end..]);
    assert path[start..] == path[start..componentEnd] + (path[componentEnd..end] + path[end..]);
  }

  lemma AheadNothing(path: string, k: nat)
    ensures Ahead(path, 0, k, path[0..]) == (k, path)
  {
    assert path[0..0] == "" && "" + path == path == path[0..];
  }

  // Only delimiters are left.
  lemma NothingLeftStep(original: string, path: string, end: nat)
    requires Remains(original, path, end, 0) && GapAt(path, 0, end)
    ensures Remains(original, path, 0, 0)
  {
    hide Whole;
    PartsBeforeGap(path, 0, end);
    assert Parts(path, 0) == [] && path[0..0] == "";
    assert path[0..] == path[0..end] + path[end..] == "" + path;
  }

  lemma RemoveStep(original: string, path: string, p: nat, start: nat, componentEnd: nat, end: nat, k: nat, k1: nat)
    requires Remains(original, path, end, k) && Found(path, p, start, componentEnd, end) && start < componentEnd
    requires var c := path[start..componentEnd];
      if c == "." then k1 == k else if c == ".." then k1 == k + 1 else k == k1 + 1
    ensures start == 0 ==> Remains(original, path[end..], 0, k1)
    ensures start > 0 ==> Remains(original, path[..p] + DIR_DELIM + path[end..], if p > 0 then p + 1 else 0, k1)
  {
    hide Parts, BackwardText, Whole, Found;
    FoundFacts(path, p, start, componentEnd, end);
    AheadFound(path, p, start, componentEnd, end, k, path[end..]);
    if p == 0 {
      RemovedFirst(original, path, start, end, k1);
    } else {
      RemovedAfter(original, path, p, end, k1);
    }
  }

  lemma RemovedFirst(original: string, path: string, start: nat, end: nat, k1: nat)
    requires end <= |path| && Whole(original) == (k1, (if start == 0 then "" else DIR_DELIM) + path[end..])
    ensures start == 0 ==> Remains(original, path[end..], 0, k1)
    ensures start > 0 ==> Remains(original, path[..0] + DIR_DELIM + path[end..], 0, k1)
  {
    hide Whole, Ahead;
    assert path[..0] + DIR_DELIM + path[end..] == DIR_DELIM + path[end..] && "" + path[end..] == path[end..];
    AheadNothing(path[end..], k1);
    AheadNothing(path[..0] + DIR_DELIM + path[end..], k1);
  }

  lemma RemovedAfter(original: string, path: string, p: nat, end: nat, k1: nat)
    requires 0 < p <= end <= |path| && !IsDirDelimiter(path[p - 1])
    requires Whole(original) == BackwardText(Parts(path, p), DIR_DELIM, k1, path[end..])
    ensures Remains(original, path[..p] + DIR_DELIM + path[end..], p + 1, k1)
  {
    hide Whole, Parts, BackwardText;
    var u := path[..p] + DIR_DELIM + path[end..];
    assert u[p] == '/' && u[p..p + 1] == DIR_DELIM && u[p + 1..] == path[end..] && u[..p] == path[..p];
    PartsPrefix(path, u, p);
    PartsBeforeGap(u, p, p + 1);
  }

  lemma Begins(original: string)
    ensures Remains(original, original, |original|, 0)
  {
    assert original[|original|..] == "";
  }

  lemma Ends(original: string, path: string, dotdots: nat, pos: nat)
    requires Remains(original, path, 0, dotdots) && GapAt(path, pos, |path|)
    ensures NormalText(original) == if dotdots > 0 then "" else path[..pos]
  {
    hide BackwardText, Parts, NormaliseParts, GapAt, Joined, Ahead;
    AheadNothing(path, dotdots);
    WholeEnds(original, path, dotdots, pos);
  }

  lemma WholeEnds(original: string, path: string, dotdots: nat, pos: nat)
    requires Whole(original) == (dotdots, path) && GapAt(path, pos, |path|)
    ensures NormalText(original) == if dotdots > 0 then "" else path[..pos]
  {
    hide BackwardText, Parts, NormaliseParts, Joined, WellSpaced;
    var n := |original|;
    var ps, g := Parts(original, n), original[GapBefore(original, n)..n];
    PartsWellSpaced(original, n);
    assert forall i :: 0 <= i < |g| ==> g[i] == original[GapBefore(original, n) + i];
    hide GapAt;
    JoinedSnoc([], Part("", ""));
    if ps == [] {
      NoPartsText(g);
      StripText(path, "", g, pos);
    } else {
      BackwardIsForward(ps, g, 0, "");
      NormalisedWellSpaced(ps);
      if NormaliseParts(ps).Some? {
        YieldedEnds(ps, g, NormaliseParts(ps).value, path, pos);
      }
    }
  }

  lemma NoPartsText(g: string)
    ensures BackwardText([], g, 0, "") == (0, g) && g == "" + g && NormaliseParts([]) == Some([])
  {
    assert g + "" == g;
  }

  lemma YieldedEnds(ps: seq<Part>, g: string, stack: seq<Part>, path: string, pos: nat)
    requires ps != [] && WellSpaced(stack) && AllDelimiters(g)
    requires path == Connected(ps, stack[..|stack|], g, 0, "")
    requires GapAt(path, pos, |path|)
    ensures path[..pos] == Joined(stack)
  {
    hide Joined, GapAt, WellSpaced, AllDelimiters, Connected;
    assert stack[..|stack|] == stack;
    JoinedEnd(stack);
    var gap := ConnectedIs(ps, stack, g);
    StripText(path, Joined(stack), gap, pos);
  }

  lemma ConnectedIs(ps: seq<Part>, stack: seq<Part>, g: string) returns (gap: string)
    requires ps != [] && AllDelimiters(g)
    ensures AllDelimiters(gap) && Connected(ps, stack, g, 0, "") == Joined(stack) + gap
  {
    JoinedSnoc([], Part("", ""));
    hide Joined;
    gap := if IsName(ps[|ps| - 1].name) then g else if stack == [] then Lead(ps) else DIR_DELIM;
    assert g + "" == g && Lead(ps) + "" == Lead(ps) == "" + Lead(ps) && DIR_DELIM + "" == DIR_DELIM;
  }

  lemma JoinedEnd(ps: seq<Part>)
    requires WellSpaced(ps)
    ensures ps == [] ==> Joined(ps) == ""
    ensures ps != [] ==> Joined(ps) != "" && !IsDirDelimiter(Joined(ps)[|Joined(ps)| - 1])
  {
    if ps != [] {
      var name := ps[|ps| - 1].name;
      assert Joined(ps)[|Joined(ps)| - 1] == name[|name| - 1];
    }
  }

  lemma StripText(path: string, s: string, g: string, pos: nat)
    requires path == s + g && AllDelimiters(g) && (s != "" ==> !IsDirDelimiter(s[|s| - 1]))
    requires GapAt(path, pos, |path|)
    ensures path[..pos] == s
  {
    assert path[..|s|] == s;
  }

  method SkipDelimitersBackward(path: string, from: nat) returns (pos: nat)
    requires from <= |path|
    ensures GapAt(path, pos, from)
  {
    pos := from;
    while pos != 0 && IsDirDelimiter(path[pos - 1])
      invariant pos <= from && forall i :: pos <= i < from ==> IsDirDelimiter(path[i])
    {
      pos := pos - 1;
    }
  }

  method SkipComponentBackward(path: string, from: nat) returns (pos: nat)
    requires from <= |path|
    ensures NameAt(path, pos, from)
  {
    pos := from;
    while pos != 0 && !IsDirDelimiter(path[pos - 1])
      invariant pos <= from && forall i :: pos <= i < from ==> !IsDirDelimiter(path[i])
    {
      pos := pos - 1;
    }
  }

  // There is something left to remove.
  ghost predicate SomeName(path: string, pos: nat) {
    exists i :: 0 <= i < pos <= |path| && !IsDirDelimiter(path[i])
  }

  lemma SomeNameLast(path: string, pos: nat)
    requires 0 < pos < |path| && !IsDirDelimiter(path[pos - 1])
    ensures SomeName(path, pos + 1)
  {}

  /** fs::RemoveRelativePathComponents. */
  method RemoveRelativePathComponents(original: string) returns (result: string)
    ensures result == NormalText(original)
  {
    hide Remains, NormalText, Parts, NameAt, SomeName;
    var path := original;
    var pos: nat := |path|;
    var dotdotCount: nat := 0;
    Begins(original);
    while pos != 0
      invariant Remains(original, path, pos, dotdotCount) && pos <= |path|
      invariant dotdotCount > 0 && pos > 0 ==> SomeName(path, pos)
      decreases pos
    {
      var componentWithDelimEnd := pos;
      pos := SkipDelimitersBackward(path, pos);
      var componentEnd := pos;
      pos := SkipComponentBackward(path, pos);
      var componentStart := pos;
      ghost var p := GapBefore(path, componentStart);
      FoundFacts(path, p, componentStart, componentEnd, componentWithDelimEnd);
      var component := path[componentStart..componentEnd];
      ghost var before := dotdotCount;
      var removeThisComponent := false;
      if component == "." {
        removeThisComponent := true;
      } else if component == ".." {
        removeThisComponent := true;
        dotdotCount := dotdotCount + 1;
      } else if dotdotCount != 0 {
        removeThisComponent := true;
        dotdotCount := dotdotCount - 1;
        NameIsThere(path, componentEnd, componentWithDelimEnd);
      }
      if removeThisComponent {
        pos := SkipDelimitersBackward(path, pos);
        RemoveStep(original, path, pos, componentStart, componentEnd, componentWithDelimEnd, before, dotdotCount);
        if componentStart == 0 {
          path := path[componentWithDelimEnd..];
        } else {
          path := path[..pos] + DIR_DELIM + path[componentWithDelimEnd..];
          if pos > 0 {
            SomeNameLast(path, pos);
          }
        }
        if pos > 0 {
          pos := pos + 1;
        }
      } else if componentStart < componentEnd {
        KeepStep(original, path, p, componentStart, componentEnd, componentWithDelimEnd);
      } else {
        NothingLeftStep(original, path, componentWithDelimEnd);
      }
    }
    if dotdotCount > 0 {
      Ends(original, path, dotdotCount, GapBefore(path, |path|));
      return "";
    }
    pos := SkipDelimitersBackward(path, |path|);
    Ends(original, path, dotdotCount, pos);
    result := path[..pos];
  }

  lemma NameIsThere(path: string, componentEnd: nat, end: nat)
    requires GapAt(path, componentEnd, end) && SomeName(path, end)
    ensures componentEnd > 0
  {}

  // ---------------------------------------------------------------- consequences

  // A path has the parts it is joined from.
  lemma {:induction false} PartsOfJoined(ps: seq<Part>)
    requires WellSpaced(ps)
    ensures PathParts(Joined(ps)) == ps
  {
    hide NoDelimiter, AllDelimiters, Parts;
    if ps == [] {
      EmptyHasNoParts();
    } else {
      var init, c := ps[..|ps| - 1], ps[|ps| - 1];
      PartsOfJoined(init);
      JoinedEnd(init);
      OnePartMore(init, c, Joined(init), Joined(ps));
    }
  }

  lemma OnePartMore(init: seq<Part>, c: Part, h: string, s: string)
    requires s == h + (c.gap + c.name) && c.name != "" && NoDelimiter(c.name) && AllDelimiters(c.gap)
    requires PathParts(h) == init && (h == "" || (c.gap != "" && !IsDirDelimiter(h[|h| - 1])))
    ensures PathParts(s) == init + [c]
  {
    hide NoDelimiter, AllDelimiters, Parts, GapAt, NameAt, SamePrefix;
    JoinedCuts(h, c, s, h == "");
    var a, b := |h|, |h| + |c.gap|;
    FoundPart(s, a, b, |s|, |s|);
    TextCuts(h, c, s);
    PartsPrefix(s, h, a);
  }

  lemma TextCuts(h: string, c: Part, s: string)
    requires s == h + (c.gap + c.name)
    ensures var a, b := |h|, |h| + |c.gap|;
      SamePrefix(s, h, a) && s[a..b] == c.gap && s[b..|s|] == c.name
  {}

  lemma JoinedCuts(h: string, c: Part, s: string, first: bool)
    requires s == h + (c.gap + c.name) && c.name != "" && NoDelimiter(c.name) && AllDelimiters(c.gap)
    requires first ==> h == ""
    requires !first ==> c.gap != "" && h != "" && !IsDirDelimiter(h[|h| - 1])
    ensures GapAt(s, |s|, |s|) && NameAt(s, |h| + |c.gap|, |s|) && GapAt(s, |h|, |h| + |c.gap|)
  {
    var b := |h| + |c.gap|;
    assert forall i :: |h| <= i < b ==> s[i] == c.gap[i - |h|];
    assert forall i :: b <= i < |s| ==> s[i] == c.name[i - b];
    assert h != "" ==> s[|h| - 1] == h[|h| - 1];
  }

  predicate Leads(s: string) {
    s != "" && IsDirDelimiter(s[0])
  }

  lemma {:induction false} FirstGap(s: string, n: nat)
    requires n <= |s| && Parts(s, n) != []
    ensures Parts(s, n)[0].gap != "" <==> Leads(s)
    decreases n
  {
    var e := GapBefore(s, n);
    var b := NameBefore(s, e);
    var a := GapBefore(s, b);
    if a == 0 {
      assert Parts(s, 0) == [];
    } else {
      PartsWellSpaced(s, a);
      FirstGap(s, a);
    }
  }

  /**
   The result has exactly the components of the forward normalisation, a leading delimiter exactly when there was
   one and something is left, and none at the end.
   */
  lemma NormalTextMeaning(original: string)
    ensures match Normalise(Components(original))
      case None => NormalText(original) == ""
      case Some(stack) =>
        var result := NormalText(original);
        && Components(result) == stack && (Leads(result) <==> Leads(original) && stack != [])
        && (result != "" ==> !IsDirDelimiter(result[|result| - 1]))
  {
    hide Parts, Joined, WellSpaced, NormaliseParts, Normalise;
    var ps := PathParts(original);
    PartsWellSpaced(original, |original|);
    NormalisedWellSpaced(ps);
    NormaliseNames(ps);
    if NormaliseParts(ps).Some? {
      var stack := NormaliseParts(ps).value;
      PartsOfJoined(stack);
      JoinedEnd(stack);
      if stack != [] {
        NothingFromNothing();
        FirstGap(original, |original|);
        FirstGap(Joined(stack), |Joined(stack)|);
      }
    }
  }

  lemma NothingFromNothing()
    ensures NormaliseParts([]) == Some([])
  {}

  lemma {:induction false} NamesStay(ps: seq<Part>)
    requires forall i :: 0 <= i < |ps| ==> IsName(ps[i].name)
    ensures NormaliseParts(ps) == Some(ps)
  {
    if ps == [] {
    } else {
      NamesStay(ps[..|ps| - 1]);
      assert ps == ps[..|ps| - 1] + [ps[|ps| - 1]];
    }
  }

  /** Normalising a result changes nothing. */
  lemma NormalisedTwice(original: string)
    ensures NormalText(NormalText(original)) == NormalText(original)
  {
    hide Parts, Joined, WellSpaced, NormaliseParts;
    var ps := PathParts(original);
    PartsWellSpaced(original, |original|);
    NormalisedWellSpaced(ps);
    JoinedSnoc([], Part("", ""));
    if NormaliseParts(ps).Some? {
      var stack := NormaliseParts(ps).value;
      PartsOfJoined(stack);
      NamesStay(stack);
    } else {
      EmptyHasNoParts();
    }
  }

  lemma EmptyHasNoParts()
    ensures PathParts("") == [] && NormaliseParts([]) == Some([])
  {}

  // ---------------------------------------------------------------- what the normalisation means

  // The components behind see only what became of those in front.
  lemma {:induction false} SameBehind(xs: seq<string>, xs': seq<string>, ys: seq<string>)
    requires Normalise(xs) == Normalise(xs')
    ensures Normalise(xs + ys) == Normalise(xs' + ys)
  {
    if ys == [] {
      assert xs + ys == xs && xs' + ys == xs';
    } else {
      var init, c := ys[..|ys| - 1], ys[|ys| - 1];
      SameBehind(xs, xs', init);
      OneMore(xs + init, c);
      OneMore(xs' + init, c);
      assert xs + ys == xs + init + [c] && xs' + ys == xs' + init + [c];
    }
  }

  lemma OneMore(cs: seq<string>, c: string)
    ensures var before := Normalise(cs);
      Normalise(cs + [c]) ==
        if before.None? || c == "." then before
        else if c == ".." then
          if before.value == [] then None else Some(before.value[..|before.value| - 1])
        else Some(before.value + [c])
  {
    assert (cs + [c])[..|cs + [c]| - 1] == cs;
  }

  lemma {:induction false} NoWayBack(ys: seq<string>)
    ensures Normalise([".."] + ys) == None
  {
    if ys == [] {
      assert [".."] + ys == [] + [".."];
      OneMore([], "..");
    } else {
      NoWayBack(ys[..|ys| - 1]);
      OneMore([".."] + ys[..|ys| - 1], ys[|ys| - 1]);
      assert [".."] + ys == [".."] + ys[..|ys| - 1] + [ys[|ys| - 1]];
    }
  }

  lemma {:induction false} ProperNamesStay(cs: seq<string>)
    requires forall c :: c in cs ==> c != "." && c != ".."
    ensures Normalise(cs) == Some(cs)
  {
    if cs == [] {
    } else {
      var init, c := cs[..|cs| - 1], cs[|cs| - 1];
      assert c in cs && forall x :: x in init ==> x in cs;
      ProperNamesStay(init);
      OneMore(init, c);
      assert cs == init + [c];
    }
  }

  /**
   The rules of path names, which leave no choice: "." stands for nothing, ".." takes back the name before it, has no
   meaning where there is none to take back, and names stay.
   */
  lemma PathRules(xs: seq<string>, name: string, ys: seq<string>)
    ensures Normalise(xs + ["."] + ys) == Normalise(xs + ys)
    ensures name != "." && name != ".." ==> Normalise(xs + [name, ".."] + ys) == Normalise(xs + ys)
    ensures Normalise([".."] + ys) == None
    ensures (forall x :: x in xs ==> x != "." && x != "..") ==> Normalise(xs) == Some(xs)
  {
    OneMore(xs, ".");
    SameBehind(xs + ["."], xs, ys);
    OneMore(xs, name);
    OneMore(xs + [name], "..");
    assert xs + [name, ".."] == xs + [name] + [".."];
    NoWayBack(ys);
    if forall x :: x in xs ==> x != "." && x != ".." {
      ProperNamesStay(xs);
    }
    if name != "." && name != ".." && Normalise(xs).Some? {
      assert (Normalise(xs).value + [name])[..|Normalise(xs).value|] == Normalise(xs).value;
    }
    if name != "." && name != ".." {
      SameBehind(xs + [name, ".."], xs, ys);
    }
  }

  lemma {:induction false} PartsRejoin(s: string, n: nat)
    requires n <= |s|
    ensures Joined(Parts(s, n)) == s[..GapBefore(s, n)]
    decreases n
  {
    hide GapAt, NameAt, Joined;
    var e := GapBefore(s, n);
    JoinedSnoc([], Part("", ""));
    if e > 0 {
      var b := NameBefore(s, e);
      var a := GapBefore(s, b);
      PartsRejoin(s, a);
      GapBeforeGap(s, b);
      JoinedSnoc(Parts(s, a), Part(s[a..b], s[b..e]));
      CutTwice(s, a, b, e);
    }
  }

  lemma CutTwice(s: string, a: nat, b: nat, e: nat)
    requires a <= b <= e <= |s|
    ensures s[..a] + (s[a..b] + s[b..e]) == s[..e]
  {}

  lemma {:induction false} GapBeforeGap(s: string, b: nat)
    requires b <= |s|
    ensures GapBefore(s, GapBefore(s, b)) == GapBefore(s, b)
  {
    if b == 0 || !IsDirDelimiter(s[b - 1]) {
    } else {
      GapBeforeGap(s, b - 1);
    }
  }

  /** A path without "." and ".." only loses the delimiters at its end, however many stand inside. */
  lemma OnlyTrailingGoes(original: string)
    requires forall c :: c in Components(original) ==> c != "." && c != ".."
    ensures var result := NormalText(original);
      && result <= original
      && (forall i :: |result| <= i < |original| ==> original[i] == '/')
      && (result != "" ==> result[|result| - 1] != '/')
  {
    hide Parts, NormaliseParts, Joined;
    var ps := PathParts(original);
    forall i | 0 <= i < |ps| ensures IsName(ps[i].name) {
      assert Components(original)[i] in Components(original);
    }
    NamesStay(ps);
    PartsRejoin(original, |original|);
  }

  // Behind the first, a part of the result has a single delimiter or is a part of the path as it stood.
  lemma {:induction false} GapsOfResult(ps: seq<Part>)
    ensures NormaliseParts(ps).Some? ==> var stack := NormaliseParts(ps).value;
      forall j :: 0 < j < |stack| ==> stack[j].gap == "/" || stack[j] in ps
  {
    if ps == [] {
    } else {
      var init, c := ps[..|ps| - 1], ps[|ps| - 1];
      GapsOfResult(init);
      assert ps == init + [c];
      NormaliseStep(init, c);
    }
  }
}
