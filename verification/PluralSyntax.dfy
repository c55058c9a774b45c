/**
 C conditional expressions over n (sections 6.5.5 to 6.5.15 of ISO/IEC 9899:2011), as the plural-form
 parser of src/gettext_plural_form.cpp has to read them.
 */
module PluralSyntax {
  import opened Basics
  import opened PluralForms
  import opened RowMajor

  // A derivation: it keeps every parenthesis and every gap of the text.
  datatype Expr =
    | Var
    | Number(digits: string)
    | Paren(gap1: string, inner: Expr, gap2: string)
    | Negation(gap: string, operand: Expr)
    | Infix(fn: Op, left: Expr, before: string, after: string, right: Expr)
    | Choice(test: Expr, g1: string, g2: string, yes: Expr, g3: string, g4: string, no: Expr)

  function Token(fn: Op): string {
    match fn
    case Mul => "*" case Div => "/" case Mod => "%"
    case Add => "+" case Sub => "-"
    case Le => "<=" case Ge => ">=" case Lt => "<" case Gt => ">"
    case Eq => "==" case Ne => "!="
    case And => "&&"
    case Or => "||"
  }

  function Cat(a: string, b: string): string {
    a + b
  }

  function Text(e: Expr): string {
    match e
    case Var => "n"
    case Number(ds) => ds
    case Paren(a, x, b) => Cat("(", Cat(a, Cat(Text(x), Cat(b, ")"))))
    case Negation(a, x) => Cat("!", Cat(a, Text(x)))
    case Infix(fn, l, a, b, r) => Cat(Text(l), Cat(a, Cat(Token(fn), Cat(b, Text(r)))))
    case Choice(c, g1, g2, y, g3, g4, o) =>
      Cat(Text(c), Cat(g1, Cat("?", Cat(g2, Cat(Text(y), Cat(g3, Cat(":", Cat(g4, Text(o)))))))))
  }

  // ---------------------------------------------------------------- grammar

  function OpLevel(fn: Op): nat {
    match fn
    case Mul => 2 case Div => 2 case Mod => 2
    case Add => 3 case Sub => 3
    case Le => 4 case Ge => 4 case Lt => 4 case Gt => 4
    case Eq => 5 case Ne => 5
    case And => 6
    case Or => 7
  }

  function Level(e: Expr): (l: nat)
    ensures l <= 8
  {
    match e
    case Var => 0
    case Number(_) => 0
    case Paren(_, _, _) => 0
    case Negation(_, _) => 1
    case Infix(fn, _, _, _, _) => OpLevel(fn)
    case Choice(_, _, _, _, _, _, _) => 8
  }

  // White space of the C locale (section 7.4.1.10).
  predicate Spaces(w: string) {
    forall i :: 0 <= i < |w| ==> w[i] in " \t\n\U{0B}\U{0C}\r"
  }

  lemma SpaceIs(c: char)
    ensures IsSpace(c) <==> c in " \t\n\U{0B}\U{0C}\r"
  {}

  predicate Digits(ds: string) {
    forall i :: 0 <= i < |ds| ==> IsDigit(ds[i])
  }

  // Binary operators associate to the left, the conditional operator to the right; numbers fit an unsigned long.
  predicate WellFormed(e: Expr) {
    match e
    case Var => true
    case Number(ds) => ds != "" && Digits(ds) && DigitsValue(ds) <= ULONG_MAX
    case Paren(a, x, b) => Spaces(a) && Spaces(b) && WellFormed(x)
    case Negation(a, x) => Spaces(a) && WellFormed(x) && Level(x) <= 1
    case Infix(fn, l, a, b, r) =>
      Spaces(a) && Spaces(b) && WellFormed(l) && WellFormed(r) && Level(l) <= OpLevel(fn) && Level(r) < OpLevel(fn)
    case Choice(c, g1, g2, y, g3, g4, o) =>
      Spaces(g1) && Spaces(g2) && Spaces(g3) && Spaces(g4) && WellFormed(c) && WellFormed(y) && WellFormed(o) && Level(c) <= 7
  }

  function Tree(e: Expr): (f: Form)
    requires WellFormed(e)
    ensures f != NoForm
  {
    match e
    case Var => Identity
    case Number(ds) => ConstValue(DigitsValue(ds))
    case Paren(_, x, _) => Tree(x)
    case Negation(_, x) => LogicalNot(Tree(x))
    case Infix(fn, l, _, _, r) => Binary(fn, Tree(l), Tree(r))
    case Choice(c, _, _, y, _, _, o) => Ternary(Tree(c), Tree(y), Tree(o))
  }

  // ---------------------------------------------------------------- constants

  ghost function Digit(d: nat): char
    requires d < 10
  {
    "0123456789"[d]
  }

  // The decimal numeral of a number.
  ghost function Numeral(n: nat): string {
    (if n < 10 then "" else Numeral(n / 10)) + [Digit(n % 10)]
  }

  lemma DigitIs(d: nat)
    requires d < 10
    ensures IsDigit(Digit(d)) && DigitValue(Digit(d)) == d
  {}

  lemma DigitOf(c: char)
    requires IsDigit(c)
    ensures DigitValue(c) < 10 && Digit(DigitValue(c)) == c
  {}

  lemma DigitsSnoc(ds: string, c: char)
    requires Digits(ds) && IsDigit(c)
    ensures Digits(ds + [c]) && DigitsValue(ds + [c]) == DigitsValue(ds) * 10 + DigitValue(c)
  {
    assert (ds + [c])[..|ds|] == ds;
  }

  lemma {:induction false} NumeralValue(n: nat)
    ensures Digits(Numeral(n)) && DigitsValue(Numeral(n)) == n
  {
    hide Digit, DigitValue, DigitsValue, IsDigit;
    DigitIs(n % 10);
    NoDigits();
    if n >= 10 {
      NumeralValue(n / 10);
    }
    DigitsSnoc(if n < 10 then "" else Numeral(n / 10), Digit(n % 10));
  }

  lemma NoDigits()
    ensures Digits("") && DigitsValue("") == 0
  {}

  /** Digits are the numeral of their value, with zeros in front. */
  lemma {:induction false} DigitsMeaning(ds: string) returns (zeros: string)
    requires ds != "" && Digits(ds)
    ensures (forall i :: 0 <= i < |zeros| ==> zeros[i] == '0') && ds == zeros + Numeral(DigitsValue(ds))
  {
    hide DigitValue, DigitsValue, IsDigit, Digit;
    var init, c := ds[..|ds| - 1], ds[|ds| - 1];
    assert ds == init + [c];
    DigitOf(c);
    NoDigits();
    DigitsSnoc(init, c);
    zeros := "";
    if init != "" {
      zeros := DigitsMeaning(init);
      if DigitsValue(init) == 0 {
        ZeroDigit();
        zeros := zeros + "0";
      } else {
        assert DigitsValue(ds) / 10 == DigitsValue(init) && DigitsValue(ds) % 10 == DigitValue(c);
      }
    }
  }

  lemma ZeroDigit()
    ensures Digit(0) == '0'
  {}

  predicate OctalDigits(ds: string) {
    forall i :: 0 <= i < |ds| ==> '0' <= ds[i] <= '7'
  }

  function OctalValue(ds: string): nat
    requires OctalDigits(ds)
  {
    if ds == "" then 0 else OctalValue(ds[..|ds| - 1]) * 8 + DigitValue(ds[|ds| - 1])
  }

  // A constant of C (section 6.4.4.1): decimal, or octal if it starts with 0; "08" is none.
  function ConstantValue(ds: string): (v: Option<nat>)
    requires ds != "" && Digits(ds)
    ensures v.Some? ==> v.value <= DigitsValue(ds)
  {
    if ds[0] != '0' then Some(DigitsValue(ds))
    else if OctalDigits(ds) then OctalAtMostDecimal(ds); Some(OctalValue(ds))
    else None
  }

  lemma {:induction false} OctalAtMostDecimal(ds: string)
    requires OctalDigits(ds)
    ensures OctalValue(ds) <= DigitsValue(ds)
    ensures OctalValue(ds) == DigitsValue(ds) <==> DigitsValue(ds) < 8
  {
    if ds == "" {
    } else {
      OctalAtMostDecimal(ds[..|ds| - 1]);
    }
  }

  // No leading zero, or a value too small for it to matter.
  predicate ReadAsDecimal(ds: string)
    requires ds != "" && Digits(ds)
  {
    ds[0] != '0' || (OctalDigits(ds) && DigitsValue(ds) < 8)
  }

  /** Reading a number as decimal, as the parser does, is right exactly for these constants. */
  lemma DecimalReading(ds: string)
    requires ds != "" && Digits(ds)
    ensures ConstantValue(ds) == Some(DigitsValue(ds)) <==> ReadAsDecimal(ds)
  {
    if OctalDigits(ds) {
      OctalAtMostDecimal(ds);
    }
  }

  predicate DecimalConstants(e: Expr)
    requires WellFormed(e)
  {
    match e
    case Var => true
    case Number(ds) => ReadAsDecimal(ds)
    case Paren(_, x, _) => DecimalConstants(x)
    case Negation(_, x) => DecimalConstants(x)
    case Infix(_, l, _, _, r) => DecimalConstants(l) && DecimalConstants(r)
    case Choice(c, _, _, y, _, _, o) => DecimalConstants(c) && DecimalConstants(y) && DecimalConstants(o)
  }

  // ---------------------------------------------------------------- meaning

  ghost function Multiple(k: int): int { k * 0x1_0000_0000_0000_0000 }

  // x and y differ by a multiple of 2^64.
  ghost predicate Congruent(x: int, y: int) {
    exists k: int :: x == y + Multiple(k)
  }

  ghost predicate Division(a: nat, b: nat, quotient: nat, remainder: nat) {
    a == quotient * b + remainder && remainder < b
  }

  ghost predicate IsTruth(v: NumT, b: bool) {
    (b ==> v == 1) && (!b ==> v == 0)
  }

  // v is what the operator gives for two unsigned longs of 64 bits (sections 6.5.5 to 6.5.14): quotients and remainders
  // belong together, sums, differences and products are reduced into the range, comparisons and logic give 0 or 1.
  ghost predicate IsResult(fn: Op, a: NumT, b: NumT, v: NumT) {
    match fn
    case Mul => Congruent(v, a * b)
    case Div => exists r: nat :: Division(a, b, v, r)
    case Mod => exists q: nat :: Division(a, b, q, v)
    case Add => Congruent(v, a + b)
    case Sub => Congruent(v, a - b)
    case Le => IsTruth(v, a <= b)
    case Ge => IsTruth(v, b <= a)
    case Lt => IsTruth(v, a < b)
    case Gt => IsTruth(v, b < a)
    case Eq => IsTruth(v, a == b)
    case Ne => IsTruth(v, a < b || b < a)
    case And => IsTruth(v, a > 0 && b > 0)
    case Or => IsTruth(v, a > 0 || b > 0)
  }

  // The value in C of an operation, if it has one.
  ghost function ResultOf(fn: Op, a: NumT, b: NumT): Option<NumT> {
    if exists v: NumT :: IsResult(fn, a, b, v) then
      var v: NumT :| IsResult(fn, a, b, v);
      Some(v)
    else None
  }

  // The value in C; && and || skip their right operand when the left one decides.
  ghost function Meaning(e: Expr, n: NumT): Option<NumT>
    requires WellFormed(e)
  {
    match e
    case Var => Some(n)
    case Number(ds) =>
      var v := ConstantValue(ds);
      if v.None? then None else Some(v.value)
    case Paren(_, x, _) => Meaning(x, n)
    case Negation(_, x) =>
      var v := Meaning(x, n);
      if v.None? then None else if v.value > 0 then Some(0) else Some(1)
    case Infix(fn, l, _, _, r) =>
      var a := Meaning(l, n);
      if a.None? then None
      else if fn == And && a.value == 0 then Some(0)
      else if fn == Or && a.value != 0 then Some(1)
      else
        var b := Meaning(r, n);
        if b.None? then None else ResultOf(fn, a.value, b.value)
    case Choice(c, _, _, y, _, _, o) =>
      var k := Meaning(c, n);
      if k.None? then None else if k.value != 0 then Meaning(y, n) else Meaning(o, n)
  }

  // ---------------------------------------------------------------- the operators of the evaluator

  lemma WrapIsCongruent(x: int)
    ensures Congruent(Wrap(x), x)
  {
    assert Wrap(x) == x + Multiple(-(x / 0x1_0000_0000_0000_0000));
  }

  lemma CongruentIsUnique(v: NumT, w: NumT, x: int)
    requires Congruent(v, x) && Congruent(w, x)
    ensures v == w
  {}

  // No other pair is quotient and remainder.
  lemma DivisionIsUnique(a: nat, b: nat, q: nat, r: nat)
    requires Division(a, b, q, r)
    ensures b > 0 && q == a / b && r == a % b
  {
    DivModUnique(r, q, b);
  }

  lemma QuotientFits(a: nat, b: nat)
    requires b > 0
    ensures a / b <= a && a % b <= a && Division(a, b, a / b, a % b)
  {
    assert a == a / b * b + a % b;
    MulMono(1, b, a / b);
    assert b * (a / b) == a / b * b;
  }

  /** The evaluator's operators are those of C, and have no value exactly where C gives none. */
  lemma ApplyIsResult(fn: Op, a: NumT, b: NumT)
    ensures Apply(fn, a, b) == ResultOf(fn, a, b)
  {
    OnlyResult(fn, a, b);
    ApplyGives(fn, a, b);
    hide IsResult, Apply;
  }

  lemma ApplyGives(fn: Op, a: NumT, b: NumT)
    ensures Apply(fn, a, b).Some? ==> IsResult(fn, a, b, Apply(fn, a, b).value)
    ensures Apply(fn, a, b).None? ==> (fn == Div || fn == Mod) && b == 0
  {
    hide Congruent, Division;
    match fn
    case Mul => WrapIsCongruent(a * b);
    case Add => WrapIsCongruent(a + b);
    case Sub => WrapIsCongruent(a - b);
    case Div => if b > 0 { QuotientFits(a, b); WrapInRange(a / b); }
    case Mod => if b > 0 { QuotientFits(a, b); WrapInRange(a % b); }
    case _ =>
  }

  lemma WrapInRange(x: NumT)
    ensures Wrap(x) == x
  {}

  lemma NoDivision(a: nat)
    ensures forall q: nat, r: nat :: !Division(a, 0, q, r)
  {}

  // There is one result at most, and none of a division by 0.
  lemma OnlyResult(fn: Op, a: NumT, b: NumT)
    ensures forall v: NumT, w: NumT :: IsResult(fn, a, b, v) && IsResult(fn, a, b, w) ==> v == w
    ensures (fn == Div || fn == Mod) && b == 0 ==> forall v: NumT :: !IsResult(fn, a, b, v)
  {
    hide Congruent, Division;
    if (fn == Div || fn == Mod) && b == 0 {
      NoDivision(a);
    }
    forall v: NumT, w: NumT | IsResult(fn, a, b, v) && IsResult(fn, a, b, w) ensures v == w {
      match fn
      case Mul => CongruentIsUnique(v, w, a * b);
      case Add => CongruentIsUnique(v, w, a + b);
      case Sub => CongruentIsUnique(v, w, a - b);
      case Div =>
        var r: nat :| Division(a, b, v, r);
        var s: nat :| Division(a, b, w, s);
        DivisionIsUnique(a, b, v, r);
        DivisionIsUnique(a, b, w, s);
      case Mod =>
        var q: nat :| Division(a, b, q, v);
        var p: nat :| Division(a, b, p, w);
        DivisionIsUnique(a, b, q, v);
        DivisionIsUnique(a, b, p, w);
      case _ =>
    }
  }

  // Every part is defined, outside the branches not chosen.
  ghost predicate AllDefined(e: Expr, n: NumT)
    requires WellFormed(e)
  {
    match e
    case Var => true
    case Number(_) => true
    case Paren(_, x, _) => AllDefined(x, n)
    case Negation(_, x) => AllDefined(x, n)
    case Infix(fn, l, _, _, r) => AllDefined(l, n) && AllDefined(r, n) && Meaning(e, n).Some?
    case Choice(c, _, _, y, _, _, o) => AllDefined(c, n) && (if Meaning(c, n) == Some(0) then AllDefined(o, n) else AllDefined(y, n))
  }

  lemma {:induction false} DefinedMeans(e: Expr, n: NumT)
    requires WellFormed(e) && DecimalConstants(e) && AllDefined(e, n)
    ensures Meaning(e, n).Some?
  {
    match e
    case Var =>
    case Number(ds) => DecimalReading(ds);
    case Paren(_, x, _) => DefinedMeans(x, n);
    case Negation(_, x) => DefinedMeans(x, n);
    case Infix(_, _, _, _, _) =>
    case Choice(c, _, _, y, _, _, o) =>
      DefinedMeans(c, n);
      if Meaning(c, n) == Some(0) {
        DefinedMeans(o, n);
      } else {
        DefinedMeans(y, n);
      }
  }

  lemma {:induction false} TreeSize(e: Expr, nplurals: nat)
    requires WellFormed(e)
    ensures Size(Tree(e), nplurals) == nplurals
  {
    match e
    case Var =>
    case Number(_) =>
    case Paren(_, x, _) => TreeSize(x, nplurals);
    case Negation(_, x) => TreeSize(x, nplurals);
    case Infix(_, l, _, _, r) =>
      TreeSize(l, nplurals);
      TreeSize(r, nplurals);
    case Choice(c, _, _, y, _, _, o) =>
      TreeSize(c, nplurals);
      TreeSize(y, nplurals);
      TreeSize(o, nplurals);
  }

  // The evaluator has a value exactly when every part it evaluates has one, and it is the value in C.
  lemma {:induction false} TreeValue(e: Expr, nplurals: nat, n: NumT)
    requires WellFormed(e) && DecimalConstants(e) && nplurals > 0
    ensures Evaluate(Tree(e), nplurals, n) == if AllDefined(e, n) then Meaning(e, n) else None
  {
    TreeSize(e, nplurals);
    match e
    case Var =>
    case Number(ds) =>
      DecimalReading(ds);
    case Paren(_, x, _) =>
      TreeValue(x, nplurals, n);
    case Negation(_, x) =>
      TreeValue(x, nplurals, n);
      if AllDefined(x, n) {
        DefinedMeans(x, n);
      }
    case Infix(_, l, _, _, r) =>
      TreeValue(l, nplurals, n);
      TreeValue(r, nplurals, n);
      InfixValue(e, nplurals, n);
    case Choice(c, _, _, y, _, _, o) =>
      TreeValue(c, nplurals, n);
      TreeValue(y, nplurals, n);
      TreeValue(o, nplurals, n);
  }

  // The value of a tree, given those of its parts.
  ghost predicate HasValue(e: Expr, nplurals: nat, n: NumT)
    requires WellFormed(e)
  {
    Evaluate(Tree(e), nplurals, n) == if AllDefined(e, n) then Meaning(e, n) else None
  }

  lemma InfixValue(e: Expr, nplurals: nat, n: NumT)
    requires WellFormed(e) && DecimalConstants(e) && nplurals > 0 && e.Infix? && Size(Tree(e), nplurals) == nplurals
    requires HasValue(e.left, nplurals, n) && HasValue(e.right, nplurals, n)
    ensures HasValue(e, nplurals, n)
  {
    hide Apply, ResultOf;
    if AllDefined(e.left, n) && AllDefined(e.right, n) {
      DefinedMeans(e.left, n);
      DefinedMeans(e.right, n);
      EagerApply(e.fn, Meaning(e.left, n).value, Meaning(e.right, n).value);
      ApplyIsResult(e.fn, Meaning(e.left, n).value, Meaning(e.right, n).value);
    }
  }

  // Where the left operand decides, so does the eager operation.
  lemma EagerApply(fn: Op, a: NumT, b: NumT)
    ensures fn == And && a == 0 ==> Apply(fn, a, b) == Some(0)
    ensures fn == Or && a != 0 ==> Apply(fn, a, b) == Some(1)
  {}

  // ---------------------------------------------------------------- trimming

  // No space at the end: what every view handed down by the parser keeps.
  predicate Clean(s: string) {
    s == "" || !IsSpace(s[|s| - 1])
  }

  lemma {:induction false} TrimFrontGap(w: string, s: string)
    requires Spaces(w)
    ensures TrimFront(Cat(w, s)) == TrimFront(s)
  {
    if w == "" {
      assert w + s == s;
    } else {
      SpaceIs(w[0]);
      assert (w + s)[1..] == w[1..] + s;
      TrimFrontGap(w[1..], s);
    }
  }

  lemma {:induction false} TrimFrontClean(s: string)
    requires Clean(s)
    ensures Clean(TrimFront(s)) && Trim(s) == TrimFront(s)
    ensures Trim(s) == "" || !IsSpace(Trim(s)[0])
  {
    if s != "" && IsSpace(s[0]) {
      TrimFrontClean(s[1..]);
    }
  }

  lemma TrimGap(w: string, s: string)
    requires Spaces(w) && Clean(s)
    ensures Trim(Cat(w, s)) == Trim(s)
  {
    TrimFrontGap(w, s);
  }

  lemma {:induction false} TrimBackGap(s: string, w: string)
    requires Spaces(w)
    ensures TrimBack(Cat(s, w)) == TrimBack(s)
  {
    if w == "" {
      assert s + w == s;
    } else {
      assert (s + w)[..|s + w| - 1] == s + w[..|w| - 1];
      TrimBackGap(s, w[..|w| - 1]);
    }
  }

  lemma CatAssociates(a: string, b: string, c: string)
    ensures Cat(Cat(a, b), c) == Cat(a, Cat(b, c))
  {}

  lemma CatEnds(a: string, b: string)
    requires a != ""
    ensures Cat(a, b) != "" && Cat(a, b)[0] == a[0]
    ensures Cat(a, b)[|a|..] == b && StartsWith(Cat(a, b), a)
    ensures Clean(b) && (b == "" ==> Clean(a)) ==> Clean(Cat(a, b))
  {}

  lemma CleanBehind(a: string, b: string)
    requires Clean(b) && b != ""
    ensures Clean(Cat(a, b)) && Cat(a, b) != ""
  {}

  predicate OperandStart(c: char) {
    c == 'n' || c == '(' || c == '!' || IsDigit(c)
  }

  lemma {:induction false} TextEnds(e: Expr)
    requires WellFormed(e)
    ensures Text(e) != "" && OperandStart(Text(e)[0]) && Clean(Text(e))
  {
    hide Cat;
    match e
    case Var =>
    case Number(ds) =>
    case Paren(a, x, b) =>
      CleanBehind(b, ")");
      CleanBehind(Text(x), Cat(b, ")"));
      CleanBehind(a, Cat(Text(x), Cat(b, ")")));
      CatEnds("(", Cat(a, Cat(Text(x), Cat(b, ")"))));
    case Negation(a, x) =>
      TextEnds(x);
      CleanBehind(a, Text(x));
      CatEnds("!", Cat(a, Text(x)));
    case Infix(fn, l, a, b, r) =>
      TextEnds(l);
      TextEnds(r);
      CleanBehind(b, Text(r));
      CleanBehind(Token(fn), Cat(b, Text(r)));
      CleanBehind(a, Cat(Token(fn), Cat(b, Text(r))));
      CatEnds(Text(l), Cat(a, Cat(Token(fn), Cat(b, Text(r)))));
    case Choice(c, g1, g2, y, g3, g4, o) =>
      TextEnds(c);
      TextEnds(o);
      var t1 := Cat(":", Cat(g4, Text(o)));
      CleanBehind(g4, Text(o));
      CleanBehind(":", Cat(g4, Text(o)));
      CleanBehind(g3, t1);
      CleanBehind(Text(y), Cat(g3, t1));
      var t2 := Cat(g2, Cat(Text(y), Cat(g3, t1)));
      CleanBehind(g2, Cat(Text(y), Cat(g3, t1)));
      CleanBehind("?", t2);
      CleanBehind(g1, Cat("?", t2));
      CatEnds(Text(c), Cat(g1, Cat("?", t2)));
  }

  // A text stands as it is once the gap before it is trimmed.
  lemma TrimBeforeText(w: string, e: Expr, tail: string)
    requires Spaces(w) && WellFormed(e) && Clean(tail)
    ensures Trim(Cat(w, Cat(Text(e), tail))) == Cat(Text(e), tail)
    ensures Clean(Cat(Text(e), tail)) && Clean(Cat(w, Cat(Text(e), tail)))
  {
    TextEnds(e);
    TrimBefore(w, Text(e), tail);
  }

  lemma TrimBefore(w: string, mark: string, tail: string)
    requires Spaces(w) && mark != "" && !IsSpace(mark[0]) && Clean(mark) && Clean(tail)
    ensures Trim(Cat(w, Cat(mark, tail))) == Cat(mark, tail)
    ensures Clean(Cat(mark, tail)) && Clean(Cat(w, Cat(mark, tail)))
  {
    CatEnds(mark, tail);
    CleanBehind(w, Cat(mark, tail));
    TrimFrontClean(Cat(mark, tail));
    TrimGap(w, Cat(mark, tail));
  }
}
