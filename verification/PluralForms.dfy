/**
 The parser and the evaluators of plural-form expressions (src/gettext_plural_form.cpp).
 */
module PluralForms {
  import opened Basics

  const ULONG_MAX: nat := 0xFFFF_FFFF_FFFF_FFFF

  type NumT = x: int | 0 <= x <= 0xFFFF_FFFF_FFFF_FFFF

  function Wrap(x: int): NumT {
    x % (ULONG_MAX + 1)
  }

  function Truth(b: bool): NumT {
    if b then 1 else 0
  }

  // ---------------------------------------------------------------- forms

  datatype Op = Mul | Div | Mod | Add | Sub | Le | Ge | Lt | Gt | Eq | Ne | And | Or

  // NoForm is the null pointer.
  datatype Form =
    | NoForm
    | Identity
    | ConstValue(value: NumT)
    | LogicalNot(op: Form)
    | Binary(fn: Op, lhs: Form, rhs: Form)
    | Ternary(cond: Form, val: Form, alt: Form)

  function Min(a: nat, b: nat): nat {
    if b < a then b else a
  }

  // The number of plural forms: 0 as soon as a part is missing.
  function Size(f: Form, nplurals: nat): nat {
    match f
    case NoForm => 0
    case Identity => nplurals
    case ConstValue(_) => nplurals
    case LogicalNot(op) => Size(op, nplurals)
    case Binary(_, l, r) => Min(Size(l, nplurals), Size(r, nplurals))
    case Ternary(c, v, a) => Min(Size(c, nplurals), Min(Size(v, nplurals), Size(a, nplurals)))
  }

  // None where the C++ operator has no defined value.
  function Apply(fn: Op, a: NumT, b: NumT): Option<NumT> {
    match fn
    case Mul => Some(Wrap(a * b))
    case Div => if b == 0 then None else Some(Wrap(a / b))
    case Mod => if b == 0 then None else Some(Wrap(a % b))
    case Add => Some(Wrap(a + b))
    case Sub => Some(Wrap(a - b))
    case Le => Some(Truth(a <= b))
    case Ge => Some(Truth(a >= b))
    case Lt => Some(Truth(a < b))
    case Gt => Some(Truth(a > b))
    case Eq => Some(Truth(a == b))
    case Ne => Some(Truth(a != b))
    case And => Some(Truth(a != 0 && b != 0))
    case Or => Some(Truth(a != 0 || b != 0))
  }

  // The call operators: both operands of a binary operation are always evaluated.
  function Evaluate(f: Form, nplurals: nat, n: NumT): Option<NumT> {
    match f
    case NoForm => None
    case Identity => Some(n)
    case ConstValue(v) => Some(v)
    case LogicalNot(op) =>
      if Size(f, nplurals) == 0 then Some(0)
      else
        var v := Evaluate(op, nplurals, n);
        if v.None? then None else Some(Truth(v.value == 0))
    case Binary(fn, l, r) =>
      if Size(f, nplurals) == 0 then Some(0)
      else
        var a, b := Evaluate(l, nplurals, n), Evaluate(r, nplurals, n);
        if a.None? || b.None? then None else Apply(fn, a.value, b.value)
    case Ternary(c, v, a) =>
      if Size(f, nplurals) == 0 then Some(0)
      else
        var k := Evaluate(c, nplurals, n);
        if k.None? then None
        else if k.value != 0 then Evaluate(v, nplurals, n) else Evaluate(a, nplurals, n)
  }

  // No part is missing.
  ghost predicate Complete(f: Form) {
    match f
    case NoForm => false
    case Identity => true
    case ConstValue(_) => true
    case LogicalNot(op) => Complete(op)
    case Binary(_, l, r) => Complete(l) && Complete(r)
    case Ternary(c, v, a) => Complete(c) && Complete(v) && Complete(a)
  }

  lemma {:induction false} SizeMeaning(f: Form, nplurals: nat)
    ensures Size(f, nplurals) == if Complete(f) then nplurals else 0
  {
    match f
    case NoForm =>
    case Identity =>
    case ConstValue(_) =>
    case LogicalNot(op) => SizeMeaning(op, nplurals);
    case Binary(_, l, r) =>
      SizeMeaning(l, nplurals);
      SizeMeaning(r, nplurals);
    case Ternary(c, v, a) =>
      SizeMeaning(c, nplurals);
      SizeMeaning(v, nplurals);
      SizeMeaning(a, nplurals);
  }

  /** A form with a part missing has no plural forms, and gives 0 whatever the number. */
  lemma IncompleteMeaning(f: Form, nplurals: nat, n: NumT)
    requires f != NoForm && !Complete(f)
    ensures Size(f, nplurals) == 0 && Evaluate(f, nplurals, n) == Some(0)
  {
    SizeMeaning(f, nplurals);
  }

  // ---------------------------------------------------------------- strings

  predicate IsSpace(c: char) {
    c == ' ' || '\t' <= c <= '\r'
  }

  function TrimFront(s: string): (r: string)
    ensures |r| <= |s|
  {
    if s != "" && IsSpace(s[0]) then TrimFront(s[1..]) else s
  }

  function TrimBack(s: string): (r: string)
    ensures |r| <= |s|
  {
    if s != "" && IsSpace(s[|s| - 1]) then TrimBack(s[..|s| - 1]) else s
  }

  function Trim(s: string): (r: string)
    ensures |r| <= |s|
  {
    TrimBack(TrimFront(s))
  }

  predicate StartsWith(s: string, prefix: string) {
    |prefix| <= |s| && s[..|prefix|] == prefix
  }

  predicate IsDigit(c: char) {
    '0' <= c <= '9'
  }

  function LeadingDigits(s: string): (n: nat)
    ensures n <= |s|
  {
    if s != "" && IsDigit(s[0]) then 1 + LeadingDigits(s[1..]) else 0
  }

  function DigitValue(c: char): nat
    requires IsDigit(c)
  {
    c as int - '0' as int
  }

  function DigitsValue(ds: string): nat
    requires forall i :: 0 <= i < |ds| ==> IsDigit(ds[i])
  {
    if ds == "" then 0 else DigitsValue(ds[..|ds| - 1]) * 10 + DigitValue(ds[|ds| - 1])
  }

  lemma {:induction false} LeadingAreDigits(s: string)
    ensures forall i :: 0 <= i < LeadingDigits(s) ==> IsDigit(s[i])
  {
    if s != "" && IsDigit(s[0]) {
      LeadingAreDigits(s[1..]);
      assert forall i :: 0 < i < LeadingDigits(s) ==> s[i] == s[1..][i - 1];
    }
  }

  // wcstoul in base 10: the value, clamped to ULONG_MAX, and what follows; all of s when there is no number.
  function ReadNumber(s: string): (r: (NumT, string))
    ensures |r.1| <= |s|
  {
    var t := TrimFront(s);
    var signed := t != "" && (t[0] == '-' || t[0] == '+');
    var u := if signed then t[1..] else t;
    var k := LeadingDigits(u);
    LeadingAreDigits(u);
    if k == 0 then (0, s)
    else
      var v: int := DigitsValue(u[..k]);
      (if v > ULONG_MAX then ULONG_MAX else if signed && t[0] == '-' then Wrap(-v) else v, u[k..])
  }

  // ---------------------------------------------------------------- parser

  datatype Parsed = Parsed(form: Form, rest: string)

  // The patterns of a left-to-right level, in the order they are tried.
  function Patterns(level: nat): (ps: seq<(string, Op)>)
    ensures |ps| <= 4 && forall i :: 0 <= i < |ps| ==> |ps[i].0| > 0
  {
    match level
    case 2 => [("*", Mul), ("/", Div), ("%", Mod)]
    case 3 => [("+", Add), ("-", Sub)]
    case 4 => [("<=", Le), (">=", Ge), ("<", Lt), (">", Gt)]
    case 5 => [("==", Eq), ("!=", Ne)]
    case 6 => [("&&", And)]
    case 7 => [("||", Or)]
    case _ => []
  }

  function ParseAtomic(s: string): (r: Parsed)
    ensures |r.rest| <= |s|
  {
    if s == "" then Parsed(NoForm, s)
    else if s[0] == 'n' then Parsed(Identity, Trim(s[1..]))
    else
      var num := ReadNumber(s);
      Parsed(ConstValue(num.0), Trim(num.1))
  }

  function ParseParenthesized(s: string): (r: Parsed)
    ensures |r.rest| <= |s|
    decreases |s|, 0, 0
  {
    if s == "" then Parsed(NoForm, s)
    else if s[0] != '(' then ParseAtomic(s)
    else
      var r := ParseExpr(s[1..]);
      if r.form == NoForm then r
      else if r.rest == "" || r.rest[0] != ')' then Parsed(NoForm, r.rest)
      else Parsed(r.form, Trim(r.rest[1..]))
  }

  function ParseNegation(s: string): (r: Parsed)
    ensures |r.rest| <= |s|
    decreases |s|, 1, 0
  {
    if s == "" then Parsed(NoForm, s)
    else if s[0] != '!' then ParseParenthesized(s)
    else
      var r := ParseNegation(Trim(s[1..]));
      if r.form == NoForm then r else Parsed(LogicalNot(r.form), r.rest)
  }

  // The parser of a level: negation at 1, then multiplicative, additive, comparison, equality, conjunction, disjunction.
  function ParseLevel(level: nat, s: string): (r: Parsed)
    requires 1 <= level <= 7
    ensures |r.rest| <= |s|
    decreases |s|, level, 40
  {
    if level == 1 then ParseNegation(s) else LeftToRight(level, s)
  }

  // parse_ltr.
  function LeftToRight(level: nat, s: string): (r: Parsed)
    requires 2 <= level <= 7
    ensures |r.rest| <= |s|
    decreases |s|, level, 30
  {
    var p := ParseLevel(level - 1, s);
    if p.form == NoForm then p else ReduceAll(level, Parsed(p.form, Trim(p.rest)))
  }

  // Its loop.
  function ReduceAll(level: nat, p: Parsed): (r: Parsed)
    requires 2 <= level <= 7
    ensures |r.rest| <= |p.rest|
    decreases |p.rest|, level, 20
  {
    if p.rest == "" then p
    else
      var next := Reduce(level, p, 0);
      if next.form == NoForm then p else ReduceAll(level, Parsed(next.form, Trim(next.rest)))
  }

  // reduce_ltr over the patterns from the i-th.
  function Reduce(level: nat, p: Parsed, i: nat): (r: Parsed)
    requires 2 <= level <= 7 && i <= |Patterns(level)|
    ensures |r.rest| <= |p.rest| && (r.form != NoForm ==> |r.rest| < |p.rest|)
    decreases |p.rest|, level, 10 - i
  {
    if i == |Patterns(level)| then Parsed(NoForm, p.rest)
    else
      var next := ReduceOne(level, p, Patterns(level)[i].0, Patterns(level)[i].1);
      if next.form != NoForm || next.rest != p.rest then next else Reduce(level, p, i + 1)
  }

  function ReduceOne(level: nat, p: Parsed, pattern: string, fn: Op): (r: Parsed)
    requires 2 <= level <= 7 && |pattern| > 0
    ensures |r.rest| <= |p.rest| && (r.form != NoForm ==> |r.rest| < |p.rest|)
    decreases |p.rest|, level, 0
  {
    if !StartsWith(p.rest, pattern) then Parsed(NoForm, p.rest)
    else
      var next := ParseLevel(level - 1, Trim(p.rest[|pattern|..]));
      if next.form == NoForm then next else Parsed(Binary(fn, p.form, next.form), Trim(next.rest))
  }

  function ParseTernary(s: string): (r: Parsed)
    ensures |r.rest| <= |s|
    decreases |s|, 8, 0
  {
    var c := ParseLevel(7, s);
    if c.rest == "" || c.rest[0] != '?' then c
    else
      var v := ParseTernary(Trim(c.rest[1..]));
      if v.rest == "" || v.rest[0] != ':' then Parsed(NoForm, v.rest)
      else
        var a := ParseTernary(Trim(v.rest[1..]));
        Parsed(Ternary(c.form, v.form, a.form), a.rest)
  }

  function ParseExpr(s: string): (r: Parsed)
    ensures |r.rest| <= |s|
    decreases |s|, 9, 0
  {
    ParseTernary(Trim(s))
  }

  // GettextPluralForm::parse.
  function Parse(nplurals: nat, s: string): Form {
    if nplurals == 0 then NoForm
    else
      var r := ParseExpr(s);
      if r.rest != "" then NoForm else r.form
  }

  /** parse_ltr as it runs: a loop that keeps reducing until no pattern applies. */
  method ParseLtr(level: nat, s: string) returns (pres: Parsed)
    requires 2 <= level <= 7
    ensures pres == LeftToRight(level, s)
  {
    pres := ParseLevel(level - 1, s);
    if pres.form == NoForm {
      return;
    }
    pres := pres.(rest := Trim(pres.rest));
    while pres.rest != ""
      invariant pres.form != NoForm
      invariant LeftToRight(level, s) == ReduceAll(level, pres)
      decreases |pres.rest|
    {
      var next := Reduce(level, pres, 0);
      if next.form == NoForm {
        return;
      }
      next := next.(rest := Trim(next.rest));
      pres := next;
    }
  }
}
