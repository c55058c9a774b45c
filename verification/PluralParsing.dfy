/**
 The plural-form parser reads every C conditional expression over n as C does.
 */
module PluralParsing {
  import opened Basics
  import opened PluralForms
  import opened PluralSyntax

  // ---------------------------------------------------------------- what may follow an operand

  // The level whose operators start with a character; 9 for what closes an expression.
  function HeadLevel(c: char): nat {
    if c == '*' || c == '/' || c == '%' then 2
    else if c == '+' || c == '-' then 3
    else if c == '<' || c == '>' then 4
    else if c == '=' || c == '!' then 5
    else if c == '&' then 6
    else if c == '|' then 7
    else if c == '?' then 8
    else if c == ':' || c == ')' then 9
    else 0
  }

  predicate Follows(level: nat, rest: string) {
    rest == "" || HeadLevel(rest[0]) > level
  }

  lemma TokenHead(fn: Op, t: string)
    ensures Token(fn) != "" && Cat(Token(fn), t) != "" && HeadLevel(Cat(Token(fn), t)[0]) == OpLevel(fn) && !IsSpace(Token(fn)[0]) && Clean(Token(fn))
  {}

  // No pattern of a level, or of a tighter one, is tried with success there.
  lemma NoPatternFits(level: nat, rest: string, i: nat)
    requires Follows(level, rest) && i < |Patterns(level)|
    ensures !StartsWith(rest, Patterns(level)[i].0)
  {
    var q := Patterns(level)[i].0;
    if |q| <= |rest| {
      assert rest[..|q|][0] == rest[0] && q[0] != rest[0];
    }
  }

  lemma {:induction false} ReduceNothing(level: nat, p: Parsed, i: nat)
    requires 2 <= level <= 7 && i <= |Patterns(level)| && Follows(level, p.rest)
    ensures Reduce(level, p, i) == Parsed(NoForm, p.rest)
    decreases |Patterns(level)| - i
  {
    if i < |Patterns(level)| {
      NoPatternFits(level, p.rest, i);
      ReduceNothing(level, p, i + 1);
    }
  }

  lemma ReduceStops(level: nat, p: Parsed)
    requires 2 <= level <= 7 && Follows(level, p.rest)
    ensures ReduceAll(level, p) == p
  {
    ReduceNothing(level, p, 0);
  }

  // The place of an operator among the patterns of its level.
  function Place(fn: Op): nat {
    match fn
    case Mul => 0 case Div => 1 case Mod => 2
    case Add => 0 case Sub => 1
    case Le => 0 case Ge => 1 case Lt => 2 case Gt => 3
    case Eq => 0 case Ne => 1
    case And => 0
    case Or => 0
  }

  // An earlier pattern fits only if it is longer, and then an "=" follows.
  lemma EarlierDoNotFit(fn: Op, t: string, i: nat)
    requires (t == "" || t[0] != '=') && i < Place(fn)
    ensures Place(fn) < |Patterns(OpLevel(fn))|
    ensures !StartsWith(Token(fn) + t, Patterns(OpLevel(fn))[i].0)
  {
    var s, q := Token(fn) + t, Patterns(OpLevel(fn))[i].0;
    if |q| <= |s| {
      assert s[..|q|][0] == s[0];
      if |q| == 2 {
        assert s[..|q|][1] == s[1];
      }
    }
  }

  lemma PatternAt(fn: Op)
    ensures 2 <= OpLevel(fn) <= 7 && Place(fn) < |Patterns(OpLevel(fn))| && Patterns(OpLevel(fn))[Place(fn)] == (Token(fn), fn)
  {}

  lemma {:induction false} ReduceFinds(p: Parsed, fn: Op, t: string, i: nat)
    requires i <= Place(fn) && p.rest == Cat(Token(fn), t) && (t == "" || t[0] != '=')
    requires 2 <= OpLevel(fn) <= 7 && Token(fn) != "" && ReduceOne(OpLevel(fn), p, Token(fn), fn).form != NoForm
    ensures i <= |Patterns(OpLevel(fn))| && Reduce(OpLevel(fn), p, i) == ReduceOne(OpLevel(fn), p, Token(fn), fn)
    decreases Place(fn) - i
  {
    PatternAt(fn);
    if i < Place(fn) {
      EarlierDoNotFit(fn, t, i);
      ReduceFinds(p, fn, t, i + 1);
    }
  }

  // ---------------------------------------------------------------- numbers

  lemma {:induction false} LeadingDigitsOf(ds: string, tail: string)
    requires Digits(ds) && (tail == "" || !IsDigit(tail[0]))
    ensures LeadingDigits(ds + tail) == |ds|
  {
    if ds == "" {
      assert ds + tail == tail;
    } else {
      assert (ds + tail)[1..] == ds[1..] + tail;
      LeadingDigitsOf(ds[1..], tail);
    }
  }

  lemma ReadsNumber(ds: string, tail: string)
    requires ds != "" && Digits(ds) && DigitsValue(ds) <= ULONG_MAX
    requires Clean(tail) && Follows(0, Trim(tail))
    ensures ReadNumber(Cat(ds, tail)) == (DigitsValue(ds), tail)
  {
    TrimFrontClean(tail);
    LeadingDigitsOf(ds, tail);
    assert TrimFront(ds + tail) == ds + tail;
    assert (ds + tail)[..|ds|] == ds && (ds + tail)[|ds|..] == tail;
  }

  // What wcstoul makes of a sign in front of digits.
  ghost predicate IsRead(v: NumT, sign: string, ds: string)
    requires Digits(ds)
  {
    if DigitsValue(ds) > 0xFFFF_FFFF_FFFF_FFFF then v == 0xFFFF_FFFF_FFFF_FFFF
    else if sign == "-" then Congruent(v, 0 - DigitsValue(ds))
    else v == DigitsValue(ds)
  }

  /**
   A number may have white space and a sign in front and ends with its last digit; a negative one is taken modulo
   2^64, one too large as the largest there is.
   */
  lemma ReadNumberMeaning(w: string, sign: string, ds: string, tail: string)
    requires Spaces(w) && (sign == "" || sign == "-" || sign == "+") && ds != "" && Digits(ds) && (tail == "" || !IsDigit(tail[0]))
    ensures var (v, rest) := ReadNumber(w + (sign + (ds + tail)));
      IsRead(v, sign, ds) && rest == tail
  {
    hide ReadNumber, TrimFront, LeadingDigits, DigitsValue, Wrap, Congruent;
    var u := ds + tail;
    SignedText(w, sign, u);
    LeadingDigitsOf(ds, tail);
    assert u[..|ds|] == ds && u[|ds|..] == tail;
    ReadSigned(w + (sign + u), sign, u);
    WrapIsCongruent(0 - DigitsValue(ds));
  }

  lemma SignedText(w: string, sign: string, u: string)
    requires Spaces(w) && (sign == "-" || sign == "+" || (sign == "" && u != "" && !IsSpace(u[0])))
    ensures TrimFront(w + (sign + u)) == sign + u
  {
    TrimFrontGap(w, sign + u);
  }

  lemma ReadSigned(s: string, sign: string, u: string)
    requires TrimFront(s) == sign + u
    requires sign == "-" || sign == "+" || (sign == "" && u != "" && u[0] != '-' && u[0] != '+')
    ensures var k := LeadingDigits(u);
      k <= |u| && Digits(u[..k]) && var v := DigitsValue(u[..k]);
      ReadNumber(s) == if k == 0 then (0, s)
        else (if v > ULONG_MAX then ULONG_MAX else if sign == "-" then Wrap(0 - v) else v, u[k..])
  {
    hide LeadingDigits, DigitsValue, Wrap, TrimFront;
    LeadingAreDigits(u);
    var t := sign + u;
    assert if sign == "" then t == u else t[0] == sign[0] && t[1..] == u;
  }

  // Where no digit follows the sign, nothing is read.
  lemma NoNumber(w: string, sign: string, tail: string)
    requires Spaces(w) && (sign == "-" || sign == "+" || (sign == "" && tail != "" && tail[0] != '-' && tail[0] != '+' && !IsSpace(tail[0])))
    requires tail == "" || !IsDigit(tail[0])
    ensures ReadNumber(w + (sign + tail)) == (0, w + (sign + tail))
  {
    SignedText(w, sign, tail);
    ReadSigned(w + (sign + tail), sign, tail);
  }

  // ---------------------------------------------------------------- expressions

  // The parser for the expressions of a level and below.
  function ParseAt(level: nat, s: string): Parsed
    requires level <= 8
  {
    if level == 0 then ParseParenthesized(s) else if level <= 7 then ParseLevel(level, s) else ParseTernary(s)
  }

  lemma TrimTwice(s: string)
    requires Clean(s)
    ensures Trim(Trim(s)) == Trim(s) && Clean(Trim(s))
  {
    TrimFrontClean(s);
    TrimFrontClean(Trim(s));
  }

  /** Up to what may follow it, a derivation is read as its tree. */
  lemma {:induction false} ReadsAs(level: nat, e: Expr, tail: string)
    requires WellFormed(e) && Level(e) <= level <= 8 && Clean(tail) && Follows(level, Trim(tail))
    ensures ParseAt(level, Cat(Text(e), tail)) == Parsed(Tree(e), Trim(tail))
    decreases e, level, 1
  {
    hide Text, Cat, Tree, Trim, ReduceAll, LeftToRight, ParseNegation, ParseParenthesized, Clean;
    if level == 0 {
      ReadsPrimary(e, tail);
    } else if level == 1 {
      ReadsNegation(e, tail);
    } else if level <= 7 {
      ReadsLeft(level, e, tail);
      TrimTwice(tail);
      ReduceStops(level, Parsed(Tree(e), Trim(tail)));
    } else if e.Choice? {
      ReadsChoice(e, tail);
    } else {
      ReadsAs(7, e, tail);
    }
  }

  lemma {:induction false} ReadsPrimary(e: Expr, tail: string)
    requires WellFormed(e) && Level(e) == 0 && Clean(tail) && Follows(0, Trim(tail))
    ensures ParseParenthesized(Cat(Text(e), tail)) == Parsed(Tree(e), Trim(tail))
    decreases e, 0, 0
  {
    hide Cat, Trim, ParseTernary, ReadNumber;
    assert Clean(")");
    hide Clean;
    TextEnds(e);
    CatEnds(Text(e), tail);
    match e
    case Var =>
    case Number(ds) =>
      ReadsNumber(ds, tail);
    case Paren(a, x, b) =>
      var inner := Cat(b, Cat(")", tail));
      ParenText(e, tail);
      TrimBefore(b, ")", tail);
      TrimBeforeText(a, x, inner);
      CatEnds(")", tail);
      CatEnds("(", Cat(a, Cat(Text(x), inner)));
      ReadsAs(8, x, inner);
  }

  lemma ParenText(e: Expr, tail: string)
    requires e.Paren?
    ensures Cat(Text(e), tail) == Cat("(", Cat(e.gap1, Cat(Text(e.inner), Cat(e.gap2, Cat(")", tail)))))
  {
    hide Cat;
    CatAssociates(e.gap2, ")", tail);
    CatAssociates(Text(e.inner), Cat(e.gap2, ")"), tail);
    CatAssociates(e.gap1, Cat(Text(e.inner), Cat(e.gap2, ")")), tail);
    CatAssociates("(", Cat(e.gap1, Cat(Text(e.inner), Cat(e.gap2, ")"))), tail);
  }

  lemma {:induction false} ReadsNegation(e: Expr, tail: string)
    requires WellFormed(e) && Level(e) <= 1 && Clean(tail) && Follows(1, Trim(tail))
    ensures ParseNegation(Cat(Text(e), tail)) == Parsed(Tree(e), Trim(tail))
    decreases e, 1, 0
  {
    hide Cat, Trim, Clean, ParseParenthesized;
    TextEnds(e);
    CatEnds(Text(e), tail);
    if e.Negation? {
      CatAssociates(e.gap, Text(e.operand), tail);
      CatAssociates("!", Cat(e.gap, Text(e.operand)), tail);
      CatEnds("!", Cat(e.gap, Cat(Text(e.operand), tail)));
      TrimBeforeText(e.gap, e.operand, tail);
      ReadsNegation(e.operand, tail);
    } else {
      PrimaryStart(e);
      ReadsPrimary(e, tail);
    }
  }

  lemma PrimaryStart(e: Expr)
    requires WellFormed(e) && Level(e) == 0
    ensures Text(e) != "" && Text(e)[0] != '!'
  {}

  // The loop has read the expression once it stands behind it.
  lemma {:induction false} ReadsLeft(level: nat, e: Expr, tail: string)
    requires 2 <= level <= 7 && WellFormed(e) && Level(e) <= level && Clean(tail) && Follows(level - 1, Trim(tail))
    ensures LeftToRight(level, Cat(Text(e), tail)) == ReduceAll(level, Parsed(Tree(e), Trim(tail)))
    decreases e, level, 0
  {
    hide Cat, LeftToRight, ReduceAll, ReduceOne, Reduce, ParseLevel, Trim, Clean;
    if Level(e) < level {
      hide Text, Tree;
      ReadsAs(level - 1, e, tail);
      TrimTwice(tail);
      LoopStarts(level, Cat(Text(e), tail), Parsed(Tree(e), Trim(tail)));
    } else {
      var (fn, l, r) := (e.fn, e.left, e.right);
      var behind := Cat(e.after, Cat(Text(r), tail));
      InfixText(e, tail);
      assert WellFormed(e);
      assert Tree(e) == Binary(fn, Tree(l), Tree(r));
      hide Text, Tree, WellFormed;
      TokenHead(fn, behind);
      TrimBeforeText(e.after, r, tail);
      TrimBefore(e.before, Token(fn), behind);
      ReadsLeft(level, l, Cat(e.before, Cat(Token(fn), behind)));
      ReadsAs(level - 1, r, tail);
      ReduceStep(Parsed(Tree(l), Cat(Token(fn), behind)), fn, e.after, r, tail);
    }
  }

  lemma LoopStarts(level: nat, s: string, p: Parsed)
    requires 2 <= level <= 7 && ParseLevel(level - 1, s) == p && p.form != NoForm && Trim(p.rest) == p.rest
    ensures LeftToRight(level, s) == ReduceAll(level, p)
  {}

  lemma InfixText(e: Expr, tail: string)
    requires e.Infix?
    ensures Cat(Text(e), tail) == Cat(Text(e.left), Cat(e.before, Cat(Token(e.fn), Cat(e.after, Cat(Text(e.right), tail)))))
  {
    hide Cat;
    var t1 := Cat(e.after, Text(e.right));
    var t2 := Cat(Token(e.fn), t1);
    CatAssociates(e.after, Text(e.right), tail);
    CatAssociates(Token(e.fn), t1, tail);
    CatAssociates(e.before, t2, tail);
    CatAssociates(Text(e.left), Cat(e.before, t2), tail);
  }

  lemma BehindToken(gap: string, r: Expr, tail: string)
    requires Spaces(gap) && WellFormed(r)
    ensures var behind := Cat(gap, Cat(Text(r), tail)); behind != "" && behind[0] != '='
  {
    TextEnds(r);
    hide Text, WellFormed;
  }

  // One turn of the loop takes an operator and its right operand.
  lemma ReduceStep(p: Parsed, fn: Op, gap: string, r: Expr, tail: string)
    requires 2 <= OpLevel(fn) <= 7 && WellFormed(r) && Spaces(gap) && Clean(tail) && p.form != NoForm
    requires p.rest == Cat(Token(fn), Cat(gap, Cat(Text(r), tail)))
    requires ParseLevel(OpLevel(fn) - 1, Cat(Text(r), tail)) == Parsed(Tree(r), Trim(tail))
    ensures ReduceAll(OpLevel(fn), p) == ReduceAll(OpLevel(fn), Parsed(Binary(fn, p.form, Tree(r)), Trim(tail)))
  {
    hide Trim, Clean, Text, Tree, Reduce, ParseLevel, WellFormed, Token, OpLevel, Patterns, Spaces;
    var behind := Cat(gap, Cat(Text(r), tail));
    BehindToken(gap, r, tail);
    hide Cat;
    TrimBeforeText(gap, r, tail);
    TokenHead(fn, behind);
    TrimTwice(tail);
    CatEnds(Token(fn), behind);
    assert ReduceOne(OpLevel(fn), p, Token(fn), fn) == Parsed(Binary(fn, p.form, Tree(r)), Trim(tail));
    ReduceFinds(p, fn, behind, 0);
  }

  lemma ChoiceParts(e: Expr)
    requires e.Choice? && WellFormed(e)
    ensures Clean("?") && Clean(":") && Tree(e) == Ternary(Tree(e.test), Tree(e.yes), Tree(e.no))
    ensures Spaces(e.g1) && Spaces(e.g2) && Spaces(e.g3) && Spaces(e.g4) && Level(e.test) <= 7
    ensures WellFormed(e.test) && WellFormed(e.yes) && WellFormed(e.no)
  {}

  lemma {:induction false} ReadsChoice(e: Expr, tail: string)
    requires WellFormed(e) && e.Choice? && Clean(tail) && Follows(8, Trim(tail))
    ensures ParseTernary(Cat(Text(e), tail)) == Parsed(Tree(e), Trim(tail))
    decreases e, 8, 0
  {
    hide Cat, ParseTernary, ParseLevel, Trim, Text, Tree, WellFormed, Clean;
    ChoiceParts(e);
    var afterColon := Cat(e.g4, Cat(Text(e.no), tail));
    var afterYes := Cat(e.g3, Cat(":", afterColon));
    var afterMark := Cat(e.g2, Cat(Text(e.yes), afterYes));
    var afterTest := Cat(e.g1, Cat("?", afterMark));
    ChoiceText(e, tail);
    TrimBeforeText(e.g4, e.no, tail);
    TrimBefore(e.g3, ":", afterColon);
    CatEnds(":", afterColon);
    TrimBeforeText(e.g2, e.yes, afterYes);
    TrimBefore(e.g1, "?", afterMark);
    CatEnds("?", afterMark);
    ReadsAs(7, e.test, afterTest);
    ReadsAs(8, e.yes, afterYes);
    ReadsAs(8, e.no, tail);
    TernaryReads(Cat(Text(e.test), afterTest), Tree(e.test), afterMark, Tree(e.yes), afterColon, Parsed(Tree(e.no), Trim(tail)));
  }

  lemma TernaryReads(s: string, test: Form, afterMark: string, yes: Form, afterColon: string, no: Parsed)
    requires ParseLevel(7, s) == Parsed(test, Cat("?", afterMark))
    requires ParseTernary(Trim(afterMark)) == Parsed(yes, Cat(":", afterColon))
    requires ParseTernary(Trim(afterColon)) == no
    ensures ParseTernary(s) == Parsed(Ternary(test, yes, no.form), no.rest)
  {
    hide Trim, ParseLevel, Cat;
    CatEnds("?", afterMark);
    CatEnds(":", afterColon);
  }

  lemma ChoiceText(e: Expr, tail: string)
    requires e.Choice?
    ensures Cat(Text(e), tail)
      == Cat(Text(e.test), Cat(e.g1, Cat("?", Cat(e.g2, Cat(Text(e.yes), Cat(e.g3, Cat(":", Cat(e.g4, Cat(Text(e.no), tail)))))))))
  {
    hide Cat;
    var t1 := Cat(e.g4, Text(e.no));
    var t2 := Cat(e.g3, Cat(":", t1));
    var t3 := Cat(e.g2, Cat(Text(e.yes), t2));
    CatAssociates(e.g4, Text(e.no), tail);
    CatAssociates(":", t1, tail);
    CatAssociates(e.g3, Cat(":", t1), tail);
    CatAssociates(Text(e.yes), t2, tail);
    CatAssociates(e.g2, Cat(Text(e.yes), t2), tail);
    CatAssociates("?", t3, tail);
    CatAssociates(e.g1, Cat("?", t3), tail);
    CatAssociates(Text(e.test), Cat(e.g1, Cat("?", t3)), tail);
  }

  // ---------------------------------------------------------------- main results

  /**
   Any well-formed expression, spaced and parenthesized in any way, is read as its tree; the form has
   all the plural forms asked for.
   */
  lemma ParseReadsC(e: Expr, before: string, after: string, nplurals: nat)
    requires WellFormed(e) && Spaces(before) && Spaces(after) && nplurals > 0
    ensures Parse(nplurals, before + Text(e) + after) == Tree(e)
    ensures Size(Parse(nplurals, before + Text(e) + after), nplurals) == nplurals
  {
    hide Parse, ParseTernary, WellFormed, Tree, Text, Spaces, Size;
    TextEnds(e);
    var t := Cat(Text(e), after);
    assert before + Text(e) + after == Cat(before, t);
    TrimFrontGap(before, t);
    assert TrimFront(t) == t by { CatEnds(Text(e), after); }
    TrimBackGap(Text(e), after);
    assert Cat(Text(e), "") == Text(e);
    ReadsAs(8, e, "");
    TreeSize(e, nplurals);
    ParseWhole(nplurals, before + Text(e) + after, Tree(e));
  }

  lemma ParseWhole(nplurals: nat, s: string, f: Form)
    requires nplurals > 0 && ParseTernary(Trim(s)) == Parsed(f, "")
    ensures Parse(nplurals, s) == f
  {}

  /**
   If the numbers can be read as decimal, the form has a value exactly where every part it evaluates has one, and
   then it is the value in C.
   */
  lemma ParsedValueIsC(e: Expr, before: string, after: string, nplurals: nat, n: NumT)
    requires WellFormed(e) && DecimalConstants(e) && Spaces(before) && Spaces(after) && nplurals > 0
    ensures Evaluate(Parse(nplurals, before + Text(e) + after), nplurals, n) == if AllDefined(e, n) then Meaning(e, n) else None
  {
    ParseReadsC(e, before, after, nplurals);
    TreeValue(e, nplurals, n);
  }

  // No text has two readings.
  lemma ReadingIsUnique(e: Expr, f: Expr)
    requires WellFormed(e) && WellFormed(f) && Text(e) == Text(f)
    ensures Tree(e) == Tree(f)
  {
    ParseReadsC(e, "", "", 1);
    ParseReadsC(f, "", "", 1);
  }

  // Where C skips an undefined operand, the form has no value: n && 1/n at 0.
  lemma EagerConjunction()
    ensures var e := Infix(And, Var, "", "", Infix(Div, Number("1"), "", "", Var));
      && WellFormed(e) && Text(e) == "n&&1/n"
      && Meaning(e, 0) == Some(0) && Evaluate(Parse(2, Text(e)), 2, 0) == None
  {
    hide Parse, Evaluate, Meaning, AllDefined;
    var q := Infix(Div, Number("1"), "", "", Var);
    var e := Infix(And, Var, "", "", q);
    assert Digits("1") && DigitsValue("1") == 1;
    assert WellFormed(q) && WellFormed(e);
    assert Text(q) == "1/n";
    ConjunctionMeans();
    ParsedValueIsC(e, "", "", 2, 0);
    assert "" + Text(e) + "" == Text(e);
  }

  lemma ConjunctionMeans()
    ensures var q := Infix(Div, Number("1"), "", "", Var);
      var e := Infix(And, Var, "", "", q);
      WellFormed(e) && DecimalConstants(e) && Meaning(e, 0) == Some(0) && !AllDefined(e, 0)
  {
    assert Digits("1") && DigitsValue("1") == 1;
    var q := Infix(Div, Number("1"), "", "", Var);
    assert Meaning(q, 0) == None && !AllDefined(q, 0);
  }

  // A leading zero makes a constant octal in C; the parser reads 010 as 10.
  lemma OctalReadAsDecimal(n: NumT)
    ensures WellFormed(Number("010")) && Meaning(Number("010"), n) == Some(8)
    ensures Evaluate(Parse(2, "010"), 2, n) == Some(10)
  {
    hide Parse;
    var e := Number("010");
    assert Text(e) == "" + Text(e) + "" == "010";
    assert DigitsValue("") == 0 && DigitsValue("0") == 0 && DigitsValue("01") == 1 && DigitsValue("010") == 10;
    assert OctalValue("") == 0 && OctalValue("0") == 0 && OctalValue("01") == 1 && OctalValue("010") == 8;
    ParseReadsC(e, "", "", 2);
  }
}
