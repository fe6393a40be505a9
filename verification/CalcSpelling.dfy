/** The converse of CalcRoundTrip: whatever the calculator accepts is the text of some tree. */
module CalcSpelling {
  import opened Options
  import opened CalcGrammar
  import opened CalcRoundTrip

  // ----- tokens one after the other

  lemma {:induction false} SpansJoin(s: string, i: nat, a: seq<string>, m: nat, b: seq<string>, j: nat)
    requires i <= |s| && m <= |s| && Spans(s, i, a, m) && Spans(s, m, b, j)
    ensures Spans(s, i, a + b, j)
    decreases |a|
  {
    hide SkipSpaces;
    if a == [] {
      assert a + b == b;
    } else {
      assert (a + b)[1..] == a[1..] + b;
      SpansJoin(s, SkipSpaces(s, i) + |a[0]|, a[1..], m, b, j);
    }
  }

  /** One character after white space. */
  lemma SpansMark(s: string, i: nat, c: char)
    requires i <= |s| && SkipSpaces(s, i) < |s| && At(s, SkipSpaces(s, i)) == c
    ensures Spans(s, i, [[c]], SkipSpaces(s, i) + 1)
  {
    hide SkipSpaces;
    var k := SkipSpaces(s, i);
    assert s[k..k + 1] == [c];
    assert [[c]][1..] == [];
  }

  lemma SpansOne(s: string, i: nat, k: nat)
    requires i <= |s| && SkipSpaces(s, i) <= k <= |s|
    ensures Spans(s, i, [s[SkipSpaces(s, i)..k]], k)
  {
    hide SkipSpaces;
    var a := s[SkipSpaces(s, i)..k];
    assert [a][1..] == [];
  }

  /** Left operand, operator, right operand. */
  lemma SpansBin(s: string, i: nat, a: seq<string>, m: nat, c: char, b: seq<string>, j: nat)
    requires i <= |s| && m <= |s| && Spans(s, i, a, m)
    requires SkipSpaces(s, m) < |s| && At(s, SkipSpaces(s, m)) == c && Spans(s, SkipSpaces(s, m) + 1, b, j)
    ensures Spans(s, i, a + [[c]] + b, j)
  {
    hide SkipSpaces, Spans;
    SpansMark(s, m, c);
    SpansJoin(s, i, a, m, [[c]], SkipSpaces(s, m) + 1);
    SpansJoin(s, i, a + [[c]], SkipSpaces(s, m) + 1, b, j);
  }

  lemma SpansBack(s: string, i: nat, ts: seq<string>, j: nat)
    requires i <= |s| && Spans(s, SkipSpaces(s, i), ts, j) && ts != []
    ensures Spans(s, i, ts, j)
  {
    hide SkipSpaces;
    SkipIdempotent(s, i);
  }

  /** Without parentheses of its own a tree has the same tokens at every level it is allowed at. */
  lemma SameAtLevels(t: Tree, a: nat, b: nat)
    requires Level(t) >= a && Level(t) >= b
    ensures Tokens(t, a) == Tokens(t, b)
  {
  }

  // ----- names and numbers

  lemma {:induction false} NameRun(s: string, i: nat, room: nat)
    requires i <= |s|
    ensures forall k :: i <= k < NameEnd(s, i, room) ==> IsNameChar(s[k])
    ensures room > 0 && IsNameChar(At(s, i)) ==> NameEnd(s, i, room) > i
    decreases room
  {
    if room > 0 && IsNameChar(At(s, i)) {
      NameRun(s, i + 1, room - 1);
    }
  }

  /** What the number scanner takes is a literal by itself. */
  lemma LexemeIsLiteral(s: string, i: nat)
    requires i <= |s| && NumberEnd(s, i) > i
    ensures Literal(s[i..NumberEnd(s, i)])
  {
    var k := NumberEnd(s, i);
    var a, b := DigitRun(s, i), MantissaEnd(s, i);
    var lexeme := s[i..k];
    hide DigitRun;
    RunIsDigits(s, i);
    Slices(s, i, k, i, a);
    assert lexeme[0..a - i] == lexeme[..a - i];
    if a < b {
      RunIsDigits(s, a + 1);
      Slices(s, i, k, a + 1, b);
    }
    LexemeExponent(s, b, k);
    Slices(s, i, k, b, k);
    assert lexeme[b - i..k - i] == lexeme[b - i..];
    assert Decimal(lexeme, a - i, b - i);
    LiteralIs(lexeme);
  }

  lemma Slices(s: string, i: nat, k: nat, a: nat, b: nat)
    requires i <= a <= b <= k <= |s|
    ensures s[i..k][a - i..b - i] == s[a..b]
  {
    var x, y := s[i..k][a - i..b - i], s[a..b];
    assert |x| == |y|;
    forall n | 0 <= n < |y|
      ensures x[n] == y[n]
    {
      assert s[i..k][a - i + n] == s[a + n];
    }
  }

  lemma LexemeExponent(s: string, b: nat, k: nat)
    requires b <= |s|
    requires
      if At(s, b) == 'e' || At(s, b) == 'E' then
        var d := if At(s, b + 1) == '+' || At(s, b + 1) == '-' then b + 2 else b + 1;
        k == if IsDigit(At(s, d)) then DigitRun(s, d) else b
      else k == b
    ensures b <= k <= |s| && Exponent(s[b..k])
  {
    hide DigitRun;
    if k > b {
      var d := if At(s, b + 1) == '+' || At(s, b + 1) == '-' then b + 2 else b + 1;
      RunIsDigits(s, d);
      assert s[b..k][d - b..] == s[d..k];
    } else {
      assert s[b..k] == "";
    }
  }

  // ----- each level's text

  /** The tree's tokens come at i and end at j, and its value is v. */
  ghost predicate Spells<V>(o: Ops<V>, s: string, i: nat, t: Tree, level: nat, j: nat, v: V)
    requires i <= |s|
  {
    Expressible(t) && Level(t) >= level && j <= |s| && Spans(s, i, Tokens(t, level), j) && ValueOf(o, t) == Gives(v)
  }

  lemma SpellsLower<V>(o: Ops<V>, s: string, i: nat, t: Tree, level: nat, lower: nat, j: nat, v: V)
    requires i <= |s| && lower <= level && Spells(o, s, i, t, level, j, v)
    ensures Spells(o, s, i, t, lower, j, v)
  {
    hide Spans, Tokens, Expressible, ValueOf;
    SameAtLevels(t, level, lower);
  }

  lemma SpellsBin<V>(o: Ops<V>, s: string, i: nat, l: Tree, m: nat, a: V, op: BinOp, r: Tree, j: nat, b: V)
    requires i <= |s| && Spells(o, s, i, l, LeftLevel(op), m, a)
    requires SkipSpaces(s, m) < |s| && At(s, SkipSpaces(s, m)) == Symbol(op)
    requires Spells(o, s, SkipSpaces(s, m) + 1, r, RightLevel(op), j, b) && Apply(o, op, a, b).Gives?
    ensures Spells(o, s, i, Bin(op, l, r), OpLevel(op), j, Apply(o, op, a, b).value)
  {
    hide Spans, Tokens, SkipSpaces, ValueOf, Apply;
    var t := Bin(op, l, r);
    BinTokens(t);
    ValueBin(o, t);
    SpansBin(s, i, Tokens(l, LeftLevel(op)), m, Symbol(op), Tokens(r, RightLevel(op)), j);
  }

  lemma {:induction false} ExprFrom<V>(o: Ops<V>, s: string, i: nat) returns (t: Tree, m: nat)
    requires i <= |s| && Expr(o, s, i, NoError).error == NoError
    ensures
      var r := Expr(o, s, i, NoError);
      Spells(o, s, i, t, 0, m, r.value) && r.pos == SkipSpaces(s, m)
    decreases |s| - i, 7
  {
    hide Spells, ExprTail, CalcGrammar.Mul, SkipSpaces;
    var p := CalcGrammar.Mul(o, s, i, NoError);
    t, m := MulFrom(o, s, i);
    SpellsLower(o, s, i, t, 1, 0, m, p.value);
    t, m := SumFrom(o, s, i, t, m, p);
  }

  /** The sum's loop, from the tree on its left. */
  lemma {:induction false} SumFrom<V>(o: Ops<V>, s: string, i: nat, l: Tree, at: nat, p: Parsed<V>)
    returns (t: Tree, m: nat)
    requires i <= |s| && at <= |s| && i <= p.pos <= |s| && p.pos == SkipSpaces(s, at) && p.error == NoError
    requires Spells(o, s, i, l, 0, at, p.value) && ExprTail(o, s, p).error == NoError
    ensures
      var r := ExprTail(o, s, p);
      Spells(o, s, i, t, 0, m, r.value) && r.pos == SkipSpaces(s, m)
    decreases |s| - p.pos, 6
  {
    hide Spells, CalcGrammar.Mul, SkipSpaces;
    SkipIdempotent(s, at);
    t, m := l, at;
    var op := if At(s, p.pos) == '+' then Add else Sub;
    if p.pos < |s| && At(s, p.pos) == Symbol(op) {
      var r := CalcGrammar.Mul(o, s, p.pos + 1, NoError);
      var v := if op.Add? then o.add(p.value, r.value) else o.sub(p.value, r.value);
      KeepsError(o, s, r.(value := v));
      hide ExprTail;
      ExprTurns(o, s, p, op);
      var u, k := MulFrom(o, s, p.pos + 1);
      SpellsBin(o, s, i, l, at, p.value, op, u, k, r.value);
      SpellsInside(o, s, p.pos + 1, u, 1, k, r.value);
      t, m := SumFrom(o, s, i, Bin(op, l, u), k, r.(value := v));
    }
  }

  lemma SpellsInside<V>(o: Ops<V>, s: string, i: nat, t: Tree, level: nat, j: nat, v: V)
    requires i <= |s| && Spells(o, s, i, t, level, j, v)
    ensures i <= j <= |s|
  {
    hide Tokens, Expressible, ValueOf;
    SpansInside(s, i, Tokens(t, level), j);
  }

  lemma {:induction false} MulFrom<V>(o: Ops<V>, s: string, i: nat) returns (t: Tree, m: nat)
    requires i <= |s| && CalcGrammar.Mul(o, s, i, NoError).error == NoError
    ensures
      var r := CalcGrammar.Mul(o, s, i, NoError);
      Spells(o, s, i, t, 1, m, r.value) && r.pos == SkipSpaces(s, m)
    decreases |s| - i, 5
  {
    hide Spells, MulTail, Power, SkipSpaces;
    var p := Power(o, s, i, NoError);
    t, m := PowerFrom(o, s, i);
    SpellsLower(o, s, i, t, 2, 1, m, p.value);
    SpellsInside(o, s, i, t, 1, m, p.value);
    t, m := ProductFrom(o, s, i, t, m, p);
  }

  /** The product's loop. */
  lemma {:induction false} ProductFrom<V>(o: Ops<V>, s: string, i: nat, l: Tree, at: nat, p: Parsed<V>)
    returns (t: Tree, m: nat)
    requires i <= |s| && at <= |s| && i <= p.pos <= |s| && p.pos == SkipSpaces(s, at) && p.error == NoError
    requires Spells(o, s, i, l, 1, at, p.value) && MulTail(o, s, p).error == NoError
    ensures
      var r := MulTail(o, s, p);
      Spells(o, s, i, t, 1, m, r.value) && r.pos == SkipSpaces(s, m)
    decreases |s| - p.pos, 4
  {
    hide Spells, Power, SkipSpaces;
    SkipIdempotent(s, at);
    t, m := l, at;
    var op := if At(s, p.pos) == '*' then BinOp.Mul else if At(s, p.pos) == '/' then Div else Mod;
    if p.pos < |s| && At(s, p.pos) == Symbol(op) {
      var r := Power(o, s, p.pos + 1, NoError);
      var v := if op.Mul? then o.mul(p.value, r.value) else if op.Div? then o.div(p.value, r.value)
               else o.mod(p.value, r.value);
      KeepsError(o, s, r.(value := v));
      hide MulTail;
      MulTurns(o, s, p, op);
      var u, k := PowerFrom(o, s, p.pos + 1);
      SpellsBin(o, s, i, l, at, p.value, op, u, k, r.value);
      SpellsInside(o, s, p.pos + 1, u, 2, k, r.value);
      t, m := ProductFrom(o, s, i, Bin(op, l, u), k, r.(value := v));
    }
  }

  lemma {:induction false} PowerFrom<V>(o: Ops<V>, s: string, i: nat) returns (t: Tree, m: nat)
    requires i <= |s| && Power(o, s, i, NoError).error == NoError
    ensures
      var r := Power(o, s, i, NoError);
      Spells(o, s, i, t, 2, m, r.value) && r.pos == SkipSpaces(s, m)
    decreases |s| - i, 3
  {
    hide Spells, Unary, SkipSpaces;
    var l := Unary(o, s, i, NoError);
    t := UnaryFrom(o, s, i);
    m := l.pos;
    SpellsInside(o, s, i, t, 3, m, l.value);
    if At(s, SkipSpaces(s, m)) == '^' {
      var at := SkipSpaces(s, m);
      var u, k := PowerFrom(o, s, at + 1);
      SpellsBin(o, s, i, t, m, l.value, Pow, u, k, Power(o, s, at + 1, NoError).value);
      t, m := Bin(Pow, t, u), k;
    } else {
      SpellsLower(o, s, i, t, 3, 2, m, l.value);
    }
  }

  lemma {:induction false} UnaryFrom<V>(o: Ops<V>, s: string, i: nat) returns (t: Tree)
    requires i <= |s| && Unary(o, s, i, NoError).error == NoError
    ensures
      var r := Unary(o, s, i, NoError);
      Spells(o, s, i, t, 3, r.pos, r.value)
    decreases |s| - i, 2
  {
    hide SkipSpaces, Spans, Primary;
    var at := SkipSpaces(s, i);
    if At(s, at) == '+' || At(s, at) == '-' {
      var u := UnaryFrom(o, s, at + 1);
      t := if At(s, at) == '+' then Plus(u) else Neg(u);
      SignTokens(t);
      SpansMark(s, i, At(s, at));
      SpansJoin(s, i, [[At(s, at)]], at + 1, Tokens(u, 3), Unary(o, s, at + 1, NoError).pos);
    } else {
      t := PrimaryFrom(o, s, i);
    }
  }

  lemma {:induction false} PrimaryFrom<V>(o: Ops<V>, s: string, i: nat) returns (t: Tree)
    requires i <= |s| && Primary(o, s, i, NoError).error == NoError
    ensures
      var r := Primary(o, s, i, NoError);
      Spells(o, s, i, t, 3, r.pos, r.value)
    decreases |s| - i, 1
  {
    hide SkipSpaces, Spans, Expr, Call, NumberEnd, NameEnd, LowerAll;
    var j := SkipSpaces(s, i);
    var c := At(s, j);
    if c == '(' {
      var u, m := ExprFrom(o, s, j + 1);
      SkipIdempotent(s, m);
      t := Group(u);
      assert Tokens(t, 3) == [['(']] + Tokens(u, 0) + [[')']];
      SpansMark(s, i, '(');
      SpansJoin(s, i, [['(']], j + 1, Tokens(u, 0), m);
      SpansMark(s, m, ')');
      SpansJoin(s, i, [['(']] + Tokens(u, 0), m, [[')']], SkipSpaces(s, m) + 1);
    } else if IsDigit(c) || c == '.' {
      var k := NumberEnd(s, j);
      t := Num(s[j..k]);
      LexemeIsLiteral(s, j);
      SpansOne(s, i, k);
    } else {
      t := WordFrom(o, s, i);
    }
  }

  lemma {:induction false} WordFrom<V>(o: Ops<V>, s: string, i: nat) returns (t: Tree)
    requires i <= |s| && IsNameStart(At(s, SkipSpaces(s, i))) && Primary(o, s, i, NoError).error == NoError
    ensures
      var r := Primary(o, s, i, NoError);
      Spells(o, s, i, t, 3, r.pos, r.value)
    decreases |s| - i, 0
  {
    hide SkipSpaces, Spans, Expr, Call, NumberEnd, NameEnd, LowerAll;
    var j := SkipSpaces(s, i);
    var k := NameEnd(s, j, IDENT_MAX - 1);
    NameRun(s, j, IDENT_MAX - 1);
    SpansOne(s, i, k);
    var name := s[j..k];
    if Constant(LowerAll(name)) {
      t := Name(name);
    } else {
      var m := SkipSpaces(s, k) + 1;
      var args, comma, vs := CallFrom(o, s, m, LowerAll(name));
      t := CallOf(name, args, comma);
      var end := Call(o, s, m, NoError, LowerAll(name)).pos;
      assert Tokens(t, 3) == [name] + [['(']] + (ArgTokens(args, comma) + [[')']]);
      SpansBin(s, i, [name], k, '(', ArgTokens(args, comma) + [[')']], end);
    }
  }

  lemma {:induction false} CallFrom<V>(o: Ops<V>, s: string, i: nat, name: string)
    returns (args: seq<Tree>, comma: bool, vs: seq<V>)
    requires i <= |s| && Call(o, s, i, NoError, name).error == NoError
    ensures |args| <= 3 && (comma ==> |args| == 3) && forall a :: a in args ==> Expressible(a)
    ensures ValuesOf(o, args) == Gives(vs)
    ensures
      var r := Call(o, s, i, NoError, name);
      o.call(name, vs) == Some(r.value) && Spans(s, i, ArgTokens(args, comma) + [[')']], r.pos)
    decreases |s| - i, 9
  {
    hide SkipSpaces, Spans, Arguments, ArgTokens;
    var j := SkipSpaces(s, i);
    SkipIdempotent(s, i);
    if At(s, j) == ')' {
      args, comma, vs := [], false, [];
      NoTokens();
      assert ArgTokens(args, comma) + [[')']] == [[')']];
      SpansMark(s, i, ')');
    } else {
      var m;
      args, comma, vs, m := ArgumentsFrom(o, s, j, []);
      SkipIdempotent(s, m);
      assert [] + vs == vs;
      SpansBack(s, i, ArgTokens(args, comma), m);
      SpansMark(s, m, ')');
      SpansJoin(s, i, ArgTokens(args, comma), m, [[')']], SkipSpaces(s, m) + 1);
    }
  }

  lemma NoTokens()
    ensures ArgTokens([], false) == []
  {
  }

  lemma {:induction false} ArgumentsFrom<V>(o: Ops<V>, s: string, i: nat, before: seq<V>)
    returns (args: seq<Tree>, comma: bool, vs: seq<V>, m: nat)
    requires i <= |s| && |before| < 3 && Arguments(o, s, i, NoError, before).3
    requires Arguments(o, s, i, NoError, before).2 == NoError
    ensures args != [] && |before| + |args| <= 3 && (comma ==> |before| + |args| == 3)
    ensures forall a :: a in args ==> Expressible(a)
    ensures ValuesOf(o, args) == Gives(vs) && m <= |s| && Spans(s, i, ArgTokens(args, comma), m)
    ensures ArgTokens(args, comma) != []
    ensures
      var r := Arguments(o, s, i, NoError, before);
      r.0 == before + vs && r.1 == if comma then m else SkipSpaces(s, m)
    decreases |s| - i, 8
  {
    hide SkipSpaces, Spans, Expr, Tokens, ValueOf, Expressible;
    var r := Expr(o, s, i, NoError);
    var t, k := ExprFrom(o, s, i);
    SkipIdempotent(s, k);
    FirstToken(t, 0);
    args, comma, vs, m := [t], false, [r.value], k;
    OneArgument(o, t, r.value);
    if At(s, SkipSpaces(s, k)) == ',' {
      var at := SkipSpaces(s, k) + 1;
      SpansMark(s, k, ',');
      SpansJoin(s, i, Tokens(t, 0), k, [[',']], at);
      if |before| == 2 {
        comma, m := true, at;
      } else {
        var later, ws;
        later, comma, ws, m := ArgumentsFrom(o, s, at, before + [r.value]);
        args, vs := [t] + later, [r.value] + ws;
        MoreArguments(o, t, r.value, later, ws, comma);
        SpansJoin(s, i, Tokens(t, 0) + [[',']], at, ArgTokens(later, comma), m);
        assert before + [r.value] + ws == before + vs;
      }
    }
  }

  lemma OneArgument<V>(o: Ops<V>, t: Tree, v: V)
    requires ValueOf(o, t) == Gives(v)
    ensures ValuesOf(o, [t]) == Gives([v])
    ensures ArgTokens([t], false) == Tokens(t, 0) && ArgTokens([t], true) == Tokens(t, 0) + [[',']]
  {
    hide ValueOf, Tokens;
    assert [t][1..] == [] && ValuesOf<V>(o, []) == Gives([]) && [v] + [] == [v];
  }

  lemma MoreArguments<V>(o: Ops<V>, t: Tree, v: V, later: seq<Tree>, vs: seq<V>, comma: bool)
    requires ValueOf(o, t) == Gives(v) && ValuesOf(o, later) == Gives(vs) && later != []
    ensures ValuesOf(o, [t] + later) == Gives([v] + vs)
    ensures ArgTokens([t] + later, comma) == Tokens(t, 0) + [[',']] + ArgTokens(later, comma)
  {
    hide ValueOf, Tokens;
    assert ([t] + later)[1..] == later;
  }

  // ----- the whole text

  /** Tokens and the white space before them make up the text. */
  lemma {:induction false} SpansSpread(s: string, i: nat, ts: seq<string>, j: nat) returns (gaps: seq<string>)
    requires i <= |s| && Spans(s, i, ts, j)
    ensures |gaps| == |ts| && (forall g :: g in gaps ==> Blank(g))
    ensures i <= j <= |s| && s[i..j] == Spread(ts, gaps)
    decreases |ts|
  {
    hide SkipSpaces, Blank;
    if ts == [] {
      gaps := [];
    } else {
      var k := SkipSpaces(s, i);
      GapIsBlank(s, i);
      var later := SpansSpread(s, k + |ts[0]|, ts[1..], j);
      gaps := [s[i..k]] + later;
      assert s[i..j] == s[i..k] + s[k..k + |ts[0]|] + s[k + |ts[0]|..j];
      assert gaps[1..] == later;
    }
  }

  lemma {:induction false} GapIsBlank(s: string, i: nat)
    requires i <= |s|
    ensures Blank(s[i..SkipSpaces(s, i)])
    decreases |s| - i
  {
    if i < |s| && IsSpace(s[i]) {
      GapIsBlank(s, i + 1);
      assert s[i..SkipSpaces(s, i)] == [s[i]] + s[i + 1..SkipSpaces(s, i + 1)];
    }
  }

  /**
   Whatever the calculator gives a value is the text of an expression: the tokens of a tree,
   which has that value, with white space before them and at the end.
   */
  lemma EvalThenPrint<V>(o: Ops<V>, s: string) returns (t: Tree, gaps: seq<string>, last: string)
    requires !Eval(o, s).Failed?
    ensures Expressible(t) && |gaps| == |Tokens(t, 0)| && (forall g :: g in gaps ==> Blank(g)) && Blank(last)
    ensures s == Spread(Tokens(t, 0), gaps) + last
    ensures
      match ValueOf(o, t)
      case Gives(v) => Eval(o, s) == if o.isBad(v) then Bad else Value(v)
      case Fails(_) => false
  {
    hide Expr, Tokens, Blank, SkipSpaces, Spans, Expressible;
    var m;
    t, m := ExprFrom(o, s, 0);
    SkipIdempotent(s, m);
    gaps := SpansSpread(s, 0, Tokens(t, 0), m);
    last := s[m..];
    GapIsBlank(s, m);
    assert s[m..|s|] == last && s == s[0..m] + last;
  }

  /** The text is that of the tree, with white space of any kind between its tokens and at the ends. */
  ghost predicate IsTextOf(s: string, t: Tree, gaps: seq<string>, last: string) {
    && Expressible(t) && |gaps| == |Tokens(t, 0)| && (forall g :: g in gaps ==> Blank(g)) && Blank(last)
    && s == Spread(Tokens(t, 0), gaps) + last
  }

  /** The calculator accepts exactly the texts of the expressions that have a value. */
  lemma AcceptedExactly<V>(o: Ops<V>, s: string)
    ensures !Eval(o, s).Failed? <==> exists t, gaps, last :: IsTextOf(s, t, gaps, last) && ValueOf(o, t).Gives?
  {
    hide Eval, Tokens, Expressible, Blank;
    if t, gaps, last :| IsTextOf(s, t, gaps, last) && ValueOf(o, t).Gives? {
      PrintThenEval(o, t, gaps, last);
    }
    if !Eval(o, s).Failed? {
      var t, gaps, last := EvalThenPrint(o, s);
      assert IsTextOf(s, t, gaps, last);
    }
  }
}
