/**
 The calculator's recursive-descent parser, which advances a position and remembers the
 first error in place. Each method is proved to compute the grammar function of its level.
 */
module CalcParser {
  import opened Options
  import opened CalcGrammar

  class Parser<V> {
    const o: Ops<V>
    const text: string
    var pos: nat
    var error: Error

    ghost predicate Valid()
      reads this
    {
      pos <= |text| && '\0' !in text
    }

    constructor (o: Ops<V>, text: string)
      requires '\0' !in text
      ensures Valid() && pos == 0 && error == NoError && this.o == o && this.text == text
    {
      this.o, this.text := o, text;
      pos, error := 0, NoError;
    }

    method Fail(e: Error)
      modifies `error
      ensures error == SetError(old(error), e)
    {
      if error == NoError {
        error := e;
      }
    }

    method SkipWhite()
      requires Valid()
      modifies `pos
      ensures Valid() && pos == SkipSpaces(text, old(pos))
    {
      while pos < |text| && IsSpace(text[pos])
        invariant Valid() && SkipSpaces(text, pos) == SkipSpaces(text, old(pos))
        decreases |text| - pos
      {
        pos := pos + 1;
      }
    }

    method Take(c: char) returns (b: bool)
      requires Valid() && c != '\0'
      modifies `pos
      ensures Valid() && b == Match(text, old(pos), c).Some?
      ensures pos == if b then Match(text, old(pos), c).value else SkipSpaces(text, old(pos))
    {
      SkipWhite();
      b := At(text, pos) == c;
      if b {
        pos := pos + 1;
      }
    }

    method ParseName() returns (name: string)
      requires Valid()
      modifies `pos
      ensures Valid() && pos == NameEnd(text, old(pos), IDENT_MAX - 1)
      ensures name == LowerAll(text[old(pos)..pos])
    {
      name := "";
      ghost var start := pos;
      while IsNameChar(At(text, pos)) && |name| + 1 < IDENT_MAX
        invariant Valid() && start <= pos && |name| == pos - start <= IDENT_MAX - 1
        invariant name == LowerAll(text[start..pos])
        invariant NameEnd(text, pos, IDENT_MAX - 1 - |name|) == NameEnd(text, start, IDENT_MAX - 1)
        decreases |text| - pos
      {
        name := name + [Lower(text[pos])];
        pos := pos + 1;
      }
    }

    ghost predicate Result(v: V, p: Parsed<V>)
      reads this
    {
      Valid() && Parsed(v, pos, error) == p
    }

    method ParsePrimary() returns (v: V)
      requires Valid()
      modifies `pos, `error
      ensures Result(v, Primary(o, text, old(pos), old(error)))
      decreases |text| - pos, 0
    {
      hide NumberEnd, Expr, Call, NameEnd, LowerAll, Sound, SkipSpaces;
      ghost var start := pos;
      SkipWhite();
      var c := At(text, pos);
      if c == '(' {
        pos := pos + 1;
        v := ParseExpr();
        var closed := Take(')');
        if !closed {
          Fail(MissingParen);
        }
        return;
      }
      if IsDigit(c) || c == '.' {
        var end := NumberEnd(text, pos);
        if end == pos {
          Fail(BadNumber);
          return o.nan;
        }
        v := o.number(text[pos..end]);
        pos := end;
        return;
      }
      if IsNameStart(c) {
        var name := ParseName();
        if name == "pi" {
          return o.pi;
        }
        if name == "tau" {
          return o.tau;
        }
        if name == "e" {
          return o.e;
        }
        if name == "x" {
          return o.x;
        }
        var called := Take('(');
        if called {
          v := ParseCall(name);
          return;
        }
        Fail(UnknownName);
        return o.nan;
      }
      Fail(ExpectedOperand);
      v := o.nan;
    }

    method ParseCall(name: string) returns (v: V)
      requires Valid()
      modifies `pos, `error
      ensures Result(v, Call(o, text, old(pos), old(error), name))
      decreases |text| - pos, 8
    {
      hide Sound, SkipSpaces, Arguments;
      var args: seq<V> := [];
      SkipWhite();
      if At(text, pos) != ')' {
        var ok;
        args, ok := ParseArguments();
        if !ok {
          return o.nan;
        }
      }
      var closed := Take(')');
      if !closed {
        Fail(MissingCallParen);
        return o.nan;
      }
      match o.call(name, args) {
        case Some(r) => v := r;
        case None =>
          Fail(UnknownFunction);
          v := o.nan;
      }
    }

    method ParseArguments() returns (args: seq<V>, ok: bool)
      requires Valid()
      modifies `pos, `error
      ensures Valid() && Arguments(o, text, old(pos), old(error), []) == (args, pos, error, ok)
      decreases |text| - pos, 7
    {
      hide SkipSpaces, Expr;
      args := [];
      while |args| < 3
        invariant Valid() && |args| <= 3 && old(pos) <= pos
        invariant Arguments(o, text, pos, error, args) == Arguments(o, text, old(pos), old(error), [])
        decreases 3 - |args|
      {
        var v := ParseExpr();
        args := args + [v];
        if error != NoError {
          return args, false;
        }
        var more := Take(',');
        if !more {
          return args, true;
        }
      }
      ok := true;
    }

    method ParseUnary() returns (v: V)
      requires Valid()
      modifies `pos, `error
      ensures Result(v, Unary(o, text, old(pos), old(error)))
      decreases |text| - pos, 1
    {
      hide Sound, Primary;
      var plus := Take('+');
      SkipTwice(text, old(pos), '-');
      if plus {
        v := ParseUnary();
        return;
      }
      var minus := Take('-');
      if minus {
        var r := ParseUnary();
        return o.neg(r);
      }
      PrimarySkips(o, text, old(pos), error);
      v := ParsePrimary();
    }

    method ParsePower() returns (v: V)
      requires Valid()
      modifies `pos, `error
      ensures Result(v, Power(o, text, old(pos), old(error)))
      decreases |text| - pos, 2
    {
      hide Unary, SkipSpaces;
      v := ParseUnary();
      var raised := Take('^');
      if raised {
        var right := ParsePower();
        v := o.pow(v, right);
      }
    }

    method ParseMul() returns (v: V)
      requires Valid()
      modifies `pos, `error
      ensures Result(v, Mul(o, text, old(pos), old(error)))
      decreases |text| - pos, 4
    {
      hide Power, SkipSpaces, Match;
      v := ParsePower();
      ghost var start := pos;
      ghost var p := Mul(o, text, old(pos), old(error));
      while error == NoError
        invariant Valid() && start <= pos && MulTail(o, text, Parsed(v, pos, error)) == p
        decreases |text| - pos
      {
        ghost var at := pos;
        var times := Take('*');
        SkipTwice(text, at, '/');
        if times {
          var right := ParsePower();
          v := o.mul(v, right);
          continue;
        }
        var over := Take('/');
        SkipTwice(text, at, '%');
        if over {
          var right := ParsePower();
          if o.isZero(right) {
            Fail(DivisionByZero);
            return o.nan;
          }
          v := o.div(v, right);
          continue;
        }
        var rest := Take('%');
        if !rest {
          return;
        }
        var right := ParsePower();
        v := o.mod(v, right);
      }
    }

    method ParseExpr() returns (v: V)
      requires Valid()
      modifies `pos, `error
      ensures Result(v, Expr(o, text, old(pos), old(error)))
      decreases |text| - pos, 6
    {
      hide Mul, SkipSpaces, Match;
      v := ParseMul();
      ghost var start := pos;
      ghost var p := Expr(o, text, old(pos), old(error));
      while error == NoError
        invariant Valid() && start <= pos && ExprTail(o, text, Parsed(v, pos, error)) == p
        decreases |text| - pos
      {
        ghost var at := pos;
        var plus := Take('+');
        SkipTwice(text, at, '-');
        if plus {
          var right := ParseMul();
          v := o.add(v, right);
          continue;
        }
        var minus := Take('-');
        if !minus {
          return;
        }
        var right := ParseMul();
        v := o.sub(v, right);
      }
    }
  }

  /** White space skipped once stays skipped. */
  lemma SkipTwice(s: string, i: nat, c: char)
    requires i <= |s| && c != '\0'
    ensures SkipSpaces(s, SkipSpaces(s, i)) == SkipSpaces(s, i)
    ensures Match(s, SkipSpaces(s, i), c) == Match(s, i, c)
  {
    SkipIdempotent(s, i);
  }

  lemma PrimarySkips<V>(o: Ops<V>, s: string, i: nat, err: Error)
    requires i <= |s|
    ensures Primary(o, s, SkipSpaces(s, i), err) == Primary(o, s, i, err)
  {
    hide NumberEnd, Expr, Call, NameEnd, LowerAll, Match;
    SkipIdempotent(s, i);
  }

  /** calc_eval. */
  method Evaluate<V>(o: Ops<V>, text: string) returns (r: Result<V>)
    requires '\0' !in text
    ensures r == Eval(o, text)
  {
    hide Expr;
    var parser := new Parser(o, text);
    var v := parser.ParseExpr();
    parser.SkipWhite();
    if parser.pos < |text| {
      parser.Fail(TrailingCharacters);
    }
    if parser.error != NoError {
      return Failed(parser.error);
    }
    r := if o.isBad(v) then Bad else Value(v);
  }
}
