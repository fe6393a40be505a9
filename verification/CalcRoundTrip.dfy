/**
 Expression trees, their minimally parenthesised text and their strict value; the grammar
 reads the text back to exactly that value.
 */
module CalcRoundTrip {
  import opened Options
  import opened CalcGrammar

  datatype BinOp = Add | Sub | Mul | Div | Mod | Pow

  datatype Tree =
    | Num(lexeme: string)
    | Name(name: string)
    | Neg(t: Tree)
    | Plus(t: Tree)
    | Bin(op: BinOp, l: Tree, r: Tree)
    | Group(t: Tree) // in parentheses, needed or not
    | CallOf(name: string, args: seq<Tree>, comma: bool) // with a comma after the last argument or without

  // ----- trees that the syntax can express

  predicate Constant(name: string) { name == "pi" || name == "tau" || name == "e" || name == "x" }

  predicate FunctionName(name: string) {
    && 0 < |name| < IDENT_MAX && IsNameStart(name[0]) && !Constant(LowerAll(name))
    && forall c :: c in name ==> IsNameChar(c)
  }

  predicate Literal(s: string) {
    s != "" && (IsDigit(s[0]) || s[0] == '.') && NumberEnd(s, 0) == |s|
  }

  predicate Expressible(t: Tree) {
    match t
    case Num(s) => Literal(s)
    case Name(n) => Constant(LowerAll(n))
    case Neg(u) => Expressible(u)
    case Plus(u) => Expressible(u)
    case Bin(_, l, r) => Expressible(l) && Expressible(r)
    case Group(u) => Expressible(u)
    case CallOf(f, args, comma) =>
      FunctionName(f) && |args| <= 3 && (comma ==> |args| == 3) && forall a :: a in args ==> Expressible(a)
  }

  // ----- strict evaluation

  datatype Strict<+V> = Gives(value: V) | Fails(fault: Error)

  function Constants<V>(o: Ops<V>, name: string): V {
    if name == "pi" then o.pi else if name == "tau" then o.tau else if name == "e" then o.e else o.x
  }

  /** The value, or what goes wrong first when operands are evaluated from left to right. */
  function ValueOf<V>(o: Ops<V>, t: Tree): (r: Strict<V>)
    ensures r.Fails? ==> r.fault == DivisionByZero || r.fault == UnknownFunction
  {
    match t
    case Num(s) => Gives(o.number(s))
    case Name(n) => Gives(Constants(o, LowerAll(n)))
    case Neg(u) => (match ValueOf(o, u) case Gives(v) => Gives(o.neg(v)) case Fails(e) => Fails(e))
    case Plus(u) => ValueOf(o, u)
    case Bin(op, l, r) =>
      var a, b := ValueOf(o, l), ValueOf(o, r);
      if a.Fails? then a else if b.Fails? then b else Apply(o, op, a.value, b.value)
    case Group(u) => ValueOf(o, u)
    case CallOf(f, args, _) =>
      match ValuesOf(o, args)
      case Gives(vs) => (match o.call(LowerAll(f), vs) case Some(v) => Gives(v) case None => Fails(UnknownFunction))
      case Fails(e) => Fails(e)
  }

  function Apply<V>(o: Ops<V>, op: BinOp, a: V, b: V): (r: Strict<V>)
    ensures r.Fails? ==> r.fault == DivisionByZero
  {
    match op
    case Add => Gives(o.add(a, b))
    case Sub => Gives(o.sub(a, b))
    case Mul => Gives(o.mul(a, b))
    case Div => if o.isZero(b) then Fails(DivisionByZero) else Gives(o.div(a, b))
    case Mod => Gives(o.mod(a, b))
    case Pow => Gives(o.pow(a, b))
  }

  function ValuesOf<V>(o: Ops<V>, ts: seq<Tree>): (r: Strict<seq<V>>)
    ensures r.Gives? ==> |r.value| == |ts|
    ensures r.Fails? ==> r.fault == DivisionByZero || r.fault == UnknownFunction
  {
    if ts == [] then Gives([])
    else
      var v, vs := ValueOf(o, ts[0]), ValuesOf(o, ts[1..]);
      if v.Fails? then Fails(v.fault) else if vs.Fails? then vs else Gives([v.value] + vs.value)
  }

  // ----- printing

  /** How tightly the outermost construct binds: 0 for sums up to 4 for operands. */
  function Level(t: Tree): nat {
    match t
    case Bin(op, _, _) => OpLevel(op)
    case Neg(_) => 3
    case Plus(_) => 3
    case _ => 4
  }

  function OpLevel(op: BinOp): nat {
    match op
    case Add => 0
    case Sub => 0
    case Pow => 2
    case _ => 1
  }

  // `^` associates to the right, everything else to the left

  function LeftLevel(op: BinOp): nat {
    if op.Pow? then 3 else OpLevel(op)
  }

  function RightLevel(op: BinOp): nat {
    if op.Pow? then 2 else OpLevel(op) + 1
  }

  function Symbol(op: BinOp): char {
    match op
    case Add => '+'
    case Sub => '-'
    case Mul => '*'
    case Div => '/'
    case Mod => '%'
    case Pow => '^'
  }

  /** The tokens of a tree, with parentheses only where it would otherwise be read differently. */
  function Tokens(t: Tree, level: nat): seq<string>
    decreases t, if Level(t) < level then 1 else 0
  {
    if Level(t) < level then ["("] + Tokens(t, 0) + [")"]
    else
      match t
      case Num(s) => [s]
      case Name(n) => [n]
      case Neg(u) => ["-"] + Tokens(u, 3)
      case Plus(u) => ["+"] + Tokens(u, 3)
      case Bin(op, l, r) =>
        Tokens(l, LeftLevel(op)) + [[Symbol(op)]] + Tokens(r, RightLevel(op))
      case Group(u) => ["("] + Tokens(u, 0) + [")"]
      case CallOf(f, args, comma) => [f, "("] + ArgTokens(args, comma) + [")"]
  }

  function ArgTokens(args: seq<Tree>, comma: bool): seq<string> {
    if args == [] then []
    else if |args| == 1 then Tokens(args[0], 0) + if comma then [","] else []
    else Tokens(args[0], 0) + [","] + ArgTokens(args[1..], comma)
  }

  predicate Blank(w: string) {
    forall c :: c in w ==> c == ' ' || c == '\t' || c == '\r' || c == '\n'
  }

  /** A text of the tokens with a gap before each. */
  function Spread(ts: seq<string>, gaps: seq<string>): string
    requires |gaps| == |ts|
  {
    if ts == [] then "" else gaps[0] + ts[0] + Spread(ts[1..], gaps[1..])
  }

  // ----- where tokens are in a text

  /** The first character after a text that the given level is to stop at. */
  predicate Follows(c: char, level: nat) {
    || c == '\0' || c == ')' || c == ','
    || (level >= 1 && (c == '+' || c == '-'))
    || (level >= 2 && (c == '*' || c == '/' || c == '%'))
    || (level >= 3 && c == '^')
  }

  /** From i on come the tokens, with white space before each, and the last one ends at j. */
  ghost predicate Spans(s: string, i: nat, ts: seq<string>, j: nat)
    requires i <= |s|
    decreases |ts|
  {
    if ts == [] then j == i
    else
      var k := SkipSpaces(s, i);
      k + |ts[0]| <= |s| && s[k..k + |ts[0]|] == ts[0] && Spans(s, k + |ts[0]|, ts[1..], j)
  }

  /** The tokens, and then something that the level stops at. */
  ghost predicate Reads(s: string, i: nat, ts: seq<string>, j: nat, level: nat) {
    i <= |s| && j <= |s| && Spans(s, i, ts, j) && Follows(At(s, SkipSpaces(s, j)), level)
  }

  lemma {:induction false} SpansInside(s: string, i: nat, ts: seq<string>, j: nat)
    requires i <= |s| && Spans(s, i, ts, j)
    ensures i <= j <= |s|
    decreases |ts|
  {
    hide SkipSpaces;
    if ts != [] {
      SpansInside(s, SkipSpaces(s, i) + |ts[0]|, ts[1..], j);
    }
  }

  lemma {:induction false} SpansParts(s: string, i: nat, a: seq<string>, b: seq<string>, j: nat) returns (m: nat)
    requires i <= |s| && Spans(s, i, a + b, j)
    ensures m <= |s| && Spans(s, i, a, m) && Spans(s, m, b, j)
    decreases |a|
  {
    hide SkipSpaces;
    m := i;
    if a == [] {
      assert a + b == b;
    } else {
      assert (a + b)[1..] == a[1..] + b;
      m := SpansParts(s, SkipSpaces(s, i) + |a[0]|, a[1..], b, j);
    }
  }

  /** White space before the first token belongs to it. */
  lemma ReadsSkipped(s: string, i: nat, ts: seq<string>, j: nat, level: nat)
    requires Reads(s, i, ts, j, level) && ts != []
    ensures Reads(s, SkipSpaces(s, i), ts, j, level)
  {
    hide SkipSpaces, Follows;
    SkipIdempotent(s, i);
  }

  /** The first token's place. */
  lemma ReadsFirst(s: string, i: nat, ts: seq<string>, j: nat, level: nat)
    requires Reads(s, i, ts, j, level) && ts != [] && ts[0] != ""
    ensures
      var k := SkipSpaces(s, i);
      && k + |ts[0]| <= |s| && s[k..k + |ts[0]|] == ts[0] && At(s, k) == ts[0][0]
      && Reads(s, k + |ts[0]|, ts[1..], j, level)
  {
    hide SkipSpaces, Follows;
    var k := SkipSpaces(s, i);
    assert s[k] == s[k..k + |ts[0]|][0];
  }

  lemma SkipStays(s: string, i: nat)
    requires i <= |s| && !IsSpace(At(s, i))
    ensures SkipSpaces(s, i) == i
  {
  }

  lemma MatchHere(s: string, i: nat, c: char)
    requires i <= |s| && c != '\0' && !IsSpace(At(s, i))
    ensures SkipSpaces(s, i) == i
    ensures Match(s, i, c) == if At(s, i) == c then Some(i + 1) else None
  {
  }

  /** A constant's name in whatever case is a name. */
  lemma ConstantShape(n: string)
    requires Constant(LowerAll(n))
    ensures 0 < |n| < IDENT_MAX && IsNameStart(n[0]) && forall c :: c in n ==> IsNameChar(c)
  {
    forall k | 0 <= k < |n|
      ensures IsNameStart(n[k])
    {
      assert Lower(n[k]) == LowerAll(n)[k] && IsNameStart(LowerAll(n)[k]);
    }
  }

  /** The first token of a tree. */
  lemma {:induction false} FirstToken(t: Tree, level: nat)
    requires Expressible(t)
    ensures
      var p := Tokens(t, level);
      && p != [] && p[0] != "" && p[0][0] != ')'
      && (level >= 3 && !t.Neg? && !t.Plus? ==> p[0][0] != '+' && p[0][0] != '-')
    decreases t
  {
    if Level(t) >= level && t.Bin? {
      FirstToken(t.l, LeftLevel(t.op));
    } else if t.Name? {
      ConstantShape(t.name);
    }
  }

  // ----- tokens

  lemma {:induction false} DigitRunMoves(a: string, s: string, i: nat, k: nat)
    requires k <= |a| && i + |a| <= |s| && s[i..i + |a|] == a && !IsDigit(At(s, i + |a|))
    ensures DigitRun(s, i + k) == i + DigitRun(a, k)
    decreases |a| - k
  {
    if k < |a| {
      assert s[i + k] == a[k];
      if IsDigit(a[k]) {
        DigitRunMoves(a, s, i, k + 1);
      }
    }
  }

  lemma AtMoves(a: string, s: string, i: nat, k: nat)
    requires k < |a| && i + |a| <= |s| && s[i..i + |a|] == a
    ensures At(s, i + k) == At(a, k)
  {
  }

  /** A character that ends a literal. */
  predicate EndsLiteral(c: char) { !IsDigit(c) && c != '.' && c != 'e' && c != 'E' }

  /** Where the digits and the fraction of a literal end. */
  function MantissaEnd(s: string, i: nat): (b: nat)
    requires i <= |s|
    ensures i <= b <= |s|
  {
    var a := DigitRun(s, i);
    if At(s, a) == '.' then DigitRun(s, a + 1) else a
  }

  lemma MantissaMoves(a: string, s: string, i: nat)
    requires i + |a| <= |s| && s[i..i + |a|] == a && EndsLiteral(At(s, i + |a|))
    ensures MantissaEnd(s, i) == i + MantissaEnd(a, 0)
    ensures DigitRun(s, i) == i + DigitRun(a, 0)
  {
    hide DigitRun, IsDigit;
    assert !IsDigit(At(s, i + |a|)) && At(s, i + |a|) != '.';
    var p := DigitRun(a, 0);
    DigitRunMoves(a, s, i, 0);
    if p < |a| {
      AtMoves(a, s, i, p);
      if a[p] == '.' {
        DigitRunMoves(a, s, i, p + 1);
      }
    } else {
      assert At(a, p) == '\0';
    }
  }

  lemma LiteralEnds(a: string, s: string, i: nat)
    requires Literal(a) && i + |a| <= |s| && s[i..i + |a|] == a && EndsLiteral(At(s, i + |a|))
    ensures NumberEnd(s, i) == i + |a|
  {
    hide DigitRun;
    var n, p, b := |a|, DigitRun(a, 0), MantissaEnd(a, 0);
    MantissaMoves(a, s, i);
    if p < n {
      AtMoves(a, s, i, p);
    }
    if b < n {
      AtMoves(a, s, i, b);
      ExponentMoves(a, s, i, b);
    }
  }

  lemma ExponentMoves(a: string, s: string, i: nat, b: nat)
    requires Literal(a) && i + |a| <= |s| && s[i..i + |a|] == a && EndsLiteral(At(s, i + |a|))
    requires b == MantissaEnd(a, 0) < |a|
    ensures b + 1 < |a| && At(s, i + b + 1) == At(a, b + 1)
    ensures
      var d := if At(a, b + 1) == '+' || At(a, b + 1) == '-' then b + 2 else b + 1;
      d < |a| && At(s, i + d) == At(a, d) && DigitRun(s, i + d) == i + DigitRun(a, d)
  {
    hide DigitRun, IsDigit;
    AtMoves(a, s, i, b + 1);
    var d := if At(a, b + 1) == '+' || At(a, b + 1) == '-' then b + 2 else b + 1;
    ExponentInside(a, b, d);
    AtMoves(a, s, i, d);
    assert !IsDigit(At(s, i + |a|));
    DigitRunMoves(a, s, i, d);
  }

  lemma ExponentInside(a: string, b: nat, d: nat)
    requires Literal(a) && b == MantissaEnd(a, 0) < |a|
    requires d == if At(a, b + 1) == '+' || At(a, b + 1) == '-' then b + 2 else b + 1
    ensures d < |a| && b + 1 < |a|
  {
    hide DigitRun;
  }

  // ----- which texts are literals

  predicate DigitsOnly(s: string) { forall k :: 0 <= k < |s| ==> '0' <= s[k] <= '9' }

  predicate Exponent(x: string) {
    || x == ""
    || ((x[0] == 'e' || x[0] == 'E') && |x| > 1 && DigitsOnly(x[1..]))
    || ((x[0] == 'e' || x[0] == 'E') && |x| > 2 && (x[1] == '+' || x[1] == '-') && DigitsOnly(x[2..]))
  }

  /** Digits up to a, a point and digits up to b, an exponent; a digit must come before it. */
  predicate Decimal(s: string, a: nat, b: nat) {
    && a <= b <= |s| && DigitsOnly(s[..a]) && Exponent(s[b..])
    && (if a == b then a > 0 else s[a] == '.' && DigitsOnly(s[a + 1..b]) && (a > 0 || b > 1))
  }

  lemma {:induction false} DigitRunIs(s: string, i: nat, j: nat)
    requires i <= j <= |s| && DigitsOnly(s[i..j]) && !IsDigit(At(s, j))
    ensures DigitRun(s, i) == j
    decreases j - i
  {
    if i < j {
      assert s[i] == s[i..j][0] && s[i..j][1..] == s[i + 1..j];
      DigitRunIs(s, i + 1, j);
    }
  }

  lemma RunIsDigits(s: string, i: nat)
    requires i <= |s|
    ensures DigitsOnly(s[i..DigitRun(s, i)])
  {
    hide DigitRun;
  }

  /** The scanner's literals are the decimal numerals. */
  lemma LiteralIs(s: string)
    ensures Literal(s) <==> exists a, b :: Decimal(s, a, b)
  {
    hide Literal, Decimal;
    if a, b :| Decimal(s, a, b) {
      DecimalIsLiteral(s, a, b);
    }
    if Literal(s) {
      LiteralIsDecimal(s);
    }
  }

  lemma DecimalIsLiteral(s: string, a: nat, b: nat)
    requires Decimal(s, a, b)
    ensures Literal(s)
  {
    hide DigitRun, Exponent, DigitsOnly;
    ExponentRuns(s, b);
    assert s[0..a] == s[..a];
    DigitRunIs(s, 0, a);
    FirstDigit(s, a);
    if a < b {
      DigitRunIs(s, a + 1, b);
    }
  }

  lemma FirstDigit(s: string, a: nat)
    requires 0 < a <= |s| ==> DigitsOnly(s[..a])
    ensures 0 < a <= |s| ==> IsDigit(s[0])
  {
    assert 0 < a <= |s| ==> s[..a][0] == s[0];
  }

  lemma ExponentRuns(s: string, b: nat)
    requires b <= |s| && Exponent(s[b..])
    ensures !IsDigit(At(s, b)) && At(s, b) != '.'
    ensures b < |s| ==>
      && (s[b] == 'e' || s[b] == 'E')
      && var d := if At(s, b + 1) == '+' || At(s, b + 1) == '-' then b + 2 else b + 1;
      IsDigit(At(s, d)) && DigitRun(s, d) == |s|
  {
    hide DigitRun;
    if b < |s| {
      var x := s[b..];
      var d := if x[1] == '+' || x[1] == '-' then b + 2 else b + 1;
      assert x[0] == s[b] && x[1] == s[b + 1];
      TailOf(s, b, d);
      assert s[d] == s[d..|s|][0];
      DigitRunIs(s, d, |s|);
    }
  }

  lemma TailOf(s: string, b: nat, d: nat)
    requires b <= d <= |s|
    ensures s[b..][d - b..] == s[d..|s|]
  {
  }

  lemma LiteralIsDecimal(s: string)
    requires Literal(s)
    ensures Decimal(s, DigitRun(s, 0), MantissaEnd(s, 0))
  {
    hide DigitRun, Exponent, DigitsOnly;
    var a, b := DigitRun(s, 0), MantissaEnd(s, 0);
    RunIsDigits(s, 0);
    assert s[..a] == s[0..a];
    if a < b {
      RunIsDigits(s, a + 1);
    }
    if b < |s| {
      RestIsExponent(s, b);
    } else {
      assert s[b..] == "";
      NoExponent();
    }
  }

  lemma NoExponent()
    ensures Exponent("")
  {
  }

  lemma RestIsExponent(s: string, b: nat)
    requires b < |s| && (s[b] == 'e' || s[b] == 'E')
    requires
      var d := if At(s, b + 1) == '+' || At(s, b + 1) == '-' then b + 2 else b + 1;
      IsDigit(At(s, d)) && DigitRun(s, d) == |s|
    ensures Exponent(s[b..])
  {
    hide DigitRun;
    var d := if At(s, b + 1) == '+' || At(s, b + 1) == '-' then b + 2 else b + 1;
    RunIsDigits(s, d);
    TailOf(s, b, d);
  }

  /** Capital letters become small ones, everything else stays. */
  lemma LowerIs(s: string, k: nat, j: nat)
    requires k < |s| && j < 26
    ensures s[k] == "ABCDEFGHIJKLMNOPQRSTUVWXYZ"[j] ==> LowerAll(s)[k] == "abcdefghijklmnopqrstuvwxyz"[j]
    ensures s[k] < 'A' || s[k] > 'Z' ==> LowerAll(s)[k] == s[k]
  {
    assert "ABCDEFGHIJKLMNOPQRSTUVWXYZ"[j] == 'A' + j as char && "abcdefghijklmnopqrstuvwxyz"[j] == 'a' + j as char;
  }

  lemma {:induction false} NameEnds(s: string, i: nat, j: nat, room: nat)
    requires i <= j <= |s| && j - i <= room && !IsNameChar(At(s, j))
    requires forall k :: i <= k < j ==> IsNameChar(s[k])
    ensures NameEnd(s, i, room) == j
    decreases j - i
  {
    if i < j {
      NameEnds(s, i + 1, j, room - 1);
    }
  }

  // ----- reading back, level by level

  /** The parse delivers the strict value and stops at end, or fails if there is none. */
  ghost predicate Delivers<V>(o: Ops<V>, t: Tree, p: Parsed<V>, end: nat) {
    match ValueOf(o, t)
    case Gives(v) => p == Parsed(v, end, NoError)
    case Fails(e) => p.error == e
  }

  /** Left operand, operator, right operand. */
  lemma ReadsBin(s: string, i: nat, a: seq<string>, c: char, b: seq<string>, j: nat, left: nat, level: nat)
    returns (m: nat)
    requires Reads(s, i, a + [[c]] + b, j, level) && Follows(c, left)
    ensures Reads(s, i, a, m, left) && SkipSpaces(s, m) < |s| && At(s, SkipSpaces(s, m)) == c
    ensures Reads(s, SkipSpaces(s, m) + 1, b, j, level)
  {
    hide Follows, SkipSpaces;
    assert a + [[c]] + b == a + ([[c]] + b);
    m := SpansParts(s, i, a, [[c]] + b, j);
    assert ([[c]] + b)[1..] == b;
    ReadsFirst(s, m, [[c]] + b, j, level);
  }

  /** A leading character. */
  lemma ReadsHead(s: string, i: nat, c: char, a: seq<string>, j: nat, level: nat)
    requires Reads(s, i, [[c]] + a, j, level)
    ensures
      var k := SkipSpaces(s, i);
      k < |s| && At(s, k) == c && Reads(s, k + 1, a, j, level)
  {
    hide Follows, SkipSpaces;
    assert ([[c]] + a)[1..] == a;
    ReadsFirst(s, i, [[c]] + a, j, level);
  }

  lemma ReadsMore(s: string, i: nat, ts: seq<string>, j: nat, level: nat, more: nat)
    requires Reads(s, i, ts, j, level) && level <= more
    ensures Reads(s, i, ts, j, more)
  {
    hide SkipSpaces;
  }

  /** A tree that is not of a level reads the same there and one level up. */
  lemma SameTokens(t: Tree, level: nat)
    requires Level(t) != level
    ensures Tokens(t, level) == Tokens(t, level + 1)
  {
  }

  /** What comes right after a token ends it: white space, or what follows. */
  lemma TokenEnds(s: string, j: nat, level: nat)
    requires j <= |s| && Follows(At(s, SkipSpaces(s, j)), level)
    ensures !IsNameChar(At(s, j)) && EndsLiteral(At(s, j))
  {
    NotSpace(At(s, SkipSpaces(s, j)), level);
    if !IsSpace(At(s, j)) {
      SkipStays(s, j);
    }
  }

  lemma NotSpace(c: char, level: nat)
    requires Follows(c, level)
    ensures !IsSpace(c) && c != '(' && !IsNameChar(c) && EndsLiteral(c)
  {
  }

  /** The multiplicative loop stops at what a sum stops at or continues with. */
  lemma MulStops<V>(o: Ops<V>, s: string, p: Parsed<V>)
    requires p.pos <= |s| && Follows(At(s, p.pos), 1)
    ensures MulTail(o, s, p) == p
  {
    NotSpace(At(s, p.pos), 1);
    MatchHere(s, p.pos, '*');
    MatchHere(s, p.pos, '/');
    MatchHere(s, p.pos, '%');
  }

  lemma ExprStops<V>(o: Ops<V>, s: string, p: Parsed<V>)
    requires p.pos <= |s| && Follows(At(s, p.pos), 0)
    ensures ExprTail(o, s, p) == p
  {
    NotSpace(At(s, p.pos), 0);
    MatchHere(s, p.pos, '+');
    MatchHere(s, p.pos, '-');
  }

  /** One turn of the additive loop. */
  lemma ExprTurns<V>(o: Ops<V>, s: string, p: Parsed<V>, op: BinOp)
    requires p.pos < |s| && p.error == NoError && OpLevel(op) == 0 && At(s, p.pos) == Symbol(op)
    ensures
      var r := CalcGrammar.Mul(o, s, p.pos + 1, NoError);
      ExprTail(o, s, p) ==
      ExprTail(o, s, r.(value := if op.Add? then o.add(p.value, r.value) else o.sub(p.value, r.value)))
  {
    hide CalcGrammar.Mul;
    MatchHere(s, p.pos, '+');
    MatchHere(s, p.pos, '-');
  }

  lemma MulTurns<V>(o: Ops<V>, s: string, p: Parsed<V>, op: BinOp)
    requires p.pos < |s| && p.error == NoError && OpLevel(op) == 1 && At(s, p.pos) == Symbol(op)
    ensures
      var r := Power(o, s, p.pos + 1, NoError);
      && (op.Mul? ==> MulTail(o, s, p) == MulTail(o, s, r.(value := o.mul(p.value, r.value))))
      && (op.Mod? ==> MulTail(o, s, p) == MulTail(o, s, r.(value := o.mod(p.value, r.value))))
      && (op.Div? && !o.isZero(r.value) ==> MulTail(o, s, p) == MulTail(o, s, r.(value := o.div(p.value, r.value))))
      && (op.Div? && o.isZero(r.value) ==> MulTail(o, s, p).error == SetError(r.error, DivisionByZero))
  {
    hide Power;
    MatchHere(s, p.pos, '*');
    MatchHere(s, p.pos, '/');
    MatchHere(s, p.pos, '%');
  }

  lemma TailsKeepErrors<V>(o: Ops<V>, s: string, p: Parsed<V>)
    requires p.pos <= |s| && p.error != NoError
    ensures ExprTail(o, s, p) == p && MulTail(o, s, p) == p
  {
  }

  function Rank(t: Tree, level: nat): nat {
    (if Level(t) < level then 10 else 0) + (if level <= 5 then 5 - level else 0)
  }

  lemma BinTokens(t: Tree)
    requires t.Bin?
    ensures Tokens(t, OpLevel(t.op)) == Tokens(t.l, LeftLevel(t.op)) + [[Symbol(t.op)]] + Tokens(t.r, RightLevel(t.op))
  {
  }

  lemma SignTokens(t: Tree)
    ensures t.Plus? ==> Tokens(t, 3) == [['+']] + Tokens(t.t, 3)
    ensures t.Neg? ==> Tokens(t, 3) == [['-']] + Tokens(t.t, 3)
  {
  }

  lemma ValueBin<V>(o: Ops<V>, t: Tree)
    requires t.Bin?
    ensures
      var a, b := ValueOf(o, t.l), ValueOf(o, t.r);
      ValueOf(o, t) == if a.Fails? then a else if b.Fails? then b else Apply(o, t.op, a.value, b.value)
  {
  }

  /** The sum's loop at an operator, its right operand read. */
  lemma SumStep<V>(o: Ops<V>, t: Tree, s: string, v: V, at: nat, end: nat)
    requires t.Bin? && OpLevel(t.op) == 0 && at < |s| && At(s, at) == Symbol(t.op) && end <= |s|
    requires ValueOf(o, t.l) == Gives(v) && Delivers(o, t.r, CalcGrammar.Mul(o, s, at + 1, NoError), end)
    ensures
      var p, r := ExprTail(o, s, Parsed(v, at, NoError)), ValueOf(o, t);
      && (r.Gives? ==> p == ExprTail(o, s, Parsed(r.value, end, NoError)))
      && (r.Fails? ==> p.error == r.fault)
  {
    hide ExprTail, CalcGrammar.Mul, ValueOf;
    ValueBin(o, t);
    ExprTurns(o, s, Parsed(v, at, NoError), t.op);
    var r := CalcGrammar.Mul(o, s, at + 1, NoError);
    if r.error != NoError {
      TailsKeepErrors(o, s, r.(value := o.add(v, r.value)));
      TailsKeepErrors(o, s, r.(value := o.sub(v, r.value)));
    }
  }

  /** The product's loop at an operator, its right operand read. */
  lemma ProductStep<V>(o: Ops<V>, t: Tree, s: string, v: V, at: nat, end: nat)
    requires t.Bin? && OpLevel(t.op) == 1 && at < |s| && At(s, at) == Symbol(t.op) && end <= |s|
    requires ValueOf(o, t.l) == Gives(v) && Delivers(o, t.r, Power(o, s, at + 1, NoError), end)
    ensures
      var p, r := MulTail(o, s, Parsed(v, at, NoError)), ValueOf(o, t);
      && (r.Gives? ==> p == MulTail(o, s, Parsed(r.value, end, NoError)))
      && (r.Fails? ==> p.error == r.fault)
  {
    hide MulTail, Power, ValueOf;
    ValueBin(o, t);
    MulTurns(o, s, Parsed(v, at, NoError), t.op);
    var r := Power(o, s, at + 1, NoError);
    if r.error != NoError {
      TailsKeepErrors(o, s, r.(value := o.mul(v, r.value)));
      TailsKeepErrors(o, s, r.(value := o.div(v, r.value)));
      TailsKeepErrors(o, s, r.(value := o.mod(v, r.value)));
    }
  }

  /** After the tokens of t a sum's loop goes on with t's value. */
  lemma {:induction false} ReadExpr<V>(o: Ops<V>, t: Tree, s: string, i: nat, j: nat)
    requires Expressible(t) && Reads(s, i, Tokens(t, 0), j, 1)
    ensures
      match ValueOf(o, t)
      case Gives(v) => Expr(o, s, i, NoError) == ExprTail(o, s, Parsed(v, SkipSpaces(s, j), NoError))
      case Fails(e) => Expr(o, s, i, NoError).error == e
    decreases t, Rank(t, 0)
  {
    hide Follows, Reads, ExprTail, CalcGrammar.Mul, Tokens, ValueOf, SkipSpaces;
    ReadsInside(s, i, Tokens(t, 0), j, 1);
    if t.Bin? && OpLevel(t.op) == 0 {
      BinTokens(t);
      SymbolFollows(t.op);
      var m := ReadsBin(s, i, Tokens(t.l, 0), Symbol(t.op), Tokens(t.r, 1), j, 1, 1);
      ReadsInside(s, i, Tokens(t.l, 0), m, 1);
      var at := SkipSpaces(s, m);
      ReadExpr(o, t.l, s, i, m);
      ReadTerm(o, t.r, s, at + 1, j);
      ValueBin(o, t);
      if ValueOf(o, t.l).Gives? {
        SumStep(o, t, s, ValueOf(o, t.l).value, at, SkipSpaces(s, j));
      }
    } else {
      SameTokens(t, 0);
      ReadTerm(o, t, s, i, j);
      KeepsError(o, s, CalcGrammar.Mul(o, s, i, NoError));
    }
  }

  lemma ReadsInside(s: string, i: nat, ts: seq<string>, j: nat, level: nat)
    requires Reads(s, i, ts, j, level)
    ensures i <= |s| && j <= |s|
  {
  }

  lemma KeepsError<V>(o: Ops<V>, s: string, p: Parsed<V>)
    requires p.pos <= |s|
    ensures p.error != NoError ==> ExprTail(o, s, p) == p && MulTail(o, s, p) == p
  {
  }

  lemma SymbolFollows(op: BinOp)
    ensures Follows(Symbol(op), OpLevel(op) + 1) && Symbol(op) != '\0'
  {
  }

  /** A complete operand of a sum. */
  lemma {:induction false} ReadTerm<V>(o: Ops<V>, t: Tree, s: string, i: nat, j: nat)
    requires Expressible(t) && Reads(s, i, Tokens(t, 1), j, 1)
    ensures Delivers(o, t, CalcGrammar.Mul(o, s, i, NoError), SkipSpaces(s, j))
    decreases t, Rank(t, 1), 1
  {
    hide Follows, CalcGrammar.Mul, MulTail, SkipSpaces, Tokens;
    ReadsMore(s, i, Tokens(t, 1), j, 1, 2);
    ReadProduct(o, t, s, i, j);
    if ValueOf(o, t).Gives? {
      MulStops(o, s, Parsed(ValueOf(o, t).value, SkipSpaces(s, j), NoError));
    }
  }

  /** After the tokens of t a product's loop goes on with t's value. */
  lemma {:induction false} ReadProduct<V>(o: Ops<V>, t: Tree, s: string, i: nat, j: nat)
    requires Expressible(t) && Reads(s, i, Tokens(t, 1), j, 2)
    ensures
      match ValueOf(o, t)
      case Gives(v) => CalcGrammar.Mul(o, s, i, NoError) == MulTail(o, s, Parsed(v, SkipSpaces(s, j), NoError))
      case Fails(e) => CalcGrammar.Mul(o, s, i, NoError).error == e
    decreases t, Rank(t, 1), 0
  {
    hide Follows, Reads, MulTail, Power, Tokens, ValueOf, SkipSpaces;
    ReadsInside(s, i, Tokens(t, 1), j, 2);
    if t.Bin? && OpLevel(t.op) == 1 {
      BinTokens(t);
      SymbolFollows(t.op);
      var m := ReadsBin(s, i, Tokens(t.l, 1), Symbol(t.op), Tokens(t.r, 2), j, 2, 2);
      ReadsInside(s, i, Tokens(t.l, 1), m, 2);
      var at := SkipSpaces(s, m);
      ReadProduct(o, t.l, s, i, m);
      ReadPower(o, t.r, s, at + 1, j);
      ValueBin(o, t);
      if ValueOf(o, t.l).Gives? {
        ProductStep(o, t, s, ValueOf(o, t.l).value, at, SkipSpaces(s, j));
      }
    } else {
      SameTokens(t, 1);
      ReadPower(o, t, s, i, j);
      KeepsError(o, s, Power(o, s, i, NoError));
    }
  }

  /** An operand of a product. */
  lemma {:induction false} ReadPower<V>(o: Ops<V>, t: Tree, s: string, i: nat, j: nat)
    requires Expressible(t) && Reads(s, i, Tokens(t, 2), j, 2)
    ensures Delivers(o, t, Power(o, s, i, NoError), SkipSpaces(s, j))
    decreases t, Rank(t, 2)
  {
    hide Follows, Reads, Unary, Power, Tokens, ValueOf, SkipSpaces;
    ReadsInside(s, i, Tokens(t, 2), j, 2);
    if t.Bin? && t.op.Pow? {
      BinTokens(t);
      SymbolFollows(t.op);
      var m := ReadsBin(s, i, Tokens(t.l, 3), Symbol(t.op), Tokens(t.r, 2), j, 3, 2);
      ReadsInside(s, i, Tokens(t.l, 3), m, 3);
      ReadUnary(o, t.l, s, i, m);
      ReadPower(o, t.r, s, SkipSpaces(s, m) + 1, j);
      PowerStep(o, t, s, i, m, SkipSpaces(s, j));
    } else {
      SameTokens(t, 2);
      ReadsMore(s, i, Tokens(t, 2), j, 2, 3);
      ReadUnary(o, t, s, i, j);
      NoPower(o, s, i, Tokens(t, 2), j);
    }
  }

  lemma PowerStep<V>(o: Ops<V>, t: Tree, s: string, i: nat, m: nat, end: nat)
    requires t.Bin? && t.op.Pow? && i <= |s| && m <= |s| && Delivers(o, t.l, Unary(o, s, i, NoError), m)
    requires SkipSpaces(s, m) < |s| && At(s, SkipSpaces(s, m)) == '^'
    requires Delivers(o, t.r, Power(o, s, SkipSpaces(s, m) + 1, NoError), end)
    ensures Delivers(o, t, Power(o, s, i, NoError), end)
  {
    hide Unary, ValueOf, SkipSpaces;
    ValueBin(o, t);
  }

  lemma NoPower<V>(o: Ops<V>, s: string, i: nat, ts: seq<string>, j: nat)
    requires Reads(s, i, ts, j, 2)
    ensures
      var l := Unary(o, s, i, NoError);
      && (l.pos == j ==> Power(o, s, i, NoError) == l.(pos := SkipSpaces(s, j)))
      && (l.error != NoError ==> Power(o, s, i, NoError).error == l.error)
  {
    hide Unary, SkipSpaces;
  }

  /** A signed operand. */
  lemma {:induction false} ReadUnary<V>(o: Ops<V>, t: Tree, s: string, i: nat, j: nat)
    requires Expressible(t) && Reads(s, i, Tokens(t, 3), j, 3)
    ensures Delivers(o, t, Unary(o, s, i, NoError), j)
    decreases t, Rank(t, 3)
  {
    hide Follows, Reads, Primary, SkipSpaces, IsDigit, IsNameStart, Tokens;
    ReadsInside(s, i, Tokens(t, 3), j, 3);
    FirstToken(t, 3);
    SignTokens(t);
    ReadsFirst(s, i, Tokens(t, 3), j, 3);
    var k := SkipSpaces(s, i);
    if t.Plus? {
      ReadsHead(s, i, '+', Tokens(t.t, 3), j, 3);
      ReadUnary(o, t.t, s, k + 1, j);
    } else if t.Neg? {
      ReadsHead(s, i, '-', Tokens(t.t, 3), j, 3);
      ReadUnary(o, t.t, s, k + 1, j);
    } else {
      ReadPrimary(o, t, s, i, j);
    }
  }

  /** An operand: a literal, a constant, a call or something in parentheses. */
  lemma {:induction false} ReadPrimary<V>(o: Ops<V>, t: Tree, s: string, i: nat, j: nat)
    requires Expressible(t) && Reads(s, i, Tokens(t, 3), j, 3) && Level(t) != 3
    ensures Delivers(o, t, Primary(o, s, i, NoError), j)
    decreases t, Rank(t, 4)
  {
    hide Reads, Follows;
    if t.Num? {
      ReadLiteral(o, t, s, i, j);
    } else if t.Name? {
      ReadConstant(o, t, s, i, j);
    } else if t.CallOf? {
      ReadCall(o, t, s, i, j);
    } else {
      ReadParens(o, t, s, i, j);
    }
  }

  /** A token alone. */
  lemma ReadsOne(s: string, i: nat, a: string, j: nat, level: nat)
    requires Reads(s, i, [a], j, level) && a != ""
    ensures
      var k := SkipSpaces(s, i);
      && j == k + |a| <= |s| && s[k..j] == a && At(s, k) == a[0]
      && !IsNameChar(At(s, j)) && EndsLiteral(At(s, j))
  {
    hide SkipSpaces, Follows;
    ReadsFirst(s, i, [a], j, level);
    TokenEnds(s, j, level);
  }

  lemma ReadLiteral<V>(o: Ops<V>, t: Tree, s: string, i: nat, j: nat)
    requires t.Num? && Expressible(t) && Reads(s, i, [t.lexeme], j, 3)
    ensures Delivers(o, t, Primary(o, s, i, NoError), j)
  {
    hide NumberEnd, Follows, Expr, Call, NameEnd, SkipSpaces;
    ReadsOne(s, i, t.lexeme, j, 3);
    LiteralEnds(t.lexeme, s, SkipSpaces(s, i));
  }

  /** The name scanner on a name that the syntax can express. */
  lemma ReadsName(s: string, i: nat, name: string)
    requires 0 < |name| < IDENT_MAX && i + |name| <= |s| && s[i..i + |name|] == name
    requires forall c :: c in name ==> IsNameChar(c)
    requires !IsNameChar(At(s, i + |name|))
    ensures NameEnd(s, i, IDENT_MAX - 1) == i + |name| 
  {
    forall k | i <= k < i + |name|
      ensures IsNameChar(s[k])
    {
      assert s[k] == name[k - i];
    }
    NameEnds(s, i, i + |name|, IDENT_MAX - 1);
  }

  lemma ReadConstant<V>(o: Ops<V>, t: Tree, s: string, i: nat, j: nat)
    requires t.Name? && Expressible(t) && Reads(s, i, [t.name], j, 3)
    ensures Delivers(o, t, Primary(o, s, i, NoError), j)
  {
    hide NumberEnd, Follows, Expr, Call, NameEnd, LowerAll, SkipSpaces;
    ConstantShape(t.name);
    ReadsOne(s, i, t.name, j, 3);
    ReadsName(s, SkipSpaces(s, i), t.name);
  }

  lemma {:induction false} ReadParens<V>(o: Ops<V>, t: Tree, s: string, i: nat, j: nat)
    requires Expressible(t) && Reads(s, i, Tokens(t, 3), j, 3) && (Level(t) < 3 || t.Group?)
    ensures Delivers(o, t, Primary(o, s, i, NoError), j)
    decreases t, Rank(t, 4), 0
  {
    hide Follows, Reads, Expr, ExprTail, NumberEnd, Call, NameEnd, SkipSpaces;
    var u := if t.Group? then t.t else t;
    var a := Tokens(u, 0);
    assert Tokens(t, 3) == [['(']] + (a + [[')']]);
    ReadsInside(s, i, Tokens(t, 3), j, 3);
    ReadsHead(s, i, '(', a + [[')']], j, 3);
    var k := SkipSpaces(s, i) + 1;
    assert a + [[')']] == a + [[')']] + [];
    ParenFollows();
    var m := ReadsBin(s, k, a, ')', [], j, 1, 3);
    NothingRead(s, SkipSpaces(s, m) + 1, j, 3);
    ReadsInside(s, k, a, m, 1);
    ReadExpr(o, u, s, k, m);
    SkipIdempotent(s, m);
    if ValueOf(o, u).Gives? {
      ExprStops(o, s, Parsed(ValueOf(o, u).value, SkipSpaces(s, m), NoError));
    }
  }

  lemma NothingRead(s: string, i: nat, j: nat, level: nat)
    requires Reads(s, i, [], j, level)
    ensures j == i
  {
  }

  lemma ParenFollows()
    ensures forall level: nat :: Follows(')', level) && Follows(',', level)
  {
  }

  // ----- calls

  lemma ArgsFirst(args: seq<Tree>, comma: bool)
    requires args != [] && forall a :: a in args ==> Expressible(a)
    ensures var p := ArgTokens(args, comma); p != [] && p[0] != "" && p[0][0] != ')'
  {
    FirstToken(args[0], 0);
    assert args[0] in args;
  }

  lemma {:induction false} ReadArguments<V>(o: Ops<V>, args: seq<Tree>, comma: bool, s: string, i: nat, j: nat,
                                            before: seq<V>)
    requires args != [] && |before| + |args| <= 3 && forall a :: a in args ==> Expressible(a)
    requires comma ==> |before| + |args| == 3
    requires Reads(s, i, ArgTokens(args, comma), j, 0) && At(s, SkipSpaces(s, j)) == ')'
    ensures
      var r := Arguments(o, s, i, NoError, before);
      match ValuesOf(o, args)
      case Gives(vs) => r == (before + vs, if comma then j else SkipSpaces(s, j), NoError, true)
      case Fails(e) => !r.3 && r.2 == e
    decreases args
  {
    hide Follows, Reads, Expr, ExprTail, SkipSpaces, Tokens, ValueOf, Expressible;
    var t := args[0];
    var a := Tokens(t, 0);
    assert t in args;
    ReadsInside(s, i, ArgTokens(args, comma), j, 0);
    ParenFollows();
    if |args| == 1 && comma {
      assert args[1..] == [] && ArgTokens(args, comma) == a + [[',']] + [];
      var m := ReadsBin(s, i, a, ',', [], j, 1, 0);
      NothingRead(s, SkipSpaces(s, m) + 1, j, 0);
      ReadsInside(s, i, a, m, 1);
      ReadExpr(o, t, s, i, m);
      if ValueOf(o, t).Gives? {
        ExprEnds(o, s, Parsed(ValueOf(o, t).value, SkipSpaces(s, m), NoError));
        SkipIdempotent(s, m);
        assert ValuesOf(o, args).value == [ValueOf(o, t).value];
      }
    } else if |args| == 1 {
      assert args[1..] == [] && ArgTokens(args, comma) == a + [] == a;
      ReadsMore(s, i, a, j, 0, 1);
      ReadExpr(o, t, s, i, j);
      if ValueOf(o, t).Gives? {
        ExprEnds(o, s, Parsed(ValueOf(o, t).value, SkipSpaces(s, j), NoError));
        SkipIdempotent(s, j);
        assert ValuesOf(o, args).value == [ValueOf(o, t).value];
      }
    } else {
      var b := ArgTokens(args[1..], comma);
      assert ArgTokens(args, comma) == a + [[',']] + b;
      var m := ReadsBin(s, i, a, ',', b, j, 1, 0);
      ReadsInside(s, i, a, m, 1);
      var at := SkipSpaces(s, m);
      ReadExpr(o, t, s, i, m);
      if ValueOf(o, t).Gives? {
        var v := ValueOf(o, t).value;
        ExprEnds(o, s, Parsed(v, at, NoError));
        SkipIdempotent(s, m);
        ReadArguments(o, args[1..], comma, s, at + 1, j, before + [v]);
        if ValuesOf(o, args[1..]).Gives? {
          assert before + [v] + ValuesOf(o, args[1..]).value == before + ([v] + ValuesOf(o, args[1..]).value);
        }
      }
    }
  }

  lemma ExprEnds<V>(o: Ops<V>, s: string, p: Parsed<V>)
    requires p.pos <= |s| && (At(s, p.pos) == ')' || At(s, p.pos) == ',')
    ensures ExprTail(o, s, p) == p
  {
    ExprStops(o, s, p);
  }

  /** From after the opening parenthesis of a call. */
  lemma {:induction false} ReadInsideCall<V>(o: Ops<V>, t: Tree, s: string, i: nat, j: nat)
    requires t.CallOf? && Expressible(t) && Reads(s, i, ArgTokens(t.args, t.comma) + [[')']], j, 3)
    ensures Delivers(o, t, Call(o, s, i, NoError, LowerAll(t.name)), j)
    decreases t, 0, 0
  {
    hide Follows, Reads, Arguments, SkipSpaces, LowerAll;
    var a := ArgTokens(t.args, t.comma);
    assert a + [[')']] == a + [[')']] + [];
    ParenFollows();
    ReadsInside(s, i, a + [[')']], j, 3);
    var m := ReadsBin(s, i, a, ')', [], j, 0, 3);
    ReadsInside(s, i, a, m, 0);
    NothingRead(s, SkipSpaces(s, m) + 1, j, 3);
    SkipIdempotent(s, m);
    if t.args == [] {
      NothingRead(s, i, m, 0);
    } else {
      ArgsFirst(t.args, t.comma);
      ReadsFirst(s, i, a, m, 0);
      ReadsSkipped(s, i, a, m, 0);
      ReadArguments(o, t.args, t.comma, s, SkipSpaces(s, i), m, []);
      if ValuesOf(o, t.args).Gives? {
        assert [] + ValuesOf(o, t.args).value == ValuesOf(o, t.args).value;
      }
    }
  }

  lemma {:induction false} ReadCall<V>(o: Ops<V>, t: Tree, s: string, i: nat, j: nat)
    requires t.CallOf? && Expressible(t) && Reads(s, i, Tokens(t, 3), j, 3)
    ensures Delivers(o, t, Primary(o, s, i, NoError), j)
    decreases t, 0, 1
  {
    hide NumberEnd, Follows, Expr, Call, NameEnd, LowerAll, Reads, SkipSpaces;
    var f, b := t.name, ArgTokens(t.args, t.comma) + [[')']];
    assert Tokens(t, 3) == [f] + [['(']] + b;
    ReadsInside(s, i, Tokens(t, 3), j, 3);
    var m := NameThenParen(s, i, f, b, j);
    ReadsName(s, SkipSpaces(s, i), f);
    ReadInsideCall(o, t, s, SkipSpaces(s, m) + 1, j);
  }

  lemma NameThenParen(s: string, i: nat, f: string, b: seq<string>, j: nat) returns (m: nat)
    requires f != "" && Reads(s, i, [f] + [['(']] + b, j, 3)
    ensures
      var k := SkipSpaces(s, i);
      && m == k + |f| <= |s| && s[k..m] == f && At(s, k) == f[0] && !IsNameChar(At(s, m))
      && SkipSpaces(s, m) < |s| && At(s, SkipSpaces(s, m)) == '(' && Reads(s, SkipSpaces(s, m) + 1, b, j, 3)
  {
    hide Follows, SkipSpaces;
    var all := [f] + [['(']] + b;
    assert all[1..] == [['(']] + b;
    ReadsFirst(s, i, all, j, 3);
    m := SkipSpaces(s, i) + |f|;
    ReadsHead(s, m, '(', b, j, 3);
    if !IsSpace(At(s, m)) {
      SkipStays(s, m);
    }
  }

  // ----- the whole text

  /** White space ahead of anything else is skipped. */
  lemma {:induction false} SkipGap(s: string, i: nat, w: string)
    requires Blank(w) && i + |w| <= |s| && s[i..i + |w|] == w && !IsSpace(At(s, i + |w|))
    ensures SkipSpaces(s, i) == i + |w|
    decreases |w|
  {
    if w == "" {
      SkipStays(s, i);
    } else {
      assert s[i] == w[0] && w[0] in w;
      assert s[i + 1..i + |w|] == w[1..] && forall c :: c in w[1..] ==> c in w;
      SkipGap(s, i + 1, w[1..]);
    }
  }

  /** Tokens begin with something visible. */
  predicate Visible(ts: seq<string>) {
    forall a :: a in ts ==> a != "" && !IsSpace(a[0])
  }

  lemma {:induction false} TokensVisible(t: Tree, level: nat)
    requires Expressible(t)
    ensures Visible(Tokens(t, level))
    decreases t, if Level(t) < level then 1 else 0
  {
    hide IsSpace, Visible, LowerAll, NumberEnd;
    VisibleMarks();
    if Level(t) < level {
      TokensVisible(t, 0);
      VisibleJoin(["("], Tokens(t, 0));
      VisibleJoin(["("] + Tokens(t, 0), [")"]);
    } else {
      match t
      case Neg(u) =>
        TokensVisible(u, 3);
        VisibleJoin(["-"], Tokens(u, 3));
      case Plus(u) =>
        TokensVisible(u, 3);
        VisibleJoin(["+"], Tokens(u, 3));
      case Bin(op, l, r) =>
        TokensVisible(l, LeftLevel(op));
        TokensVisible(r, RightLevel(op));
        VisibleJoin(Tokens(l, LeftLevel(op)), [[Symbol(op)]]);
        VisibleJoin(Tokens(l, LeftLevel(op)) + [[Symbol(op)]], Tokens(r, RightLevel(op)));
      case Group(u) =>
        TokensVisible(u, 0);
        VisibleJoin(["("], Tokens(u, 0));
        VisibleJoin(["("] + Tokens(u, 0), [")"]);
      case CallOf(f, args, comma) =>
        ArgsVisible(args, comma);
        VisibleName(f);
        assert [f, "("] == [f] + ["("];
        VisibleJoin([f], ["("]);
        VisibleJoin([f, "("], ArgTokens(args, comma));
        VisibleJoin([f, "("] + ArgTokens(args, comma), [")"]);
      case Name(n) =>
        ConstantShape(n);
        VisibleName(n);
      case Num(s) => VisibleName(s);
    }
  }

  lemma NothingVisible()
    ensures Visible([])
  {
  }

  lemma VisibleJoin(a: seq<string>, b: seq<string>)
    requires Visible(a) && Visible(b)
    ensures Visible(a + b)
  {
    hide IsSpace;
  }

  lemma VisibleMarks()
    ensures Visible(["("]) && Visible([")"]) && Visible(["-"]) && Visible(["+"]) && Visible([","])
    ensures forall op :: Visible([[Symbol(op)]])
  {
  }

  lemma VisibleName(a: string)
    requires a != "" && (IsNameStart(a[0]) || IsDigit(a[0]) || a[0] == '.')
    ensures Visible([a])
  {
  }

  lemma {:induction false} ArgsVisible(args: seq<Tree>, comma: bool)
    requires forall a :: a in args ==> Expressible(a)
    ensures Visible(ArgTokens(args, comma))
    decreases args
  {
    hide Visible, Tokens;
    VisibleMarks();
    NothingVisible();
    if args != [] {
      TokensVisible(args[0], 0);
      VisibleJoin(Tokens(args[0], 0), []);
      VisibleJoin(Tokens(args[0], 0), [","]);
      ArgsVisible(args[1..], comma);
      VisibleJoin(Tokens(args[0], 0) + [","], ArgTokens(args[1..], comma));
    }
  }

  lemma Pieces(s: string, i: nat, g: string, a: string, rest: string)
    requires i <= |s| && s[i..] == g + a + rest && a != ""
    ensures
      var k := i + |g|;
      && k + |a| <= |s| && s[i..k] == g && s[k..k + |a|] == a && s[k + |a|..] == rest && At(s, k) == a[0]
  {
    var k := i + |g|;
    assert s[i..k] == s[i..][..|g|] && s[k..k + |a|] == s[i..][|g|..|g| + |a|] && s[k + |a|..] == s[i..][|g + a|..];
    assert s[k] == s[i..][|g|];
  }

  /** A text of tokens and gaps is read token by token, up to what follows the last one. */
  lemma {:induction false} SpreadSpans(s: string, i: nat, ts: seq<string>, gaps: seq<string>, rest: string)
    requires |gaps| == |ts| && Visible(ts) && (forall g :: g in gaps ==> Blank(g))
    requires i <= |s| && s[i..] == Spread(ts, gaps) + rest
    ensures |rest| <= |s| && Spans(s, i, ts, |s| - |rest|)
    decreases |ts|
  {
    hide Blank, SkipSpaces, IsSpace;
    if ts != [] {
      var g, a, more := gaps[0], ts[0], Spread(ts[1..], gaps[1..]) + rest;
      assert g in gaps && a in ts && (forall x :: x in gaps[1..] ==> x in gaps) && forall x :: x in ts[1..] ==> x in ts;
      assert s[i..] == g + a + more;
      Pieces(s, i, g, a, more);
      var k := i + |g|;
      SkipGap(s, i, g);
      SpreadSpans(s, k + |a|, ts[1..], gaps[1..], rest);
    }
  }

  /** The tree's text is read up to what follows it. */
  lemma ReadSpread<V>(o: Ops<V>, t: Tree, gaps: seq<string>, last: string, junk: string)
    requires Expressible(t)
    requires |gaps| == |Tokens(t, 0)| && (forall g :: g in gaps ==> Blank(g)) && Blank(last)
    requires junk == "" || junk[0] == ')' || junk[0] == ','
    ensures
      var s := Spread(Tokens(t, 0), gaps) + last + junk;
      && SkipSpaces(s, |s| - |junk|) == |s| - |junk|
      && match ValueOf(o, t)
         case Gives(v) => Expr(o, s, 0, NoError) == Parsed(v, |s| - |junk|, NoError)
         case Fails(e) => Expr(o, s, 0, NoError).error == e
  {
    hide Expr, ExprTail, Tokens, Follows, SkipSpaces, Blank, IsSpace, Eval;
    var ts := Tokens(t, 0);
    var s, j := Spread(ts, gaps) + last + junk, |Spread(ts, gaps)|;
    var end := |s| - |junk|;
    TokensVisible(t, 0);
    Endings(Spread(ts, gaps), last, junk);
    SpreadSpans(s, 0, ts, gaps, last + junk);
    EndOfText(s, j, last);
    ReadExpr(o, t, s, 0, j);
    if ValueOf(o, t).Gives? {
      ExprStops(o, s, Parsed(ValueOf(o, t).value, end, NoError));
    }
  }

  lemma Endings(text: string, last: string, junk: string)
    ensures
      var s, j := text + last + junk, |text|;
      && s[0..] == s == text + (last + junk) && s[j..j + |last|] == last
      && (junk != "" ==> s[j + |last|] == junk[0])
  {
  }

  lemma EndOfText(s: string, j: nat, last: string)
    requires Blank(last) && j + |last| <= |s| && s[j..j + |last|] == last
    requires var c := At(s, j + |last|); j + |last| == |s| || c == ')' || c == ','
    ensures
      var end := j + |last|;
      SkipSpaces(s, j) == end && SkipSpaces(s, end) == end && Follows(At(s, end), 0) && Follows(At(s, end), 1)
  {
    SkipGap(s, j, last);
    SkipStays(s, j + |last|);
  }

  /**
   Evaluating the text of a tree, with any white space before its tokens and at its end,
   delivers the tree's strict value, or fails with the first fault of the strict evaluation.
   */
  lemma PrintThenEval<V>(o: Ops<V>, t: Tree, gaps: seq<string>, last: string)
    requires Expressible(t)
    requires |gaps| == |Tokens(t, 0)| && (forall g :: g in gaps ==> Blank(g)) && Blank(last)
    ensures
      var s := Spread(Tokens(t, 0), gaps) + last;
      match ValueOf(o, t)
      case Gives(v) => Eval(o, s) == if o.isBad(v) then Bad else Value(v)
      case Fails(e) => Eval(o, s) == Failed(e)
  {
    hide Expr, Tokens, SkipSpaces, Blank, ValueOf;
    assert Spread(Tokens(t, 0), gaps) + last + "" == Spread(Tokens(t, 0), gaps) + last;
    ReadSpread(o, t, gaps, last, "");
  }

  /** A closing parenthesis or a comma too many, and whatever comes after it, is not ignored. */
  lemma JunkIsRejected<V>(o: Ops<V>, t: Tree, gaps: seq<string>, last: string, junk: string)
    requires Expressible(t) && junk != "" && (junk[0] == ')' || junk[0] == ',')
    requires |gaps| == |Tokens(t, 0)| && (forall g :: g in gaps ==> Blank(g)) && Blank(last)
    ensures
      var s := Spread(Tokens(t, 0), gaps) + last + junk;
      match ValueOf(o, t)
      case Gives(_) => Eval(o, s) == Failed(TrailingCharacters)
      case Fails(e) => Eval(o, s) == Failed(e)
  {
    hide Expr, Tokens, SkipSpaces, Blank, ValueOf;
    ReadSpread(o, t, gaps, last, junk);
  }
}
