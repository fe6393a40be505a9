/**
 The calculator's grammar as functions on a text, a position and the first error so far.
 Numbers are abstract: every operation on them is a parameter.
 */
module CalcGrammar {
  import opened Options

  /** The operations of the number type. */
  datatype Ops<!V> = Ops(
    number: string -> V, // the value of a literal
    pi: V, tau: V, e: V, x: V, nan: V,
    neg: V -> V,
    add: (V, V) -> V, sub: (V, V) -> V, mul: (V, V) -> V, div: (V, V) -> V, mod: (V, V) -> V, pow: (V, V) -> V,
    isZero: V -> bool,
    isBad: V -> bool,
    call: (string, seq<V>) -> Option<V> // None for an unknown function or argument count
  )

  datatype Error =
    | NoError | MissingParen | BadNumber | MissingCallParen | UnknownFunction | UnknownName | ExpectedOperand
    | DivisionByZero | TrailingCharacters

  /** Only the first error is kept. */
  function SetError(first: Error, next: Error): Error {
    if first == NoError then next else first
  }

  /** A parsed value, the position after it and the first error. */
  datatype Parsed<V> = Parsed(value: V, pos: nat, error: Error)

  const IDENT_MAX: nat := 32

  // ----- characters

  /** The character at an index, the terminating null at the end. */
  function At(s: string, i: nat): char {
    if i < |s| then s[i] else '\0'
  }

  predicate IsSpace(c: char) { c == ' ' || c == '\t' || c == '\r' || c == '\n' }

  predicate IsDigit(c: char) { '0' <= c <= '9' }

  predicate IsNameStart(c: char) { 'a' <= c <= 'z' || 'A' <= c <= 'Z' || c == '_' }

  predicate IsNameChar(c: char) { IsNameStart(c) || IsDigit(c) }

  function Lower(c: char): char {
    if 'A' <= c <= 'Z' then 'a' + (c - 'A') else c
  }

  // ----- tokens

  function SkipSpaces(s: string, i: nat): (j: nat)
    requires i <= |s|
    ensures i <= j <= |s|
    decreases |s| - i
  {
    if i < |s| && IsSpace(s[i]) then SkipSpaces(s, i + 1) else i
  }

  lemma {:induction false} SkipIdempotent(s: string, i: nat)
    requires i <= |s|
    ensures SkipSpaces(s, SkipSpaces(s, i)) == SkipSpaces(s, i)
    decreases |s| - i
  {
    if i < |s| && IsSpace(s[i]) {
      SkipIdempotent(s, i + 1);
    }
  }

  /** The position after c if c is the next token. */
  function Match(s: string, i: nat, c: char): (r: Option<nat>)
    requires i <= |s| && c != '\0'
    ensures r.Some? ==> i < r.value <= |s|
  {
    var j := SkipSpaces(s, i);
    if At(s, j) == c then Some(j + 1) else None
  }

  function DigitRun(s: string, i: nat): (j: nat)
    requires i <= |s|
    ensures i <= j <= |s| && !IsDigit(At(s, j)) && forall k :: i <= k < j ==> IsDigit(s[k])
    decreases |s| - i
  {
    if IsDigit(At(s, i)) then DigitRun(s, i + 1) else i
  }

  /** Where strtod stops on a literal that starts with a digit or a point. */
  function NumberEnd(s: string, i: nat): (j: nat)
    requires i <= |s|
    ensures i <= j <= |s|
  {
    var a := DigitRun(s, i);
    var point := At(s, a) == '.';
    var b := if point then DigitRun(s, a + 1) else a;
    if a == i && (!point || b == a + 1) then i
    else if At(s, b) == 'e' || At(s, b) == 'E' then
      var d := if At(s, b + 1) == '+' || At(s, b + 1) == '-' then b + 2 else b + 1;
      if IsDigit(At(s, d)) then DigitRun(s, d) else b
    else b
  }

  /** The end of a name, cut at 31 characters. */
  function NameEnd(s: string, i: nat, room: nat): (j: nat)
    requires i <= |s|
    ensures i <= j <= |s| && j <= i + room
    decreases room
  {
    if room > 0 && IsNameChar(At(s, i)) then NameEnd(s, i + 1, room - 1) else i
  }

  function LowerAll(s: string): (t: string)
    ensures |t| == |s|
  {
    seq(|s|, i requires 0 <= i < |s| => Lower(s[i]))
  }

  // ----- the grammar, one function a level

  /** Parsing moves forward inside the text, and keeps the first error. */
  ghost predicate Sound<V>(s: string, i: nat, err: Error, r: Parsed<V>) {
    i <= r.pos <= |s| && (err != NoError ==> r.error == err)
  }

  function Primary<V>(o: Ops<V>, s: string, i: nat, err: Error): (r: Parsed<V>)
    requires i <= |s|
    ensures Sound(s, i, err, r)
    decreases |s| - i, 0
  {
    var j := SkipSpaces(s, i);
    var c := At(s, j);
    if c == '(' then
      var r := Expr(o, s, j + 1, err);
      match Match(s, r.pos, ')')
      case Some(k) => Parsed(r.value, k, r.error)
      case None => Parsed(r.value, SkipSpaces(s, r.pos), SetError(r.error, MissingParen))
    else if IsDigit(c) || c == '.' then
      var k := NumberEnd(s, j);
      if k == j then Parsed(o.nan, j, SetError(err, BadNumber)) else Parsed(o.number(s[j..k]), k, err)
    else if IsNameStart(c) then
      var k := NameEnd(s, j, IDENT_MAX - 1);
      var name := LowerAll(s[j..k]);
      if name == "pi" then Parsed(o.pi, k, err)
      else if name == "tau" then Parsed(o.tau, k, err)
      else if name == "e" then Parsed(o.e, k, err)
      else if name == "x" then Parsed(o.x, k, err)
      else
        match Match(s, k, '(')
        case None => Parsed(o.nan, SkipSpaces(s, k), SetError(err, UnknownName))
        case Some(m) => Call(o, s, m, err, name)
    else Parsed(o.nan, j, SetError(err, ExpectedOperand))
  }

  /** A call, from after its opening parenthesis. */
  function Call<V>(o: Ops<V>, s: string, i: nat, err: Error, name: string): (r: Parsed<V>)
    requires i <= |s|
    ensures Sound(s, i, err, r)
    decreases |s| - i, 8
  {
    var j := SkipSpaces(s, i);
    var (args, k, e, ok) := if At(s, j) == ')' then ([], j, err, true) else Arguments(o, s, j, err, []);
    if !ok then Parsed(o.nan, k, e)
    else
      match Match(s, k, ')')
      case None => Parsed(o.nan, SkipSpaces(s, k), SetError(e, MissingCallParen))
      case Some(m) =>
        match o.call(name, args)
        case Some(v) => Parsed(v, m, e)
        case None => Parsed(o.nan, m, SetError(e, UnknownFunction))
  }

  /** At most three arguments; the last component is false when one of them failed. */
  function Arguments<V>(o: Ops<V>, s: string, i: nat, err: Error, args: seq<V>): (r: (seq<V>, nat, Error, bool))
    requires i <= |s| && |args| <= 3
    ensures i <= r.1 <= |s| && (err != NoError ==> r.2 == err) && (!r.3 ==> r.2 != NoError)
    decreases |s| - i, 7
  {
    if |args| == 3 then (args, i, err, true)
    else
      var r := Expr(o, s, i, err);
      var all := args + [r.value];
      if r.error != NoError then (all, r.pos, r.error, false)
      else
        match Match(s, r.pos, ',')
        case None => (all, SkipSpaces(s, r.pos), r.error, true)
        case Some(k) => Arguments(o, s, k, r.error, all)
  }

  function Unary<V>(o: Ops<V>, s: string, i: nat, err: Error): (r: Parsed<V>)
    requires i <= |s|
    ensures Sound(s, i, err, r)
    decreases |s| - i, 1
  {
    match Match(s, i, '+')
    case Some(j) => Unary(o, s, j, err)
    case None =>
      match Match(s, i, '-')
      case Some(j) => var r := Unary(o, s, j, err); r.(value := o.neg(r.value))
      case None => Primary(o, s, i, err)
  }

  function Power<V>(o: Ops<V>, s: string, i: nat, err: Error): (r: Parsed<V>)
    requires i <= |s|
    ensures Sound(s, i, err, r)
    decreases |s| - i, 2
  {
    var l := Unary(o, s, i, err);
    match Match(s, l.pos, '^')
    case Some(j) => var r := Power(o, s, j, l.error); r.(value := o.pow(l.value, r.value))
    case None => l.(pos := SkipSpaces(s, l.pos))
  }

  function Mul<V>(o: Ops<V>, s: string, i: nat, err: Error): (r: Parsed<V>)
    requires i <= |s|
    ensures Sound(s, i, err, r)
    decreases |s| - i, 4
  {
    MulTail(o, s, Power(o, s, i, err))
  }

  /** The loop of the multiplicative level, from a value on its left. */
  function MulTail<V>(o: Ops<V>, s: string, l: Parsed<V>): (r: Parsed<V>)
    requires l.pos <= |s|
    ensures Sound(s, l.pos, l.error, r)
    decreases |s| - l.pos, 3
  {
    if l.error != NoError then l
    else
      match Match(s, l.pos, '*')
      case Some(j) => var r := Power(o, s, j, l.error); MulTail(o, s, r.(value := o.mul(l.value, r.value)))
      case None =>
        match Match(s, l.pos, '/')
        case Some(j) =>
          var r := Power(o, s, j, l.error);
          if o.isZero(r.value) then Parsed(o.nan, r.pos, SetError(r.error, DivisionByZero))
          else MulTail(o, s, r.(value := o.div(l.value, r.value)))
        case None =>
          match Match(s, l.pos, '%')
          case Some(j) => var r := Power(o, s, j, l.error); MulTail(o, s, r.(value := o.mod(l.value, r.value)))
          case None => l.(pos := SkipSpaces(s, l.pos))
  }

  function Expr<V>(o: Ops<V>, s: string, i: nat, err: Error): (r: Parsed<V>)
    requires i <= |s|
    ensures Sound(s, i, err, r)
    decreases |s| - i, 6
  {
    ExprTail(o, s, Mul(o, s, i, err))
  }

  function ExprTail<V>(o: Ops<V>, s: string, l: Parsed<V>): (r: Parsed<V>)
    requires l.pos <= |s|
    ensures Sound(s, l.pos, l.error, r)
    decreases |s| - l.pos, 5
  {
    if l.error != NoError then l
    else
      match Match(s, l.pos, '+')
      case Some(j) => var r := Mul(o, s, j, l.error); ExprTail(o, s, r.(value := o.add(l.value, r.value)))
      case None =>
        match Match(s, l.pos, '-')
        case Some(j) => var r := Mul(o, s, j, l.error); ExprTail(o, s, r.(value := o.sub(l.value, r.value)))
        case None => l.(pos := SkipSpaces(s, l.pos))
  }

  /** calc_eval: the value, or the error that the user sees. */
  function Eval<V>(o: Ops<V>, s: string): Result<V> {
    var r := Expr(o, s, 0, NoError);
    var j := SkipSpaces(s, r.pos);
    var err := if r.error == NoError && j < |s| then TrailingCharacters else r.error;
    if err != NoError then Failed(err) else if o.isBad(r.value) then Bad else Value(r.value)
  }

  datatype Result<+V> = Value(v: V) | Failed(error: Error) | Bad
}
