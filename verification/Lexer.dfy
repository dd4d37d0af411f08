/** The lexer: where tokens start and end, what lies between them, and the line and column they are reported at. */
module Lexers {
  import opened Wrappers
  import N = Numbers

  datatype Kind =
    | Keyword(upper: string) | Identifier(text: string) | IntegerLit(n: nat) | FloatLit(digits: string)
    | StringLit(value: string) | Symbol(text: string) | EndOfInput

  datatype Location = Location(line: nat, column: nat, offset: nat, length: nat)

  datatype Lexeme = Lexeme(kind: Kind, loc: Location)

  datatype LexError = UNEXPECTED_CHARACTER | INVALID_NUMBER | UNTERMINATED_STRING

  const KEYWORDS: set<string> := {
    "CREATE", "DROP", "ALTER", "TABLE", "INDEX", "VIEW", "SELECT", "FROM", "WHERE", "INSERT", "INTO", "UPDATE",
    "DELETE",
    "VALUES", "SET", "JOIN", "INNER", "LEFT", "RIGHT", "OUTER", "CROSS", "ON", "USING", "GROUP", "BY", "ORDER", "ASC",
    "DESC", "HAVING", "LIMIT", "OFFSET", "DISTINCT", "COUNT", "SUM", "AVG", "MIN", "MAX", "EXISTS", "IN", "BETWEEN",
    "LIKE", "IS", "AS", "IF", "CASE", "WHEN", "THEN", "ELSE", "END", "COALESCE", "NULLIF", "INTEGER", "INT", "BIGINT",
    "SMALLINT", "FLOAT", "DOUBLE", "VARCHAR", "CHAR", "TEXT", "BOOLEAN", "BOOL", "PRIMARY", "KEY", "FOREIGN",
    "REFERENCES", "UNIQUE", "NOT", "NULL", "DEFAULT", "AND", "OR", "TRUE", "FALSE"
  }

  const INT64_LIMIT: nat := 0x8000_0000_0000_0000

  // ----- characters

  predicate IsSpace(c: char) { c == ' ' || ('\t' <= c <= '\r') }

  predicate IsDigit(c: char) { '0' <= c <= '9' }

  predicate IsAlpha(c: char) { 'a' <= c <= 'z' || 'A' <= c <= 'Z' }

  predicate IsNameChar(c: char) { IsAlpha(c) || IsDigit(c) || c == '_' }

  function ToUpper(c: char): char { if 'a' <= c <= 'z' then 'A' + (c - 'a') else c }

  function Upper(s: string): string { seq(|s|, i requires 0 <= i < |s| => ToUpper(s[i])) }

  /** The character at p, or NUL past the end. */
  function At(s: string, p: nat): char { if p < |s| then s[p] else '\0' }

  // ----- positions

  /** One more than the newlines before p. */
  function LineAt(s: string, p: nat): nat
    requires p <= |s|
  {
    if p == 0 then 1 else LineAt(s, p - 1) + if s[p - 1] == '\n' then 1 else 0
  }

  /** One more than the characters between the last newline before p and p. */
  function ColumnAt(s: string, p: nat): nat
    requires p <= |s|
  {
    if p == 0 || s[p - 1] == '\n' then 1 else ColumnAt(s, p - 1) + 1
  }

  // ----- what is skipped

  function LineEnd(s: string, p: nat): (e: nat)
    requires p <= |s|
    ensures p <= e <= |s| && (e < |s| ==> s[e] == '\n') && forall i :: p <= i < e ==> s[i] != '\n'
    decreases |s| - p
  {
    if p == |s| || s[p] == '\n' then p else LineEnd(s, p + 1)
  }

  /** Past the first closing mark of a block comment from p on, or the end of input. */
  function BlockEnd(s: string, p: nat): (e: nat)
    requires p <= |s|
    ensures p <= e <= |s|
    decreases |s| - p
  {
    if p == |s| then p else if s[p] == '*' && At(s, p + 1) == '/' then p + 2 else BlockEnd(s, p + 1)
  }

  predicate DashComment(s: string, p: nat) { At(s, p) == '-' && At(s, p + 1) == '-' }

  predicate BlockComment(s: string, p: nat) { At(s, p) == '/' && At(s, p + 1) == '*' }

  /** The end of the white space character or comment at p; p itself when there is none. */
  function PieceEnd(s: string, p: nat): (e: nat)
    requires p <= |s|
    ensures p <= e <= |s|
  {
    if p == |s| then p
    else if IsSpace(s[p]) then p + 1
    else if DashComment(s, p) then LineEnd(s, p + 2)
    else if s[p] == '#' then LineEnd(s, p + 1)
    else if BlockComment(s, p) then BlockEnd(s, p + 2)
    else p
  }

  function SkipFrom(s: string, p: nat): (e: nat)
    requires p <= |s|
    ensures p <= e <= |s| && PieceEnd(s, e) == e
    decreases |s| - p
  {
    var e := PieceEnd(s, p);
    if e == p then p else SkipFrom(s, e)
  }

  /** Only white space and comments lie between a and b. */
  ghost predicate Blank(s: string, a: nat, b: nat)
    requires a <= b <= |s|
    decreases b - a
  {
    a == b || (a < PieceEnd(s, a) <= b && Blank(s, PieceEnd(s, a), b))
  }

  lemma {:induction false} SkippedIsBlank(s: string, p: nat)
    requires p <= |s|
    ensures Blank(s, p, SkipFrom(s, p))
    decreases |s| - p
  {
    if PieceEnd(s, p) > p { SkippedIsBlank(s, PieceEnd(s, p)); }
  }

  // ----- words, numbers and strings

  function NameEnd(s: string, p: nat): (e: nat)
    requires p <= |s|
    ensures p <= e <= |s| && forall i :: p <= i < e ==> IsNameChar(s[i])
    decreases |s| - p
  {
    if p < |s| && IsNameChar(s[p]) then NameEnd(s, p + 1) else p
  }

  function DigitsEnd(s: string, p: nat): (e: nat)
    requires p <= |s|
    ensures p <= e <= |s| && forall i :: p <= i < e ==> IsDigit(s[i])
    decreases |s| - p
  {
    if p < |s| && IsDigit(s[p]) then DigitsEnd(s, p + 1) else p
  }

  function Decimal(digits: string): nat
    requires forall i :: 0 <= i < |digits| ==> IsDigit(digits[i])
  {
    if digits == [] then 0 else 10 * Decimal(digits[..|digits| - 1]) + DigitValue(digits[|digits| - 1])
  }

  function DigitValue(c: char): nat
    requires IsDigit(c)
  {
    (c - '0') as nat
  }

  /** A token or an error, and where the lexer stands after it. */
  datatype Lexed = Lexed(result: Result<Kind, LexError>, end: nat)

  /** Past the fraction, if a point and a digit follow. */
  function FractionEnd(s: string, p: nat): (e: nat)
    requires p <= |s|
    ensures p <= e <= |s|
  {
    if At(s, p) == '.' && IsDigit(At(s, p + 1)) then DigitsEnd(s, p + 1) else p
  }

  function SignEnd(s: string, p: nat): nat { if At(s, p) == '+' || At(s, p) == '-' then p + 1 else p }

  /** Ten to the power e, of either sign. */
  function Power10(e: int): real
    decreases if e < 0 then -e else e
  {
    if e == 0 then 1.0 else if e > 0 then 10.0 * Power10(e - 1) else Power10(e + 1) / 10.0
  }

  function FractionDigits(text: string, i: nat): (d: string)
    ensures forall k :: 0 <= k < |d| ==> IsDigit(d[k])
  {
    if At(text, i) == '.' then text[i + 1..DigitsEnd(text, i + 1)] else ""
  }

  /** The signed exponent whose letter is at f; 0 without one. */
  function Exponent(text: string, f: nat): int {
    var x := SignEnd(text, f + 1);
    if x > |text| then 0
    else
      var e: int := Decimal(text[x..DigitsEnd(text, x)]);
      if At(text, f + 1) == '-' then -e else e
  }

  /** The number that the text of a float literal stands for. */
  function FloatValue(text: string): real {
    var i := DigitsEnd(text, 0);
    var fraction := FractionDigits(text, i);
    Decimal(text[..i] + fraction) as real * Power10(Exponent(text, FractionEnd(text, i)) - |fraction|)
  }

  /** std::stod has a result: zero, or between the smallest normal double and what rounds past the largest. */
  predicate FloatFits(text: string) {
    var v := FloatValue(text);
    v == 0.0 || 1.0 / N.Pow2(1022) as real <= v < (N.Pow2(1024) - N.Pow2(970)) as real
  }

  function FloatToken(text: string): Result<Kind, LexError> {
    if FloatFits(text) then Ok(FloatLit(text)) else Err(INVALID_NUMBER)
  }

  function LexNumber(s: string, p: nat): (r: Lexed)
    requires p < |s| && IsDigit(s[p])
    ensures p < r.end <= |s|
  {
    var i := DigitsEnd(s, p);
    var f := FractionEnd(s, i);
    if At(s, f) == 'e' || At(s, f) == 'E' then
      var x := SignEnd(s, f + 1);
      if !IsDigit(At(s, x)) then Lexed(Err(INVALID_NUMBER), x)
      else Lexed(FloatToken(s[p..DigitsEnd(s, x)]), DigitsEnd(s, x))
    else if f > i then Lexed(FloatToken(s[p..f]), f)
    else if Decimal(s[p..i]) < INT64_LIMIT then Lexed(Ok(IntegerLit(Decimal(s[p..i]))), i)
    else Lexed(Err(INVALID_NUMBER), i)
  }

  /** The string from p on, after the opening quote; a doubled quote stands for one. */
  function LexString(s: string, p: nat, value: string): (r: Lexed)
    requires p <= |s|
    ensures p <= r.end <= |s|
    decreases |s| - p
  {
    if p == |s| then Lexed(Err(UNTERMINATED_STRING), p)
    else if s[p] != '\'' then LexString(s, p + 1, value + [s[p]])
    else if At(s, p + 1) == '\'' then LexString(s, p + 2, value + ['\''])
    else Lexed(Ok(StringLit(value)), p + 1)
  }

  function LexWord(s: string, p: nat): (r: Lexed)
    requires p <= |s|
    ensures p <= r.end <= |s|
  {
    var e := NameEnd(s, p);
    var text := s[p..e];
    Lexed(Ok(if Upper(text) in KEYWORDS then Keyword(Upper(text)) else Identifier(text)), e)
  }

  /** Operators and delimiters; the two-character ones are tried first. */
  function LexSymbol(s: string, p: nat): (r: Lexed)
    requires p < |s|
    ensures p < r.end <= |s|
  {
    var c, d := s[p], At(s, p + 1);
    if (c == '<' && (d == '=' || d == '>')) || (c == '>' && d == '=') || (c == '!' && d == '=')
        || (c == '|' && d == '|')
    then Lexed(Ok(Symbol(if c == '!' then "<>" else [c, d])), p + 2)
    else if c == '!' || c == '|' then Lexed(Err(UNEXPECTED_CHARACTER), p + 1)
    else if c in "<>()[],;.+-*/%=" then Lexed(Ok(Symbol([c])), p + 1)
    else Lexed(Err(UNEXPECTED_CHARACTER), p + 1)
  }

  /** The token that starts at p. */
  function LexAt(s: string, p: nat): (r: Lexed)
    requires p < |s|
    ensures p < r.end <= |s|
  {
    var c := s[p];
    if IsAlpha(c) || c == '_' then LexWord(s, p)
    else if IsDigit(c) then LexNumber(s, p)
    else if c == '\'' then LexString(s, p + 1, "")
    else LexSymbol(s, p)
  }

  // ----- strings

  /** The string as it is written between quotes. */
  function Doubled(v: string): string {
    if v == [] then [] else (if v[0] == '\'' then "''" else [v[0]]) + Doubled(v[1..])
  }

  /** Scanning undoes the doubling of quotes, for every string, unless another quote follows at once. */
  lemma {:induction false} DoublingUndone(s: string, p: nat, value: string, v: string)
    requires p <= |s| && Doubled(v) + "'" <= s[p..] && At(s, p + |Doubled(v)| + 1) != '\''
    ensures LexString(s, p, value) == Lexed(Ok(StringLit(value + v)), p + |Doubled(v)| + 1)
    decreases |v|
  {
    var d := Doubled(v) + "'";
    assert forall i :: 0 <= i < |d| ==> s[p..][i] == d[i] == s[p + i];
    if v == [] {
      assert value + v == value;
    } else {
      var k := if v[0] == '\'' then 2 else 1;
      assert Doubled(v)[k..] == Doubled(v[1..]);
      assert s[p + k..] == s[p..][k..];
      DoublingUndone(s, p + k, value + [v[0]], v[1..]);
      assert (value + [v[0]]) + v[1..] == value + v;
    }
  }

  /** A string value uses at most one character of input for each of its characters, and the closing quote. */
  lemma {:induction false} ScannedLength(s: string, p: nat, value: string)
    requires p <= |s| && LexString(s, p, value).result.Ok?
    ensures var r := LexString(s, p, value);
            r.result.value.StringLit? && |r.result.value.value| - |value| < r.end - p
    decreases |s| - p
  {
    if s[p] != '\'' {
      ScannedLength(s, p + 1, value + [s[p]]);
    } else if At(s, p + 1) == '\'' {
      ScannedLength(s, p + 2, value + ['\'']);
    }
  }

  lemma {:induction false} PlainScanned(s: string, p: nat, value: string, v: string)
    requires p <= |s| && v <= s[p..] && '\'' !in v
    ensures LexString(s, p, value) == LexString(s, p + |v|, value + v)
    decreases |v|
  {
    if v == [] {
      assert value + v == value;
    } else {
      assert s[p] == s[p..][0] == v[0];
      assert v[1..] <= s[p + 1..] by { assert s[p + 1..] == s[p..][1..]; }
      PlainScanned(s, p + 1, value + [v[0]], v[1..]);
      assert (value + [v[0]]) + v[1..] == value + v;
    }
  }

  /** The printer puts a string between quotes as it is: what it prints is scanned back exactly when it holds no
      quote, whatever follows, as long as that is not another quote. */
  lemma PrintedStringIff(v: string, rest: string)
    requires At(rest, 0) != '\''
    ensures var s := "'" + v + "'" + rest;
            LexString(s, 1, "") == Lexed(Ok(StringLit(v)), |v| + 2) <==> '\'' !in v
  {
    var s := "'" + v + "'" + rest;
    var k := FirstQuote(v, 0);
    assert v[..k] <= s[1..] by { assert s[1..] == v[..k] + (v[k..] + "'" + rest); }
    PlainScanned(s, 1, "", v[..k]);
    assert "" + v[..k] == v[..k];
    if k == |v| {
      assert v[..k] == v;
    } else {
      assert s[1 + k] == v[k];
      if At(s, k + 2) == '\'' && LexString(s, k + 3, v[..k] + ['\'']).result.Ok? {
        ScannedLength(s, k + 3, v[..k] + ['\'']);
      }
    }
  }

  /** The first quote from i on, or the length. */
  function FirstQuote(v: string, i: nat): (k: nat)
    requires i <= |v|
    ensures i <= k <= |v| && (k < |v| ==> v[k] == '\'') && '\'' !in v[i..k]
    decreases |v| - i
  {
    if i == |v| || v[i] == '\'' then i else FirstQuote(v, i + 1)
  }

  // ----- the token stream

  /** The next token from p on: what is skipped, then the token or the end of input. */
  function LexNext(s: string, p: nat): (r: Lexed)
    requires p <= |s|
    ensures p <= r.end <= |s| && (r.result != Ok(EndOfInput) ==> SkipFrom(s, p) < r.end)
  {
    var q := SkipFrom(s, p);
    if q == |s| then Lexed(Ok(EndOfInput), q) else LexAt(s, q)
  }

  /** The token with its place: line and column of its first character, and its span. */
  function Placed(s: string, p: nat): Result<Lexeme, LexError>
    requires p <= |s|
  {
    var q, r := SkipFrom(s, p), LexNext(s, p);
    match r.result
    case Err(e) => Err(e)
    case Ok(kind) => Ok(Lexeme(kind, Location(LineAt(s, q), ColumnAt(s, q), q, r.end - q)))
  }

  /** All tokens from p on, up to the end of input or the first error. */
  function Tokens(s: string, p: nat): seq<Lexeme>
    requires p <= |s|
    decreases |s| - p
  {
    var t := Placed(s, p);
    if t.Err? || t.value.kind.EndOfInput? then [] else [t.value] + Tokens(s, LexNext(s, p).end)
  }

  /** A span that starts after `before`, is not empty and inside the input, with only white space and comments in
      between, reported at the line and column where it starts. */
  ghost predicate SpanOk(s: string, before: nat, loc: Location) {
    && before <= loc.offset && loc.length > 0 && loc.offset + loc.length <= |s| && Blank(s, before, loc.offset)
    && loc.line == LineAt(s, loc.offset) && loc.column == ColumnAt(s, loc.offset)
  }

  lemma FirstSpan(s: string, p: nat)
    requires p <= |s| && Tokens(s, p) != []
    ensures var ts := Tokens(s, p);
            SpanOk(s, p, ts[0].loc) && ts[0].loc.offset + ts[0].loc.length == LexNext(s, p).end
            && ts[1..] == Tokens(s, LexNext(s, p).end)
  {
    hide LexAt, Blank, LineAt, ColumnAt;
    SkippedIsBlank(s, p);
  }

  /** Where the token before the i-th one ends. */
  function EndBefore(s: string, p: nat, i: nat): nat
    requires p <= |s| && i < |Tokens(s, p)|
  {
    if i == 0 then p else Tokens(s, p)[i - 1].loc.offset + Tokens(s, p)[i - 1].loc.length
  }

  /** Every token of the stream has such a span, starting where the one before it ended. */
  lemma {:induction false} SpansInOrder(s: string, p: nat, i: nat)
    requires p <= |s| && i < |Tokens(s, p)|
    ensures SpanOk(s, EndBefore(s, p, i), Tokens(s, p)[i].loc)
    decreases i
  {
    hide SpanOk, Tokens, LexNext;
    FirstSpan(s, p);
    if i > 0 {
      var e := LexNext(s, p).end;
      assert Tokens(s, p)[i] == Tokens(s, e)[i - 1];
      assert i > 1 ==> Tokens(s, p)[i - 1] == Tokens(s, e)[i - 2];
      SpansInOrder(s, e, i - 1);
    }
  }

  // ----- the object

  class Lexer {
    const input: string
    var position: nat
    var line: nat
    var column: nat
    var peekBuffer: Option<Lexeme>
    /** Where the search for the next token starts. */
    ghost var cursor: nat

    ghost predicate Located()
      reads this
    {
      position <= |input| && line == LineAt(input, position) && column == ColumnAt(input, position)
    }

    ghost predicate Valid()
      reads this
    {
      && Located() && cursor <= |input|
      && (peekBuffer.None? ==> cursor == position)
      && (peekBuffer.Some? ==> Placed(input, cursor) == Ok(peekBuffer.value) && position == LexNext(input, cursor).end)
    }

    constructor (text: string)
      ensures Valid() && input == text && cursor == 0
    {
      input, position, line, column, peekBuffer, cursor := text, 0, 1, 1, None, 0;
    }

    function PeekChar(offset: nat): char
      reads this
    {
      At(input, position + offset)
    }

    method Advance() returns (c: char)
      requires Located()
      modifies this`position, this`line, this`column
      ensures Located() && c == At(input, old(position))
      ensures position == if old(position) == |input| then old(position) else old(position) + 1
    {
      if position == |input| { return '\0'; }
      c := input[position];
      position := position + 1;
      if c == '\n' { line, column := line + 1, 1; } else { column := column + 1; }
    }

    // ----- white space and comments

    method SkipLine()
      requires Located()
      modifies this`position, this`line, this`column
      ensures Located() && position == LineEnd(input, old(position))
    {
      while position < |input| && PeekChar(0) != '\n'
        invariant Located() && LineEnd(input, old(position)) == LineEnd(input, position)
        decreases |input| - position
      {
        var c := Advance();
      }
    }

    method SkipBlock()
      requires Located()
      modifies this`position, this`line, this`column
      ensures Located() && position == BlockEnd(input, old(position))
    {
      while position < |input|
        invariant Located() && BlockEnd(input, old(position)) == BlockEnd(input, position)
        decreases |input| - position
      {
        if PeekChar(0) == '*' && PeekChar(1) == '/' {
          var c := Advance();
          c := Advance();
          return;
        }
        var c := Advance();
      }
    }

    method SkipWhitespaceAndComments()
      requires Located()
      modifies this`position, this`line, this`column
      ensures Located() && position == SkipFrom(input, old(position))
    {
      while position < |input|
        invariant Located() && SkipFrom(input, old(position)) == SkipFrom(input, position)
        decreases |input| - position
      {
        if IsSpace(PeekChar(0)) {
          var c := Advance();
        } else if PeekChar(0) == '-' && PeekChar(1) == '-' {
          var c := Advance();
          c := Advance();
          SkipLine();
        } else if PeekChar(0) == '#' {
          var c := Advance();
          SkipLine();
        } else if PeekChar(0) == '/' && PeekChar(1) == '*' {
          var c := Advance();
          c := Advance();
          SkipBlock();
        } else {
          break;
        }
      }
    }

    // ----- scanning

    method ScanName() returns (r: Result<Kind, LexError>)
      requires Located()
      modifies this`position, this`line, this`column
      ensures Located() && Lexed(r, position) == LexWord(input, old(position))
    {
      var start := position;
      while position < |input| && IsNameChar(PeekChar(0))
        invariant Located() && start <= position && NameEnd(input, start) == NameEnd(input, position)
        decreases |input| - position
      {
        var c := Advance();
      }
      var text := input[start..position];
      return Ok(if Upper(text) in KEYWORDS then Keyword(Upper(text)) else Identifier(text));
    }

    method SkipDigits()
      requires Located()
      modifies this`position, this`line, this`column
      ensures Located() && position == DigitsEnd(input, old(position))
    {
      while position < |input| && IsDigit(PeekChar(0))
        invariant Located() && DigitsEnd(input, old(position)) == DigitsEnd(input, position)
        decreases |input| - position
      {
        var c := Advance();
      }
    }

    method ScanNumber() returns (r: Result<Kind, LexError>)
      requires Located() && position < |input| && IsDigit(input[position])
      modifies this`position, this`line, this`column
      ensures Located() && Lexed(r, position) == LexNumber(input, old(position))
    {
      hide DigitsEnd, Decimal, FloatToken;
      var start := position;
      SkipDigits();
      var isFloat := ScanFraction();
      if PeekChar(0) == 'e' || PeekChar(0) == 'E' {
        var ok := ScanExponent();
        return if ok then FloatToken(input[start..position]) else Err(INVALID_NUMBER);
      }
      if isFloat { return FloatToken(input[start..position]); }
      var value := Decimal(input[start..position]);
      return if value < INT64_LIMIT then Ok(IntegerLit(value)) else Err(INVALID_NUMBER);
    }

    method ScanFraction() returns (isFloat: bool)
      requires Located()
      modifies this`position, this`line, this`column
      ensures Located() && position == FractionEnd(input, old(position)) && (isFloat <==> position > old(position))
    {
      isFloat := PeekChar(0) == '.' && IsDigit(PeekChar(1));
      if isFloat {
        var c := Advance();
        SkipDigits();
      }
    }

    /** The exponent, from its letter on; it needs a digit. */
    method ScanExponent() returns (ok: bool)
      requires Located() && position < |input|
      modifies this`position, this`line, this`column
      ensures Located() && ok == IsDigit(At(input, SignEnd(input, old(position) + 1)))
      ensures var x := SignEnd(input, old(position) + 1);
              x <= |input| && position == if ok then DigitsEnd(input, x) else x
    {
      var c := Advance();
      if PeekChar(0) == '+' || PeekChar(0) == '-' { c := Advance(); }
      ok := IsDigit(PeekChar(0));
      if ok { SkipDigits(); }
    }

    method ScanString() returns (r: Result<Kind, LexError>)
      requires Located() && position < |input|
      modifies this`position, this`line, this`column
      ensures Located() && Lexed(r, position) == LexString(input, old(position) + 1, "")
    {
      var c := Advance();
      var value := "";
      while position < |input|
        invariant Located() && LexString(input, old(position) + 1, "") == LexString(input, position, value)
        decreases |input| - position
      {
        c := PeekChar(0);
        if c == '\'' {
          if PeekChar(1) == '\'' {
            value := value + ['\''];
            c := Advance();
            c := Advance();
            continue;
          }
          c := Advance();
          return Ok(StringLit(value));
        }
        value := value + [c];
        c := Advance();
      }
      return Err(UNTERMINATED_STRING);
    }

    method ScanSymbol() returns (r: Result<Kind, LexError>)
      requires Located() && position < |input|
      modifies this`position, this`line, this`column
      ensures Located() && Lexed(r, position) == LexSymbol(input, old(position))
    {
      var c := Advance();
      var d := PeekChar(0);
      if (c == '<' && (d == '=' || d == '>')) || (c == '>' && d == '=') || (c == '!' && d == '=')
          || (c == '|' && d == '|') {
        var e := Advance();
        return Ok(Symbol(if c == '!' then "<>" else [c, d]));
      }
      if c == '!' || c == '|' { return Err(UNEXPECTED_CHARACTER); }
      return if c in "<>()[],;.+-*/%=" then Ok(Symbol([c])) else Err(UNEXPECTED_CHARACTER);
    }

    method Scan() returns (r: Result<Kind, LexError>)
      requires Located() && position < |input|
      modifies this`position, this`line, this`column
      ensures Located() && Lexed(r, position) == LexAt(input, old(position))
    {
      var c := PeekChar(0);
      if IsAlpha(c) || c == '_' {
        r := ScanName();
      } else if IsDigit(c) {
        r := ScanNumber();
      } else if c == '\'' {
        r := ScanString();
      } else {
        r := ScanSymbol();
      }
    }

    /** Every call but the one at the end of input consumes something. */
    method NextToken() returns (t: Result<Lexeme, LexError>)
      requires Valid()
      modifies this
      ensures Valid() && t == Placed(input, old(cursor)) && peekBuffer.None?
              && cursor == LexNext(input, old(cursor)).end
      ensures SkipFrom(input, old(cursor)) < |input| ==> cursor > old(cursor)
    {
      if peekBuffer.Some? {
        t := Ok(peekBuffer.value);
        peekBuffer, cursor := None, position;
        return;
      }
      SkipWhitespaceAndComments();
      var start, startLine, startColumn := position, line, column;
      if position == |input| {
        cursor := position;
        return Ok(Lexeme(EndOfInput, Location(line, column, position, 0)));
      }
      var kind := Scan();
      cursor := position;
      return if kind.Err? then Err(kind.error)
             else Ok(Lexeme(kind.value, Location(startLine, startColumn, start, position - start)));
    }

    /** The token the next call of NextToken gives, without consuming it; an error is consumed. */
    method PeekToken() returns (t: Result<Lexeme, LexError>)
      requires Valid()
      modifies this
      ensures Valid() && t == Placed(input, old(cursor))
      ensures t.Ok? ==> cursor == old(cursor)
    {
      if peekBuffer.None? {
        ghost var from := cursor;
        t := NextToken();
        if t.Err? { return; }
        peekBuffer, cursor := Some(t.value), from;
      }
      return Ok(peekBuffer.value);
    }

    /** Reading until the end of input or the first error takes finitely many calls and gives the tokens in order. */
    method TokenizeAll() returns (ts: seq<Lexeme>)
      requires Valid()
      modifies this
      ensures Valid() && ts == Tokens(input, old(cursor))
    {
      ts := [];
      while true
        invariant Valid() && Tokens(input, old(cursor)) == ts + Tokens(input, cursor)
        decreases |input| - cursor
      {
        ghost var from := cursor;
        var t := NextToken();
        if t.Err? || t.value.kind.EndOfInput? { return; }
        assert Tokens(input, from) == [t.value] + Tokens(input, cursor);
        ts := ts + [t.value];
      }
    }
  }
}
