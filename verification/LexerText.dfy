/** Which text is which token: the lexer's tokens and comments described by their characters alone. */
module LexerText {
  import opened Wrappers
  import opened Lexers

  // ----- what the text of a token looks like

  predicate NameText(text: string) {
    text != "" && (IsAlpha(text[0]) || text[0] == '_') && forall i :: 0 <= i < |text| ==> IsNameChar(text[i])
  }

  predicate AllDigits(text: string) { text != "" && forall i :: 0 <= i < |text| ==> IsDigit(text[i]) }

  /** Nothing, or a point and digits. */
  predicate Fraction(text: string) { text == "" || (text[0] == '.' && AllDigits(text[1..])) }

  predicate IsSign(c: char) { c == '+' || c == '-' }

  predicate IsE(c: char) { c == 'e' || c == 'E' }

  /** Nothing, or the letter, an optional sign and digits. */
  predicate ExponentText(text: string) {
    text == "" || (IsE(text[0]) && AllDigits(if |text| > 1 && IsSign(text[1]) then text[2..] else text[1..]))
  }

  /** The letters of the text, in upper case. */
  predicate InUpperCase(text: string, upper: string) {
    |text| == |upper| && forall i :: 0 <= i < |text| ==>
      (if 'a' <= text[i] <= 'z' then upper[i] as int == text[i] as int - 32 else upper[i] == text[i])
  }

  /** The number whose decimal digits these are. */
  function PlaceValue(digits: string): int {
    if digits == "" then 0 else (digits[0] as int - 48) * Tens(|digits| - 1) + PlaceValue(digits[1..])
  }

  function Tens(n: nat): nat { if n == 0 then 1 else 10 * Tens(n - 1) }

  predicate SymbolName(name: string) {
    || (|name| == 1 && name[0] in {'<', '>', '(', ')', '[', ']', ',', ';', '.', '+', '-', '*', '/', '%', '='})
    || name == "<=" || name == ">=" || name == "<>" || name == "||"
  }

  /** An integer part, a fraction and an exponent, not both of these empty. */
  predicate FloatPieces(text: string, whole: string, fraction: string, exponent: string) {
    && text == whole + fraction + exponent && fraction + exponent != ""
    && AllDigits(whole) && Fraction(fraction) && ExponentText(exponent)
  }

  /** The characters from p to e are the token, and the character after them does not belong to it. */
  ghost predicate TokenAt(kind: Kind, s: string, p: nat, e: nat)
    requires p <= e <= |s|
  {
    var text, c := s[p..e], At(s, e);
    match kind
    case Keyword(upper) => NameText(text) && !IsNameChar(c) && InUpperCase(text, upper) && upper in KEYWORDS
    case Identifier(name) =>
      NameText(text) && !IsNameChar(c) && name == text && forall u :: InUpperCase(text, u) ==> u !in KEYWORDS
    case IntegerLit(n) =>
      AllDigits(text) && !IsDigit(c) && !IsE(c) && !(c == '.' && IsDigit(At(s, e + 1)))
      && n == PlaceValue(text) < 0x8000_0000_0000_0000
    case FloatLit(digits) =>
      digits == text && FloatFits(text) && !IsDigit(c)
      && exists i, f, x :: FloatPieces(text, i, f, x) && (x == "" ==> !IsE(c))
    case StringLit(value) => text == "'" + Doubled(value) + "'" && c != '\''
    case Symbol(name) =>
      SymbolName(name) && (text == name || (text == "!=" && name == "<>"))
      && (name == "<" ==> c != '=' && c != '>') && (name == ">" ==> c != '=')
    case EndOfInput => false
  }

  // ----- words

  lemma {:induction false} NameEndIff(s: string, p: nat, e: nat)
    requires p <= e <= |s|
    ensures NameEnd(s, p) == e <==> (forall i :: p <= i < e ==> IsNameChar(s[i])) && !IsNameChar(At(s, e))
    decreases e - p
  {
    if p < e && IsNameChar(s[p]) { NameEndIff(s, p + 1, e); }
  }

  lemma UpperIs(text: string, upper: string)
    ensures Upper(text) == upper <==> InUpperCase(text, upper)
  {
    forall i | 0 <= i < |text|
      ensures Upper(text)[i] as int == if 'a' <= text[i] <= 'z' then text[i] as int - 32 else text[i] as int
    {
    }
    if InUpperCase(text, upper) {
      assert forall i :: 0 <= i < |text| ==> Upper(text)[i] == upper[i];
    }
  }

  lemma WordIff(s: string, p: nat, e: nat, kind: Kind)
    requires p < e <= |s| && (IsAlpha(s[p]) || s[p] == '_') && (kind.Keyword? || kind.Identifier?)
    ensures LexWord(s, p) == Lexed(Ok(kind), e) <==> TokenAt(kind, s, p, e)
  {
    hide *;
    WordIs(s, p, e, kind);
    NameEndIff(s, p, e);
    NameTextIs(s, p, e);
    if kind.Keyword? {
      UpperIs(s[p..e], kind.upper);
      KeywordIs(s, p, e, kind);
    } else {
      UpperIs(s[p..e], Upper(s[p..e]));
      forall u ensures Upper(s[p..e]) == u <==> InUpperCase(s[p..e], u) { UpperIs(s[p..e], u); }
      IdentifierIs(s, p, e, kind);
    }
  }

  lemma WordIs(s: string, p: nat, e: nat, kind: Kind)
    requires p <= e <= |s| && (kind.Keyword? || kind.Identifier?)
    ensures LexWord(s, p) == Lexed(Ok(kind), e)
            <==> NameEnd(s, p) == e
                 && if kind.Keyword? then Upper(s[p..e]) == kind.upper && kind.upper in KEYWORDS
                    else s[p..e] == kind.text && Upper(s[p..e]) !in KEYWORDS
  {
    hide NameEnd, Upper;
  }

  lemma NameTextIs(s: string, p: nat, e: nat)
    requires p < e <= |s| && (IsAlpha(s[p]) || s[p] == '_')
    ensures NameText(s[p..e]) <==> forall i :: p <= i < e ==> IsNameChar(s[i])
  {
    hide IsAlpha, IsNameChar;
    var text := s[p..e];
    assert forall i :: 0 <= i < |text| ==> text[i] == s[p + i];
    assert forall i :: p <= i < e ==> s[i] == text[i - p];
  }

  lemma KeywordIs(s: string, p: nat, e: nat, kind: Kind)
    requires p <= e <= |s| && kind.Keyword?
    ensures TokenAt(kind, s, p, e) <==> NameText(s[p..e]) && !IsNameChar(At(s, e))
                                        && InUpperCase(s[p..e], kind.upper) && kind.upper in KEYWORDS
  {
    hide NameText, IsNameChar, InUpperCase;
  }

  lemma IdentifierIs(s: string, p: nat, e: nat, kind: Kind)
    requires p <= e <= |s| && kind.Identifier?
    ensures TokenAt(kind, s, p, e) <==> NameText(s[p..e]) && !IsNameChar(At(s, e)) && kind.text == s[p..e]
                                        && forall u :: InUpperCase(s[p..e], u) ==> u !in KEYWORDS
  {
    hide NameText, IsNameChar, InUpperCase;
  }

  // ----- numbers

  lemma {:induction false} DigitsEndIff(s: string, p: nat, e: nat)
    requires p <= e <= |s|
    ensures DigitsEnd(s, p) == e <==> (forall i :: p <= i < e ==> IsDigit(s[i])) && !IsDigit(At(s, e))
    decreases e - p
  {
    if p < e && IsDigit(s[p]) { DigitsEndIff(s, p + 1, e); }
  }

  lemma {:induction false} PlaceValueLast(digits: string, c: char)
    ensures PlaceValue(digits + [c]) == 10 * PlaceValue(digits) + (c as int - 48)
    decreases |digits|
  {
    var all := digits + [c];
    if digits == "" {
      assert all[1..] == "" && Tens(0) == 1;
    } else {
      PlaceValueLast(digits[1..], c);
      assert all[1..] == digits[1..] + [c] && Tens(|digits|) == 10 * Tens(|digits| - 1);
      Scaled(digits[0] as int - 48, Tens(|digits| - 1));
    }
  }

  lemma Scaled(d: int, t: int)
    ensures d * (10 * t) == 10 * (d * t)
  {
  }

  lemma {:induction false} DecimalIs(digits: string)
    requires forall i :: 0 <= i < |digits| ==> IsDigit(digits[i])
    ensures Decimal(digits) == PlaceValue(digits)
    decreases |digits|
  {
    if digits != "" {
      var front, last := digits[..|digits| - 1], digits[|digits| - 1];
      DecimalIs(front);
      PlaceValueLast(front, last);
      assert front + [last] == digits;
      assert DigitValue(last) == last as int - 48;
    }
  }

  lemma DigitsTextIs(s: string, p: nat, e: nat)
    requires p <= e <= |s|
    ensures AllDigits(s[p..e]) <==> p < e && forall i :: p <= i < e ==> IsDigit(s[i])
  {
    hide IsDigit;
    var text := s[p..e];
    assert forall i :: 0 <= i < |text| ==> text[i] == s[p + i];
    assert forall i :: p <= i < e ==> s[i] == text[i - p];
  }

  /** The digits from p to a, the fraction up to b and the exponent up to e, as far as each goes. */
  predicate Parts(s: string, p: nat, a: nat, b: nat, e: nat)
    requires p <= a <= b <= e <= |s|
  {
    && AllDigits(s[p..a]) && Fraction(s[a..b]) && ExponentText(s[b..e]) && !IsDigit(At(s, e))
    && (b == e ==> !IsE(At(s, e))) && (a == e ==> !(At(s, e) == '.' && IsDigit(At(s, e + 1))))
  }

  /** A fraction from a to b, as far as it goes, ends where the lexer's does. */
  lemma FractionIs(s: string, a: nat, b: nat)
    requires a <= b <= |s| && Fraction(s[a..b]) && !IsDigit(At(s, b))
    requires a == b ==> !(At(s, a) == '.' && IsDigit(At(s, a + 1)))
    ensures FractionEnd(s, a) == b
  {
    hide DigitsEnd, IsDigit, AllDigits;
    if a < b {
      assert s[a..b][1..] == s[a + 1..b] && s[a..b][0] == s[a];
      DigitsTextIs(s, a + 1, b);
      DigitsEndIff(s, a + 1, b);
    }
  }

  lemma ExponentIs(s: string, b: nat, e: nat)
    requires b < e <= |s| && ExponentText(s[b..e]) && !IsDigit(At(s, e))
    ensures IsE(s[b]) && b + 1 < e && SignEnd(s, b + 1) < e && IsDigit(s[SignEnd(s, b + 1)])
            && DigitsEnd(s, SignEnd(s, b + 1)) == e
  {
    hide DigitsEnd, IsDigit, AllDigits;
    var text := s[b..e];
    assert text[0] == s[b] && (|text| > 1 ==> text[1] == s[b + 1]);
    var x := if |text| > 1 && IsSign(text[1]) then b + 2 else b + 1;
    assert s[x..e] == text[x - b..];
    DigitsTextIs(s, x, e);
    DigitsEndIff(s, x, e);
    SignIs(s, b + 1);
  }

  lemma SignIs(s: string, p: nat)
    ensures SignEnd(s, p) == if p < |s| && IsSign(s[p]) then p + 1 else p
  {
  }

  lemma PartsAre(s: string, p: nat, a: nat, b: nat, e: nat)
    requires p <= a <= b <= e <= |s| && Parts(s, p, a, b, e)
    ensures DigitsEnd(s, p) == a && FractionEnd(s, a) == b && p < a
    ensures if b < e then IsE(s[b]) && IsDigit(At(s, SignEnd(s, b + 1))) && DigitsEnd(s, SignEnd(s, b + 1)) == e
            else !IsE(At(s, b))
  {
    hide DigitsEnd, AllDigits, FractionEnd, SignEnd;
    if b < e { ExponentIs(s, b, e); }
    assert !IsDigit(At(s, b));
    if a < b { assert s[a..b][0] == s[a]; }
    FractionIs(s, a, b);
    DigitsTextIs(s, p, a);
    DigitsEndIff(s, p, a);
  }

  function NumberToken(text: string, isFloat: bool): Result<Kind, LexError> {
    if isFloat then if FloatFits(text) then Ok(FloatLit(text)) else Err(INVALID_NUMBER)
    else if 0 <= PlaceValue(text) < 0x8000_0000_0000_0000 then Ok(IntegerLit(PlaceValue(text)))
    else Err(INVALID_NUMBER)
  }

  /** Digits, and a fraction and an exponent if there are such, are read as one number token, however they go on. */
  lemma NumberRead(s: string, p: nat, a: nat, b: nat, e: nat)
    requires p <= a <= b <= e <= |s| && Parts(s, p, a, b, e)
    ensures p < |s| && IsDigit(s[p])
    ensures LexNumber(s, p).end == e
    ensures LexNumber(s, p).result == NumberToken(s[p..e], a < e)
  {
    hide DigitsEnd, FractionEnd, FloatFits, Decimal, PlaceValue, Fraction, ExponentText;
    PartsAre(s, p, a, b, e);
    DigitsTextIs(s, p, a);
    if a == e { DecimalIs(s[p..e]); }
  }

  /** So an integer part, a point and digits, with neither a digit nor an exponent after them, are one float token
      whose text is exactly these characters. */
  lemma PointedNumber(before: string, whole: string, fraction: string, rest: string)
    requires AllDigits(whole) && AllDigits(fraction) && !IsDigit(At(rest, 0)) && !IsE(At(rest, 0))
    ensures var text := whole + "." + fraction;
            LexAt(before + text + rest, |before|)
            == Lexed(if FloatFits(text) then Ok(FloatLit(text)) else Err(INVALID_NUMBER), |before| + |text|)
  {
    hide LexNumber, FloatFits, AllDigits;
    var text := whole + "." + fraction;
    var s, p := before + text + rest, |before|;
    var a, e := p + |whole|, p + |text|;
    assert s[p..a] == whole && s[a..e] == "." + fraction && s[a..e][1..] == fraction && s[p..e] == text;
    assert At(s, e) == At(rest, 0) && s[e..e] == "";
    HasDigits(whole);
    assert Parts(s, p, a, e, e);
    NumberRead(s, p, a, e, e);
    assert s[p] == whole[0];
  }

  lemma HasDigits(text: string)
    requires AllDigits(text)
    ensures text != "" && IsDigit(text[0]) && !IsAlpha(text[0]) && text[0] != '_'
  {
  }

  lemma FractionOf(s: string, a: nat)
    requires a <= |s| && !IsDigit(At(s, a))
    ensures var b := FractionEnd(s, a);
            Fraction(s[a..b]) && !IsDigit(At(s, b)) && (a == b ==> !(At(s, a) == '.' && IsDigit(At(s, a + 1))))
  {
    hide DigitsEnd, AllDigits;
    var b := FractionEnd(s, a);
    if a < b {
      DigitsEndIff(s, a + 1, b);
      DigitsTextIs(s, a + 1, b);
      assert s[a..b][1..] == s[a + 1..b] && s[a..b][0] == s[a];
    }
  }

  lemma ExponentOf(s: string, b: nat)
    requires b < |s| && IsE(s[b]) && IsDigit(At(s, SignEnd(s, b + 1)))
    ensures var e := DigitsEnd(s, SignEnd(s, b + 1));
            b + 1 < e <= |s| && ExponentText(s[b..e]) && !IsDigit(At(s, e))
  {
    hide DigitsEnd, AllDigits;
    SignIs(s, b + 1);
    var x := SignEnd(s, b + 1);
    var e := DigitsEnd(s, x);
    DigitsEndIff(s, x, e);
    DigitsTextIs(s, x, e);
    var text := s[b..e];
    assert text[0] == s[b] && text[1] == s[b + 1] && s[x..e] == text[x - b..];
  }

  /** What is read as a number has these parts. */
  lemma NumberParts(s: string, p: nat) returns (a: nat, b: nat)
    requires p < |s| && IsDigit(s[p]) && LexNumber(s, p).result.Ok?
    ensures p <= a <= b <= LexNumber(s, p).end && Parts(s, p, a, b, LexNumber(s, p).end)
  {
    hide DigitsEnd, FractionEnd, SignEnd, FloatToken, Decimal, Fraction, ExponentText, AllDigits;
    a := DigitsEnd(s, p);
    b := FractionEnd(s, a);
    DigitsEndIff(s, p, a);
    DigitsTextIs(s, p, a);
    assert a > p;
    FractionOf(s, a);
    NoExponent();
    if IsE(At(s, b)) { ExponentOf(s, b); } else { assert s[b..b] == ""; }
  }

  lemma NoExponent()
    ensures ExponentText("")
  {
  }

  lemma NumberIff(s: string, p: nat, e: nat, kind: Kind)
    requires p < e <= |s| && IsDigit(s[p]) && (kind.IntegerLit? || kind.FloatLit?)
    ensures LexNumber(s, p) == Lexed(Ok(kind), e) <==> TokenAt(kind, s, p, e)
  {
    hide LexNumber, TokenAt, Parts, NumberToken;
    if LexNumber(s, p) == Lexed(Ok(kind), e) {
      var a, b := NumberParts(s, p);
      NumberRead(s, p, a, b, e);
      PartsToken(s, p, a, b, e, kind);
    }
    if TokenAt(kind, s, p, e) {
      var a, b := TokenParts(s, p, e, kind);
      NumberRead(s, p, a, b, e);
    }
  }

  lemma PartsToken(s: string, p: nat, a: nat, b: nat, e: nat, kind: Kind)
    requires p <= a <= b <= e <= |s| && Parts(s, p, a, b, e)
    requires NumberToken(s[p..e], a < e) == Ok(kind)
    ensures TokenAt(kind, s, p, e)
  {
    hide AllDigits, Fraction, ExponentText, FloatFits, PlaceValue;
    assert s[p..e] == s[p..a] + s[a..b] + s[b..e];
    if a < e {
      assert s[a..b] + s[b..e] == s[a..e] != "";
      assert FloatPieces(s[p..e], s[p..a], s[a..b], s[b..e]);
    } else {
      assert s[p..a] == s[p..e];
    }
  }

  lemma TokenParts(s: string, p: nat, e: nat, kind: Kind) returns (a: nat, b: nat)
    requires p < e <= |s| && (kind.IntegerLit? || kind.FloatLit?) && TokenAt(kind, s, p, e)
    ensures p <= a <= b <= e && Parts(s, p, a, b, e) && NumberToken(s[p..e], a < e) == Ok(kind)
  {
    hide AllDigits, Fraction, ExponentText, FloatFits, PlaceValue, TokenAt;
    a, b := e, e;
    if kind.IntegerLit? {
      IntegerParts(s, p, e, kind);
    } else {
      var i, f, x := FloatParts(s, p, e, kind);
      a, b := p + |i|, p + |i| + |f|;
      Cut(s, p, e, i, f, x);
    }
  }

  lemma IntegerParts(s: string, p: nat, e: nat, kind: Kind)
    requires p < e <= |s| && kind.IntegerLit? && TokenAt(kind, s, p, e)
    ensures Parts(s, p, e, e, e) && NumberToken(s[p..e], false) == Ok(kind)
  {
    hide AllDigits, Fraction, ExponentText, PlaceValue;
    NothingFollows();
    assert s[e..e] == "";
  }

  lemma FloatParts(s: string, p: nat, e: nat, kind: Kind) returns (i: string, f: string, x: string)
    requires p < e <= |s| && kind.FloatLit? && TokenAt(kind, s, p, e)
    ensures FloatPieces(s[p..e], i, f, x) && !IsDigit(At(s, e)) && (x == "" ==> !IsE(At(s, e)))
    ensures NumberToken(s[p..e], true) == Ok(kind)
  {
    hide FloatPieces, FloatFits;
    i, f, x :| FloatPieces(s[p..e], i, f, x) && (x == "" ==> !IsE(At(s, e)));
  }

  lemma NothingFollows()
    ensures Fraction("") && ExponentText("")
  {
  }

  lemma Cut(s: string, p: nat, e: nat, i: string, f: string, x: string)
    requires p <= e <= |s| && s[p..e] == i + f + x
    ensures var a, b := p + |i|, p + |i| + |f|; b <= e && s[p..a] == i && s[a..b] == f && s[b..e] == x
    ensures f + x != "" ==> p + |i| < e
  {
    Sliced(s, p, e, 0, |i|);
    Sliced(s, p, e, |i|, |i| + |f|);
    Sliced(s, p, e, |i| + |f|, |i| + |f| + |x|);
    assert |f + x| == |f| + |x|;
  }

  lemma Sliced(s: string, p: nat, e: nat, a: nat, b: nat)
    requires p <= e <= |s| && a <= b <= e - p
    ensures s[p..e][a..b] == s[p + a..p + b]
  {
    forall i | 0 <= i < b - a ensures s[p..e][a..b][i] == s[p + a..p + b][i] {
    }
  }

  // ----- strings

  /** What is read up to the closing quote is the doubled form of the value. */
  lemma {:induction false} StringText(s: string, p: nat, value: string) returns (v: string)
    requires p <= |s| && LexString(s, p, value).result.Ok?
    ensures var r := LexString(s, p, value);
            r.result == Ok(StringLit(value + v)) && s[p..r.end] == Doubled(v) + "'" && At(s, r.end) != '\''
    decreases |s| - p
  {
    hide Doubled;
    if s[p] == '\'' && At(s, p + 1) != '\'' {
      v := "";
      assert value + v == value;
      NothingDoubled();
    } else {
      var k := if s[p] == '\'' then 2 else 1;
      var w := StringText(s, p + k, value + [s[p]]);
      v := [s[p]] + w;
      var e := LexString(s, p, value).end;
      assert value + [s[p]] + w == value + v && v[1..] == w;
      DoubledFirst(v);
      assert s[p..e] == s[p..p + k] + s[p + k..e];
      assert s[p..p + k] == if s[p] == '\'' then "''" else [s[p]];
    }
  }

  lemma NothingDoubled()
    ensures Doubled("") == ""
  {
  }

  lemma DoubledFirst(v: string)
    requires v != ""
    ensures Doubled(v) == (if v[0] == '\'' then "''" else [v[0]]) + Doubled(v[1..])
  {
  }

  lemma StringIff(s: string, p: nat, e: nat, kind: Kind)
    requires p < e <= |s| && s[p] == '\'' && kind.StringLit?
    ensures LexString(s, p + 1, "") == Lexed(Ok(kind), e) <==> TokenAt(kind, s, p, e)
  {
    hide LexString, Doubled;
    assert s[p..e] == "'" + s[p + 1..e];
    if LexString(s, p + 1, "") == Lexed(Ok(kind), e) {
      var v := StringText(s, p + 1, "");
      assert "" + v == v;
      Cat("'", Doubled(v), "'");
    }
    if TokenAt(kind, s, p, e) {
      var d := Doubled(kind.value) + "'";
      Cat("'", Doubled(kind.value), "'");
      assert s[p..e][1..] == s[p + 1..e] == d;
      assert d <= s[p + 1..] by { assert s[p + 1..][..|d|] == s[p + 1..e]; }
      DoublingUndone(s, p + 1, "", kind.value);
      assert "" + kind.value == kind.value;
    }
  }

  lemma Cat(a: string, b: string, c: string)
    ensures (a + b) + c == a + (b + c)
  {
  }

  // ----- symbols

  predicate TwoCharSymbol(c: char, d: char) {
    (c == '<' && (d == '=' || d == '>')) || (c == '>' && d == '=') || (c == '!' && d == '=') || (c == '|' && d == '|')
  }

  lemma SymbolText(c: char, d: char)
    ensures SymbolName([c]) <==> c in "<>()[],;.+-*/%="
    ensures SymbolName([c, d]) || [c, d] == "!=" <==> TwoCharSymbol(c, d)
  {
    var t := [c, d];
    assert t[0] == c && t[1] == d;
    if TwoCharSymbol(c, d) { assert t == "<=" || t == "<>" || t == ">=" || t == "!=" || t == "||"; }
  }

  lemma SymbolIff(s: string, p: nat, e: nat, kind: Kind)
    requires p < e <= |s| && kind.Symbol?
    ensures LexSymbol(s, p) == Lexed(Ok(kind), e) <==> TokenAt(kind, s, p, e)
  {
    var c, d := s[p], At(s, p + 1);
    SymbolText(c, d);
    if e == p + 1 {
      assert s[p..e] == [c];
    } else if e == p + 2 {
      assert s[p..e] == [c, d];
    }
  }

  // ----- every token

  /** The lexer reads the token from p to e exactly when the characters there are its text and the next one does not
      belong to it. */
  lemma TokenIff(s: string, p: nat, e: nat, kind: Kind)
    requires p < e <= |s|
    ensures LexAt(s, p) == Lexed(Ok(kind), e) <==> TokenAt(kind, s, p, e)
  {
    hide LexWord, LexNumber, LexString, LexSymbol, TokenAt, IsAlpha, IsDigit;
    if TokenAt(kind, s, p, e) { FirstCharacter(s, p, e, kind); }
    Results(s, p);
    DigitIsNoLetter(s[p]);
    if (IsAlpha(s[p]) || s[p] == '_') && (kind.Keyword? || kind.Identifier?) { WordIff(s, p, e, kind); }
    if IsDigit(s[p]) && (kind.IntegerLit? || kind.FloatLit?) { NumberIff(s, p, e, kind); }
    if s[p] == '\'' && kind.StringLit? { StringIff(s, p, e, kind); }
    if kind.Symbol? { SymbolIff(s, p, e, kind); }
  }

  lemma DigitIsNoLetter(c: char)
    ensures !(IsDigit(c) && (IsAlpha(c) || c == '_')) && !IsAlpha('\'') && !IsDigit('\'')
  {
  }

  /** What kind of token each rule gives. */
  lemma Results(s: string, p: nat)
    requires p < |s|
    ensures LexWord(s, p).result.Ok? && (LexWord(s, p).result.value.Keyword? || LexWord(s, p).result.value.Identifier?)
    ensures IsDigit(s[p]) && LexNumber(s, p).result.Ok?
            ==> LexNumber(s, p).result.value.IntegerLit? || LexNumber(s, p).result.value.FloatLit?
    ensures s[p] == '\'' && LexString(s, p + 1, "").result.Ok? ==> LexString(s, p + 1, "").result.value.StringLit?
    ensures LexSymbol(s, p).result.Ok? ==> LexSymbol(s, p).result.value.Symbol?
  {
    hide LexString, NameEnd, Upper, FloatFits, Decimal, DigitsEnd, FractionEnd;
    if s[p] == '\'' && LexString(s, p + 1, "").result.Ok? { var v := StringText(s, p + 1, ""); }
  }

  /** The first character tells the kind. */
  lemma FirstCharacter(s: string, p: nat, e: nat, kind: Kind)
    requires p < e <= |s| && TokenAt(kind, s, p, e)
    ensures match kind
            case Keyword(_) => IsAlpha(s[p]) || s[p] == '_'
            case Identifier(_) => IsAlpha(s[p]) || s[p] == '_'
            case IntegerLit(_) => IsDigit(s[p])
            case FloatLit(_) => IsDigit(s[p])
            case StringLit(_) => s[p] == '\''
            case Symbol(_) => !IsAlpha(s[p]) && s[p] != '_' && !IsDigit(s[p]) && s[p] != '\''
            case EndOfInput => false
  {
  }

  // ----- what lies between tokens

  /** A comment up to the end of its line. */
  predicate LineComment(s: string, a: nat, b: nat)
    requires a < b <= |s|
  {
    && (s[a] == '#' || (s[a] == '-' && At(s, a + 1) == '-' && a + 2 <= b))
    && (b == |s| || s[b] == '\n') && forall i :: a <= i < b ==> s[i] != '\n'
  }

  predicate Closes(s: string, i: nat) { At(s, i) == '*' && At(s, i + 1) == '/' }

  /** A comment up to the first closing mark, or up to the end of input without one. */
  predicate StarComment(s: string, a: nat, b: nat)
    requires a < b <= |s|
  {
    && a + 2 <= b && s[a] == '/' && s[a + 1] == '*'
    && if b >= a + 4 && Closes(s, b - 2) then forall i :: a + 2 <= i < b - 2 ==> !Closes(s, i)
       else b == |s| && forall i :: a + 2 <= i < |s| ==> !Closes(s, i)
  }

  predicate Piece(s: string, a: nat, b: nat)
    requires a < b <= |s|
  {
    (b == a + 1 && IsSpace(s[a])) || LineComment(s, a, b) || StarComment(s, a, b)
  }

  /** Neither white space nor a comment starts here. */
  predicate PlainAt(s: string, p: nat) {
    p >= |s| || (!IsSpace(s[p]) && s[p] != '#' && !(s[p] == '-' && At(s, p + 1) == '-')
                 && !(s[p] == '/' && At(s, p + 1) == '*'))
  }

  ghost predicate Layout(s: string, a: nat, b: nat)
    requires a <= b <= |s|
    decreases b - a
  {
    a == b || exists m :: a < m <= b && Piece(s, a, m) && Layout(s, m, b)
  }

  lemma {:induction false} LineEndIff(s: string, p: nat, e: nat)
    requires p <= e <= |s|
    ensures LineEnd(s, p) == e <==> (e == |s| || s[e] == '\n') && forall i :: p <= i < e ==> s[i] != '\n'
    decreases e - p
  {
    if p < e && s[p] != '\n' { LineEndIff(s, p + 1, e); }
  }

  /** The end is past the first closing mark, or the end of input. */
  lemma {:induction false} BlockEndIs(s: string, p: nat)
    requires p <= |s|
    ensures var e := BlockEnd(s, p);
            if e >= p + 2 && Closes(s, e - 2) then forall i :: p <= i < e - 2 ==> !Closes(s, i)
            else e == |s| && forall i :: p <= i < |s| ==> !Closes(s, i)
    decreases |s| - p
  {
    if p < |s| && !Closes(s, p) { BlockEndIs(s, p + 1); }
  }

  lemma StarCommentIff(s: string, a: nat, b: nat)
    requires a < b <= |s| && s[a] == '/' && At(s, a + 1) == '*'
    ensures BlockEnd(s, a + 2) == b <==> StarComment(s, a, b)
  {
    hide BlockEnd;
    BlockEndIs(s, a + 2);
  }

  lemma LineCommentIff(s: string, a: nat, b: nat)
    requires a < b <= |s| && (s[a] == '#' || DashComment(s, a))
    ensures LineEnd(s, if s[a] == '#' then a + 1 else a + 2) == b <==> LineComment(s, a, b)
  {
    hide LineEnd;
    var p := if s[a] == '#' then a + 1 else a + 2;
    if p <= b { LineEndIff(s, p, b); }
  }

  lemma PieceIff(s: string, a: nat, b: nat)
    requires a < b <= |s|
    ensures PieceEnd(s, a) == b <==> Piece(s, a, b)
    ensures PieceEnd(s, a) == a <==> PlainAt(s, a)
  {
    hide LineEnd, BlockEnd, IsSpace, LineComment, StarComment;
    SpaceIsNoComment(s[a]);
    CommentMarks(s, a, b);
    if s[a] == '#' || DashComment(s, a) { LineCommentIff(s, a, b); }
    if BlockComment(s, a) { StarCommentIff(s, a, b); }
  }

  lemma SpaceIsNoComment(c: char)
    ensures IsSpace(c) ==> c != '#' && c != '-' && c != '/'
  {
  }

  lemma CommentMarks(s: string, a: nat, b: nat)
    requires a < b <= |s|
    ensures LineComment(s, a, b) ==> s[a] == '#' || DashComment(s, a)
    ensures StarComment(s, a, b) ==> BlockComment(s, a)
  {
  }

  /** The lexer skips from p to q exactly when white space and comments lie between, and none starts at q. */
  lemma {:induction false} SkipIff(s: string, p: nat, q: nat)
    requires p <= q <= |s|
    ensures SkipFrom(s, p) == q <==> Layout(s, p, q) && PlainAt(s, q)
    decreases q - p
  {
    hide PieceEnd, Piece, PlainAt;
    PlainIff(s, p);
    PlainIff(s, q);
    var m := PieceEnd(s, p);
    if p < m <= q {
      SkipIff(s, m, q);
      PieceIff(s, p, m);
    }
    if p < q {
      forall n | p < n <= q ensures Piece(s, p, n) <==> m == n { PieceIff(s, p, n); }
    }
  }

  lemma PlainIff(s: string, p: nat)
    requires p <= |s|
    ensures PieceEnd(s, p) == p <==> PlainAt(s, p)
  {
    hide PieceEnd, PlainAt, Piece;
    if p < |s| { PieceIff(s, p, |s|); } else { PlainEnd(s); }
  }

  lemma PlainEnd(s: string)
    ensures PieceEnd(s, |s|) == |s| && PlainAt(s, |s|)
  {
  }

  /** The next token from p on: white space and comments as far as they go, then the token, or the end of input. */
  lemma NextIff(s: string, p: nat, e: nat, kind: Kind)
    requires p <= e <= |s|
    ensures LexNext(s, p) == Lexed(Ok(kind), e)
            <==> exists q :: p <= q <= e && Layout(s, p, q) && PlainAt(s, q)
                             && if q == |s| then kind == EndOfInput else q < e && TokenAt(kind, s, q, e)
  {
    hide LexAt, SkipFrom, Layout, PlainAt, TokenAt;
    var q := SkipFrom(s, p);
    if q <= e { SkipIff(s, p, q); }
    forall n | p <= n <= e ensures Layout(s, p, n) && PlainAt(s, n) ==> n == q { SkipIff(s, p, n); }
    if q < e { TokenIff(s, q, e, kind); }
  }

  // ----- the number a float text stands for

  lemma {:induction false} PowerUp(a: int, n: nat)
    ensures Power10(a + n) == Power10(a) * Tens(n) as real
    decreases n
  {
    if n > 0 {
      PowerUp(a, n - 1);
      PowerStep(a + n - 1);
      TensStep(Power10(a), n);
    }
  }

  lemma PowerStep(a: int)
    ensures Power10(a + 1) == 10.0 * Power10(a)
  {
  }

  lemma TensStep(p: real, n: nat)
    requires n > 0
    ensures 10.0 * (p * Tens(n - 1) as real) == p * Tens(n) as real
  {
    assert Tens(n) as real == 10.0 * Tens(n - 1) as real;
  }

  lemma {:induction false} PlaceValueJoined(a: string, b: string)
    ensures PlaceValue(a + b) == PlaceValue(a) * Tens(|b|) + PlaceValue(b)
    decreases |a|
  {
    if a == "" {
      assert a + b == b;
    } else {
      PlaceValueJoined(a[1..], b);
      assert (a + b)[1..] == a[1..] + b;
      TensJoined(|a| - 1, |b|);
      Distributed(a[0] as int - 48, Tens(|a| - 1), Tens(|b|), PlaceValue(a[1..]));
    }
  }

  lemma {:induction false} TensJoined(m: nat, n: nat)
    ensures Tens(m + n) == Tens(m) * Tens(n)
    decreases m
  {
    if m > 0 {
      TensJoined(m - 1, n);
      Grouped(Tens(m - 1), Tens(n));
    }
  }

  lemma Grouped(a: int, b: int)
    ensures 10 * (a * b) == (10 * a) * b
  {
  }

  lemma Distributed(d: int, m: int, n: int, v: int)
    ensures d * (m * n) + v * n == (d * m + v) * n
  {
  }

  /** The exponent as a signed number; 0 without one. */
  function ExponentValue(x: string): int {
    if x == "" then 0
    else if |x| > 1 && x[1] == '-' then -PlaceValue(x[2..])
    else if |x| > 1 && x[1] == '+' then PlaceValue(x[2..])
    else PlaceValue(x[1..])
  }

  function PointDigits(fraction: string): string { if fraction == "" then "" else fraction[1..] }

  /** The lexer finds the pieces of a float text. */
  lemma PiecesFound(text: string, whole: string, fraction: string, exponent: string)
    requires FloatPieces(text, whole, fraction, exponent)
    ensures var a, b := |whole|, |whole| + |fraction|;
            DigitsEnd(text, 0) == a && text[..a] == whole && FractionEnd(text, a) == b
            && FractionDigits(text, a) == PointDigits(fraction) && Exponent(text, b) == ExponentValue(exponent)
  {
    hide DigitsEnd, FractionEnd, AllDigits, FractionDigits, Exponent, ExponentValue, PointDigits;
    var a, b, e := |whole|, |whole| + |fraction|, |text|;
    Cut(text, 0, e, whole, fraction, exponent);
    assert text[0..e] == text;
    PartsAre(text, 0, a, b, e);
    FractionFound(text, a, b);
    ExponentFound(text, b);
  }

  lemma FractionFound(text: string, a: nat, b: nat)
    requires a <= b <= |text| && Fraction(text[a..b]) && FractionEnd(text, a) == b
    requires a == b ==> At(text, a) != '.'
    ensures FractionDigits(text, a) == PointDigits(text[a..b])
  {
    hide DigitsEnd, AllDigits;
    if a < b {
      assert text[a..b][0] == text[a];
      assert text[a..b][1..] == text[a + 1..b];
    }
  }

  lemma ExponentFound(text: string, b: nat)
    requires b <= |text| && ExponentText(text[b..])
    ensures Exponent(text, b) == ExponentValue(text[b..])
  {
    hide DigitsEnd, AllDigits, Decimal, PlaceValue;
    if b < |text| {
      assert text[b..|text|] == text[b..];
      ExponentIs(text, b, |text|);
      SignIs(text, b + 1);
      var x := SignEnd(text, b + 1);
      assert text[x..|text|] == text[x..] == text[b..][x - b..];
      assert text[b..][1] == text[b + 1];
      DecimalIs(text[x..|text|]);
    }
  }

  /** A float text stands for its decimal number: the integer part and the fraction, moved by the exponent. */
  lemma FloatValueIs(text: string, whole: string, fraction: string, exponent: string)
    requires FloatPieces(text, whole, fraction, exponent)
    ensures var d, n := PointDigits(fraction), ExponentValue(exponent);
            FloatValue(text) * Tens(|d|) as real * Tens(Down(n)) as real
            == (PlaceValue(whole) * Tens(|d|) + PlaceValue(d)) as real * Tens(Up(n)) as real
  {
    hide FloatPieces, PointDigits, ExponentValue, PlaceValue, Power10, Tens, FloatValue, Down, Up;
    var d, n := PointDigits(fraction), ExponentValue(exponent);
    FloatValueOf(text, whole, fraction, exponent);
    PlaceValueJoined(whole, d);
    PowerUp(n - |d|, |d|);
    UpAndDown(n);
    Moved(PlaceValue(whole + d) as real, Power10(n - |d|), Tens(|d|) as real, Power10(n), Tens(Down(n)) as real,
          Tens(Up(n)) as real);
  }

  function Up(n: int): nat { if n < 0 then 0 else n }

  function Down(n: int): nat { if n < 0 then -n else 0 }

  lemma UpAndDown(n: int)
    ensures Power10(n) * Tens(Down(n)) as real == Tens(Up(n)) as real
  {
    hide Power10, Tens;
    PowerZero();
    if n < 0 { PowerUp(n, -n); } else { PowerUp(0, n); }
  }

  lemma FloatValueOf(text: string, whole: string, fraction: string, exponent: string)
    requires FloatPieces(text, whole, fraction, exponent)
    ensures var d, n := PointDigits(fraction), ExponentValue(exponent);
            FloatValue(text) == PlaceValue(whole + d) as real * Power10(n - |d|)
  {
    hide DigitsEnd, FractionEnd, FractionDigits, Exponent, ExponentValue, PointDigits, Decimal, PlaceValue, Power10,
         Fraction, ExponentText, AllDigits;
    PiecesFound(text, whole, fraction, exponent);
    DecimalIs(text[..|whole|] + FractionDigits(text, |whole|));
  }

  lemma PowerZero()
    ensures Power10(0) == 1.0 && Tens(0) == 1
  {
  }

  lemma Moved(m: real, p: real, t: real, q: real, down: real, up: real)
    requires q == p * t && q * down == up
    ensures (m * p) * t * down == m * up
  {
    assert (m * p) * t * down == m * ((p * t) * down);
  }
}
