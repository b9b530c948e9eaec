/** JSON values, their tokens and how a reader takes text apart (RFC 8259, sections 2 to 7, of numbers
    the integers, of escapes those of one letter). */
module JsonTexts {
  import opened Options
  import NumberText

  datatype Scalar = Bool(b: bool) | Int(i: int) | Text(s: string)

  datatype Kind = OBJECT | ARRAY

  datatype Name = NoName | Name(key: string)

  /** Containers list their elements, those of objects with names. */
  datatype Json = Value(v: Scalar) | Node(kind: Kind, elements: Elements)

  datatype Elements = Nothing | Elements(init: Elements, name: Name, value: Json)

  // ---- strings ----------------------------------------------------------------------------------

  const BS: char := '\U{0008}'
  const FF: char := '\U{000C}'
  const DEL: char := '\U{007F}'

  /** What a C string with these characters is: all up to the first zero. */
  function Cut(s: string): string {
    if s == "" || s[0] == '\0' then "" else [s[0]] + Cut(s[1..])
  }

  predicate IsControl(c: char) { c < ' ' || c == DEL }

  /** Control characters without an escape of their own come out as \x and two digits. */
  predicate Unescapable(c: char) { IsControl(c) && c !in [BS, FF, '\n', '\r', '\t'] }

  predicate Printable(s: string) { forall i :: 0 <= i < |Cut(s)| ==> !Unescapable(Cut(s)[i]) }

  predicate Whole(s: string) { '\0' !in s }

  /** A string that is written as it is. */
  predicate Clean(s: string) { Whole(s) && Printable(s) }

  lemma {:induction false} CutIsPrefix(s: string)
    ensures Cut(s) <= s && '\0' !in Cut(s)
    ensures Cut(s) == s <==> Whole(s)
  {
    if s != "" {
      CutIsPrefix(s[1..]);
      assert s == [s[0]] + s[1..];
    }
  }

  function HexDigit(n: nat): char
    requires n < 16
  {
    "0123456789ABCDEF"[n]
  }

  function Escape(c: char): (e: string)
    ensures 1 <= |e| <= 4
  {
    if c == BS then "\\b"
    else if c == FF then "\\f"
    else if c == '\n' then "\\n"
    else if c == '\r' then "\\r"
    else if c == '\t' then "\\t"
    else if c == '"' then "\\\""
    else if c == '\\' then "\\\\"
    else if IsControl(c) then "\\x" + [HexDigit(c as int / 16), HexDigit(c as int % 16)]
    else [c]
  }

  function Escaped(s: string): string { if s == "" then "" else Escape(s[0]) + Escaped(s[1..]) }

  /** A string as it is written. */
  function Quoted(s: string): string { "\"" + Escaped(Cut(s)) + "\"" }

  /** The character an escape stands for. */
  function Unescape(c: char): Option<char> {
    match c
    case 'b' => Some(BS) case 'f' => Some(FF) case 'n' => Some('\n') case 'r' => Some('\r') case 't' => Some('\t')
    case '"' => Some('"') case '\\' => Some('\\') case '/' => Some('/')
    case _ => None
  }

  /** The string whose characters begin after the opening quote, and what follows the closing one. */
  function ReadString(s: string): (r: Option<(string, string)>)
    ensures r.Some? ==> |r.value.1| < |s|
  {
    if s == "" || s[0] < ' ' then None
    else if s[0] == '"' then Some(("", s[1..]))
    else if s[0] == '\\' then
      if |s| == 1 || Unescape(s[1]).None? then None else Prepended(Unescape(s[1]).value, ReadString(s[2..]))
    else Prepended(s[0], ReadString(s[1..]))
  }

  function Prepended(c: char, r: Option<(string, string)>): Option<(string, string)> {
    if r.None? then None else Some(([c] + r.value.0, r.value.1))
  }

  lemma {:induction false} ReadBack(s: string, rest: string)
    requires forall i :: 0 <= i < |s| ==> !Unescapable(s[i])
    ensures ReadString(Escaped(s) + ("\"" + rest)) == Some((s, rest))
  {
    if s == "" {
      assert "" + ("\"" + rest) == "\"" + rest;
      ReadEnd(rest);
    } else {
      hide ReadString, Escape, Unescapable;
      var tail := Escaped(s[1..]) + ("\"" + rest);
      assert Escaped(s) == Escape(s[0]) + Escaped(s[1..]);
      assert Escaped(s) + ("\"" + rest) == Escape(s[0]) + tail;
      ReadBack(s[1..], rest);
      ReadEscape(s[0], tail);
      assert s == [s[0]] + s[1..];
    }
  }

  lemma ReadEscape(c: char, rest: string)
    ensures ReadString(Escape(c) + rest) == if Unescapable(c) then None else Prepended(c, ReadString(rest))
  {
    hide ReadString;
    var e := Escape(c);
    if Unescapable(c) {
      ReadPair('x', e[2..] + rest);
      assert e + rest == ['\\', 'x'] + (e[2..] + rest);
    } else if |e| == 2 {
      ReadPair(e[1], rest);
      assert e == ['\\', e[1]] && Unescape(e[1]) == Some(c);
    } else {
      ReadPlain(c, rest);
    }
  }

  lemma ReadEnd(rest: string)
    ensures ReadString("\"" + rest) == Some(("", rest))
  {
    assert ("\"" + rest)[1..] == rest;
  }

  lemma ReadPair(c: char, rest: string)
    ensures ReadString(['\\', c] + rest) == if Unescape(c).None? then None else Prepended(Unescape(c).value, ReadString(rest))
  {
    hide Unescape;
    assert (['\\', c] + rest)[2..] == rest;
  }

  lemma ReadPlain(c: char, rest: string)
    requires c >= ' ' && c != '"' && c != '\\'
    ensures ReadString([c] + rest) == Prepended(c, ReadString(rest))
  {
    assert ([c] + rest)[1..] == rest;
  }

  /** A character without escape spoils the string, whatever follows. */
  lemma {:induction false} ReadSpoilt(s: string, i: nat, rest: string)
    requires i < |s| && Unescapable(s[i])
    ensures ReadString(Escaped(s) + rest).None?
  {
    hide ReadString, Escape;
    ReadEscape(s[0], Escaped(s[1..]) + rest);
    assert Escaped(s) + rest == Escape(s[0]) + (Escaped(s[1..]) + rest);
    if i > 0 { ReadSpoilt(s[1..], i - 1, rest); }
  }

  // ---- numbers -----------------------------------------------------------------------------------

  predicate IsDigit(c: char) { '0' <= c <= '9' }

  function DigitsOf(n: nat): string { if n == 0 then "0" else NumberText.Digits(n, 10) }

  function IntText(i: int): string { if i < 0 then "-" + DigitsOf(-i) else DigitsOf(i) }

  /** The number of digits `s` begins with. */
  function Span(s: string): (n: nat)
    ensures n <= |s| && (forall i :: 0 <= i < n ==> IsDigit(s[i])) && (n < |s| ==> !IsDigit(s[n]))
  {
    if s == "" || !IsDigit(s[0]) then 0 else 1 + Span(s[1..])
  }

  lemma SpanIs(s: string, n: nat)
    requires n <= |s| && (forall i :: 0 <= i < n ==> IsDigit(s[i])) && (n < |s| ==> !IsDigit(s[n]))
    ensures Span(s) == n
  {
  }

  function NumberOf(digits: string): nat
    requires forall i :: 0 <= i < |digits| ==> IsDigit(digits[i])
  {
    if digits == "" then 0
    else
      assert IsDigit(digits[|digits| - 1]);
      10 * NumberOf(digits[..|digits| - 1]) + (digits[|digits| - 1] as int - '0' as int)
  }

  /** No digit superfluous. */
  predicate Plain(digits: string) { digits != "" && (|digits| > 1 ==> digits[0] != '0') }

  lemma DigitsReadBack(n: nat)
    ensures forall i :: 0 <= i < |DigitsOf(n)| ==> IsDigit(DigitsOf(n)[i])
    ensures NumberOf(DigitsOf(n)) == n && Plain(DigitsOf(n))
  {
    if n == 0 {
      assert "0"[..0] == "";
    } else {
      PositiveReadBack(n);
    }
  }

  lemma {:induction false} PositiveReadBack(n: nat)
    requires n > 0
    ensures var d := NumberText.Digits(n, 10);
            d != "" && d[0] != '0' && (forall i :: 0 <= i < |d| ==> IsDigit(d[i])) && NumberOf(d) == n
  {
    NumberText.Shorter(n, 10);
    var d, init := NumberText.Digits(n, 10), NumberText.Digits(n / 10, 10);
    assert d == init + [NumberText.DigitChar(n % 10)] && d[..|d| - 1] == init;
    if n < 10 {
      assert n / 10 == 0 && init == "";
    } else {
      PositiveReadBack(n / 10);
    }
  }

  // ---- tokens ---------------------------------------------------------------------------------------

  datatype Token = TOpen(kind: Kind) | TClose(kind: Kind) | TColon | TComma | TScalar(v: Scalar)

  type Tokens = Option<seq<Token>>

  function Cat(a: Tokens, b: Tokens): Tokens { if a.None? || b.None? then None else Some(a.value + b.value) }

  function First(t: Token, rest: Tokens): Tokens { Cat(Some([t]), rest) }

  predicate IsBlank(c: char) { c == ' ' || c == '\n' || c == '\r' || c == '\t' }

  function Mark(c: char): Option<Token> {
    match c
    case '{' => Some(TOpen(OBJECT)) case '}' => Some(TClose(OBJECT))
    case '[' => Some(TOpen(ARRAY)) case ']' => Some(TClose(ARRAY))
    case ':' => Some(TColon) case ',' => Some(TComma)
    case _ => None
  }

  /** What a text consists of. */
  function Lex(s: string): Tokens
    decreases |s|
  {
    if s == "" then Some([])
    else if IsBlank(s[0]) then Lex(s[1..])
    else if Mark(s[0]).Some? then First(Mark(s[0]).value, Lex(s[1..]))
    else if s[0] == '"' then
      var r := ReadString(s[1..]);
      if r.None? then None else First(TScalar(Text(r.value.0)), Lex(r.value.1))
    else if "true" <= s then First(TScalar(Bool(true)), Lex(s[4..]))
    else if "false" <= s then First(TScalar(Bool(false)), Lex(s[5..]))
    else if s[0] == '-' then LexNumber(s[1..], -1)
    else LexNumber(s, 1)
  }

  function LexNumber(s: string, sign: int): Tokens
    decreases |s|, 0
  {
    var n := Span(s);
    if !Plain(s[..n]) then None else First(TScalar(Int(sign * NumberOf(s[..n]))), Lex(s[n..]))
  }

  predicate EndsInDigit(s: string) { s != "" && IsDigit(s[|s| - 1]) }

  predicate BeginsWithDigit(s: string) { s != "" && IsDigit(s[0]) }

  /** Text by text: only a number could go on into what follows. */
  lemma {:induction false} LexAppend(a: string, b: string)
    requires Lex(a).Some? && !(EndsInDigit(a) && BeginsWithDigit(b))
    ensures Lex(a + b) == Cat(Lex(a), Lex(b))
    decreases |a|, 1
  {
    hide ReadString, Span, Mark;
    if a == "" {
      assert a + b == b;
      CatNothing(Lex(b));
    } else if IsBlank(a[0]) {
      assert (a + b)[1..] == a[1..] + b;
      LexAppend(a[1..], b);
    } else if Mark(a[0]).Some? {
      assert (a + b)[1..] == a[1..] + b;
      LexAppend(a[1..], b);
      CatFirst(Mark(a[0]).value, Lex(a[1..]), Lex(b));
    } else if a[0] == '"' {
      AppendString(a, b);
    } else if "true" <= a {
      assert (a + b)[4..] == a[4..] + b;
      LexAppend(a[4..], b);
      CatFirst(TScalar(Bool(true)), Lex(a[4..]), Lex(b));
    } else if "false" <= a {
      assert (a + b)[5..] == a[5..] + b;
      LexAppend(a[5..], b);
      CatFirst(TScalar(Bool(false)), Lex(a[5..]), Lex(b));
    } else if a[0] == '-' {
      assert (a + b)[1..] == a[1..] + b;
      NumberAppend(a[1..], b, -1);
    } else {
      NumberAppend(a, b, 1);
    }
  }

  lemma NumberAppend(a: string, b: string, sign: int)
    requires LexNumber(a, sign).Some? && !(EndsInDigit(a) && BeginsWithDigit(b))
    ensures LexNumber(a + b, sign) == Cat(LexNumber(a, sign), Lex(b))
    decreases |a|, 0
  {
    var n := Span(a);
    SpanIs(a + b, n);
    assert (a + b)[..n] == a[..n] && (a + b)[n..] == a[n..] + b;
    LexAppend(a[n..], b);
    CatFirst(TScalar(Int(sign * NumberOf(a[..n]))), Lex(a[n..]), Lex(b));
  }

  lemma AppendString(a: string, b: string)
    requires Lex(a).Some? && a != "" && a[0] == '"' && !(EndsInDigit(a) && BeginsWithDigit(b))
    ensures Lex(a + b) == Cat(Lex(a), Lex(b))
    decreases |a|, 0
  {
    hide ReadString;
    var r := ReadString(a[1..]).value;
    assert (a + b)[1..] == a[1..] + b;
    ReadAppend(a[1..], b);
    LexAppend(r.1, b);
    CatFirst(TScalar(Text(r.0)), Lex(r.1), Lex(b));
  }

  lemma {:induction false} ReadAppend(a: string, b: string)
    requires ReadString(a).Some?
    ensures ReadString(a + b) == Some((ReadString(a).value.0, ReadString(a).value.1 + b))
    ensures EndsInDigit(ReadString(a).value.1) ==> EndsInDigit(a)
  {
    if a[0] == '"' {
      assert (a + b)[1..] == a[1..] + b;
    } else if a[0] == '\\' {
      assert (a + b)[2..] == a[2..] + b;
      ReadAppend(a[2..], b);
    } else {
      assert (a + b)[1..] == a[1..] + b;
      ReadAppend(a[1..], b);
    }
  }

  lemma CatFirst(t: Token, a: Tokens, b: Tokens)
    ensures Cat(First(t, a), b) == First(t, Cat(a, b))
  {
    if a.Some? && b.Some? { assert [t] + a.value + b.value == [t] + (a.value + b.value); }
  }

  lemma CatNothing(a: Tokens)
    ensures Cat(Some([]), a) == a
  {
    if a.Some? { assert [] + a.value == a.value; }
  }

  // ---- values as tokens ----------------------------------------------------------------------------

  /** What comes back of a value: its strings as C strings. */
  function CutScalar(v: Scalar): Scalar { if v.Text? then Text(Cut(v.s)) else v }

  function CutName(name: Name): Name { if name.NoName? then NoName else Name(Cut(name.key)) }

  function CutJson(j: Json): Json {
    match j
    case Value(v) => Value(CutScalar(v))
    case Node(kind, elements) => Node(kind, CutElements(elements))
  }

  function CutElements(es: Elements): Elements {
    if es.Nothing? then Nothing else Elements(CutElements(es.init), CutName(es.name), CutJson(es.value))
  }

  function NameTokens(name: Name): seq<Token> {
    if name.NoName? then [] else [TScalar(Text(Cut(name.key))), TColon]
  }

  function CommaAfter(es: Elements): seq<Token> { if es.Nothing? then [] else [TComma] }

  function TokensOf(j: Json): seq<Token> {
    match j
    case Value(v) => [TScalar(CutScalar(v))]
    case Node(kind, elements) => [TOpen(kind)] + ElementTokens(elements) + [TClose(kind)]
  }

  function ElementTokens(es: Elements): seq<Token> {
    if es.Nothing? then [] else ElementTokens(es.init) + CommaAfter(es.init) + NameTokens(es.name) + TokensOf(es.value)
  }

  /** Elements have names in objects and none in arrays. */
  predicate Named(j: Json)
    decreases j
  {
    j.Node? ==> NamedElements(j.kind, j.elements)
  }

  predicate NamedElements(kind: Kind, es: Elements)
    decreases es
  {
    es.Elements? ==> NamedElements(kind, es.init) && (es.name.Name? <==> kind == OBJECT) && Named(es.value)
  }

  // ---- reading tokens ---------------------------------------------------------------------------------

  type Read = Option<(Json, seq<Token>)>

  /** The value that tokens begin with, and what follows it. */
  function Parse(ts: seq<Token>): (r: Read)
    ensures r.Some? ==> |r.value.1| < |ts|
    decreases |ts|, 0
  {
    if ts == [] then None
    else match ts[0]
      case TScalar(v) => Some((Value(v), ts[1..]))
      case TOpen(kind) =>
        if |ts| > 1 && ts[1] == TClose(kind) then Some((Node(kind, Nothing), ts[2..]))
        else ParseElements(kind, Nothing, ts[1..])
      case _ => None
  }

  /** One more element, and all that follow it in the container. */
  function ParseElements(kind: Kind, es: Elements, ts: seq<Token>): (r: Read)
    ensures r.Some? ==> |r.value.1| < |ts|
    decreases |ts|, 2
  {
    if kind == ARRAY then ParseValue(kind, es, NoName, ts)
    else if |ts| >= 2 && ts[0].TScalar? && ts[0].v.Text? && ts[1] == TColon then ParseValue(kind, es, Name(ts[0].v.s), ts[2..])
    else None
  }

  function ParseValue(kind: Kind, es: Elements, name: Name, ts: seq<Token>): (r: Read)
    ensures r.Some? ==> |r.value.1| < |ts|
    decreases |ts|, 1
  {
    var v := Parse(ts);
    if v.None? || v.value.1 == [] then None
    else
      var more := Elements(es, name, v.value.0);
      if v.value.1[0] == TClose(kind) then Some((Node(kind, more), v.value.1[1..]))
      else if v.value.1[0] == TComma then ParseElements(kind, more, v.value.1[1..])
      else None
  }

  /** The value a text stands for, if it is the text of one. */
  function ParseText(s: string): Option<Json> {
    var ts := Lex(s);
    if ts.None? then None
    else
      var r := Parse(ts.value);
      if r.Some? && r.value.1 == [] then Some(r.value.0) else None
  }

  /** A value's tokens are read back as the value. */
  lemma {:induction false} ParseBack(j: Json, rest: seq<Token>)
    requires Named(j)
    ensures Parse(TokensOf(j) + rest) == Some((CutJson(j), rest))
    ensures TokensOf(j) != [] && TokensOf(j)[0] != TColon && !TokensOf(j)[0].TClose?
    decreases j, 0
  {
    var ts := TokensOf(j) + rest;
    match j
    case Value(v) =>
      assert ts[1..] == rest;
    case Node(kind, es) =>
      if es.Nothing? {
        assert ElementTokens(es) == [];
        assert ts == [TOpen(kind), TClose(kind)] + rest;
        assert ts[2..] == rest;
      } else {
        FirstNoClose(kind, es);
        var inner := ElementTokens(es) + ([TClose(kind)] + rest);
        assert ts[1..] == inner;
        ElementsBack(kind, es, TClose(kind), rest);
      }
  }

  lemma {:induction false} FirstNoClose(kind: Kind, es: Elements)
    requires es.Elements? && NamedElements(kind, es)
    ensures ElementTokens(es) != [] && !ElementTokens(es)[0].TClose?
  {
    if es.init.Elements? {
      FirstNoClose(kind, es.init);
    } else if es.value.Node? {
    }
  }

  /** Elements up to the token after the last one. */
  lemma {:induction false} ElementsBack(kind: Kind, es: Elements, end: Token, rest: seq<Token>)
    requires es.Elements? && NamedElements(kind, es) && (end == TComma || end == TClose(kind))
    ensures ParseElements(kind, Nothing, ElementTokens(es) + ([end] + rest)) ==
            if end == TComma then ParseElements(kind, CutElements(es), rest) else Some((Node(kind, CutElements(es)), rest))
    decreases es, 1
  {
    hide ParseElements, TokensOf, NameTokens;
    var last := NameTokens(es.name) + (TokensOf(es.value) + ([end] + rest));
    ElementBack(kind, CutElements(es.init), es.name, es.value, end, rest);
    if es.init.Nothing? {
      assert ElementTokens(es) + ([end] + rest) == last;
    } else {
      ElementsBack(kind, es.init, TComma, last);
      assert ElementTokens(es) + ([end] + rest) == ElementTokens(es.init) + ([TComma] + last);
    }
  }

  /** One element after those in `before`. */
  lemma ElementBack(kind: Kind, before: Elements, name: Name, value: Json, end: Token, rest: seq<Token>)
    requires Named(value) && (name.Name? <==> kind == OBJECT) && (end == TComma || end == TClose(kind))
    ensures ParseElements(kind, before, NameTokens(name) + (TokensOf(value) + ([end] + rest))) ==
            var more := Elements(before, CutName(name), CutJson(value));
            if end == TComma then ParseElements(kind, more, rest) else Some((Node(kind, more), rest))
    decreases value, 1
  {
    var vs := TokensOf(value) + ([end] + rest);
    ParseBack(value, [end] + rest);
    assert ([end] + rest)[1..] == rest;
    if kind == OBJECT {
      assert (NameTokens(name) + vs)[2..] == vs;
    } else {
      assert NameTokens(name) + vs == vs;
    }
  }

  // ---- the strings of a value --------------------------------------------------------------------------

  predicate ScalarAll(v: Scalar, p: string -> bool) { v.Text? ==> p(v.s) }

  predicate NameAll(name: Name, p: string -> bool) { name.Name? ==> p(name.key) }

  /** All strings and names in a value are such. */
  predicate JsonAll(j: Json, p: string -> bool)
    decreases j
  {
    match j
    case Value(v) => ScalarAll(v, p)
    case Node(_, elements) => ElementsAll(elements, p)
  }

  predicate ElementsAll(es: Elements, p: string -> bool)
    decreases es
  {
    es.Elements? ==> ElementsAll(es.init, p) && NameAll(es.name, p) && JsonAll(es.value, p)
  }

  lemma {:induction false} CutSame(j: Json)
    ensures CutJson(j) == j <==> JsonAll(j, Whole)
    decreases j
  {
    match j
    case Value(v) => if v.Text? { CutIsPrefix(v.s); }
    case Node(_, elements) => CutSameElements(elements);
  }

  lemma {:induction false} CutSameElements(es: Elements)
    ensures CutElements(es) == es <==> ElementsAll(es, Whole)
    decreases es
  {
    if es.Elements? {
      CutSameElements(es.init);
      if es.name.Name? { CutIsPrefix(es.name.key); }
      CutSame(es.value);
    }
  }

  lemma {:induction false} CleanParts(j: Json)
    ensures JsonAll(j, Clean) <==> JsonAll(j, Whole) && JsonAll(j, Printable)
    decreases j
  {
    match j
    case Value(_) =>
    case Node(_, elements) => CleanElements(elements);
  }

  lemma {:induction false} CleanElements(es: Elements)
    ensures ElementsAll(es, Clean) <==> ElementsAll(es, Whole) && ElementsAll(es, Printable)
    decreases es
  {
    if es.Elements? {
      CleanElements(es.init);
      CleanParts(es.value);
    }
  }
}
