/** A writer of JSON text that is called element by element and keeps a stack of open containers. */
module JsonWriterClass {
  import opened JsonTexts
  import opened Options

  // ---- what calls mean ----------------------------------------------------------------------------

  /** A container not closed yet, with the name it has in the one around it. */
  datatype Pending = Pending(kind: Kind, elements: Elements, name: Name)

  /** Values finished, and containers open, the outermost first. */
  datatype Trees = Trees(done: seq<Json>, open: seq<Pending>) {
    function Top(): Pending
      requires open != []
    {
      open[|open| - 1]
    }
  }

  /** The public calls; without a name they are those for array elements and top-level containers. */
  datatype Call = WriteValue(name: Name, v: Scalar) | OpenContainer(name: Name, kind: Kind, isOneliner: bool) | CloseContainer(kind: Kind)

  /** Elements of objects need names, elements of arrays may not have one. */
  predicate Fits(t: Trees, name: Name) { t.open != [] && (name.Name? <==> t.Top().kind == OBJECT) }

  function Added(t: Trees, name: Name, j: Json): Trees
    requires t.open != []
  {
    t.(open := t.open[|t.open| - 1 := t.Top().(elements := Elements(t.Top().elements, name, j))])
  }

  function Closed(t: Trees): Trees
    requires t.open != []
  {
    var rest, j := t.(open := t.open[..|t.open| - 1]), Node(t.Top().kind, t.Top().elements);
    if rest.open == [] then rest.(done := t.done + [j]) else Added(rest, t.Top().name, j)
  }

  /** What a call makes of the trees, unless it throws. */
  function Step(t: Trees, c: Call): Option<Trees> {
    match c
    case WriteValue(name, v) => if Fits(t, name) then Some(Added(t, name, Value(v))) else None
    case OpenContainer(name, kind, _) =>
      if Fits(t, name) || (t.open == [] && name == NoName) then Some(t.(open := t.open + [Pending(kind, Nothing, name)])) else None
    case CloseContainer(kind) => if t.open != [] && t.Top().kind == kind then Some(Closed(t)) else None
  }

  function Steps(t: Trees, calls: seq<Call>): Option<Trees> {
    if calls == [] then Some(t)
    else
      var before := Steps(t, calls[..|calls| - 1]);
      if before.None? then None else Step(before.value, calls[|calls| - 1])
  }

  lemma StepsSnoc(t: Trees, calls: seq<Call>, i: nat)
    requires i < |calls|
    ensures Steps(t, calls[..i + 1]) == if Steps(t, calls[..i]).None? then None else Step(Steps(t, calls[..i]).value, calls[i])
  {
    assert calls[..i + 1][..i] == calls[..i];
  }

  lemma {:induction false} StepsFail(t: Trees, calls: seq<Call>, i: nat)
    requires i <= |calls| && Steps(t, calls[..i]).None?
    ensures Steps(t, calls).None?
    decreases |calls| - i
  {
    if i == |calls| {
      assert calls[..i] == calls;
    } else {
      StepsSnoc(t, calls, i);
      StepsFail(t, calls, i + 1);
    }
  }

  // ---- the tokens of trees -------------------------------------------------------------------------

  function DoneTokens(done: seq<Json>): seq<Token> {
    if done == [] then [] else DoneTokens(done[..|done| - 1]) + TokensOf(done[|done| - 1])
  }

  /** What has been written of the containers still open. */
  function OpenTokens(open: seq<Pending>): seq<Token> {
    if open == [] then []
    else
      var init, p := open[..|open| - 1], open[|open| - 1];
      OpenTokens(init) + Separator(init) + NameTokens(p.name) + [TOpen(p.kind)] + ElementTokens(p.elements)
  }

  /** The comma before the next element, if there is one already. */
  function Separator(open: seq<Pending>): seq<Token> {
    if open == [] then [] else CommaAfter(open[|open| - 1].elements)
  }

  function AllTokens(t: Trees): seq<Token> { DoneTokens(t.done) + OpenTokens(t.open) }

  lemma OpenSnoc(init: seq<Pending>, p: Pending)
    ensures OpenTokens(init + [p]) == OpenTokens(init) + Separator(init) + NameTokens(p.name) + [TOpen(p.kind)] + ElementTokens(p.elements)
  {
    assert (init + [p])[..|init|] == init;
  }

  lemma AddedTokens(t: Trees, name: Name, j: Json)
    requires t.open != []
    ensures AllTokens(Added(t, name, j)) == AllTokens(t) + Separator(t.open) + NameTokens(name) + TokensOf(j)
  {
    hide OpenTokens, TokensOf, NameTokens, DoneTokens;
    var init, p := t.open[..|t.open| - 1], t.Top();
    var q := p.(elements := Elements(p.elements, name, j));
    OpenSnoc(init, p);
    OpenSnoc(init, q);
    assert t.open == init + [p] && Added(t, name, j).open == init + [q];
    OneMore(DoneTokens(t.done), OpenTokens(init) + Separator(init) + NameTokens(p.name) + [TOpen(p.kind)],
            ElementTokens(p.elements), Separator(t.open), NameTokens(name), TokensOf(j));
  }

  lemma OneMore<T>(d: seq<T>, o: seq<T>, e: seq<T>, c: seq<T>, n: seq<T>, v: seq<T>)
    ensures d + (o + (e + c + n + v)) == d + (o + e) + c + n + v
  {
  }

  lemma OpenedTokens(t: Trees, name: Name, kind: Kind)
    ensures AllTokens(t.(open := t.open + [Pending(kind, Nothing, name)])) ==
            AllTokens(t) + Separator(t.open) + NameTokens(name) + [TOpen(kind)]
  {
    hide OpenTokens;
    OpenSnoc(t.open, Pending(kind, Nothing, name));
    assert ElementTokens(Nothing) == [];
  }

  lemma ClosedTokens(t: Trees)
    requires t.open != [] && NamedTrees(t)
    ensures AllTokens(Closed(t)) == AllTokens(t) + [TClose(t.Top().kind)]
  {
    hide OpenTokens;
    var init, p := t.open[..|t.open| - 1], t.Top();
    var j := Node(p.kind, p.elements);
    OpenSnoc(init, p);
    assert t.open == init + [p];
    assert TokensOf(j) == [TOpen(p.kind)] + ElementTokens(p.elements) + [TClose(p.kind)];
    if init == [] {
      assert (t.done + [j])[..|t.done|] == t.done;
      NothingOpen();
      assert NameTokens(p.name) == [];
      CloseTop(DoneTokens(t.done), [TOpen(p.kind)], ElementTokens(p.elements), [TClose(p.kind)]);
    } else {
      hide NamedTrees;
      AddedTokens(t.(open := init), p.name, j);
      CloseInner(DoneTokens(t.done), OpenTokens(init), Separator(init), NameTokens(p.name),
                 [TOpen(p.kind)], ElementTokens(p.elements), [TClose(p.kind)]);
    }
  }

  lemma NothingOpen()
    ensures OpenTokens([]) == [] && Separator([]) == []
  {
  }

  lemma CloseTop<T>(d: seq<T>, b: seq<T>, e: seq<T>, c: seq<T>)
    ensures d + (b + e + c) + [] == d + ([] + [] + [] + b + e) + c
  {
  }

  lemma CloseInner<T>(d: seq<T>, o: seq<T>, s: seq<T>, n: seq<T>, b: seq<T>, e: seq<T>, c: seq<T>)
    ensures (d + o) + s + n + (b + e + c) == d + (o + s + n + b + e) + c
  {
  }

  // ---- names and strings of trees -------------------------------------------------------------------

  /** Elements and open containers have names exactly in objects. */
  ghost predicate NamedTrees(t: Trees) {
    && (forall i :: 0 <= i < |t.done| ==> Named(t.done[i]))
    && (forall i :: 0 <= i < |t.open| ==> NamedElements(t.open[i].kind, t.open[i].elements))
    && (t.open != [] ==> t.open[0].name == NoName)
    && forall i :: 0 < i < |t.open| ==> NameFits(t.open, i)
  }

  ghost predicate NameFits(open: seq<Pending>, i: nat)
    requires 0 < i < |open|
  {
    open[i].name.Name? <==> open[i - 1].kind == OBJECT
  }

  lemma NamedStep(t: Trees, c: Call)
    requires NamedTrees(t) && Step(t, c).Some?
    ensures NamedTrees(Step(t, c).value)
  {
    var r := Step(t, c).value;
    forall i | 0 < i < |r.open|
      ensures NameFits(r.open, i)
    {
      if i < |t.open| { assert NameFits(t.open, i); }
    }
    if |t.open| > 1 { assert NameFits(t.open, |t.open| - 1); }
  }

  predicate OpenAll(open: seq<Pending>, p: string -> bool) {
    forall i :: 0 <= i < |open| ==> ElementsAll(open[i].elements, p) && NameAll(open[i].name, p)
  }

  predicate TreesAll(t: Trees, p: string -> bool) {
    (forall i :: 0 <= i < |t.done| ==> JsonAll(t.done[i], p)) && OpenAll(t.open, p)
  }

  predicate CallAll(c: Call, p: string -> bool) {
    match c
    case WriteValue(name, v) => NameAll(name, p) && ScalarAll(v, p)
    case OpenContainer(name, _, _) => NameAll(name, p)
    case CloseContainer(_) => true
  }

  predicate CallsAll(calls: seq<Call>, p: string -> bool) { forall i :: 0 <= i < |calls| ==> CallAll(calls[i], p) }

  lemma AddedAll(t: Trees, name: Name, j: Json, p: string -> bool)
    requires t.open != []
    ensures TreesAll(Added(t, name, j), p) <==> TreesAll(t, p) && NameAll(name, p) && JsonAll(j, p)
  {
    var n := |t.open| - 1;
    var o := Added(t, name, j).open;
    assert forall i :: 0 <= i < n ==> o[i] == t.open[i];
    assert o[n].elements == Elements(t.open[n].elements, name, j) && o[n].name == t.open[n].name;
  }

  /** The strings in the trees are those of the calls. */
  lemma StepAll(t: Trees, c: Call, p: string -> bool)
    requires NamedTrees(t) && Step(t, c).Some?
    ensures TreesAll(Step(t, c).value, p) <==> TreesAll(t, p) && CallAll(c, p)
  {
    match c
    case WriteValue(name, v) => AddedAll(t, name, Value(v), p);
    case OpenContainer(name, kind, _) =>
      var o := t.open + [Pending(kind, Nothing, name)];
      assert o[|t.open|].name == name && forall i :: 0 <= i < |t.open| ==> o[i] == t.open[i];
    case CloseContainer(_) =>
      var n := |t.open| - 1;
      var rest, q := t.(open := t.open[..n]), t.Top();
      var j := Node(q.kind, q.elements);
      assert forall i :: 0 <= i < n ==> rest.open[i] == t.open[i];
      if n > 0 {
        AddedAll(rest, q.name, j, p);
      } else {
        assert t.open[0].name == NoName;
        assert (t.done + [j])[|t.done|] == j && forall i :: 0 <= i < |t.done| ==> (t.done + [j])[i] == t.done[i];
      }
  }

  // ---- the text so far ------------------------------------------------------------------------------

  /** The text consists of these tokens, or is spoilt for good. */
  ghost predicate Shows(out: string, good: bool, ts: seq<Token>) {
    if good then Lex(out) == Some(ts) else forall r: string :: Lex(out + r).None?
  }

  /** A piece of text with its tokens appended. */
  lemma Grows(out: string, good: bool, ts: seq<Token>, piece: string, more: seq<Token>)
    requires Shows(out, good, ts) && Lex(piece) == Some(more) && !(EndsInDigit(out) && BeginsWithDigit(piece))
    ensures Shows(out + piece, good, ts + more)
  {
    hide Lex;
    if good {
      LexAppend(out, piece);
    } else {
      forall r: string
        ensures Lex(out + piece + r).None?
      {
        assert out + piece + r == out + (piece + r);
      }
    }
  }

  /** A string appended: it spoils the text if it has a character without escape. */
  lemma StringGrows(out: string, good: bool, ts: seq<Token>, s: string)
    requires Shows(out, good, ts)
    ensures Shows(out + Quoted(s), good && Printable(s), ts + [TScalar(Text(Cut(s)))])
  {
    if Printable(s) {
      QuotedLexes(s);
      Grows(out, good, ts, Quoted(s), [TScalar(Text(Cut(s)))]);
    } else {
      hide Lex, Cat;
      forall r: string
        ensures Lex(out + Quoted(s) + r).None?
      {
        assert out + Quoted(s) + r == out + (Quoted(s) + r);
        if good {
          QuotedSpoils(s, r);
          LexAppend(out, Quoted(s) + r);
          CatNone(Lex(out), Lex(Quoted(s) + r));
        }
      }
    }
  }

  lemma CatNone(a: Tokens, b: Tokens)
    requires b.None?
    ensures Cat(a, b).None?
  {
  }

  lemma FirstAlone(t: Token)
    ensures First(t, Some([])) == Some([t])
  {
    assert [t] + [] == [t];
  }

  lemma QuotedLexes(s: string)
    requires Printable(s)
    ensures Lex(Quoted(s)) == Some([TScalar(Text(Cut(s)))])
  {
    ReadBack(Cut(s), "");
    LexString(Escaped(Cut(s)) + ("\"" + ""));
    assert Quoted(s) == "\"" + (Escaped(Cut(s)) + ("\"" + ""));
    FirstAlone(TScalar(Text(Cut(s))));
  }

  lemma QuotedSpoils(s: string, r: string)
    requires !Printable(s)
    ensures Lex(Quoted(s) + r).None?
  {
    var i :| 0 <= i < |Cut(s)| && Unescapable(Cut(s)[i]);
    ReadSpoilt(Cut(s), i, "\"" + r);
    LexString(Escaped(Cut(s)) + ("\"" + r));
    assert Quoted(s) + r == "\"" + (Escaped(Cut(s)) + ("\"" + r));
  }

  lemma LexString(s: string)
    ensures Lex("\"" + s) == var r := ReadString(s); if r.None? then None else First(TScalar(Text(r.value.0)), Lex(r.value.1))
  {
    hide ReadString;
    assert ("\"" + s)[1..] == s;
  }

  lemma IntLexes(i: int)
    ensures Lex(IntText(i)) == Some([TScalar(Int(i))])
  {
    hide Lex, LexNumber, DigitsOf;
    if i < 0 {
      DigitsLex(-i, -1);
      LexNegative(DigitsOf(-i));
    } else {
      DigitsLex(i, 1);
      DigitsReadBack(i);
      LexPositive(DigitsOf(i));
    }
  }

  lemma LexPositive(s: string)
    requires s != "" && IsDigit(s[0])
    ensures Lex(s) == LexNumber(s, 1)
  {
    hide LexNumber;
  }

  lemma LexNegative(s: string)
    ensures Lex("-" + s) == LexNumber(s, -1)
  {
    hide LexNumber;
    assert ("-" + s)[1..] == s;
  }

  lemma DigitsLex(n: nat, sign: int)
    ensures LexNumber(DigitsOf(n), sign) == Some([TScalar(Int(sign * n))])
  {
    var d := DigitsOf(n);
    DigitsReadBack(n);
    SpanIs(d, |d|);
    assert d[..|d|] == d && d[|d|..] == "";
    FirstAlone(TScalar(Int(sign * n)));
  }

  function Spaces(n: nat): (s: string)
    ensures |s| == n && forall i :: 0 <= i < n ==> s[i] == ' '
  {
    if n == 0 then "" else " " + Spaces(n - 1)
  }

  lemma {:induction false} SpacesLex(n: nat)
    ensures Lex(Spaces(n)) == Some([])
  {
    if n > 0 {
      SpacesLex(n - 1);
      assert Spaces(n)[1..] == Spaces(n - 1);
    }
  }

  /** The whole text of one value is read back as this value exactly if its strings are clean. */
  lemma DocumentReadBack(out: string, j: Json)
    requires Named(j) && Shows(out, JsonAll(j, Printable), TokensOf(j))
    ensures ParseText(out) == Some(j) <==> JsonAll(j, Clean)
  {
    CleanParts(j);
    CutSame(j);
    if JsonAll(j, Printable) {
      ParseBack(j, []);
      assert TokensOf(j) + [] == TokensOf(j);
    } else {
      assert out + "" == out;
    }
  }

  /** An open container as the writer knows it. */
  datatype Container = Container(kind: Kind, isOneliner: bool)

  class JsonWriter {
    var out: string
    var stack: seq<Container>
    var isCurrentContainerEmpty: bool
    var indentSize: int
    ghost var trees: Trees

    /** The stack mirrors the open containers, the one flag is right about the innermost of them, and the
        text consists of the tokens of the trees. */
    ghost predicate Valid()
      reads this
    {
      && NamedTrees(trees) && Stacked(stack, trees) && (stack != [] ==> (isCurrentContainerEmpty <==> trees.Top().elements == Nothing))
      && Shows(out, TreesAll(trees, Printable), AllTokens(trees))
    }

    constructor (indentSize: int)
      ensures Valid() && trees == Trees([], []) && out == "" && this.indentSize == indentSize
    {
      out, stack, isCurrentContainerEmpty, trees := "", [], true, Trees([], []);
      this.indentSize := indentSize;
      new;
      assert AllTokens(trees) == [] && Lex("") == Some([]);
    }

    /** Quotes a string, up to its first zero, in a buffer that is always large enough. */
    method Quotestr(txt: string) returns (ret: string)
      ensures ret == Quoted(txt)
    {
      hide Escape;
      var buf := new char[4 * |txt| + 3](_ => '\0');
      buf[0] := '"';
      var d, s := 1, 0;
      assert buf[..1] == "\"" && txt[0..] == txt;
      while s < |txt| && txt[s] != '\0'
        invariant 0 <= s <= |txt| && 1 <= d <= 4 * s + 1
        invariant buf[..d] + Escaped(Cut(txt[s..])) == "\"" + Escaped(Cut(txt))
      {
        EscapedStep(buf[..d], txt, s);
        Put(buf, d, Escape(txt[s]));
        d, s := d + |Escape(txt[s])|, s + 1;
      }
      assert Cut(txt[s..]) == "";
      buf[d] := '"';
      assert buf[..d + 1] == buf[..d] + "\"";
      ret := buf[..d + 1];
    }

    static method Put(buf: array<char>, d: nat, e: string)
      requires d + |e| <= buf.Length
      modifies buf
      ensures buf[..d + |e|] == old(buf[..d]) + e
    {
      var k := 0;
      while k < |e|
        invariant 0 <= k <= |e| && buf[..d + k] == old(buf[..d]) + e[..k]
      {
        buf[d + k] := e[k];
        k := k + 1;
      }
    }

    // ---- text ------------------------------------------------------------------------------------------

    method DoWriteNewLine(relDepth: int, ghost good: bool, ghost ts: seq<Token>)
      requires stack != [] && Shows(out, good, ts)
      modifies `out
      ensures Shows(out, good, ts) && !EndsInDigit(out)
    {
      var width := indentSize * (|stack| + relDepth);
      var blank := if stack[|stack| - 1].isOneliner then " " else "\n" + Spaces(if width < 0 then 0 else width);
      BlankGrows(out, good, ts, if width < 0 then 0 else width);
      out := out + blank;
    }

    /** The comma and the line break before the next element. */
    method DoWriteSeparator()
      requires Valid() && stack != []
      modifies `out, `isCurrentContainerEmpty
      ensures Shows(out, TreesAll(trees, Printable), AllTokens(trees) + Separator(trees.open))
      ensures !isCurrentContainerEmpty && !EndsInDigit(out)
    {
      hide Lex, AllTokens, TreesAll;
      ghost var good, ts := TreesAll(trees, Printable), AllTokens(trees);
      if !isCurrentContainerEmpty {
        MarkGrows(out, good, ts, ',', TComma);
        out := out + ",";
      } else {
        isCurrentContainerEmpty := false;
        assert ts + [] == ts;
      }
      DoWriteNewLine(0, good, ts + Separator(trees.open));
    }

    method DoWriteKeyEtc(key: string) returns (ok: bool)
      requires Valid()
      modifies `out, `isCurrentContainerEmpty
      ensures ok <==> Fits(trees, Name(key))
      ensures !ok ==> out == old(out) && isCurrentContainerEmpty == old(isCurrentContainerEmpty)
      ensures ok ==> Shows(out, TreesAll(trees, Printable) && Printable(key), AllTokens(trees) + Separator(trees.open) + NameTokens(Name(key)))
      ensures ok ==> !isCurrentContainerEmpty && !EndsInDigit(out)
    {
      if stack == [] || stack[|stack| - 1].kind != OBJECT {
        return false;
      }
      DoWriteSeparator();
      ghost var good, ts := TreesAll(trees, Printable), AllTokens(trees) + Separator(trees.open);
      var q := Quotestr(key);
      StringGrows(out, good, ts, key);
      out := out + q;
      KeyGrows(out, good && Printable(key), ts, Cut(key));
      out := out + " : ";
      ok := true;
    }

    method DoWriteArraySep() returns (ok: bool)
      requires Valid()
      modifies `out, `isCurrentContainerEmpty
      ensures ok <==> Fits(trees, NoName)
      ensures !ok ==> out == old(out) && isCurrentContainerEmpty == old(isCurrentContainerEmpty)
      ensures ok ==> Shows(out, TreesAll(trees, Printable), AllTokens(trees) + Separator(trees.open) + NameTokens(NoName))
      ensures ok ==> !isCurrentContainerEmpty && !EndsInDigit(out)
    {
      if stack == [] || stack[|stack| - 1].kind != ARRAY {
        return false;
      }
      DoWriteSeparator();
      assert AllTokens(trees) + Separator(trees.open) + [] == AllTokens(trees) + Separator(trees.open);
      ok := true;
    }

    /** What comes before an element: with a name, inside an object, without one, inside an array. */
    method DoWriteStart(name: Name) returns (ok: bool)
      requires Valid()
      modifies `out, `isCurrentContainerEmpty
      ensures ok <==> Fits(trees, name)
      ensures !ok ==> out == old(out) && isCurrentContainerEmpty == old(isCurrentContainerEmpty)
      ensures ok ==> !isCurrentContainerEmpty && !EndsInDigit(out)
      ensures ok ==> Shows(out, TreesAll(trees, Printable) && NameAll(name, Printable), AllTokens(trees) + Separator(trees.open) + NameTokens(name))
    {
      match name {
        case Name(key) => ok := DoWriteKeyEtc(key);
        case NoName => ok := DoWriteArraySep();
      }
    }

    method DoWriteScalar(v: Scalar, ghost good: bool, ghost ts: seq<Token>)
      requires Shows(out, good, ts) && !EndsInDigit(out)
      modifies `out
      ensures Shows(out, good && ScalarAll(v, Printable), ts + [TScalar(CutScalar(v))])
    {
      match v {
        case Bool(b) =>
          BoolGrows(out, good, ts, b);
          out := out + if b then "true" else "false";
        case Int(i) =>
          IntLexes(i);
          Grows(out, good, ts, IntText(i), [TScalar(v)]);
          out := out + IntText(i);
        case Text(s) =>
          StringGrows(out, good, ts, s);
          var q := Quotestr(s);
          out := out + q;
      }
    }

    // ---- calls ------------------------------------------------------------------------------------------

    /** Writes a value; the calls for the types of scalars, with a key and without. */
    method WriteValue(name: Name, v: Scalar) returns (ok: bool)
      requires Valid()
      modifies this
      ensures Valid() && indentSize == old(indentSize)
      ensures Taken(old(trees), trees, Call.WriteValue(name, v), ok)
      ensures !ok ==> out == old(out) && stack == old(stack) && isCurrentContainerEmpty == old(isCurrentContainerEmpty)
    {
      hide Shows, AllTokens, TreesAll, NamedTrees;
      ok := DoWriteStart(name);
      if ok {
        ghost var c := Call.WriteValue(name, v);
        DoWriteScalar(v, TreesAll(trees, Printable) && NameAll(name, Printable), AllTokens(trees) + Separator(trees.open) + NameTokens(name));
        AddedTokens(trees, name, Value(v));
        StepAll(trees, c, Printable);
        NamedStep(trees, c);
        trees := Added(trees, name, Value(v));
      }
    }

    /** Opens an object or an array; within a container written on one line it is written so too. */
    method OpenContainer(name: Name, kind: Kind, isOneliner: bool) returns (ok: bool)
      requires Valid()
      modifies this
      ensures Valid() && indentSize == old(indentSize)
      ensures Taken(old(trees), trees, Call.OpenContainer(name, kind, isOneliner), ok)
      ensures !ok ==> out == old(out) && stack == old(stack) && isCurrentContainerEmpty == old(isCurrentContainerEmpty)
    {
      hide Shows, AllTokens, TreesAll, NamedTrees;
      var one := isOneliner;
      ghost var ts := AllTokens(trees) + Separator(trees.open) + NameTokens(name);
      if name.Name? || stack != [] {
        ok := DoWriteStart(name);
        if !ok {
          return;
        }
        one := one || stack[|stack| - 1].isOneliner;
      }
      assert name == NoName && stack == [] ==> ts == AllTokens(trees);
      ghost var c := Call.OpenContainer(name, kind, isOneliner);
      MarkGrows(out, TreesAll(trees, Printable) && NameAll(name, Printable), ts, OpenMark(kind), TOpen(kind));
      stack := stack + [Container(kind, one)];
      out := out + [OpenMark(kind)];
      isCurrentContainerEmpty := true;
      OpenedTokens(trees, name, kind);
      StepAll(trees, c, Printable);
      NamedStep(trees, c);
      trees := trees.(open := trees.open + [Pending(kind, Nothing, name)]);
      ok := true;
    }

    method CloseContainer(kind: Kind) returns (ok: bool)
      requires Valid()
      modifies this
      ensures Valid() && indentSize == old(indentSize)
      ensures Taken(old(trees), trees, Call.CloseContainer(kind), ok)
      ensures !ok ==> out == old(out) && stack == old(stack) && isCurrentContainerEmpty == old(isCurrentContainerEmpty)
    {
      hide Shows, AllTokens, TreesAll, NamedTrees;
      if stack == [] || stack[|stack| - 1].kind != kind {
        return false;
      }
      ghost var c, good, ts := Call.CloseContainer(kind), TreesAll(trees, Printable), AllTokens(trees);
      DoWriteNewLine(-1, good, ts);
      MarkGrows(out, good, ts, CloseMark(kind), TClose(kind));
      out := out + [CloseMark(kind)];
      stack := stack[..|stack| - 1];
      isCurrentContainerEmpty := false;
      if stack == [] {
        EndGrows(out, good, ts + [TClose(kind)]);
        out := out + "\n";
      }
      ClosedTokens(trees);
      StepAll(trees, c, Printable);
      NamedStep(trees, c);
      trees := Closed(trees);
      ok := true;
    }

    method Perform(c: Call) returns (ok: bool)
      requires Valid()
      modifies this
      ensures Valid() && Taken(old(trees), trees, c, ok)
      ensures !ok ==> out == old(out) && stack == old(stack) && isCurrentContainerEmpty == old(isCurrentContainerEmpty)
    {
      match c {
        case WriteValue(name, v) => ok := WriteValue(name, v);
        case OpenContainer(name, kind, isOneliner) => ok := OpenContainer(name, kind, isOneliner);
        case CloseContainer(kind) => ok := CloseContainer(kind);
      }
    }

    /** Any sequence of calls, up to the first that throws. If none throws and the calls leave one value,
        the text is read back as the tree of the calls exactly if their strings are clean. */
    static method Document(calls: seq<Call>, indentSize: int) returns (thrown: bool, text: string)
      ensures thrown <==> Steps(Trees([], []), calls).None?
      ensures !thrown ==>
                var t := Steps(Trees([], []), calls).value;
                |t.done| == 1 && t.open == [] ==> (ParseText(text) == Some(t.done[0]) <==> CallsAll(calls, Clean))
    {
      var w := new JsonWriter(indentSize);
      ghost var start := w.trees;
      var i := 0;
      assert calls[..0] == [];
      while i < |calls|
        invariant fresh(w) && w.Valid() && 0 <= i <= |calls| && Steps(start, calls[..i]) == Some(w.trees)
      {
        StepsSnoc(start, calls, i);
        var ok := w.Perform(calls[i]);
        if !ok {
          StepsFail(start, calls, i + 1);
          return true, w.out;
        }
        i := i + 1;
      }
      assert calls[..i] == calls;
      thrown, text := false, w.out;
      if |w.trees.done| == 1 && w.trees.open == [] { CallsReadBack(text, calls, w.trees); }
    }
  }

  /** What a call makes of the trees, and whether it throws. */
  ghost predicate Taken(before: Trees, after: Trees, c: Call, ok: bool) {
    (ok <==> Step(before, c).Some?) && after == if ok then Step(before, c).value else before
  }

  function OpenMark(kind: Kind): (c: char)
    ensures Mark(c) == Some(TOpen(kind))
  {
    match kind case OBJECT => '{' case ARRAY => '['
  }

  function CloseMark(kind: Kind): (c: char)
    ensures Mark(c) == Some(TClose(kind))
  {
    match kind case OBJECT => '}' case ARRAY => ']'
  }

  lemma EndGrows(out: string, good: bool, ts: seq<Token>)
    requires Shows(out, good, ts)
    ensures Shows(out + "\n", good, ts)
  {
    assert "\n"[1..] == "";
    Grows(out, good, ts, "\n", []);
    assert ts + [] == ts;
  }

  /** All strings of the trees come from the calls. */
  lemma {:induction false} StepsAll(t: Trees, calls: seq<Call>, p: string -> bool)
    requires NamedTrees(t) && Steps(t, calls).Some?
    ensures NamedTrees(Steps(t, calls).value)
    ensures TreesAll(Steps(t, calls).value, p) <==> TreesAll(t, p) && CallsAll(calls, p)
  {
    if calls != [] {
      var init, c := calls[..|calls| - 1], calls[|calls| - 1];
      StepsAll(t, init, p);
      StepAll(Steps(t, init).value, c, p);
      NamedStep(Steps(t, init).value, c);
      assert forall i :: 0 <= i < |init| ==> calls[i] == init[i];
    }
  }

  lemma CallsReadBack(text: string, calls: seq<Call>, t: Trees)
    requires Steps(Trees([], []), calls) == Some(t) && |t.done| == 1 && t.open == []
    requires Shows(text, TreesAll(t, Printable), AllTokens(t))
    ensures ParseText(text) == Some(t.done[0]) <==> CallsAll(calls, Clean)
  {
    StepsAll(Trees([], []), calls, Printable);
    StepsAll(Trees([], []), calls, Clean);
    assert t.done == [t.done[0]] && t.done[..0] == [];
    assert DoneTokens(t.done) == DoneTokens([]) + TokensOf(t.done[0]) && AllTokens(t) == TokensOf(t.done[0]);
    DocumentReadBack(text, t.done[0]);
  }

  lemma EscapedStep(before: string, txt: string, s: nat)
    requires s < |txt| && txt[s] != '\0'
    ensures before + Escaped(Cut(txt[s..])) == before + Escape(txt[s]) + Escaped(Cut(txt[s + 1..]))
  {
    assert txt[s..][1..] == txt[s + 1..];
  }

  ghost predicate Stacked(stack: seq<Container>, t: Trees) {
    |stack| == |t.open| && forall i :: 0 <= i < |stack| ==> stack[i].kind == t.open[i].kind
  }

  lemma BlankGrows(out: string, good: bool, ts: seq<Token>, n: nat)
    requires Shows(out, good, ts)
    ensures Shows(out + " ", good, ts) && !EndsInDigit(out + " ")
    ensures Shows(out + ("\n" + Spaces(n)), good, ts) && !EndsInDigit(out + ("\n" + Spaces(n)))
  {
    SpacesLex(n);
    SpacesLex(1);
    var line := "\n" + Spaces(n);
    assert Spaces(1) == " " && line[1..] == Spaces(n);
    Grows(out, good, ts, " ", []);
    Grows(out, good, ts, line, []);
    assert ts + [] == ts;
    assert (out + line)[|out + line| - 1] == line[|line| - 1];
    if n > 0 { assert line[|line| - 1] == Spaces(n)[n - 1]; }
  }

  lemma MarkGrows(out: string, good: bool, ts: seq<Token>, c: char, t: Token)
    requires Shows(out, good, ts) && Mark(c) == Some(t)
    ensures Shows(out + [c], good, ts + [t])
  {
    assert [c][1..] == "";
    FirstAlone(t);
    Grows(out, good, ts, [c], [t]);
  }

  lemma KeyGrows(out: string, good: bool, ts: seq<Token>, key: string)
    requires Shows(out, good, ts + [TScalar(Text(key))])
    ensures Shows(out + " : ", good, ts + [TScalar(Text(key)), TColon]) && !EndsInDigit(out + " : ")
  {
    var k := ts + [TScalar(Text(key))];
    assert " : "[1..] == ": " && ": "[1..] == " " && " "[1..] == "";
    FirstAlone(TColon);
    Grows(out, good, k, " : ", [TColon]);
    assert k + [TColon] == ts + [TScalar(Text(key)), TColon];
  }

  lemma BoolGrows(out: string, good: bool, ts: seq<Token>, b: bool)
    requires Shows(out, good, ts)
    ensures Shows(out + if b then "true" else "false", good, ts + [TScalar(Bool(b))])
  {
    var piece := if b then "true" else "false";
    assert "true"[4..] == "" && "false"[5..] == "";
    FirstAlone(TScalar(Bool(b)));
    Grows(out, good, ts, piece, [TScalar(Bool(b))]);
  }
}
