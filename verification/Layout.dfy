/** How a tree is laid out when it is printed: the printed text as a text of the grammar, gap by gap. */
module Layouts {
  import opened Basics
  import opened CStrings
  import opened JsonModel
  import opened Literals
  import opened Pointers
  import opened Printing
  import opened Grammar
  import B = PrintBuffers

  predicate Printable(j: Json) { Storable(j) && Complete(j) }

  predicate ChainPrintable(ns: Nodes, named: bool) { ChainStorable(ns, named) && ChainComplete(ns) }

  // ---------- strings ----------

  /** How a character is written: an escape by letter, four digits, or the character itself. */
  function PieceOf(ch: char): Piece {
    if ch == '\\' then Short('\\')
    else if ch == '\"' then Short('\"')
    else if ch == 8 as char then Short('b')
    else if ch == 12 as char then Short('f')
    else if ch == '\n' then Short('n')
    else if ch == '\r' then Short('r')
    else if ch == '\t' then Short('t')
    else if ch < ' ' then Single(ControlDigits(ch))
    else Plain(ch)
  }

  function ControlDigits(ch: char): seq<char>
    requires ch < ' '
  {
    ['0', '0', LOWER_DIGITS[ch as nat / 16], LOWER_DIGITS[ch as nat % 16]]
  }

  lemma ControlRead(ch: char)
    requires ch < ' '
    ensures AllHex(ControlDigits(ch)) && HexOfFour(ControlDigits(ch)) == ch as nat
  {
    hide ParseHex4, AllHex;
    var digits := ControlDigits(ch);
    assert WritesHex(digits, ch as nat);
    HexRead(digits, ch as nat);
  }

  lemma HexDigitIsLower(d: nat)
    requires d < 16
    ensures HexDigit(d) == LOWER_DIGITS[d]
  {
  }

  lemma ControlEscaped(ch: char)
    requires ch < ' ' && ch !in [8 as char, 12 as char, '\n', '\r', '\t']
    ensures Escape(ch) == ['\\', 'u'] + ControlDigits(ch)
  {
    hide HexDigit;
    HexDigitIsLower(ch as nat / 16);
    HexDigitIsLower(ch as nat % 16);
  }

  lemma PieceSpells(ch: char)
    requires ch != '\0'
    ensures WellFormedPiece(PieceOf(ch)) && Written(PieceOf(ch)) == Escape(ch) && Bytes(PieceOf(ch)) == [ch]
  {
    hide HexOfFour, AllHex, ControlDigits, HexDigit;
    if ch < ' ' && ch !in [8 as char, 12 as char, '\n', '\r', '\t'] {
      ControlRead(ch);
      ControlEscaped(ch);
    }
  }

  function PiecesOf(s: string): (xs: seq<Piece>)
    ensures |xs| == |s|
  {
    if s == "" then [] else [PieceOf(s[0])] + PiecesOf(s[1..])
  }

  lemma {:induction false} PiecesSpell(s: string)
    requires NulFree(s)
    ensures WellFormedPieces(PiecesOf(s)) && WrittenAll(PiecesOf(s)) == EscapeAll(s) && BytesAll(PiecesOf(s)) == s
  {
    hide PieceOf, WellFormedPiece, Written, Bytes, Escape;
    if s != "" {
      PieceSpells(s[0]);
      PiecesSpell(s[1..]);
      assert PiecesOf(s)[1..] == PiecesOf(s[1..]);
    }
  }

  function LiteralOf(s: string): Quoted { Quoted(WrittenAll(PiecesOf(s)), s) }

  lemma StringLaid(s: string)
    requires NulFree(s)
    ensures StringText(s) == QuotedText(LiteralOf(s)) && Spelled(LiteralOf(s))
  {
    hide WrittenAll, BytesAll, EscapeAll, CString, PiecesOf;
    PiecesSpell(s);
    EscapeAllNulFree(s);
    CStringOfNulFree(s);
    assert Spells(LiteralOf(s), PiecesOf(s));
  }

  // ---------- gaps ----------

  function TabGap(n: nat): Gap {
    if n == 0 then [] else [Blank('\t')] + TabGap(n - 1)
  }

  /** A new line, indented by `n` tabs, in a formatted text. */
  function NewLine(format: bool, n: nat): Gap {
    if format then [Blank('\n')] + TabGap(n) else []
  }

  function One(ch: char, format: bool): Gap {
    if format then [Blank(ch)] else []
  }

  // ---------- the layout ----------

  /** A formatted object has each member and its closing brace on a line of its own; arrays stay on one line. */
  function Layout(j: Json, format: bool, d: nat): Syntax {
    match j
    case Invalid => NullWord
    case Null => NullWord
    case False => FalseWord
    case True => TrueWord
    case Number(n) => Integer(n < 0, Decimal(if n < 0 then -n else n))
    case Str(s) => Literal(LiteralOf(s))
    case Array(ns) => if ns.End? then EmptyArray([]) else FullArray(LayoutItems(ns, [], format, d + 1))
    case Object(ns) => if ns.End? then EmptyObject(NewLine(format, d)) else FullObject(LayoutMembers(ns, format, d))
  }

  function LayoutItems(ns: Nodes, before: Gap, format: bool, d: nat): Elements
    requires ns.Node?
  {
    Element(Slot(before, Layout(ns.value, format, d), []),
      if ns.next.End? then None else Some(LayoutItems(ns.next, One(' ', format), format, d)))
  }

  function LayoutMembers(ns: Nodes, format: bool, d: nat): Members
    requires ns.Node?
  {
    Member(NewLine(format, d + 1), LiteralOf(ns.key), [],
      Slot(One('\t', format), Layout(ns.value, format, d + 1), if ns.next.End? then NewLine(format, d) else []),
      if ns.next.End? then None else Some(LayoutMembers(ns.next, format, d)))
  }

  // ---------- printing follows the layout ----------

  function LineEnd(format: bool): string { if format then "\n" else "" }

  function Indent(format: bool, n: nat): string { if format then Tabs(n) else "" }

  lemma {:induction false} TabsLaid(n: nat, rest: string)
    ensures GapText(TabGap(n), rest) == Tabs(n) + rest
  {
    if n == 0 {
      assert "" + rest == rest;
    } else {
      TabsLaid(n - 1, rest);
      Associate("\t", Tabs(n - 1), rest);
    }
  }

  lemma NewLineLaid(format: bool, n: nat, rest: string)
    ensures GapText(NewLine(format, n), rest) == LineEnd(format) + (Indent(format, n) + rest)
  {
    if format {
      TabsLaid(n, rest);
      assert NewLine(format, n)[1..] == TabGap(n);
    } else {
      assert "" + ("" + rest) == rest;
    }
  }

  lemma OneLaid(ch: char, format: bool, rest: string)
    ensures GapText(One(ch, format), rest) == if format then [ch] + rest else rest
  {
  }

  lemma {:induction false} TextLaid(j: Json, format: bool, d: nat, rest: string)
    requires Printable(j)
    ensures Text(j, format, d) + rest == Spell(Layout(j, format, d), rest)
    decreases j, 1
  {
    hide StringText, ItemsText, MembersText, LiteralOf, Tabs, GapText, NewLine;
    match j
    case Str(s) => StringLaid(s);
    case Array(ns) => ArrayLaid(ns, format, d, rest);
    case Object(ns) => ObjectLaid(ns, format, d, rest);
    case _ =>
  }

  lemma {:induction false} ArrayLaid(ns: Nodes, format: bool, d: nat, rest: string)
    requires ChainPrintable(ns, false)
    ensures Text(Array(ns), format, d) + rest == Spell(Layout(Array(ns), format, d), rest)
    decreases ns, 3
  {
    hide ItemsText, SpellElements, LayoutItems;
    var items := ItemsText(ns, format, d + 1);
    Associate("[" + items, "]", rest);
    Associate("[", items, "]" + rest);
    if ns.End? {
      NoItems(format, d + 1);
      assert items + ("]" + rest) == "]" + rest;
    } else {
      ItemsLaid(ns, [], format, d + 1, "]" + rest);
    }
  }

  lemma NoItems(format: bool, d: nat)
    ensures ItemsText(End, format, d) == "" && MembersText(End, format, d) == ""
  {
  }

  lemma {:induction false} ItemsLaid(ns: Nodes, before: Gap, format: bool, d: nat, rest: string)
    requires ns.Node? && ChainPrintable(ns, false)
    ensures GapText(before, ItemsText(ns, format, d) + rest) == SpellElements(LayoutItems(ns, before, format, d), rest)
    decreases ns, 2
  {
    hide Text, Spell, Layout, GapText, One;
    var t, comma, others := Text(ns.value, format, d), CommaText(ns.next.End?, format), ItemsText(ns.next, format, d);
    Associate(t + comma, others, rest);
    Associate(t, comma, others + rest);
    if ns.next.End? {
      assert comma + (others + rest) == rest;
    } else {
      ItemsLaid(ns.next, One(' ', format), format, d, rest);
      OneLaid(' ', format, others + rest);
      assert comma + (others + rest) == "," + GapText(One(' ', format), others + rest);
    }
    TextLaid(ns.value, format, d, comma + (others + rest));
    NoGap(comma + (others + rest));
  }

  lemma NoGap(rest: string)
    ensures GapText([], rest) == rest
  {
  }

  lemma {:induction false} ObjectLaid(ns: Nodes, format: bool, d: nat, rest: string)
    requires ChainPrintable(ns, true)
    ensures Text(Object(ns), format, d) + rest == Spell(Layout(Object(ns), format, d), rest)
    decreases ns, 3
  {
    hide MembersText, SpellMembers, LayoutMembers, NewLine;
    var members, close := MembersText(ns, format, d + 1), CloseText(format, d);
    Associate(OpenText(format) + members, close, rest);
    Associate(OpenText(format), members, close + rest);
    assert OpenText(format) == "{" + LineEnd(format);
    Associate("{", LineEnd(format), members + (close + rest));
    if ns.End? {
      NoItems(format, d + 1);
      NewLineLaid(format, d, "}" + rest);
      Associate(Indent(format, d), "}", rest);
      assert members + (close + rest) == close + rest;
    } else {
      MembersLaid(ns, format, d, rest);
    }
  }

  /** A key and its colon, behind the line end. */
  lemma KeyLaid(key: string, format: bool, d: nat, rest: string)
    requires NulFree(key)
    ensures LineEnd(format) + (KeyText(key, format, d) + rest)
         == GapText(NewLine(format, d), QuotedText(LiteralOf(key)) + (":" + GapText(One('\t', format), rest)))
  {
    hide StringText, QuotedText, LiteralOf, GapText, NewLine, One, Tabs;
    var tabs, s, colon := Indent(format, d), StringText(key), ColonText(format);
    StringLaid(key);
    OneLaid('\t', format, rest);
    assert colon + rest == ":" + GapText(One('\t', format), rest);
    Associate(tabs + s, colon, rest);
    Associate(tabs, s, colon + rest);
    NewLineLaid(format, d, s + (colon + rest));
  }

  /** What stands behind a member: a comma and the next line, or the closing line. */
  lemma TailLaid(last: bool, format: bool, others: string)
    ensures TailText(last, format) + others == (if last then "" else ",") + (LineEnd(format) + others)
  {
    Associate(if last then "" else ",", LineEnd(format), others);
  }

  lemma {:induction false} MembersLaid(ns: Nodes, format: bool, d: nat, rest: string)
    requires ns.Node? && ChainPrintable(ns, true)
    ensures LineEnd(format) + (MembersText(ns, format, d + 1) + (CloseText(format, d) + rest))
         == SpellMembers(LayoutMembers(ns, format, d), "}" + rest)
    decreases ns, 2
  {
    hide Text, Spell, Layout, GapText, One, NewLine, KeyText, TailText, QuotedText, LiteralOf, CloseText, Tabs;
    var key, t := KeyText(ns.key, format, d + 1), Text(ns.value, format, d + 1);
    var tail, others := TailText(ns.next.End?, format), MembersText(ns.next, format, d + 1) + (CloseText(format, d) + rest);
    MembersUnfold(ns, format, d + 1, CloseText(format, d) + rest);
    KeyLaid(ns.key, format, d + 1, t + (tail + others));
    TailLaid(ns.next.End?, format, others);
    TextLaid(ns.value, format, d + 1, tail + others);
    NoGap(tail + others);
    NoGap(":" + GapText(One('\t', format), t + (tail + others)));
    if ns.next.End? {
      ClosingLine(format, d, rest);
    } else {
      MembersLaid(ns.next, format, d, rest);
    }
  }

  lemma MembersUnfold(ns: Nodes, format: bool, d: nat, rest: string)
    requires ns.Node?
    ensures MembersText(ns, format, d) + rest
         == KeyText(ns.key, format, d)
            + (Text(ns.value, format, d) + (TailText(ns.next.End?, format) + (MembersText(ns.next, format, d) + rest)))
  {
    hide KeyText, TailText;
    var key, t := KeyText(ns.key, format, d), Text(ns.value, format, d);
    var tail, others := TailText(ns.next.End?, format), MembersText(ns.next, format, d);
    Associate(key + t + tail, others, rest);
    Associate(key + t, tail, others + rest);
    Associate(key, t, tail + (others + rest));
  }

  lemma ClosingLine(format: bool, d: nat, rest: string)
    ensures "" + (LineEnd(format) + (MembersText(End, format, d + 1) + (CloseText(format, d) + rest)))
         == GapText(NewLine(format, d), "}" + rest)
  {
    NewLineLaid(format, d, "}" + rest);
    Associate(Indent(format, d), "}", rest);
    assert CloseText(format, d) == Indent(format, d) + "}";
    var close := CloseText(format, d) + rest;
    assert "" + close == close;
    var line := LineEnd(format) + close;
    assert "" + line == line;
  }

  // ---------- the layout spells the tree ----------

  /** Array elements lose the names they may carry from an earlier life in an object. */
  function Unnamed(j: Json): Json {
    match j
    case Array(ns) => Array(UnnamedChain(ns, false))
    case Object(ns) => Object(UnnamedChain(ns, true))
    case _ => j
  }

  function UnnamedChain(ns: Nodes, named: bool): Nodes {
    if ns.End? then End else Node(if named then ns.key else "", Unnamed(ns.value), UnnamedChain(ns.next, named))
  }

  lemma NumberLaid(n: int, format: bool, d: nat)
    requires -TEN_TO_15 < n < TEN_TO_15
    ensures SyntaxOk(Layout(Number(n), format, d), Space, Spelled) && Tree(Layout(Number(n), format, d)) == Number(n)
  {
    hide Decimal, NumberOf;
    NumberOfDecimal(if n < 0 then -n else n);
    B.NumberFits(n);
  }

  lemma GapsLaid(format: bool, n: nat)
    ensures GapOk(NewLine(format, n), Space) && GapOk(One(' ', format), Space) && GapOk(One('\t', format), Space)
  {
    TabsOk(n);
  }

  lemma {:induction false} TabsOk(n: nat)
    ensures GapOk(TabGap(n), Space)
  {
    if n > 0 { TabsOk(n - 1); }
  }

  lemma {:induction false} LayoutSpells(j: Json, format: bool, d: nat)
    requires Printable(j)
    ensures SyntaxOk(Layout(j, format, d), Space, Spelled) && Tree(Layout(j, format, d)) == Unnamed(j)
    decreases j, 1
  {
    hide LiteralOf, Spelled, NewLine, LayoutItems, LayoutMembers, GapOk;
    match j
    case Number(n) => NumberLaid(n, format, d);
    case Str(s) => StringLaid(s); NameKept(s);
    case Array(ns) =>
      EmptyGap();
      if ns.Node? { ItemsSpell(ns, [], format, d + 1); }
    case Object(ns) =>
      GapsLaid(format, d);
      if ns.Node? { MembersSpell(ns, format, d); }
    case _ =>
  }

  lemma NameKept(s: string)
    ensures LiteralOf(s).text == s
  {
  }

  lemma EmptyGap()
    ensures GapOk([], Space)
  {
  }

  lemma {:induction false} ItemsSpell(ns: Nodes, before: Gap, format: bool, d: nat)
    requires ns.Node? && ChainPrintable(ns, false) && GapOk(before, Space)
    ensures ElementsOk(LayoutItems(ns, before, format, d), Space, Spelled)
    ensures ElementTrees(LayoutItems(ns, before, format, d)) == UnnamedChain(ns, false)
    decreases ns, 0
  {
    hide Layout, SyntaxOk, Spelled, One, GapOk, Tree, Unnamed;
    LayoutSpells(ns.value, format, d);
    GapsLaid(format, d);
    EmptyGap();
    if ns.next.Node? { ItemsSpell(ns.next, One(' ', format), format, d); }
  }

  lemma {:induction false} MembersSpell(ns: Nodes, format: bool, d: nat)
    requires ns.Node? && ChainPrintable(ns, true)
    ensures MembersOk(LayoutMembers(ns, format, d), Space, Spelled)
    ensures MemberTrees(LayoutMembers(ns, format, d)) == UnnamedChain(ns, true)
    decreases ns, 0
  {
    hide Layout, LiteralOf, SyntaxOk, Spelled, NewLine, One, GapOk, Tree, Unnamed;
    LayoutSpells(ns.value, format, d + 1);
    GapsLaid(format, d);
    GapsLaid(format, d + 1);
    EmptyGap();
    StringLaid(ns.key);
    NameKept(ns.key);
    if ns.next.Node? { MembersSpell(ns.next, format, d); }
  }
}
