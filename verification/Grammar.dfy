/** The texts of section 2 of RFC 8259 as data, and the texts the parser accepts. */
module Grammar {
  import opened Basics
  import opened CStrings
  import opened JsonModel
  import opened Literals
  import opened Pointers
  import opened Parsing

  // ---------- texts ----------

  /** What may stand between two tokens. */
  datatype Filler = Blank(ch: char) | LineComment(text: string) | BlockComment(text: string)

  type Gap = seq<Filler>

  /** A string literal: the characters between the quotes, and the text it stands for. */
  datatype Quoted = Quoted(raw: string, text: string)

  /** A value, without the gaps around it. */
  datatype Syntax =
    | NullWord
    | FalseWord
    | TrueWord
    | Integer(minus: bool, digits: string)
    | Literal(quoted: Quoted)
    | EmptyArray(inside: Gap)
    | FullArray(elements: Elements)
    | EmptyObject(inside: Gap)
    | FullObject(members: Members)

  /** A value and the gaps on both sides. */
  datatype Slot = Slot(before: Gap, value: Syntax, after: Gap)

  datatype Elements = Element(slot: Slot, more: Option<Elements>)

  datatype Members = Member(before: Gap, name: Quoted, after: Gap, slot: Slot, more: Option<Members>)

  function FillerText(f: Filler): string {
    match f
    case Blank(ch) => [ch]
    case LineComment(text) => "//" + text + "\n"
    case BlockComment(text) => "/*" + text + "*/"
  }

  // The text of each part, with `rest` behind it.

  function GapText(g: Gap, rest: string): string {
    if g == [] then rest else FillerText(g[0]) + GapText(g[1..], rest)
  }

  function QuotedText(q: Quoted): string { "\"" + q.raw + "\"" }

  function Spell(s: Syntax, rest: string): string
    decreases s
  {
    match s
    case NullWord => "null" + rest
    case FalseWord => "false" + rest
    case TrueWord => "true" + rest
    case Integer(minus, digits) => (if minus then "-" + digits else digits) + rest
    case Literal(quoted) => QuotedText(quoted) + rest
    case EmptyArray(inside) => "[" + GapText(inside, "]" + rest)
    case FullArray(elements) => "[" + SpellElements(elements, "]" + rest)
    case EmptyObject(inside) => "{" + GapText(inside, "}" + rest)
    case FullObject(members) => "{" + SpellMembers(members, "}" + rest)
  }

  function SpellSlot(x: Slot, rest: string): string
    decreases x
  {
    GapText(x.before, Spell(x.value, GapText(x.after, rest)))
  }

  function SpellElements(es: Elements, rest: string): string
    decreases es
  {
    SpellSlot(es.slot, if es.more.None? then rest else "," + SpellElements(es.more.value, rest))
  }

  function SpellMembers(ms: Members, rest: string): string
    decreases ms
  {
    GapText(ms.before, QuotedText(ms.name) + GapText(ms.after, ":" +
      SpellSlot(ms.slot, if ms.more.None? then rest else "," + SpellMembers(ms.more.value, rest))))
  }

  // ---------- the tree that is spelled ----------

  function Tree(s: Syntax): Json {
    match s
    case NullWord => Null
    case FalseWord => False
    case TrueWord => True
    case Integer(minus, digits) =>
      if AllDigits(digits) then Number(if minus then -(NumberOf(digits) as int) else NumberOf(digits)) else Invalid
    case Literal(quoted) => Str(quoted.text)
    case EmptyArray(_) => Array(End)
    case FullArray(elements) => Array(ElementTrees(elements))
    case EmptyObject(_) => Object(End)
    case FullObject(members) => Object(MemberTrees(members))
  }

  function ElementTrees(es: Elements): Nodes {
    Node("", Tree(es.slot.value), if es.more.None? then End else ElementTrees(es.more.value))
  }

  function MemberTrees(ms: Members): Nodes {
    Node(ms.name.text, Tree(ms.slot.value),
      if ms.more.None? then End else MemberTrees(ms.more.value))
  }

  function Max(a: nat, b: nat): nat { if a > b then a else b }

  /** How deep arrays and objects are nested. */
  function Height(j: Json): nat {
    if j.Array? || j.Object? then 1 + ChainHeight(j.child) else 0
  }

  function ChainHeight(ns: Nodes): nat {
    if ns.End? then 0 else Max(Height(ns.value), ChainHeight(ns.next))
  }

  // ---------- which texts are meant ----------

  /** Gaps made of such fillers only, and such literals only; an integer has at most 63 characters. */
  ghost predicate SyntaxOk(s: Syntax, filler: Filler -> bool, literal: Quoted -> bool)
    decreases s
  {
    match s
    case Integer(minus, digits) => digits != "" && AllDigits(digits) && |digits| + (if minus then 1 else 0) <= 63
    case Literal(quoted) => literal(quoted)
    case EmptyArray(inside) => GapOk(inside, filler)
    case FullArray(elements) => ElementsOk(elements, filler, literal)
    case EmptyObject(inside) => GapOk(inside, filler)
    case FullObject(members) => MembersOk(members, filler, literal)
    case _ => true
  }

  predicate GapOk(g: Gap, filler: Filler -> bool) {
    forall i :: 0 <= i < |g| ==> filler(g[i])
  }

  ghost predicate SlotOk(x: Slot, filler: Filler -> bool, literal: Quoted -> bool)
    decreases x
  {
    GapOk(x.before, filler) && SyntaxOk(x.value, filler, literal) && GapOk(x.after, filler)
  }

  ghost predicate ElementsOk(es: Elements, filler: Filler -> bool, literal: Quoted -> bool)
    decreases es
  {
    SlotOk(es.slot, filler, literal) && (es.more.Some? ==> ElementsOk(es.more.value, filler, literal))
  }

  ghost predicate MembersOk(ms: Members, filler: Filler -> bool, literal: Quoted -> bool)
    decreases ms
  {
    && GapOk(ms.before, filler) && literal(ms.name) && GapOk(ms.after, filler)
    && SlotOk(ms.slot, filler, literal) && (ms.more.Some? ==> MembersOk(ms.more.value, filler, literal))
  }

  /** The whitespace of RFC 8259. */
  predicate Space(f: Filler) {
    f.Blank? && (f.ch == ' ' || f.ch == '\t' || f.ch == '\n' || f.ch == '\r')
  }

  /** What the parser skips: control characters as well. */
  predicate Skipped(f: Filler) {
    f.Blank? && '\0' < f.ch <= ' '
  }

  /** A literal as section 7 of RFC 8259 spells it, and the UTF-8 form of its characters up to the first NUL. */
  predicate Spells(q: Quoted, xs: seq<Piece>) {
    WellFormedPieces(xs) && NulFree(q.raw) && q.raw == WrittenAll(xs) && q.text == CString(BytesAll(xs))
  }

  ghost predicate Spelled(q: Quoted) {
    exists xs :: Spells(q, xs)
  }

  /** A literal that parse_string takes, standing alone. */
  predicate Taken(q: Quoted) {
    NulFree(q.raw) && ParseString(QuotedText(q), 0) == Some((q.text, |QuotedText(q)|))
  }

  // ---------- literals are read alike wherever they stand ----------

  /** The `n` characters from `p` on in `c` are those from `q` on in `d`. */
  predicate Same(c: seq<char>, p: nat, d: seq<char>, q: nat, n: nat) {
    p + n <= |c| && q + n <= |d| && c[p..p + n] == d[q..q + n]
  }

  lemma SameAt(c: seq<char>, p: nat, d: seq<char>, q: nat, n: nat, i: nat)
    requires Same(c, p, d, q, n) && i < n
    ensures p + i < |c| && q + i < |d| && c[p + i] == d[q + i]
  {
    assert c[p..p + n][i] == d[q..q + n][i];
  }

  lemma SamePart(c: seq<char>, p: nat, d: seq<char>, q: nat, n: nat, i: nat, m: nat)
    requires Same(c, p, d, q, n) && i + m <= n
    ensures Same(c, p + i, d, q + i, m)
  {
    var x, y := c[p + i..p + i + m], d[q + i..q + i + m];
    forall k | 0 <= k < m ensures x[k] == y[k] { SameAt(c, p, d, q, n, i + k); }
  }

  lemma {:induction false} SameEnd(c: seq<char>, p: nat, d: seq<char>, q: nat, n: nat)
    requires Same(c, p, d, q, n + 1) && FindEnd(d, q) == Some(q + n)
    ensures FindEnd(c, p) == Some(p + n)
    decreases n
  {
    hide Same;
    SameAt(c, p, d, q, n + 1, 0);
    if n > 0 {
      var k := if d[q] == '\\' then 2 else 1;
      SameAt(c, p, d, q, n + 1, 1);
      SamePart(c, p, d, q, n + 1, k, n + 1 - k);
      SameEnd(c, p + k, d, q + k, n - k);
    }
  }

  lemma SameConvert(c: seq<char>, p: nat, d: seq<char>, q: nat, n: nat)
    requires 0 < n && Same(c, p, d, q, n + 1)
    ensures Convert(c, p, p + n) == Convert(d, q, q + n)
  {
    hide ParseHex4, Same;
    SameAt(c, p, d, q, n + 1, 0);
    if n >= 6 {
      SamePart(c, p, d, q, n + 1, 2, 4);
      SameSlice(c, p + 2, d, q + 2, 4);
    }
    if n >= 12 {
      SameAt(c, p, d, q, n + 1, 6);
      SameAt(c, p, d, q, n + 1, 7);
      SamePart(c, p, d, q, n + 1, 8, 4);
      SameSlice(c, p + 8, d, q + 8, 4);
    }
  }

  lemma SameSlice(c: seq<char>, p: nat, d: seq<char>, q: nat, n: nat)
    requires Same(c, p, d, q, n)
    ensures p + n <= |c| && q + n <= |d| && c[p..p + n] == d[q..q + n]
  {
  }

  lemma SameStep(c: seq<char>, p: nat, d: seq<char>, q: nat, n: nat)
    requires 0 < n && Same(c, p, d, q, n + 1)
    ensures Step(c, p, p + n) == Step(d, q, q + n)
  {
    hide Same, Convert;
    SameAt(c, p, d, q, n + 1, 0);
    SameAt(c, p, d, q, n + 1, 1);
    SameConvert(c, p, d, q, n);
  }

  lemma {:induction false} SameDecode(c: seq<char>, p: nat, d: seq<char>, q: nat, n: nat)
    requires Same(c, p, d, q, n + 1)
    ensures Decode(c, p, p + n) == Decode(d, q, q + n)
    decreases n
  {
    hide Same, Step;
    SameAt(c, p, d, q, n + 1, n);
    if n > 0 {
      SameStep(c, p, d, q, n);
      var step := Step(c, p, p + n);
      if step.Some? && step.value.1 <= n {
        var k := step.value.1;
        SamePart(c, p, d, q, n + 1, k, n + 1 - k);
        SameDecode(c, p + k, d, q + k, n - k);
      }
    }
  }

  lemma SameString(c: seq<char>, o: nat, d: seq<char>, q: nat, n: nat, text: string)
    requires Same(c, o, d, q, n) && q < |d| && ParseString(d, q) == Some((text, q + n))
    ensures o < |c| && ParseString(c, o) == Some((text, o + n))
  {
    hide Same, FindEnd, Decode;
    SameAt(c, o, d, q, n, 0);
    SamePart(c, o, d, q, n, 1, n - 1);
    SameEnd(c, o + 1, d, q + 1, n - 2);
    SameDecode(c, o + 1, d, q + 1, n - 2);
  }

  // ---------- whatever is spelled is read ----------

  /** From `o` on the text is `t`. */
  predicate At(c: seq<char>, o: nat, t: string) {
    o <= |c| && c[o..] == t
  }

  lemma AtDrop(c: seq<char>, o: nat, a: string, rest: string)
    requires At(c, o, a + rest)
    ensures At(c, o + |a|, rest) && Has(c, o, a) && o + |a| == |c| - |rest|
    ensures a != "" ==> o < |c| && c[o] == a[0]
  {
    assert c[o..][|a|..] == (a + rest)[|a|..] == rest;
    assert c[o..o + |a|] == c[o..][..|a|] == a;
    if a != "" { assert c[o] == c[o..][0]; }
  }

  /** What stands behind a gap: a token, or the terminator. */
  predicate TokenStarts(rest: string) {
    rest != "" && (rest[0] > ' ' || rest == "\0")
  }

  lemma {:induction false} GapSkipped(c: seq<char>, o: nat, g: Gap, rest: string)
    requires At(c, o, GapText(g, rest)) && GapOk(g, Skipped) && TokenStarts(rest)
    ensures o < |c| && |rest| <= |c| - o && At(c, |c| - |rest|, rest) && SkipWhitespace(c, o) == |c| - |rest|
    decreases g
  {
    if g == [] {
      assert c[o] == c[o..][0];
    } else {
      AtDrop(c, o, FillerText(g[0]), GapText(g[1..], rest));
      assert g[0].ch <= ' ';
      GapSkipped(c, o + 1, g[1..], rest);
    }
  }

  /** What stands behind a value cannot go on with a number. */
  predicate ValueEnds(rest: string) {
    rest != "" && rest[0] !in "0123456789+-.eE"
  }

  lemma NumberCharacters(ch: char)
    ensures NumberChar(ch) <==> ch in "0123456789+-.eE"
  {
    var t := "0123456789+-.eE";
    assert ch in t <==> '0' <= ch <= '9' || ch == '+' || ch == '-' || ch == '.' || ch == 'e' || ch == 'E' by {
      if '0' <= ch <= '9' { assert t[ch as nat - 48] == ch; }
      assert t[10] == '+' && t[11] == '-' && t[12] == '.' && t[13] == 'e' && t[14] == 'E';
    }
  }

  lemma GapEndsValue(g: Gap, rest: string)
    requires GapOk(g, Skipped) && ValueEnds(rest)
    ensures ValueEnds(GapText(g, rest))
  {
    if g != [] {
      assert FillerText(g[0])[0] == g[0].ch;
      NumberCharacters(g[0].ch);
    }
  }

  ghost predicate Accepted(s: Syntax) { SyntaxOk(s, Skipped, Taken) }

  lemma QuotedStarts(q: Quoted)
    ensures QuotedText(q) != "" && QuotedText(q)[0] == '\"'
  {
  }

  lemma SpellStarts(s: Syntax, rest: string)
    requires Accepted(s)
    ensures Spell(s, rest) != "" && ' ' < Spell(s, rest)[0] < 0x80 as char
    ensures Spell(s, rest)[0] != ']' && Spell(s, rest)[0] != '}'
  {
    hide SyntaxOk, GapText, SpellElements, SpellMembers;
    if s.Integer? { DigitStarts(s); } else if s.Literal? { QuotedStarts(s.quoted); }
  }

  lemma DigitStarts(s: Syntax)
    requires s.Integer? && Accepted(s)
    ensures s.digits != "" && AllDigits(s.digits)
    ensures |s.digits| + (if s.minus then 1 else 0) <= 63
  {
  }

  function IntegerText(s: Syntax): string
    requires s.Integer?
  {
    if s.minus then "-" + s.digits else s.digits
  }

  lemma {:induction false} RunExact(c: seq<char>, o: nat, i: nat, n: nat)
    requires i <= n < NUMBER_BUFFER && o + n < |c|
    requires forall k :: o <= k < o + n ==> NumberChar(c[k])
    requires !NumberChar(c[o + n])
    ensures RunLength(c, o, i) == n
    decreases n - i
  {
    if i < n { RunExact(c, o, i + 1, n); }
  }

  lemma {:induction false} AllDigitsToEnd(t: seq<char>, k: nat)
    requires k <= |t| && forall i :: k <= i < |t| ==> '0' <= t[i] <= '9'
    ensures DigitsEnd(t, k) == |t|
    decreases |t| - k
  {
    if k < |t| { AllDigitsToEnd(t, k + 1); }
  }

  lemma IntegerReads(s: Syntax)
    requires s.Integer? && s.digits != "" && AllDigits(s.digits)
    ensures var t := IntegerText(s);
      && ReadInteger(t) == Some((Tree(s).num, |t|))
      && (t[0] == '-' || '0' <= t[0] <= '9')
      && forall i :: 0 <= i < |t| ==> NumberChar(t[i])
  {
    hide DigitsEnd, NumberOf;
    var t, k := IntegerText(s), if s.minus then 1 else 0;
    assert t[k..] == s.digits == t[k..|t|];
    forall i | k <= i < |t| ensures '0' <= t[i] <= '9' { assert t[i] == s.digits[i - k]; }
    AllDigitsToEnd(t, k);
  }

  lemma NumberReads(c: seq<char>, o: nat, s: Syntax, rest: string)
    requires Terminated(c) && s.Integer? && Accepted(s) && At(c, o, IntegerText(s) + rest) && ValueEnds(rest)
    ensures o < |c| && (c[o] == '-' || '0' <= c[o] <= '9')
    ensures |rest| <= |c| && At(c, |c| - |rest|, rest) && ParseNumber(c, o) == Some((Tree(s).num, |c| - |rest|))
  {
    hide RunLength, ReadInteger, Tree;
    var t := IntegerText(s);
    DigitStarts(s);
    IntegerReads(s);
    AtDrop(c, o, t, rest);
    forall k | o <= k < o + |t| ensures NumberChar(c[k]) { HasAt(c, o, t, k - o); }
    assert c[o + |t|] == c[o + |t|..][0];
    NumberCharacters(rest[0]);
    RunExact(c, o, 0, |t|);
  }

  /** Numbers with a fraction or an exponent are left to strtod and are no part of this model. */
  lemma FractionsRefused(minus: bool, digits: string, rest: string)
    requires digits != "" && AllDigits(digits) && rest != "" && rest[0] in ".eE"
    ensures ReadInteger((if minus then "-" else "") + (digits + rest)) == None
  {
    hide NumberOf, DigitsEnd;
    var sign := if minus then "-" else "";
    var t, k, e := sign + (digits + rest), |sign|, |sign| + |digits|;
    assert t[e] == rest[0] && t[k] == digits[0];
    forall i | k <= i < e ensures '0' <= t[i] <= '9' { assert t[i] == digits[i - k]; }
    DigitsStop(t, k, e);
  }

  lemma {:induction false} DigitsStop(t: seq<char>, k: nat, e: nat)
    requires k <= e < |t| && (forall i :: k <= i < e ==> '0' <= t[i] <= '9') && !('0' <= t[e] <= '9')
    ensures DigitsEnd(t, k) == e
    decreases e - k
  {
    if k < e { DigitsStop(t, k + 1, e); }
  }

  lemma QuotedReads(c: seq<char>, o: nat, q: Quoted, rest: string)
    requires At(c, o, QuotedText(q) + rest) && Taken(q)
    ensures o < |c| && c[o] == '\"' && |rest| <= |c|
    ensures ParseString(c, o) == Some((q.text, |c| - |rest|)) && At(c, |c| - |rest|, rest)
  {
    hide ParseString;
    var t := QuotedText(q);
    QuotedStarts(q);
    AtDrop(c, o, t, rest);
    assert t[0..|t|] == t;
    SameString(c, o, t, 0, |t|, q.text);
  }

  lemma NotAWord(c: seq<char>, o: nat)
    requires o < |c| && c[o] != 'n' && c[o] != 'f' && c[o] != 't'
    ensures !Has(c, o, "null") && !Has(c, o, "false") && !Has(c, o, "true")
  {
    if Has(c, o, "null") { HasAt(c, o, "null", 0); }
    if Has(c, o, "false") { HasAt(c, o, "false", 0); }
    if Has(c, o, "true") { HasAt(c, o, "true", 0); }
  }

  lemma OtherWord(c: seq<char>, o: nat, a: string, b: string)
    requires Has(c, o, a) && a != "" && b != "" && a[0] != b[0]
    ensures !Has(c, o, b)
  {
    assert c[o..o + |a|][0] == c[o];
    assert o + |b| <= |c| ==> c[o..o + |b|][0] == c[o];
  }

  lemma WordReads(c: seq<char>, o: nat, word: string, rest: string, depth: nat)
    requires Terminated(c) && At(c, o, word + rest) && rest != ""
    requires word == "null" || word == "false" || word == "true"
    ensures o < |c| && |rest| <= |c| && At(c, |c| - |rest|, rest)
    ensures ParseValue(c, o, depth)
         == Some((if word == "null" then Null else if word == "false" then False else True, |c| - |rest|))
  {
    hide At, Has, ParseString, ParseNumber, ParseArray, ParseObject;
    AtDrop(c, o, word, rest);
    if word != "null" { OtherWord(c, o, word, "null"); }
    if word == "true" { OtherWord(c, o, word, "false"); }
  }

  /** The parse result of a value that ends at `end`: none when it is nested too deeply. */
  function Outcome(j: Json, end: nat, depth: nat): Option<(Json, nat)> {
    if depth + Height(j) <= NESTING_LIMIT then Some((j, end)) else None
  }

  function ChainOutcome(ns: Nodes, end: nat, depth: nat): Option<(Nodes, nat)> {
    if depth + ChainHeight(ns) <= NESTING_LIMIT then Some((ns, end)) else None
  }

  lemma BracketsDispatch(c: seq<char>, o: nat, depth: nat)
    requires Terminated(c) && o < |c|
    ensures c[o] == '[' ==> ParseValue(c, o, depth) == ParseArray(c, o, depth)
    ensures c[o] == '{' ==> ParseValue(c, o, depth) == ParseObject(c, o, depth)
  {
    hide Has, ParseArray, ParseObject, ParseString, ParseNumber;
    if c[o] == '[' || c[o] == '{' { NotAWord(c, o); }
  }

  lemma {:induction false} ValueReads(c: seq<char>, o: nat, s: Syntax, rest: string, depth: nat)
    requires Terminated(c) && depth <= NESTING_LIMIT && Accepted(s) && At(c, o, Spell(s, rest)) && ValueEnds(rest)
    ensures o < |c| && |rest| <= |c| && At(c, |c| - |rest|, rest)
    ensures ParseValue(c, o, depth) == Outcome(Tree(s), |c| - |rest|, depth)
    decreases s, 1
  {
    hide At, Has, ParseString, ParseNumber, ParseArray, ParseObject, GapText, SpellElements, SpellMembers, NumberOf;
    match s
    case Integer(_, _) => NumberReads(c, o, s, rest); NotAWord(c, o);
    case Literal(quoted) => QuotedReads(c, o, quoted, rest); NotAWord(c, o);
    case EmptyArray(inside) => EmptyReads(c, o, "[", inside, "]", rest, depth);
    case EmptyObject(inside) => EmptyReads(c, o, "{", inside, "}", rest, depth);
    case FullArray(elements) => ArrayReads(c, o, elements, rest, depth);
    case FullObject(members) => ObjectReads(c, o, members, rest, depth);
    case NullWord => WordReads(c, o, "null", rest, depth);
    case FalseWord => WordReads(c, o, "false", rest, depth);
    case TrueWord => WordReads(c, o, "true", rest, depth);
  }

  lemma EmptyReads(c: seq<char>, o: nat, open: string, inside: Gap, close: string, rest: string, depth: nat)
    requires Terminated(c) && GapOk(inside, Skipped) && At(c, o, open + GapText(inside, close + rest))
    requires (open, close) == ("[", "]") || (open, close) == ("{", "}")
    ensures o < |c| && |rest| <= |c| && At(c, |c| - |rest|, rest)
    ensures var j := if open == "[" then Array(End) else Object(End);
      ParseValue(c, o, depth) == Outcome(j, |c| - |rest|, depth)
  {
    hide At, GapText, ParseValue, SkipWhitespace, ParseItems, ParseMembers;
    AtDrop(c, o, open, GapText(inside, close + rest));
    BracketsDispatch(c, o, depth);
    GapSkipped(c, o + 1, inside, close + rest);
    AtDrop(c, |c| - |close + rest|, close, rest);
    assert Height(Array(End)) == 1 && Height(Object(End)) == 1;
  }

  lemma {:induction false} SlotReads(c: seq<char>, o: nat, x: Slot, rest: string, depth: nat)
    requires Terminated(c) && depth <= NESTING_LIMIT && SlotOk(x, Skipped, Taken) && At(c, o, SpellSlot(x, rest))
    requires ValueEnds(rest) && TokenStarts(rest)
    ensures o < |c| && |rest| <= |c| && At(c, |c| - |rest|, rest)
    ensures var p, e := SkipWhitespace(c, o), |c| - |GapText(x.after, rest)|;
      && c[p] != ']' && c[p] != '}' && 0 <= e < |c| && SkipWhitespace(c, e) == |c| - |rest|
      && ParseValue(c, p, depth) == Outcome(Tree(x.value), e, depth)
    decreases x, 0
  {
    hide At, GapText, Spell, SyntaxOk, ParseValue, SkipWhitespace, Outcome, Tree, GapOk;
    var behind := GapText(x.after, rest);
    var t := Spell(x.value, behind);
    SpellStarts(x.value, behind);
    GapSkipped(c, o, x.before, t);
    AtDrop(c, |c| - |t|, [t[0]], t[1..]);
    GapEndsValue(x.after, rest);
    ValueReads(c, |c| - |t|, x.value, behind, depth);
    GapSkipped(c, |c| - |behind|, x.after, rest);
  }

  lemma SkipTwice(c: seq<char>, o: nat)
    requires Terminated(c) && o < |c|
    ensures SkipWhitespace(c, SkipWhitespace(c, o)) == SkipWhitespace(c, o)
  {
  }

  /** Elements are read alike with or without the blanks in front. */
  lemma ItemsSkip(c: seq<char>, o: nat, depth: nat)
    requires Terminated(c) && o < |c|
    ensures ParseItems(c, SkipWhitespace(c, o), depth) == ParseItems(c, o, depth)
  {
    hide SkipWhitespace, ParseValue;
    SkipTwice(c, o);
  }

  lemma MembersSkip(c: seq<char>, o: nat, depth: nat)
    requires Terminated(c) && o < |c|
    ensures ParseMembers(c, SkipWhitespace(c, o), depth) == ParseMembers(c, o, depth)
  {
    hide SkipWhitespace, ParseValue, ParseString;
    SkipTwice(c, o);
  }

  lemma ItemsStep(c: seq<char>, o: nat, j: Json, e: nat, ns: Nodes, end: nat, depth: nat)
    requires Terminated(c) && o < |c| && e < |c|
    requires ParseValue(c, SkipWhitespace(c, o), depth) == Outcome(j, e, depth)
    requires var f := SkipWhitespace(c, e);
      if ns.End? then c[f] == ']' && end == f + 1
      else c[f] == ',' && f + 1 < |c| && ParseItems(c, f + 1, depth) == ChainOutcome(ns, end, depth)
    ensures ParseItems(c, o, depth) == ChainOutcome(Node("", j, ns), end, depth)
  {
    hide SkipWhitespace, ParseValue, Height;
    assert ChainHeight(Node("", j, ns)) == Max(Height(j), ChainHeight(ns));
  }

  lemma {:induction false} ElementsRead(c: seq<char>, o: nat, es: Elements, rest: string, depth: nat)
    requires Terminated(c) && depth <= NESTING_LIMIT && ElementsOk(es, Skipped, Taken)
    requires At(c, o, SpellElements(es, "]" + rest))
    ensures o < |c| && |rest| <= |c| && At(c, |c| - |rest|, rest) && c[SkipWhitespace(c, o)] != ']'
    ensures ParseItems(c, o, depth) == ChainOutcome(ElementTrees(es), |c| - |rest|, depth)
    decreases es, 0
  {
    hide At, SpellSlot, SlotOk, ParseValue, SkipWhitespace, Outcome, ChainOutcome, Tree, ParseItems, GapText;
    var mark := if es.more.None? then "]" else ",";
    var others := if es.more.None? then rest else SpellElements(es.more.value, "]" + rest);
    SlotReads(c, o, es.slot, mark + others, depth);
    var e := |c| - |GapText(es.slot.after, mark + others)|;
    AtDrop(c, |c| - |mark + others|, mark, others);
    if es.more.Some? { ElementsRead(c, |c| - |others|, es.more.value, rest, depth); }
    ItemsStep(c, o, Tree(es.slot.value), e, if es.more.None? then End else ElementTrees(es.more.value), |c| - |rest|, depth);
  }

  lemma {:induction false} ArrayReads(c: seq<char>, o: nat, es: Elements, rest: string, depth: nat)
    requires Terminated(c) && depth <= NESTING_LIMIT && ElementsOk(es, Skipped, Taken)
    requires At(c, o, Spell(FullArray(es), rest))
    ensures o < |c| && |rest| <= |c| && At(c, |c| - |rest|, rest)
    ensures ParseValue(c, o, depth) == Outcome(Tree(FullArray(es)), |c| - |rest|, depth)
    decreases es, 2
  {
    hide At, SpellElements, ElementsOk, ParseValue, SkipWhitespace, ParseItems, ElementTrees, ChainHeight;
    AtDrop(c, o, "[", SpellElements(es, "]" + rest));
    BracketsDispatch(c, o, depth);
    if depth < NESTING_LIMIT {
      ElementsRead(c, o + 1, es, rest, depth + 1);
      ItemsSkip(c, o + 1, depth + 1);
    } else {
      ElementsRead(c, o + 1, es, rest, depth);
    }
  }

  function MemberOutcome(name: string, j: Json, end: nat, depth: nat): Option<(string, Json, nat)> {
    if depth + Height(j) <= NESTING_LIMIT then Some((name, j, end)) else None
  }

  lemma MemberStep(c: seq<char>, o: nat, q: Quoted, e: nat, j: Json, end: nat, depth: nat)
    requires Terminated(c) && o < |c| && e < |c|
    requires ParseString(c, SkipWhitespace(c, o)) == Some((q.text, e))
    requires var f := SkipWhitespace(c, e);
      c[f] == ':' && f + 1 < |c| && ParseValue(c, SkipWhitespace(c, f + 1), depth) == Outcome(j, end, depth)
    ensures ParseMember(c, o, depth) == MemberOutcome(q.text, j, end, depth)
  {
    hide SkipWhitespace, ParseValue, ParseString, Height;
  }

  lemma MembersStep(c: seq<char>, o: nat, name: string, j: Json, e: nat, ns: Nodes, end: nat, depth: nat)
    requires Terminated(c) && o < |c| && e < |c|
    requires ParseMember(c, o, depth) == MemberOutcome(name, j, e, depth)
    requires var f := SkipWhitespace(c, e);
      if ns.End? then c[f] == '}' && end == f + 1
      else c[f] == ',' && f + 1 < |c| && ParseMembers(c, f + 1, depth) == ChainOutcome(ns, end, depth)
    ensures ParseMembers(c, o, depth) == ChainOutcome(Node(name, j, ns), end, depth)
  {
    hide SkipWhitespace, ParseMember, Height;
    assert ChainHeight(Node(name, j, ns)) == Max(Height(j), ChainHeight(ns));
  }

  /** The name with the gaps around it, up to the colon. */
  lemma NameReads(c: seq<char>, o: nat, before: Gap, q: Quoted, after: Gap, rest: string)
    requires Terminated(c) && GapOk(before, Skipped) && Taken(q) && GapOk(after, Skipped)
    requires At(c, o, GapText(before, QuotedText(q) + GapText(after, ":" + rest)))
    ensures o < |c| && |":" + rest| <= |c| && At(c, |c| - |":" + rest|, ":" + rest)
    ensures var p, e := SkipWhitespace(c, o), |c| - |GapText(after, ":" + rest)|;
      c[p] == '\"' && 0 <= e < |c| && ParseString(c, p) == Some((q.text, e)) && SkipWhitespace(c, e) == |c| - |":" + rest|
  {
    hide At, SkipWhitespace, ParseString, GapText, GapOk, Taken;
    var behind := GapText(after, ":" + rest);
    var t := QuotedText(q) + behind;
    QuotedStarts(q);
    GapSkipped(c, o, before, t);
    QuotedReads(c, |c| - |t|, q, behind);
    GapSkipped(c, |c| - |behind|, after, ":" + rest);
  }

  /** One member: name, colon and value. */
  lemma {:induction false} MemberReads(c: seq<char>, o: nat, ms: Members, rest: string, depth: nat)
    requires Terminated(c) && depth <= NESTING_LIMIT
    requires GapOk(ms.before, Skipped) && Taken(ms.name) && GapOk(ms.after, Skipped) && SlotOk(ms.slot, Skipped, Taken)
    requires At(c, o, GapText(ms.before, QuotedText(ms.name) + GapText(ms.after, ":" + SpellSlot(ms.slot, rest))))
    requires ValueEnds(rest) && TokenStarts(rest)
    ensures o < |c| && |rest| <= |c| && At(c, |c| - |rest|, rest) && c[SkipWhitespace(c, o)] != '}'
    ensures var e := |c| - |GapText(ms.slot.after, rest)|;
      && 0 <= e < |c| && SkipWhitespace(c, e) == |c| - |rest|
      && ParseMember(c, o, depth) == MemberOutcome(ms.name.text, Tree(ms.slot.value), e, depth)
    decreases ms, 0
  {
    hide At, SpellSlot, SlotOk, ParseValue, SkipWhitespace, Outcome, MemberOutcome, Tree, ParseMember;
    hide GapText, ParseString, Taken, GapOk, ValueEnds, TokenStarts;
    var behind := SpellSlot(ms.slot, rest);
    NameReads(c, o, ms.before, ms.name, ms.after, behind);
    AtDrop(c, |c| - |":" + behind|, ":", behind);
    SlotReads(c, |c| - |behind|, ms.slot, rest, depth);
    var e := |c| - |GapText(ms.slot.after, rest)|;
    MemberStep(c, o, ms.name, |c| - |GapText(ms.after, ":" + behind)|, Tree(ms.slot.value), e, depth);
  }

  lemma {:induction false} MembersRead(c: seq<char>, o: nat, ms: Members, rest: string, depth: nat)
    requires Terminated(c) && depth <= NESTING_LIMIT && MembersOk(ms, Skipped, Taken)
    requires At(c, o, SpellMembers(ms, "}" + rest))
    ensures o < |c| && |rest| <= |c| && At(c, |c| - |rest|, rest) && c[SkipWhitespace(c, o)] != '}'
    ensures ParseMembers(c, o, depth) == ChainOutcome(MemberTrees(ms), |c| - |rest|, depth)
    decreases ms, 1
  {
    hide At, SpellSlot, SlotOk, SkipWhitespace, ChainOutcome, MemberOutcome, Tree, ParseMember;
    hide ParseMembers, GapText, Taken, GapOk;
    var mark := if ms.more.None? then "}" else ",";
    var others := if ms.more.None? then rest else SpellMembers(ms.more.value, "}" + rest);
    MemberReads(c, o, ms, mark + others, depth);
    var e := |c| - |GapText(ms.slot.after, mark + others)|;
    AtDrop(c, |c| - |mark + others|, mark, others);
    if ms.more.Some? { MembersRead(c, |c| - |others|, ms.more.value, rest, depth); }
    MembersStep(c, o, ms.name.text, Tree(ms.slot.value), e, if ms.more.None? then End else MemberTrees(ms.more.value),
                |c| - |rest|, depth);
  }

  lemma {:induction false} ObjectReads(c: seq<char>, o: nat, ms: Members, rest: string, depth: nat)
    requires Terminated(c) && depth <= NESTING_LIMIT && MembersOk(ms, Skipped, Taken)
    requires At(c, o, Spell(FullObject(ms), rest))
    ensures o < |c| && |rest| <= |c| && At(c, |c| - |rest|, rest)
    ensures ParseValue(c, o, depth) == Outcome(Tree(FullObject(ms)), |c| - |rest|, depth)
    decreases ms, 2
  {
    hide At, SpellMembers, MembersOk, ParseValue, SkipWhitespace, ParseMembers, MemberTrees, ChainHeight;
    AtDrop(c, o, "{", SpellMembers(ms, "}" + rest));
    BracketsDispatch(c, o, depth);
    if depth < NESTING_LIMIT {
      MembersRead(c, o + 1, ms, rest, depth + 1);
      MembersSkip(c, o + 1, depth + 1);
    } else {
      MembersRead(c, o + 1, ms, rest, depth);
    }
  }

  // ---------- whatever is read was spelled ----------

  /** Only the last character is a terminator. */
  predicate Ended(c: seq<char>) {
    c != [] && NulFree(c[..|c| - 1])
  }

  function Blanks(t: string): Gap {
    if t == "" then [] else [Blank(t[0])] + Blanks(t[1..])
  }

  lemma {:induction false} BlanksSpell(t: string, rest: string)
    requires forall i :: 0 <= i < |t| ==> '\0' < t[i] <= ' '
    ensures GapText(Blanks(t), rest) == t + rest && GapOk(Blanks(t), Skipped)
  {
    if t == "" {
      assert t + rest == rest;
    } else {
      BlanksSpell(t[1..], rest);
      assert t + rest == [t[0]] + (t[1..] + rest);
    }
  }

  lemma GapBetween(c: seq<char>, o: nat) returns (g: Gap)
    requires Terminated(c) && Ended(c) && o < |c|
    ensures GapOk(g, Skipped) && At(c, o, GapText(g, c[SkipWhitespace(c, o)..]))
  {
    var p := SkipWhitespace(c, o);
    var t := c[o..p];
    forall i | 0 <= i < |t| ensures '\0' < t[i] <= ' ' {
      assert t[i] == c[o + i] == c[..|c| - 1][o + i];
    }
    BlanksSpell(t, c[p..]);
    assert c[o..] == t + c[p..];
    return Blanks(t);
  }

  lemma WordSpelled(c: seq<char>, o: nat, word: string)
    requires Has(c, o, word)
    ensures At(c, o, word + c[o + |word|..])
  {
    assert c[o..] == c[o..o + |word|] + c[o + |word|..];
  }

  lemma QuotedSpelled(c: seq<char>, o: nat) returns (q: Quoted)
    requires Terminated(c) && Ended(c) && o < |c| && ParseString(c, o).Some?
    ensures Taken(q) && q.text == ParseString(c, o).value.0
    ensures At(c, o, QuotedText(q) + c[ParseString(c, o).value.1..])
  {
    hide FindEnd, Decode;
    var (text, end) := ParseString(c, o).value;
    q := Quoted(c[o + 1..end - 1], text);
    var t := QuotedText(q);
    assert t == c[o..end] && t[0..|t|] == t;
    forall i | 0 <= i < |q.raw| ensures q.raw[i] != '\0' { assert q.raw[i] == c[..|c| - 1][o + 1 + i]; }
    SameString(t, 0, c, o, |t|, text);
    assert c[o..] == t + c[end..];
  }

  lemma ReadAsSpelled(t: string) returns (s: Syntax)
    requires t != "" && (t[0] == '-' || '0' <= t[0] <= '9') && |t| <= 63 && ReadInteger(t).Some?
    ensures s.Integer? && Accepted(s) && Tree(s) == Number(ReadInteger(t).value.0)
    ensures IntegerText(s) == t[..ReadInteger(t).value.1]
  {
    hide NumberOf, DigitsEnd;
    var e := ReadInteger(t).value.1;
    var k := if t[0] == '-' then 1 else 0;
    s := Integer(t[0] == '-', t[k..e]);
    assert e == DigitsEnd(t, k);
    assert k == 0 ==> t[0..e] == t[..e];
    assert k == 1 ==> "-" + t[1..e] == t[..e];
  }

  lemma RunStarts(c: seq<char>, o: nat)
    requires o < |c| && NumberChar(c[o])
    ensures var t := c[o..o + RunLength(c, o, 0)];
      0 < |t| <= 63 && t[0] == c[o] && forall e: nat :: e <= |t| ==> At(c, o, t[..e] + c[o + e..])
  {
    var t := c[o..o + RunLength(c, o, 0)];
    assert RunLength(c, o, 0) == RunLength(c, o, 1);
    forall e: nat | e <= |t| ensures At(c, o, t[..e] + c[o + e..]) {
      assert t[..e] == c[o..o + e] && c[o..] == c[o..o + e] + c[o + e..];
    }
  }

  lemma IntegerSpelled(c: seq<char>, o: nat) returns (s: Syntax)
    requires Terminated(c) && o < |c| && (c[o] == '-' || '0' <= c[o] <= '9') && ParseNumber(c, o).Some?
    ensures s.Integer? && Accepted(s) && Tree(s) == Number(ParseNumber(c, o).value.0)
    ensures At(c, o, IntegerText(s) + c[ParseNumber(c, o).value.1..])
  {
    hide ReadInteger, Tree, Accepted, RunLength, At;
    RunStarts(c, o);
    s := ReadAsSpelled(c[o..o + RunLength(c, o, 0)]);
  }

  lemma {:induction false} ValueSpelled(c: seq<char>, o: nat, depth: nat) returns (s: Syntax)
    requires Terminated(c) && Ended(c) && o < |c| && ParseValue(c, o, depth).Some?
    ensures Accepted(s) && Tree(s) == ParseValue(c, o, depth).value.0
    ensures At(c, o, Spell(s, c[ParseValue(c, o, depth).value.1..]))
    decreases |c| - o, 1
  {
    hide At, Has, Ended, ParseString, ParseNumber, ParseArray, ParseObject;
    if Has(c, o, "null") {
      WordSpelled(c, o, "null");
      s := NullWord;
    } else if Has(c, o, "false") {
      WordSpelled(c, o, "false");
      s := FalseWord;
    } else if Has(c, o, "true") {
      WordSpelled(c, o, "true");
      s := TrueWord;
    } else if c[o] == '\"' {
      var q := QuotedSpelled(c, o);
      s := Literal(q);
    } else if c[o] == '[' {
      s := ArraySpelled(c, o, depth);
    } else if c[o] == '{' {
      s := ObjectSpelled(c, o, depth);
    } else {
      s := IntegerSpelled(c, o);
    }
  }

  /** A character and what stands behind it. */
  lemma AtNext(c: seq<char>, o: nat, mark: string, rest: string)
    requires o < |c| && mark == [c[o]] && At(c, o + 1, rest)
    ensures At(c, o, mark + rest)
  {
    assert c[o..] == [c[o]] + c[o + 1..];
  }

  lemma {:induction false} ArraySpelled(c: seq<char>, o: nat, depth: nat) returns (s: Syntax)
    requires Terminated(c) && Ended(c) && o < |c| && c[o] == '[' && ParseArray(c, o, depth).Some?
    ensures Accepted(s) && Tree(s) == ParseArray(c, o, depth).value.0
    ensures At(c, o, Spell(s, c[ParseArray(c, o, depth).value.1..]))
    decreases |c| - o, 0
  {
    hide At, Ended, ParseItems, SkipWhitespace, GapText, SpellElements, ElementTrees, ElementsOk, GapOk;
    var end := ParseArray(c, o, depth).value.1;
    var p := SkipWhitespace(c, o + 1);
    if c[p] == ']' {
      var g := GapBetween(c, o + 1);
      AtHere(c, p + 1);
      AtNext(c, p, "]", c[end..]);
      AtSlice(c, p, "]" + c[end..]);
      AtNext(c, o, "[", GapText(g, c[p..]));
      s := EmptyArray(g);
    } else {
      ItemsSkip(c, o + 1, depth + 1);
      var es := ItemsSpelled(c, o + 1, depth + 1);
      AtNext(c, o, "[", SpellElements(es, "]" + c[end..]));
      s := FullArray(es);
    }
  }

  lemma AtHere(c: seq<char>, o: nat)
    requires o <= |c|
    ensures At(c, o, c[o..])
  {
  }

  lemma AtSlice(c: seq<char>, o: nat, t: string)
    requires At(c, o, t)
    ensures o <= |c| && c[o..] == t
  {
  }

  lemma AtGap(c: seq<char>, o: nat, g: Gap, p: nat, t: string)
    requires p <= |c| && At(c, o, GapText(g, c[p..])) && At(c, p, t)
    ensures At(c, o, GapText(g, t))
  {
    hide GapText;
  }

  /** A value with the gaps around it, up to the mark at `f`. */
  lemma {:induction false} SlotSpelled(c: seq<char>, o: nat, depth: nat) returns (x: Slot)
    requires Terminated(c) && Ended(c) && o < |c| && ParseValue(c, SkipWhitespace(c, o), depth).Some?
    ensures var (j, e) := ParseValue(c, SkipWhitespace(c, o), depth).value;
      SlotOk(x, Skipped, Taken) && Tree(x.value) == j && At(c, o, SpellSlot(x, c[SkipWhitespace(c, e)..]))
    decreases |c| - o, 2
  {
    hide At, Ended, ParseValue, SkipWhitespace, GapText, SyntaxOk, Spell, Tree, GapOk;
    var p := SkipWhitespace(c, o);
    var before := GapBetween(c, o);
    var s := ValueSpelled(c, p, depth);
    var e := ParseValue(c, p, depth).value.1;
    var after := GapBetween(c, e);
    AtSlice(c, e, GapText(after, c[SkipWhitespace(c, e)..]));
    AtGap(c, o, before, p, Spell(s, c[e..]));
    return Slot(before, s, after);
  }

  lemma {:induction false} ItemsSpelled(c: seq<char>, o: nat, depth: nat) returns (es: Elements)
    requires Terminated(c) && Ended(c) && o < |c| && ParseItems(c, o, depth).Some?
    ensures ElementsOk(es, Skipped, Taken) && ElementTrees(es) == ParseItems(c, o, depth).value.0
    ensures At(c, o, SpellElements(es, "]" + c[ParseItems(c, o, depth).value.1..]))
    decreases |c| - o, 3
  {
    hide At, Ended, ParseValue, SkipWhitespace, SpellSlot, SlotOk, Tree;
    var x := SlotSpelled(c, o, depth);
    var e := ParseValue(c, SkipWhitespace(c, o), depth).value.1;
    var f := SkipWhitespace(c, e);
    if c[f] == ',' {
      var more := ItemsSpelled(c, f + 1, depth);
      es := Element(x, Some(more));
      AtNext(c, f, ",", SpellElements(more, "]" + c[ParseItems(c, f + 1, depth).value.1..]));
      AtSlice(c, f, "," + SpellElements(more, "]" + c[ParseItems(c, f + 1, depth).value.1..]));
    } else {
      es := Element(x, None);
      AtHere(c, f + 1);
      AtNext(c, f, "]", c[f + 1..]);
      AtSlice(c, f, "]" + c[f + 1..]);
    }
  }

  lemma {:induction false} ObjectSpelled(c: seq<char>, o: nat, depth: nat) returns (s: Syntax)
    requires Terminated(c) && Ended(c) && o < |c| && c[o] == '{' && ParseObject(c, o, depth).Some?
    ensures Accepted(s) && Tree(s) == ParseObject(c, o, depth).value.0
    ensures At(c, o, Spell(s, c[ParseObject(c, o, depth).value.1..]))
    decreases |c| - o, 0
  {
    hide At, Ended, ParseMembers, SkipWhitespace, GapText, SpellMembers, MemberTrees, MembersOk, GapOk;
    var end := ParseObject(c, o, depth).value.1;
    var p := SkipWhitespace(c, o + 1);
    if c[p] == '}' {
      var g := GapBetween(c, o + 1);
      AtHere(c, p + 1);
      AtNext(c, p, "}", c[end..]);
      AtSlice(c, p, "}" + c[end..]);
      AtNext(c, o, "{", GapText(g, c[p..]));
      s := EmptyObject(g);
    } else {
      MembersSkip(c, o + 1, depth + 1);
      var ms := MembersSpelled(c, o + 1, depth + 1);
      AtNext(c, o, "{", SpellMembers(ms, "}" + c[end..]));
      s := FullObject(ms);
    }
  }

  /** A name with the gaps around it, up to the colon. */
  lemma NameSpelled(c: seq<char>, o: nat) returns (before: Gap, q: Quoted, after: Gap)
    requires Terminated(c) && Ended(c) && o < |c| && ParseString(c, SkipWhitespace(c, o)).Some?
    requires var e := ParseString(c, SkipWhitespace(c, o)).value.1;
      e < |c| && c[SkipWhitespace(c, e)] == ':'
    ensures GapOk(before, Skipped) && Taken(q) && GapOk(after, Skipped)
    ensures var (name, e) := ParseString(c, SkipWhitespace(c, o)).value;
      && q.text == name
      && At(c, o, GapText(before, QuotedText(q) + GapText(after, ":" + c[SkipWhitespace(c, e) + 1..])))
  {
    hide At, Ended, ParseString, SkipWhitespace, GapText, GapOk, Taken;
    var p := SkipWhitespace(c, o);
    before := GapBetween(c, o);
    q := QuotedSpelled(c, p);
    var e := ParseString(c, p).value.1;
    var f := SkipWhitespace(c, e);
    after := GapBetween(c, e);
    AtHere(c, f + 1);
    AtNext(c, f, ":", c[f + 1..]);
    AtGap(c, e, after, f, ":" + c[f + 1..]);
    AtSlice(c, e, GapText(after, ":" + c[f + 1..]));
    AtGap(c, o, before, p, QuotedText(q) + GapText(after, ":" + c[f + 1..]));
  }

  lemma {:induction false} MembersSpelled(c: seq<char>, o: nat, depth: nat) returns (ms: Members)
    requires Terminated(c) && Ended(c) && o < |c| && ParseMembers(c, o, depth).Some?
    ensures MembersOk(ms, Skipped, Taken) && MemberTrees(ms) == ParseMembers(c, o, depth).value.0
    ensures At(c, o, SpellMembers(ms, "}" + c[ParseMembers(c, o, depth).value.1..]))
    decreases |c| - o, 3
  {
    hide At, Ended, ParseString, ParseValue, SkipWhitespace, SpellSlot, SlotOk, Tree, GapText, GapOk, Taken;
    var (name, e) := ParseString(c, SkipWhitespace(c, o)).value;
    var colon := SkipWhitespace(c, e);
    var before, q, after := NameSpelled(c, o);
    var x := SlotSpelled(c, colon + 1, depth);
    var v := ParseValue(c, SkipWhitespace(c, colon + 1), depth).value.1;
    var f := SkipWhitespace(c, v);
    var tail;
    if c[f] == ',' {
      var more := MembersSpelled(c, f + 1, depth);
      ms := Member(before, q, after, x, Some(more));
      tail := "," + SpellMembers(more, "}" + c[ParseMembers(c, f + 1, depth).value.1..]);
      AtNext(c, f, ",", SpellMembers(more, "}" + c[ParseMembers(c, f + 1, depth).value.1..]));
    } else {
      ms := Member(before, q, after, x, None);
      tail := "}" + c[f + 1..];
      AtHere(c, f + 1);
      AtNext(c, f, "}", c[f + 1..]);
    }
    AtSlice(c, f, tail);
    AtSlice(c, colon + 1, SpellSlot(x, tail));
  }

  // ---------- lengths ----------

  lemma {:induction false} GapLonger(g: Gap, rest: string)
    ensures |GapText(g, rest)| >= |rest|
  {
    if g != [] { GapLonger(g[1..], rest); }
  }

  lemma {:induction false} SpellLonger(s: Syntax, rest: string)
    ensures |Spell(s, rest)| >= |rest|
    ensures !s.Integer? ==> |Spell(s, rest)| > |rest|
    decreases s, 0
  {
    match s
    case EmptyArray(inside) => GapLonger(inside, "]" + rest);
    case EmptyObject(inside) => GapLonger(inside, "}" + rest);
    case FullArray(elements) => ElementsLonger(elements, "]" + rest);
    case FullObject(members) => MembersLonger(members, "}" + rest);
    case _ =>
  }

  lemma ValueLonger(s: Syntax, rest: string)
    requires Accepted(s)
    ensures |Spell(s, rest)| > |rest|
  {
    hide GapText, SpellElements, SpellMembers;
    if s.Integer? { DigitStarts(s); } else { SpellLonger(s, rest); }
  }

  lemma {:induction false} SlotLonger(x: Slot, rest: string)
    ensures |SpellSlot(x, rest)| >= |rest|
    decreases x, 0
  {
    GapLonger(x.after, rest);
    SpellLonger(x.value, GapText(x.after, rest));
    GapLonger(x.before, Spell(x.value, GapText(x.after, rest)));
  }

  lemma {:induction false} ElementsLonger(es: Elements, rest: string)
    ensures |SpellElements(es, rest)| >= |rest|
    decreases es, 0
  {
    if es.more.Some? { ElementsLonger(es.more.value, rest); }
    SlotLonger(es.slot, if es.more.None? then rest else "," + SpellElements(es.more.value, rest));
  }

  lemma {:induction false} MembersLonger(ms: Members, rest: string)
    ensures |SpellMembers(ms, rest)| >= |rest|
    decreases ms, 0
  {
    if ms.more.Some? { MembersLonger(ms.more.value, rest); }
    var t := if ms.more.None? then rest else "," + SpellMembers(ms.more.value, rest);
    SlotLonger(ms.slot, t);
    var behind := ":" + SpellSlot(ms.slot, t);
    GapLonger(ms.after, behind);
    GapLonger(ms.before, QuotedText(ms.name) + GapText(ms.after, behind));
  }

  // ---------- the parser accepts exactly the grammar ----------

  const BOM := [0xEF as char, 0xBB as char, 0xBF as char]

  /** The text and its terminator: perhaps a byte order mark, a value with the gaps around it, and `rest`. */
  ghost predicate Writes(text: string, bom: bool, before: Gap, s: Syntax, rest: string) {
    text + "\0" == (if bom then BOM else "") + GapText(before, Spell(s, rest))
  }

  /** Where the value is looked for. */
  lemma StartOfText(text: string, bom: bool, t: string)
    requires NulFree(text) && text + "\0" == (if bom then BOM else "") + t
    requires |t| > 1 && t[0] < 0x80 as char
    ensures var c, start := text + "\0", if bom then 3 else 0;
      && start < |c| && At(c, start, t)
      && Parse(text, false) == ParseValue(c, SkipWhitespace(c, start), 0)
  {
    hide ParseValue, SkipWhitespace;
    var c := text + "\0";
    if bom {
      assert c[..3] == (BOM + t)[..3] == BOM && c[3..] == (BOM + t)[3..] == t;
    } else {
      assert c == t && c[0..] == t;
      if |c| > 4 { assert c[..3][0] == t[0]; }
    }
  }

  lemma GapStarts(g: Gap, t: string)
    requires GapOk(g, Skipped) && t != "" && t[0] < 0x80 as char
    ensures |GapText(g, t)| >= |t| && GapText(g, t)[0] < 0x80 as char
  {
    if g != [] { GapStarts(g[1..], t); }
  }

  lemma ValueIsFound(text: string, bom: bool, before: Gap, s: Syntax, rest: string)
    requires NulFree(text) && Writes(text, bom, before, s, rest)
    requires GapOk(before, Skipped) && Accepted(s) && rest != ""
    ensures var c, t := text + "\0", Spell(s, rest);
      0 < |t| <= |c| && At(c, |c| - |t|, t) && Parse(text, false) == ParseValue(c, |c| - |t|, 0)
  {
    hide Parse, ParseValue, SkipWhitespace, Accepted, GapText, Spell, GapOk, At;
    var c, t := text + "\0", Spell(s, rest);
    SpellStarts(s, rest);
    ValueLonger(s, rest);
    GapStarts(before, t);
    StartOfText(text, bom, GapText(before, t));
    GapSkipped(c, if bom then 3 else 0, before, t);
  }

  /** Without the demand that the text ends, parsing stops behind the value. */
  lemma ValueIsRead(text: string, bom: bool, before: Gap, s: Syntax, rest: string)
    requires NulFree(text) && Writes(text, bom, before, s, rest)
    requires GapOk(before, Skipped) && Accepted(s) && ValueEnds(rest)
    ensures |rest| <= |text| + 1 && At(text + "\0", |text| + 1 - |rest|, rest)
    ensures Parse(text, false)
         == if Height(Tree(s)) <= 1000 then Some((Tree(s), |text| + 1 - |rest|)) else None
  {
    hide Parse, ParseValue, Accepted, Tree, Height, GapText, Spell, GapOk, At, Writes;
    var c, t := text + "\0", Spell(s, rest);
    ValueIsFound(text, bom, before, s, rest);
    ValueReads(c, |c| - |t|, s, rest, 0);
  }

  /** The text of a value with the gaps around it, and nothing else. */
  ghost predicate WritesWhole(text: string, j: Json, bom: bool, x: Slot) {
    && Writes(text, bom, x.before, x.value, GapText(x.after, "\0"))
    && SlotOk(x, Skipped, Taken) && Tree(x.value) == j
  }

  ghost predicate IsTextOf(text: string, j: Json) {
    exists bom, x :: WritesWhole(text, j, bom, x)
  }

  lemma WholeIsRead(text: string, j: Json, bom: bool, x: Slot)
    requires NulFree(text) && WritesWhole(text, j, bom, x)
    ensures Parse(text, true) == if Height(j) <= 1000 then Some((j, |text|)) else None
  {
    hide ParseValue, SkipWhitespace, GapText, Writes, GapOk, Tree, Height, At;
    var rest := GapText(x.after, "\0");
    GapEndsValue(x.after, "\0");
    ValueIsRead(text, bom, x.before, x.value, rest);
    if Height(j) <= 1000 {
      GapSkipped(text + "\0", |text| + 1 - |rest|, x.after, "\0");
    }
  }

  lemma TextWasWritten(text: string, j: Json, n: nat)
    requires NulFree(text) && Parse(text, true) == Some((j, n))
    ensures IsTextOf(text, j)
  {
    hide ParseValue, SkipWhitespace, GapText, SlotOk, Tree, Spell, At;
    var c := text + "\0";
    assert c[..|c| - 1] == text;
    var start := if |c| > 4 && c[..3] == [0xEF as char, 0xBB as char, 0xBF as char] then 3 else 0;
    var x := SlotSpelled(c, start, 0);
    var e := ParseValue(c, SkipWhitespace(c, start), 0).value.1;
    var f := SkipWhitespace(c, e);
    assert f == |c| - 1 && c[f..] == "\0";
    AtSlice(c, start, SpellSlot(x, "\0"));
    assert c == c[..start] + c[start..] && c[..0] == "";
    assert WritesWhole(text, j, start == 3, x);
  }

  /**
   * With the demand that the text ends, the parser accepts exactly the texts of trees nested at most 1000 deep:
   * RFC 8259 with integers for numbers, with any control characters as whitespace, with the literals that
   * parse_string takes, and with a byte order mark allowed.
   */
  lemma AcceptedIff(text: string, j: Json, n: nat)
    requires NulFree(text)
    ensures Parse(text, true) == Some((j, n)) <==> n == |text| && Height(j) <= 1000 && IsTextOf(text, j)
  {
    hide Parse, Height, WritesWhole;
    if IsTextOf(text, j) {
      var bom, x :| WritesWhole(text, j, bom, x);
      WholeIsRead(text, j, bom, x);
    }
    if Parse(text, true) == Some((j, n)) {
      TextWasWritten(text, j, n);
    }
  }

  // ---------- the texts of RFC 8259 ----------

  lemma SpelledIsTaken(q: Quoted)
    requires Spelled(q)
    ensures Taken(q)
  {
    hide ParseString, WrittenAll, BytesAll, CString, WellFormedPieces;
    var xs :| Spells(q, xs);
    var t := QuotedText(q);
    assert t[0..|t|] == t;
    LiteralMeaning(t, 0, xs);
  }

  /** Every filler of the first kind is one of the second. */
  ghost predicate Covers(filler: Filler -> bool, wider: Filler -> bool) {
    forall f :: filler(f) ==> wider(f)
  }

  ghost predicate Includes(literal: Quoted -> bool, wider: Quoted -> bool) {
    forall q :: literal(q) ==> wider(q)
  }

  lemma WeakenGap(g: Gap, filler: Filler -> bool, wider: Filler -> bool)
    requires GapOk(g, filler) && Covers(filler, wider)
    ensures GapOk(g, wider)
  {
  }

  lemma {:induction false} Weaken(s: Syntax, f: Filler -> bool, l: Quoted -> bool, f': Filler -> bool, l': Quoted -> bool)
    requires SyntaxOk(s, f, l) && Covers(f, f') && Includes(l, l')
    ensures SyntaxOk(s, f', l')
    decreases s, 1
  {
    hide GapOk, Covers;
    match s
    case EmptyArray(inside) => WeakenGap(inside, f, f');
    case FullArray(elements) => WeakenElements(elements, f, l, f', l');
    case EmptyObject(inside) => WeakenGap(inside, f, f');
    case FullObject(members) => WeakenMembers(members, f, l, f', l');
    case _ =>
  }

  lemma {:induction false} WeakenSlot(x: Slot, f: Filler -> bool, l: Quoted -> bool, f': Filler -> bool, l': Quoted -> bool)
    requires SlotOk(x, f, l) && Covers(f, f') && Includes(l, l')
    ensures SlotOk(x, f', l')
    decreases x, 0
  {
    hide GapOk, Covers, Includes, SyntaxOk;
    WeakenGap(x.before, f, f');
    WeakenGap(x.after, f, f');
    Weaken(x.value, f, l, f', l');
  }

  lemma {:induction false} WeakenElements(es: Elements, f: Filler -> bool, l: Quoted -> bool, f': Filler -> bool, l': Quoted -> bool)
    requires ElementsOk(es, f, l) && Covers(f, f') && Includes(l, l')
    ensures ElementsOk(es, f', l')
    decreases es, 0
  {
    hide SlotOk, Covers, Includes;
    WeakenSlot(es.slot, f, l, f', l');
    if es.more.Some? { WeakenElements(es.more.value, f, l, f', l'); }
  }

  lemma {:induction false} WeakenMembers(ms: Members, f: Filler -> bool, l: Quoted -> bool, f': Filler -> bool, l': Quoted -> bool)
    requires MembersOk(ms, f, l) && Covers(f, f') && Includes(l, l')
    ensures MembersOk(ms, f', l')
    decreases ms, 0
  {
    hide SlotOk, GapOk, Covers;
    WeakenGap(ms.before, f, f');
    WeakenGap(ms.after, f, f');
    WeakenSlot(ms.slot, f, l, f', l');
    if ms.more.Some? { WeakenMembers(ms.more.value, f, l, f', l'); }
  }

  lemma RfcAccepted(x: Slot)
    requires SlotOk(x, Space, Spelled)
    ensures SlotOk(x, Skipped, Taken)
  {
    hide SlotOk, Spelled, Taken;
    forall q | Spelled(q) ensures Taken(q) { SpelledIsTaken(q); }
    assert Covers(Space, Skipped) && Includes(Spelled, Taken);
    WeakenSlot(x, Space, Spelled, Skipped, Taken);
  }

  /** Every text of RFC 8259 with integers for numbers is read as the tree it spells, exactly when nested at most 1000 deep. */
  lemma RfcTextIsRead(text: string, bom: bool, x: Slot)
    requires NulFree(text) && Writes(text, bom, x.before, x.value, GapText(x.after, "\0")) && SlotOk(x, Space, Spelled)
    ensures Parse(text, true) == if Height(Tree(x.value)) <= 1000 then Some((Tree(x.value), |text|)) else None
  {
    hide Writes, SlotOk, Tree, Height;
    RfcAccepted(x);
    WholeIsRead(text, Tree(x.value), bom, x);
  }
}
