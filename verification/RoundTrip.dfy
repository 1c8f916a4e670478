/** Parsing what was printed gives the tree back, exactly as long as it is not nested too deeply. */
module RoundTrips {
  import opened Basics
  import opened CStrings
  import opened JsonModel
  import opened Literals
  import opened Printing
  import opened Parsing
  import opened Grammar
  import opened Layouts

  // ---------- what a text can give back ----------

  /** The lost names mean nothing. */
  lemma {:induction false} UnnamedMeaning(j: Json)
    ensures Meaning(Unnamed(j)) == Meaning(j)
  {
    match j
    case Array(ns) => UnnamedItems(ns);
    case Object(ns) => UnnamedFields(ns);
    case _ =>
  }

  lemma {:induction false} UnnamedItems(ns: Nodes)
    ensures Items(UnnamedChain(ns, false)) == Items(ns)
  {
    if ns.Node? {
      UnnamedMeaning(ns.value);
      UnnamedItems(ns.next);
    }
  }

  lemma {:induction false} UnnamedFields(ns: Nodes)
    ensures Fields(UnnamedChain(ns, true)) == Fields(ns)
  {
    if ns.Node? {
      UnnamedMeaning(ns.value);
      UnnamedFields(ns.next);
    }
  }

  lemma {:induction false} UnnamedHeight(j: Json)
    ensures Height(Unnamed(j)) == Height(j)
    decreases j, 1
  {
    match j
    case Array(ns) => UnnamedChainHeight(ns, false);
    case Object(ns) => UnnamedChainHeight(ns, true);
    case _ =>
  }

  lemma {:induction false} UnnamedChainHeight(ns: Nodes, named: bool)
    ensures ChainHeight(UnnamedChain(ns, named)) == ChainHeight(ns)
    decreases ns, 0
  {
    if ns.Node? {
      UnnamedHeight(ns.value);
      UnnamedChainHeight(ns.next, named);
    }
  }

  // ---------- the theorem ----------

  /**
   * A printed tree is read back, formatted or not: up to the names that array elements may carry,
   * exactly when it is nested at most 1000 deep.
   */
  lemma PrintThenParse(j: Json, format: bool)
    requires Printable(j)
    ensures NulFree(Text(j, format, 0))
    ensures Parse(Text(j, format, 0), true)
         == if Height(j) <= 1000 then Some((Unnamed(j), |Text(j, format, 0)|)) else None
  {
    hide Text, Parse, Height, Unnamed, Layout, Spell, SyntaxOk, Tree, Storable, Complete;
    var t, x := Text(j, format, 0), Slot([], Layout(j, format, 0), []);
    TextNulFree(j, format, 0);
    TextLaid(j, format, 0, "\0");
    LayoutSpells(j, format, 0);
    UnnamedHeight(j);
    NoGap("\0");
    NoGap(Spell(x.value, "\0"));
    assert t + "\0" == "" + (t + "\0");
    RfcTextIsRead(t, false, x);
  }

  // ---------- what parsing can give ----------

  predicate SmallNumbers(j: Json) {
    match j
    case Number(n) => -TEN_TO_15 < n < TEN_TO_15
    case Array(ns) => ChainSmall(ns)
    case Object(ns) => ChainSmall(ns)
    case _ => true
  }

  predicate ChainSmall(ns: Nodes) {
    ns.End? || (SmallNumbers(ns.value) && ChainSmall(ns.next))
  }

  /** A tree the parser may return at this depth. */
  predicate Parsed(j: Json, depth: nat) {
    Complete(j) && Unnamed(j) == j && depth + Height(j) <= NESTING_LIMIT && (SmallNumbers(j) ==> Storable(j))
  }

  predicate ParsedChain(ns: Nodes, named: bool, depth: nat) {
    && ChainComplete(ns) && UnnamedChain(ns, named) == ns && depth + ChainHeight(ns) <= NESTING_LIMIT
    && (ChainSmall(ns) ==> ChainStorable(ns, named))
  }

  lemma ParsedNode(key: string, v: Json, ns: Nodes, named: bool, depth: nat)
    requires Parsed(v, depth) && ParsedChain(ns, named, depth) && (if named then NulFree(key) else key == "")
    ensures ParsedChain(Node(key, v, ns), named, depth)
  {
  }

  lemma {:induction false} ParseGivesParsed(c: seq<char>, o: nat, depth: nat)
    requires Terminated(c) && o < |c| && depth <= NESTING_LIMIT && ParseValue(c, o, depth).Some?
    ensures Parsed(ParseValue(c, o, depth).value.0, depth)
    decreases |c| - o, 1
  {
    hide ParseItems, ParseMembers, SkipWhitespace, ParseString, ParseNumber, Has;
    if c[o] == '[' && depth < NESTING_LIMIT {
      var p := SkipWhitespace(c, o + 1);
      if c[p] != ']' && ParseItems(c, p, depth + 1).Some? { ItemsGiveParsed(c, p, depth + 1); }
    } else if c[o] == '{' && depth < NESTING_LIMIT {
      var p := SkipWhitespace(c, o + 1);
      if c[p] != '}' && ParseMembers(c, p, depth + 1).Some? { MembersGiveParsed(c, p, depth + 1); }
    }
  }

  lemma {:induction false} ItemsGiveParsed(c: seq<char>, o: nat, depth: nat)
    requires Terminated(c) && o < |c| && depth <= NESTING_LIMIT && ParseItems(c, o, depth).Some?
    ensures ParsedChain(ParseItems(c, o, depth).value.0, false, depth)
    decreases |c| - o, 2
  {
    hide ParseValue, SkipWhitespace, Parsed, ParsedChain;
    var p := SkipWhitespace(c, o);
    ParseGivesParsed(c, p, depth);
    var (item, end) := ParseValue(c, p, depth).value;
    var e := SkipWhitespace(c, end);
    if c[e] == ',' {
      ItemsGiveParsed(c, e + 1, depth);
      ParsedNode("", item, ParseItems(c, e + 1, depth).value.0, false, depth);
    } else {
      NothingParsed(false, depth);
      ParsedNode("", item, End, false, depth);
    }
  }

  lemma NothingParsed(named: bool, depth: nat)
    requires depth <= NESTING_LIMIT
    ensures ParsedChain(End, named, depth)
  {
  }

  lemma {:induction false} MembersGiveParsed(c: seq<char>, o: nat, depth: nat)
    requires Terminated(c) && o < |c| && depth <= NESTING_LIMIT && ParseMembers(c, o, depth).Some?
    ensures ParsedChain(ParseMembers(c, o, depth).value.0, true, depth)
    decreases |c| - o, 3
  {
    hide ParseMember, SkipWhitespace, Parsed, ParsedChain;
    MemberGivesParsed(c, o, depth);
    var (key, v, end) := ParseMember(c, o, depth).value;
    var e := SkipWhitespace(c, end);
    if c[e] == ',' {
      MembersGiveParsed(c, e + 1, depth);
      ParsedNode(key, v, ParseMembers(c, e + 1, depth).value.0, true, depth);
    } else {
      NothingParsed(true, depth);
      ParsedNode(key, v, End, true, depth);
    }
  }

  lemma {:induction false} MemberGivesParsed(c: seq<char>, o: nat, depth: nat)
    requires Terminated(c) && o < |c| && depth <= NESTING_LIMIT && ParseMember(c, o, depth).Some?
    ensures NulFree(ParseMember(c, o, depth).value.0) && Parsed(ParseMember(c, o, depth).value.1, depth)
    decreases |c| - o, 2
  {
    hide ParseValue, SkipWhitespace, ParseString, Parsed;
    var key := ParseString(c, SkipWhitespace(c, o)).value;
    var e := SkipWhitespace(c, key.1);
    ParseGivesParsed(c, SkipWhitespace(c, e + 1), depth);
  }

  /** Whatever text is accepted, printing its tree and parsing again gives the same tree. */
  lemma ParseThenPrint(text: string, requireTerminated: bool, format: bool)
    requires NulFree(text) && Parse(text, requireTerminated).Some?
    requires SmallNumbers(Parse(text, requireTerminated).value.0)
    ensures var j := Parse(text, requireTerminated).value.0;
      NulFree(Text(j, format, 0)) && Parse(Text(j, format, 0), true) == Some((j, |Text(j, format, 0)|))
  {
    hide Text, ParseValue, SkipWhitespace;
    var c := text + "\0";
    var start := if |c| > 4 && c[..3] == [0xEF as char, 0xBB as char, 0xBF as char] then 3 else 0;
    ParseGivesParsed(c, SkipWhitespace(c, start), 0);
    PrintThenParse(Parse(text, requireTerminated).value.0, format);
  }
}
