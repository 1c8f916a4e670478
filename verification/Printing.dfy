/** The text a tree is printed as. */
module Printing {
  import opened Basics
  import opened CStrings
  import opened JsonModel
  import opened Pointers

  // ---------- the text ----------

  function HexDigit(d: nat): char
    requires d < 16
  {
    if d < 10 then '0' + d as char else 'a' + (d - 10) as char
  }

  /** How print_string_ptr writes one character. */
  function Escape(c: char): string {
    if c == '\\' then "\\\\"
    else if c == '\"' then "\\\""
    else if c == 8 as char then "\\b"
    else if c == 12 as char then "\\f"
    else if c == '\n' then "\\n"
    else if c == '\r' then "\\r"
    else if c == '\t' then "\\t"
    else if c < ' ' then ['\\', 'u', '0', '0', HexDigit(c as nat / 16), HexDigit(c as nat % 16)]
    else [c]
  }

  function EscapeAll(s: string): string {
    if s == "" then "" else Escape(s[0]) + EscapeAll(s[1..])
  }

  function StringText(s: string): string { "\"" + EscapeAll(s) + "\"" }

  function NumberText(n: int): string {
    if n < 0 then "-" + Decimal(-n) else Decimal(n)
  }

  function Tabs(n: nat): (s: string)
    ensures |s| == n
  {
    if n == 0 then "" else "\t" + Tabs(n - 1)
  }

  /** The printed form; `depth` is the nesting depth around the value. */
  function Text(j: Json, format: bool, depth: nat): string
    decreases j, 3
  {
    match j
    case Invalid => ""
    case Null => "null"
    case False => "false"
    case True => "true"
    case Number(n) => NumberText(n)
    case Str(s) => StringText(s)
    case Array(ns) => "[" + ItemsText(ns, format, depth + 1) + "]"
    case Object(ns) =>
      OpenText(format) + MembersText(ns, format, depth + 1) + CloseText(format, depth)
  }

  function ItemsText(ns: Nodes, format: bool, depth: nat): string
    decreases ns, 2
  {
    if ns.End? then "" else ElementText(ns, format, depth) + ItemsText(ns.next, format, depth)
  }

  /** One element of an array, with the comma behind it. */
  function ElementText(ns: Nodes, format: bool, depth: nat): string
    requires ns.Node?
    decreases ns, 1
  {
    Text(ns.value, format, depth) + CommaText(ns.next.End?, format)
  }

  function CommaText(last: bool, format: bool): string {
    if last then "" else if format then ", " else ","
  }

  function MembersText(ns: Nodes, format: bool, depth: nat): string
    decreases ns, 2
  {
    if ns.End? then "" else MemberText(ns, format, depth) + MembersText(ns.next, format, depth)
  }

  /** One member of an object: its key, its value, and what stands behind it. */
  function MemberText(ns: Nodes, format: bool, depth: nat): string
    requires ns.Node?
    decreases ns, 1
  {
    KeyText(ns.key, format, depth) + Text(ns.value, format, depth) + TailText(ns.next.End?, format)
  }

  function KeyText(key: string, format: bool, depth: nat): string {
    (if format then Tabs(depth) else "") + StringText(key) + ColonText(format)
  }

  function ColonText(format: bool): string {
    if format then ":\t" else ":"
  }

  function TailText(last: bool, format: bool): string {
    (if last then "" else ",") + (if format then "\n" else "")
  }

  function OpenText(format: bool): string {
    if format then "{\n" else "{"
  }

  function CloseText(format: bool, depth: nat): string {
    (if format then Tabs(depth) else "") + "}"
  }

  const TEN_TO_15 := 1_000_000_000_000_000

  /** Trees as C stores them: strings end at their first NUL; numbers are integers that print without an exponent. */
  predicate Storable(j: Json) {
    match j
    case Number(n) => -TEN_TO_15 < n < TEN_TO_15
    case Str(s) => NulFree(s)
    case Array(ns) => ChainStorable(ns, false)
    case Object(ns) => ChainStorable(ns, true)
    case _ => true
  }

  predicate ChainStorable(ns: Nodes, named: bool) {
    ns.End? || ((named ==> NulFree(ns.key)) && Storable(ns.value) && ChainStorable(ns.next, named))
  }

  lemma EscapeNulFree(c: char)
    requires c != '\0'
    ensures NulFree(Escape(c))
  {
  }

  lemma JoinNulFree(a: string, b: string)
    requires NulFree(a) && NulFree(b)
    ensures NulFree(a + b)
  {
  }

  lemma {:induction false} EscapeAllNulFree(s: string)
    requires NulFree(s)
    ensures NulFree(EscapeAll(s))
  {
    if s != "" {
      EscapeNulFree(s[0]);
      EscapeAllNulFree(s[1..]);
      JoinNulFree(Escape(s[0]), EscapeAll(s[1..]));
    }
  }

  lemma StringNulFree(s: string)
    requires NulFree(s)
    ensures NulFree(StringText(s))
  {
    EscapeAllNulFree(s);
    JoinNulFree("\"", EscapeAll(s));
  }

  lemma {:induction false} TabsNulFree(n: nat)
    ensures NulFree(Tabs(n))
    ensures forall i :: 0 <= i < n ==> Tabs(n)[i] == '\t'
  {
    if n > 0 { TabsNulFree(n - 1); }
  }

  lemma BracketedNulFree(open: string, inner: string, close: string)
    requires NulFree(open) && NulFree(inner) && NulFree(close)
    ensures NulFree(open + inner + close)
  {
  }

  lemma DecimalNulFree(n: int)
    ensures NulFree(NumberText(n))
  {
    if n < 0 { JoinNulFree("-", Decimal(-n)); }
  }

  lemma {:induction false} TextNulFree(j: Json, format: bool, depth: nat)
    requires Storable(j)
    ensures NulFree(Text(j, format, depth))
    decreases j, 1
  {
    match j
    case Str(s) => StringNulFree(s);
    case Number(n) => DecimalNulFree(n);
    case Array(ns) =>
      ItemsNulFree(ns, format, depth + 1);
      BracketedNulFree("[", ItemsText(ns, format, depth + 1), "]");
    case Object(ns) =>
      ObjectNulFree(ns, format, depth);
    case _ =>
  }

  lemma {:induction false} ObjectNulFree(ns: Nodes, format: bool, depth: nat)
    requires ChainStorable(ns, true)
    ensures NulFree(Text(Object(ns), format, depth))
    decreases ns, 1
  {
    TabsNulFree(depth);
    JoinNulFree(if format then Tabs(depth) else "", "}");
    MembersNulFree(ns, format, depth + 1);
    BracketedNulFree(OpenText(format), MembersText(ns, format, depth + 1), CloseText(format, depth));
  }

  lemma {:induction false} ItemsNulFree(ns: Nodes, format: bool, depth: nat)
    requires ChainStorable(ns, false)
    ensures NulFree(ItemsText(ns, format, depth))
    decreases ns, 0
  {
    if ns.Node? {
      TextNulFree(ns.value, format, depth);
      ItemsNulFree(ns.next, format, depth);
      BracketedNulFree(Text(ns.value, format, depth), CommaText(ns.next.End?, format), ItemsText(ns.next, format, depth));
    }
  }

  lemma KeyNulFree(key: string, format: bool, depth: nat)
    requires NulFree(key)
    ensures NulFree(KeyText(key, format, depth))
  {
    StringNulFree(key);
    TabsNulFree(depth);
    BracketedNulFree(if format then Tabs(depth) else "", StringText(key), ColonText(format));
  }

  lemma {:induction false} MembersNulFree(ns: Nodes, format: bool, depth: nat)
    requires ChainStorable(ns, true)
    ensures NulFree(MembersText(ns, format, depth))
    decreases ns, 0
  {
    if ns.Node? {
      KeyNulFree(ns.key, format, depth);
      TextNulFree(ns.value, format, depth);
      MembersNulFree(ns.next, format, depth);
      BracketedNulFree(KeyText(ns.key, format, depth), Text(ns.value, format, depth), TailText(ns.next.End?, format));
      JoinNulFree(MemberText(ns, format, depth), MembersText(ns.next, format, depth));
    }
  }
}
