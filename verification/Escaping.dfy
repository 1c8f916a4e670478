/** Lookup by the pointers of RFC 6901, for all names. */
module Escaping {
  import opened Basics
  import opened CStrings
  import opened JsonModel
  import opened Pointers
  import opened Rfc6902
  import opened Comparing
  import opened Patching
  import opened Failing

  /** The string form of a pointer (section 3 of RFC 6901). */
  function PointerString(path: seq<string>): (p: string)
    ensures TokenEnds(p)
  {
    if path == [] then "" else "/" + EscapeToken(path[0]) + PointerString(path[1..])
  }

  /** No array on the way meets a token whose escaped form is misread. */
  predicate ArraysReadRight(v: Value, path: seq<string>) {
    path == [] ||
    (ReadRight(v, EscapeToken(path[0])) && match Step(v, path[0]) case None => true case Some(c) => ArraysReadRight(c, path[1..]))
  }

  lemma {:induction false} FindEscaped(ns: Nodes, token: string, rest: string)
    requires TokenEnds(rest)
    ensures FindMember(ns, EscapeToken(token) + rest, true) == FindKey(ns, token)
  {
    if ns.Node? {
      EscapedMatches(ns.key, token, rest, true);
      FindEscaped(ns.next, token, rest);
    }
  }

  /** Digits need no escaping, and what needs it is no index. */
  lemma {:induction false} EscapedIndex(token: string)
    ensures IsIndex(token) ==> EscapeToken(token) == token
    ensures IsIndex(EscapeToken(token)) ==> IsIndex(token)
  {
    if IsIndex(token) { PlainEscapes(token); }
    if IsIndex(EscapeToken(token)) { EscapedDigits(token); }
  }

  lemma {:induction false} EscapedDigits(token: string)
    requires AllDigits(EscapeToken(token))
    ensures EscapeToken(token) == token
  {
    if token != "" {
      EscapedStep(token, "");
      assert EscapeToken(token) + "" == EscapeToken(token) && EscapeToken(token[1..]) + "" == EscapeToken(token[1..]);
      assert token == [token[0]] + token[1..];
      assert forall i :: 0 <= i < |EscapeToken(token[1..])| ==> EscapeToken(token[1..])[i] == EscapeToken(token)[i + 1];
      EscapedDigits(token[1..]);
    }
  }

  lemma SelectEscaped(j: Json, token: string, rest: string)
    requires WellFormed(j, AnyKey) && TokenEnds(rest)
    ensures Step(Meaning(j), token).Some? ==>
      var i := SelectChild(j, EscapeToken(token) + rest, true);
      i.Some? && Meaning(Child(j, i.value)) == Step(Meaning(j), token).value && WellFormed(Child(j, i.value), AnyKey)
    ensures ReadRight(Meaning(j), EscapeToken(token)) && SelectChild(j, EscapeToken(token) + rest, true).Some? ==> Step(Meaning(j), token).Some?
  {
    hide DecodeIndex, Misread, FindMember;
    match j
    case Array(ns) => SelectEscapedItem(ns, token, rest);
    case Object(ns) =>
      FindEscaped(ns, token, rest);
      if FindKey(ns, token) < Length(ns) {
        NthMeaning(ns, FindKey(ns, token), AnyKey);
        FirstCounts(ns, token);
      }
    case _ =>
  }

  lemma SelectEscapedItem(ns: Nodes, token: string, rest: string)
    requires ValuesWellFormed(ns, AnyKey) && TokenEnds(rest)
    ensures var k := DecodeIndex(EscapeToken(token) + rest);
      && (IsIndex(token) ==> k == Some(NumberOf(token)))
      && (!IsIndex(token) && !Misread(EscapeToken(token)) ==> k == None)
    ensures IsIndex(token) && NumberOf(token) < Length(ns) ==>
      Items(ns)[NumberOf(token)] == Meaning(Nth(ns, NumberOf(token))) && WellFormed(Nth(ns, NumberOf(token)), AnyKey)
  {
    hide DecodeIndex, Misread;
    EscapedIndex(token);
    if IsIndex(token) {
      DecodeProperIndex(token, rest);
      if NumberOf(token) < Length(ns) { NthMeaning(ns, NumberOf(token), AnyKey); }
    } else if !Misread(EscapeToken(token)) {
      DecodeImproperIndex(EscapeToken(token), rest);
    }
  }

  /**
   * The case-sensitive lookup finds what RFC 6901 refers to, whatever the names;
   * and nothing else, unless an array meets a token that is misread.
   */
  lemma {:induction false} EscapedLookup(doc: Json, path: seq<string>)
    requires WellFormed(doc, AnyKey)
    ensures var loc, v := GetItem(doc, PointerString(path), true), Lookup(Meaning(doc), path);
      && (v.Some? ==> loc.Some? && Meaning(At(doc, loc.value)) == v.value)
      && (ArraysReadRight(Meaning(doc), path) && loc.Some? ==> v.Some?)
    decreases path
  {
    if path != [] {
      hide SelectChild;
      var token, rest := EscapeToken(path[0]), PointerString(path[1..]);
      SelectEscaped(doc, path[0], rest);
      SkipPlain(token, rest);
      GetThrough(doc, token, rest, true);
      if Step(Meaning(doc), path[0]).Some? {
        var i := SelectChild(doc, token + rest, true).value;
        EscapedLookup(Child(doc, i), path[1..]);
        var found := GetItem(Child(doc, i), rest, true);
        if found.Some? { assert ([i] + found.value)[1..] == found.value; }
      }
    }
  }

  lemma AgreeingIsAny(ok: string -> bool)
    requires Agreeing(ok)
    ensures forall k :: ok(k) ==> AnyKey(k)
  {
    forall k | ok(k) ensures AnyKey(k) { assert ok(k) && ok(k); }
  }

  /** So a case-sensitive test by such a pointer decides whether the values agree, whatever the names on the way. */
  lemma TestByAnyNames(doc: Json, path: seq<string>, value: Json, ok: string -> bool)
    requires Agreeing(ok) && WellFormed(doc, ok) && WellFormed(value, ok) && Lookup(Meaning(doc), path).Some?
    ensures ApplyTest(doc, PointerString(path), Some(value), true).status == 0
       <==> Lookup(Meaning(doc), path).value == Meaning(value)
  {
    hide PointerString, Lookup, Meaning, WellFormed, Agreeing, GetItem, At, Put;
    AgreeingIsAny(ok);
    WeakerKeys(doc, ok, AnyKey);
    EscapedLookup(doc, path);
    var loc := GetItem(doc, PointerString(path), true).value;
    PutMeaning(doc, loc, At(doc, loc), ok);
    CompareJsonMeans(At(doc, loc), value, true, ok);
  }

  // ---------- the last token, which is unescaped in place ----------

  lemma {:induction false} DecodeKeepsFront(b: string, w: nat, r: nat, n: nat)
    requires n <= w <= r <= |b|
    ensures n <= |DecodeFrom(b, w, r)| && DecodeFrom(b, w, r)[..n] == b[..n]
    decreases |b| - r
  {
    if r < |b| {
      if b[r] != '~' {
        DecodeKeepsFront(b, w + 1, r + 1, n);
      } else if r + 1 < |b| && b[r + 1] == '0' {
        DecodeKeepsFront(b[w := '~'], w + 1, r + 2, n);
        assert b[w := '~'][..n] == b[..n];
      } else if r + 1 < |b| && b[r + 1] == '1' {
        DecodeKeepsFront(b[w + 1 := '/'], w + 1, r + 2, n);
        assert b[w + 1 := '/'][..n] == b[..n];
      }
    }
  }

  /** What stands where the name goes: tildes are put in, all else is what the buffer held there. */
  function Settled(b: string, w: nat, name: string): string
    requires w + |name| <= |b|
  {
    seq(|name|, i requires 0 <= i < |name| => if name[i] == '~' then '~' else b[w + i])
  }

  lemma {:induction false} EscapeLonger(name: string)
    ensures |EscapeToken(name)| >= |name|
    ensures '/' !in EscapeToken(name)
  {
    if name != "" { EscapeLonger(name[1..]); }
  }

  lemma {:induction false} DecodesSlashFree(b: string, w: nat, r: nat, name: string)
    requires w <= r <= |b| && b[r..] == EscapeToken(name) && '/' !in name
    ensures w + |name| <= |b| && DecodeFrom(b, w, r) == b[..w] + Settled(b, w, name)
    decreases |name|
  {
    hide Settled;
    EscapeLonger(name);
    if name == "" {
      SettledNothing(b, w);
    } else {
      var rest := name[1..];
      EscapeLonger(rest);
      UnescapeStep(b, r, name);
      assert name[0] in name && forall c :: c in rest ==> c in name;
      if name[0] == '~' {
        var b' := b[w := '~'];
        assert b'[r + 2..] == b[r + 2..];
        DecodesSlashFree(b', w + 1, r + 2, rest);
        SettledStep(b, b', w, name);
      } else {
        DecodesSlashFree(b, w + 1, r + 1, rest);
        SettledStep(b, b, w, name);
      }
    }
  }

  lemma SettledNothing(b: string, w: nat)
    requires w <= |b|
    ensures b[..w] + Settled(b, w, "") == b[..w]
  {
  }

  lemma SettledStep(b: string, b': string, w: nat, name: string)
    requires name != "" && w + |name| <= |b|
    requires b' == if name[0] == '~' then b[w := '~'] else b
    ensures b'[..w + 1] + Settled(b', w + 1, name[1..]) == b[..w] + Settled(b, w, name)
  {
  }

  lemma UnescapeStep(b: string, r: nat, name: string)
    requires r <= |b| && name != "" && b[r..] == EscapeToken(name)
    ensures r < |b|
    ensures name[0] == '~' ==> r + 1 < |b| && b[r] == '~' && b[r + 1] == '0' && b[r + 2..] == EscapeToken(name[1..])
    ensures name[0] == '/' ==> r + 1 < |b| && b[r] == '~' && b[r + 1] == '1' && b[r + 2..] == EscapeToken(name[1..])
    ensures name[0] != '~' && name[0] != '/' ==> b[r] == name[0] && b[r + 1..] == EscapeToken(name[1..])
  {
    var p, q := EscapeToken(name), EscapeToken(name[1..]);
    EscapedStep(name, "");
    assert p + "" == p && q + "" == q;
    assert forall i :: 0 <= i < |p| ==> b[r + i] == p[i];
    if name[0] == '~' || name[0] == '/' {
      assert b[r + 2..] == p[2..];
    } else {
      assert b[r + 1..] == p[1..];
    }
  }

  /** Where the first slash of the name should come, there stands what the buffer held, which is none. */
  lemma {:induction false} SlashIsLost(b: string, w: nat, r: nat, name: string) returns (i: nat)
    requires w <= r <= |b| && b[r..] == EscapeToken(name) && '/' in name
    ensures i < |name| && name[i] == '/' && w + i < |b| && w + i < |DecodeFrom(b, w, r)|
    ensures DecodeFrom(b, w, r)[w + i] == b[w + i]
    decreases |name|
  {
    hide EscapeToken;
    var rest := name[1..];
    UnescapeStep(b, r, name);
    if name[0] == '/' {
      i := 0;
      DecodeKeepsFront(b[w + 1 := '/'], w + 1, r + 2, w + 1);
      assert DecodeFrom(b, w, r)[..w + 1][w] == b[w];
    } else {
      assert name == [name[0]] + rest;
      if name[0] == '~' {
        assert b[w := '~'][r + 2..] == b[r + 2..];
        i := SlashIsLost(b[w := '~'], w + 1, r + 2, rest);
      } else {
        i := SlashIsLost(b, w + 1, r + 1, rest);
      }
      i := i + 1;
    }
  }

  /**
   * Unescaping an escaped name gives it back exactly if it contains no slash, and every character that is no tilde
   * stands where it stands in the escaped form: all that is behind a tilde stays in its place.
   */
  lemma LastTokenDecodesIff(name: string)
    ensures DecodePointer(EscapeToken(name)) == name
       <==> '/' !in name && forall i :: 0 <= i < |name| && name[i] != '~' ==> i < |EscapeToken(name)| && EscapeToken(name)[i] == name[i]
  {
    var e := EscapeToken(name);
    EscapeLonger(name);
    assert e[0..] == e;
    if '/' in name {
      var i := SlashIsLost(e, 0, 0, name);
      assert e[i] in e;
    } else {
      DecodesSlashFree(e, 0, 0, name);
      var d := DecodePointer(e);
      assert d == Settled(e, 0, name);
      if d == name {
        forall i | 0 <= i < |name| && name[i] != '~' ensures e[i] == name[i] { assert d[i] == name[i]; }
      }
    }
  }

  /** Tildes at the end do no harm. */
  lemma {:induction false} TrailingTildes(front: string, tildes: string)
    requires '~' !in front && '/' !in front && forall i :: 0 <= i < |tildes| ==> tildes[i] == '~'
    ensures DecodePointer(EscapeToken(front + tildes)) == front + tildes
  {
    EscapeFront(front, tildes);
    LastTokenDecodesIff(front + tildes);
  }

  lemma {:induction false} EscapeFront(front: string, rest: string)
    requires '~' !in front && '/' !in front
    ensures EscapeToken(front + rest) == front + EscapeToken(rest)
  {
    if front == "" {
      assert front + rest == rest;
    } else {
      assert front[0] in front && forall c :: c in front[1..] ==> c in front;
      assert (front + rest)[1..] == front[1..] + rest && front == [front[0]] + front[1..];
      EscapeFront(front[1..], rest);
    }
  }
}
