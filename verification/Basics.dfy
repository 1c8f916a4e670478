/** What every part of the model uses. */
module Basics {
  datatype Option<+T> = None | Some(value: T)

  type Byte = x: int | 0 <= x < 256

  lemma Associate<T>(a: seq<T>, b: seq<T>, c: seq<T>)
    ensures (a + b) + c == a + (b + c)
  {
  }

  /** Puts something in front of a text, if there is one. */
  function Prepend(front: seq<char>, rest: Option<seq<char>>): Option<seq<char>> {
    if rest.None? then None else Some(front + rest.value)
  }

  lemma PrependNothing(rest: Option<seq<char>>)
    ensures Prepend([], rest) == rest
  {
    if rest.Some? { assert [] + rest.value == rest.value; }
  }

  lemma PrependTwice(a: seq<char>, b: seq<char>, rest: Option<seq<char>>)
    ensures Prepend(a, Prepend(b, rest)) == Prepend(a + b, rest)
  {
    if rest.Some? { Associate(a, b, rest.value); }
  }

  const CAPITALS := "ABCDEFGHIJKLMNOPQRSTUVWXYZ"
  const SMALL_LETTERS := "abcdefghijklmnopqrstuvwxyz"

  lemma Letters(k: nat)
    requires k < 26
    ensures |CAPITALS| == |SMALL_LETTERS| == 26
    ensures CAPITALS[k] as int == 65 + k && SMALL_LETTERS[k] as int == 97 + k
  {
  }
}
