/**
  C strings. A C string is modelled by the characters before its terminator, and a pointer
  into it by the suffix that starts there, so `*p` is `Head(p)` and `p + k` is `p[k..]`.
*/
module CText {

  datatype Option<+T> = None | Some(value: T)

  /** The character a C string pointer points at; the terminator when nothing is left. */
  function Head(s: string): (c: char)
    ensures s != [] ==> c == s[0]
  {
    if s == [] then '\0' else s[0]
  }

  /** What a C string can hold. */
  predicate NulFree(s: string) { '\0' !in s }

  predicate StartsWith(s: string, prefix: string) {
    |prefix| <= |s| && s[..|prefix|] == prefix
  }

  /** Puts `prefix` in front of a text that may be undefined. */
  function Prepend(prefix: string, o: Option<string>): (r: Option<string>) {
    match o
    case None => None
    case Some(s) => Some(prefix + s)
  }

  lemma PrependPrepend(a: string, b: string, o: Option<string>)
    ensures Prepend(a, Prepend(b, o)) == Prepend(a + b, o)
  {
    if o.Some? { Assoc3(a, b, o.value); }
  }

  lemma PrependNothing(o: Option<string>)
    ensures Prepend("", o) == o
  {
    if o.Some? { assert "" + o.value == o.value; }
  }

  function Repeat(c: char, n: nat): (s: string)
    ensures |s| == n
    ensures forall i | 0 <= i < n :: s[i] == c
  {
    seq(n, _ => c)
  }

  // Regrouping of concatenations.

  lemma Assoc3(a: string, b: string, c: string)
    ensures a + b + c == a + (b + c)
  {
  }

  lemma Assoc4(a: string, b: string, c: string, d: string)
    ensures a + b + c + d == a + (b + (c + d))
  {
    assert a + b + c + d == a + b + (c + d);
    assert a + b + (c + d) == a + (b + (c + d));
  }

  lemma Assoc5(a: string, b: string, c: string, d: string, e: string)
    ensures a + b + c + d + e == a + (b + (c + (d + e)))
  {
    Assoc3(a + b + c, d, e);
    Assoc4(a, b, c, d + e);
  }

  lemma DropFirst(a: string, b: string)
    requires a != []
    ensures (a + b)[0] == a[0] && (a + b)[1..] == a[1..] + b
  {
  }

  // Splitting of sequences.

  lemma Split2<T>(s: seq<T>, k: nat)
    requires k <= |s|
    ensures s == s[..k] + s[k..]
  {
  }

  lemma Split3<T>(s: seq<T>, k: nat)
    requires k < |s|
    ensures s == s[..k] + [s[k]] + s[k + 1..]
  {
  }

  lemma SplitTail<T>(s: seq<T>, i: nat, k: nat)
    requires i <= k <= |s|
    ensures s[i..] == s[i..k] + s[k..]
    ensures s[..k] == s[..i] + s[i..k]
  {
  }

  lemma SplitMiddle<T>(s: seq<T>, i: nat, k: nat)
    requires i < k <= |s|
    ensures s[..k] == s[..i] + [s[i]] + s[i + 1..k]
  {
  }

  lemma UpdateSplit<T>(s: seq<T>, k: nat, x: T)
    requires k < |s|
    ensures s[k := x] == s[..k] + [x] + s[k + 1..]
  {
  }
}
