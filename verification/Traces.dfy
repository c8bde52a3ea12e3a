/** Per-trace views of an interleaved event list. */
module Traces {
  import opened Bytes

  /** The subsequence of `es` whose key is `t`, in order. */
  function Only<E>(es: seq<E>, key: E -> bytes, t: bytes): (r: seq<E>)
    ensures |r| <= |es|
    ensures forall e <- r :: key(e) == t
  {
    if es == [] then []
    else
      var front := Only(es[..|es| - 1], key, t);
      if key(es[|es| - 1]) == t then front + [es[|es| - 1]] else front
  }

  /** Element `i` of the list is the element of its trace that follows the earlier ones of that trace. */
  lemma {:induction false} OnlyAt<E>(es: seq<E>, key: E -> bytes, i: nat)
    requires i < |es|
    ensures var t := key(es[i]);
      |Only(es[..i], key, t)| < |Only(es, key, t)| && Only(es, key, t)[|Only(es[..i], key, t)|] == es[i]
    decreases |es|
  {
    var n, t := |es| - 1, key(es[i]);
    if i < n {
      OnlyAt(es[..n], key, i);
      assert es[..n][..i] == es[..i];
    }
  }

  lemma {:induction false} OnlyPrefix<E>(es: seq<E>, key: E -> bytes, t: bytes, i: nat)
    requires i <= |es|
    ensures Only(es[..i], key, t) <= Only(es, key, t)
    decreases |es|
  {
    var n := |es| - 1;
    if i <= n {
      OnlyPrefix(es[..n], key, t, i);
      assert es[..n][..i] == es[..i];
    } else {
      assert es[..i] == es;
    }
  }

  lemma OnlySnoc<E>(es: seq<E>, key: E -> bytes, t: bytes, e: E)
    ensures Only(es + [e], key, t) == if key(e) == t then Only(es, key, t) + [e] else Only(es, key, t)
  {
    assert (es + [e])[..|es|] == es;
  }

  /** A list whose elements all belong to `t` is its own view. */
  lemma {:induction false} OnlyOfUniform<E>(es: seq<E>, key: E -> bytes, t: bytes)
    requires forall e <- es :: key(e) == t
    ensures Only(es, key, t) == es
  {
    if es != [] {
      OnlyOfUniform(es[..|es| - 1], key, t);
      assert es == es[..|es| - 1] + [es[|es| - 1]];
    }
  }
}
