/** `strings.Replace(cardNumber, "-", "", -1)`: every hyphen removed,
    every other byte kept in its order. */
module Hyphens {
  import opened Bytes

  predicate HyphenFree(s: seq<byte>) {
    forall i :: 0 <= i < |s| ==> s[i] != Hyphen
  }

  /** The input with every '-' removed and nothing else changed. */
  function Strip(s: seq<byte>): (r: seq<byte>)
    ensures HyphenFree(r)
    ensures |r| <= |s|
  {
    if s == [] then []
    else if s[0] == Hyphen then Strip(s[1..])
    else [s[0]] + Strip(s[1..])
  }

  /** Stripping removes all hyphens and keeps every other byte, as many
      times as it occurs. */
  lemma {:induction false} StripMultiset(s: seq<byte>)
    ensures multiset(Strip(s)) == multiset(s)[Hyphen := 0]
  {
    if s != [] {
      assert s == [s[0]] + s[1..];
      StripMultiset(s[1..]);
    }
  }

  /** Stripping distributes over concatenation: each byte is kept or dropped
      on its own, so the kept bytes stay in their original order. */
  lemma {:induction false} StripAppend(a: seq<byte>, b: seq<byte>)
    ensures Strip(a + b) == Strip(a) + Strip(b)
  {
    if a == [] {
      assert a + b == b;
    } else {
      assert (a + b)[0] == a[0];
      assert (a + b)[1..] == a[1..] + b;
      StripAppend(a[1..], b);
    }
  }

  /** A hyphen-free input is left exactly as it is. */
  lemma {:induction false} StripHyphenFree(s: seq<byte>)
    requires HyphenFree(s)
    ensures Strip(s) == s
  {
    if s != [] {
      StripHyphenFree(s[1..]);
    }
  }

  /** Stripping twice is stripping once. */
  lemma StripIdempotent(s: seq<byte>)
    ensures Strip(Strip(s)) == Strip(s)
  {
    StripHyphenFree(Strip(s));
  }

  /** Inserting (or deleting) one hyphen anywhere does not change the
      stripped input. */
  lemma StripInsertHyphen(a: seq<byte>, b: seq<byte>)
    ensures Strip(a + [Hyphen] + b) == Strip(a + b)
  {
    var h: seq<byte> := [Hyphen];
    assert Strip(h) == [] by {
      assert h[0] == Hyphen && h[1..] == [];
    }
    StripAppend(a + h, b);
    StripAppend(a, h);
    StripAppend(a, b);
  }

  /** A single non-hyphen byte between two pieces survives stripping at the
      boundary of the two stripped pieces. */
  lemma StripAround(a: seq<byte>, x: byte, b: seq<byte>)
    requires x != Hyphen
    ensures Strip(a + [x] + b) == Strip(a) + [x] + Strip(b)
  {
    var xs: seq<byte> := [x];
    assert Strip(xs) == xs by {
      assert xs[0] == x && xs[1..] == [];
    }
    StripAppend(a + xs, b);
    StripAppend(a, xs);
  }

  /** A hyphen-free group followed by a separator keeps the group and drops
      the separator. */
  lemma StripGroup(g: seq<byte>, rest: seq<byte>)
    requires HyphenFree(g)
    ensures Strip(g + ([Hyphen] + rest)) == g + Strip(rest)
  {
    StripAppend(g, [Hyphen] + rest);
    StripHyphenFree(g);
    assert ([Hyphen] + rest)[1..] == rest;
  }
}
