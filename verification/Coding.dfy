/**
 Encoders that write each item in turn, and decoders that take one item off the front at a
 time: the loops of go/escape.go, and when one undoes the other.
 */
module Coding {
  import opened Options

  /** An item off the front of an input, and how much of it that was. */
  datatype Taken<T> = Taken(item: T, size: nat)

  function Encoded<A(!new), B(!new)>(one: A -> seq<B>, s: seq<A>): seq<B> {
    if s == [] then [] else one(s[0]) + Encoded(one, s[1..])
  }

  function Decoded<A(!new), B(!new)>(take: seq<B> -> Option<Taken<A>>, s: seq<B>): Option<seq<A>>
    decreases |s|
  {
    if s == [] then Some([])
    else
      var t := take(s);
      if t.None? || t.value.size == 0 || |s| < t.value.size then None
      else
        var rest := Decoded(take, s[t.value.size..]);
        if rest.None? then None else Some([t.value.item] + rest.value)
  }

  lemma {:induction false} EncodedAppend<A(!new), B(!new)>(one: A -> seq<B>, a: seq<A>, b: seq<A>)
    ensures Encoded(one, a + b) == Encoded(one, a) + Encoded(one, b)
  {
    if a == [] {
      assert a + b == b;
    } else {
      assert (a + b)[0] == a[0] && (a + b)[1..] == a[1..] + b;
      EncodedAppend(one, a[1..], b);
    }
  }

  method Encode<A(!new), B(!new)>(one: A -> seq<B>, s: seq<A>) returns (out: seq<B>)
    ensures out == Encoded(one, s)
  {
    out := [];
    for i := 0 to |s|
      invariant out == Encoded(one, s[..i])
    {
      assert s[..i + 1] == s[..i] + [s[i]];
      EncodedAppend(one, s[..i], [s[i]]);
      assert [s[i]][1..] == [];
      out := out + one(s[i]);
    }
    assert s[..|s|] == s;
  }

  function Behind<A>(out: seq<A>, rest: Option<seq<A>>): Option<seq<A>> {
    if rest.None? then None else Some(out + rest.value)
  }

  lemma BehindNone<A(!new)>(rest: Option<seq<A>>)
    ensures Behind([], rest) == rest
  {
    if rest.Some? { assert [] + rest.value == rest.value; }
  }

  lemma DecodedStep<A(!new), B(!new)>(take: seq<B> -> Option<Taken<A>>, out: seq<A>, s: seq<B>)
    ensures Behind(out, Decoded(take, s)) ==
      if s == [] then Some(out)
      else if take(s).None? || take(s).value.size == 0 || |s| < take(s).value.size then None
      else Behind(out + [take(s).value.item], Decoded(take, s[take(s).value.size..]))
  {
    if s == [] {
      assert out + [] == out;
    } else if take(s).Some? && 0 < take(s).value.size <= |s| {
      var t, rest := take(s).value, Decoded(take, s[take(s).value.size..]);
      if rest.Some? { assert out + ([t.item] + rest.value) == (out + [t.item]) + rest.value; }
    }
  }

  method Decode<A(!new), B(!new)>(take: seq<B> -> Option<Taken<A>>, s: seq<B>) returns (back: Option<seq<A>>)
    ensures back == Decoded(take, s)
  {
    hide Decoded, Behind;
    var out: seq<A> := [];
    var i := 0;
    assert s[0..] == s;
    BehindNone(Decoded(take, s));
    while i < |s|
      invariant 0 <= i <= |s|
      invariant Decoded(take, s) == Behind(out, Decoded(take, s[i..]))
    {
      var t := take(s[i..]);
      DecodedStep(take, out, s[i..]);
      if t.None? || t.value.size == 0 || |s| - i < t.value.size { return None; }
      assert s[i..][t.value.size..] == s[i + t.value.size..];
      out := out + [t.value.item];
      i := i + t.value.size;
    }
    DecodedStep(take, out, s[i..]);
    return Some(out);
  }

  /** The decoder takes off exactly what the encoder wrote for an item, whatever follows. */
  ghost predicate TakesBack<A(!new), B(!new)>(one: A -> seq<B>, take: seq<B> -> Option<Taken<A>>) {
    forall c: A, rest: seq<B> :: one(c) != [] && take(one(c) + rest) == Some(Taken(c, |one(c)|))
  }

  /** Then decoding undoes encoding. */
  lemma {:induction false} DecodedEncoded<A(!new), B(!new)>(one: A -> seq<B>, take: seq<B> -> Option<Taken<A>>, s: seq<A>)
    requires TakesBack(one, take)
    ensures Decoded(take, Encoded(one, s)) == Some(s)
  {
    if s != [] {
      var rest := Encoded(one, s[1..]);
      assert take(one(s[0]) + rest) == Some(Taken(s[0], |one(s[0])|));
      assert (one(s[0]) + rest)[|one(s[0])|..] == rest;
      DecodedEncoded(one, take, s[1..]);
      assert [s[0]] + s[1..] == s;
    }
  }

  /** The decoder takes off nothing the encoder would not have written. */
  ghost predicate TakesOnly<A(!new), B(!new)>(one: A -> seq<B>, take: seq<B> -> Option<Taken<A>>) {
    forall s: seq<B> :: take(s).Some? && 0 < take(s).value.size <= |s| ==> s[..take(s).value.size] == one(take(s).value.item)
  }

  lemma DecodedHead<A(!new), B(!new)>(take: seq<B> -> Option<Taken<A>>, s: seq<B>)
    requires s != [] && Decoded(take, s).Some?
    ensures take(s).Some? && 0 < take(s).value.size <= |s| && Decoded(take, s[take(s).value.size..]).Some?
    ensures Decoded(take, s).value == [take(s).value.item] + Decoded(take, s[take(s).value.size..]).value
  {
  }

  lemma EncodedHead<A(!new), B(!new)>(one: A -> seq<B>, c: A, rest: seq<A>)
    ensures Encoded(one, [c] + rest) == one(c) + Encoded(one, rest)
  {
    assert ([c] + rest)[1..] == rest;
  }

  lemma Cut<B>(s: seq<B>, n: nat)
    requires n <= |s|
    ensures s == s[..n] + s[n..]
  {
  }

  /** Then encoding undoes decoding. */
  lemma {:induction false} EncodedDecoded<A(!new), B(!new)>(one: A -> seq<B>, take: seq<B> -> Option<Taken<A>>, s: seq<B>)
    requires TakesOnly(one, take)
    ensures Decoded(take, s).Some? ==> Encoded(one, Decoded(take, s).value) == s
    decreases |s|
  {
    if s == [] {
    } else if Decoded(take, s).Some? {
      hide Decoded, Encoded;
      DecodedHead(take, s);
      var t := take(s).value;
      EncodedDecoded(one, take, s[t.size..]);
      EncodedHead(one, t.item, Decoded(take, s[t.size..]).value);
      Cut(s, t.size);
    }
  }
}
