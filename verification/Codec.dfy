/** Runs of items written one after another, and reading them back. */
module Codec {
  import opened Bits
  import opened Wrappers

  type Decoder<!R> = seq<byte> -> Option<(R, seq<byte>)>

  function EncodeAll<T>(enc: T -> seq<byte>, xs: seq<T>): seq<byte> {
    if xs == [] then [] else EncodeAll(enc, xs[..|xs| - 1]) + enc(xs[|xs| - 1])
  }

  /** Reading n items; what is left comes with them. */
  function DecodeAll<R>(dec: Decoder<R>, n: nat, s: seq<byte>): (r: Option<(seq<R>, seq<byte>)>)
    ensures r.Some? ==> |r.value.0| == n
    decreases n, |s|
  {
    if n == 0 then Some(([], s))
    else match dec(s)
      case None => None
      case Some((x, rest)) =>
        match DecodeAll(dec, n - 1, rest)
        case None => None
        case Some((xs, end)) => Some(([x] + xs, end))
  }

  lemma EncodeAllSnoc<T>(enc: T -> seq<byte>, xs: seq<T>, n: nat)
    requires n < |xs|
    ensures EncodeAll(enc, xs[..n + 1]) == EncodeAll(enc, xs[..n]) + enc(xs[n])
  {
    assert xs[..n + 1][..n] == xs[..n];
  }

  lemma {:induction false} EncodeAllCons<T>(enc: T -> seq<byte>, xs: seq<T>)
    requires xs != []
    ensures EncodeAll(enc, xs) == enc(xs[0]) + EncodeAll(enc, xs[1..])
  {
    if |xs| > 1 {
      EncodeAllCons(enc, xs[..|xs| - 1]);
      assert xs[..|xs| - 1][1..] == xs[1..][..|xs| - 2];
    } else {
      assert xs[..0] == [] && xs[1..] == [];
    }
  }

  ghost predicate Inverts<T(!new), R>(dec: Decoder<R>, enc: T -> seq<byte>, img: T -> R, x: T) {
    forall t :: dec(enc(x) + t) == Some((img(x), t))
  }

  /** If each item is read back whatever follows it, the run is, and nothing of what follows is taken. */
  lemma {:induction false} RoundTripAll<T(!new), R>(dec: Decoder<R>, enc: T -> seq<byte>, img: T -> R,
                                                    xs: seq<T>, suffix: seq<byte>)
    requires forall x | x in xs :: Inverts(dec, enc, img, x)
    ensures var r := DecodeAll(dec, |xs|, EncodeAll(enc, xs) + suffix);
      && r.Some? && r.value.1 == suffix
      && forall i | 0 <= i < |xs| :: r.value.0[i] == img(xs[i])
  {
    if xs == [] {
      assert [] + suffix == suffix;
    } else {
      var x, more := xs[0], xs[1..];
      var tail := EncodeAll(enc, more) + suffix;
      EncodeAllCons(enc, xs);
      assert EncodeAll(enc, xs) + suffix == enc(x) + tail;
      assert Inverts(dec, enc, img, x);
      RoundTripAll(dec, enc, img, more, suffix);
    }
  }

  function Same<T>(x: T): T {
    x
  }

  lemma RoundTripSame<T(!new)>(dec: Decoder<T>, enc: T -> seq<byte>, xs: seq<T>, suffix: seq<byte>)
    requires forall x | x in xs :: Inverts(dec, enc, Same, x)
    ensures DecodeAll(dec, |xs|, EncodeAll(enc, xs) + suffix) == Some((xs, suffix))
  {
    RoundTripAll(dec, enc, Same, xs, suffix);
    assert DecodeAll(dec, |xs|, EncodeAll(enc, xs) + suffix).value.0 == xs;
  }
}
