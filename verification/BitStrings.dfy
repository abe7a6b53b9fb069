/**
 Bit strings, most significant bit first, and the two ways RFC 4648 moves between them and
 lists of fixed-width groups: `Unpack` writes every group out in `w` bits, `Pack` cuts a bit
 string into groups of `w` and fills the last one with zero bits.
 */
module BitStrings {

  function Pow2(n: nat): (p: nat)
    ensures p >= 1
  {
    if n == 0 then 1 else 2 * Pow2(n - 1)
  }

  function Zeros(n: nat): (b: seq<bool>)
    ensures |b| == n && forall i :: 0 <= i < n ==> !b[i]
  {
    seq(n, _ => false)
  }

  /** The low `w` bits of `v`. */
  function ToBits(v: nat, w: nat): (b: seq<bool>)
    ensures |b| == w
  {
    if w == 0 then [] else ToBits(v / 2, w - 1) + [v % 2 == 1]
  }

  /** The number a bit string spells. */
  function FromBits(b: seq<bool>): (v: nat)
    ensures v < Pow2(|b|)
  {
    if b == [] then 0
    else 2 * FromBits(b[..|b| - 1]) + if b[|b| - 1] then 1 else 0
  }

  /** Every group fits in `w` bits. */
  ghost predicate Fit(vs: seq<nat>, w: nat) {
    forall i :: 0 <= i < |vs| ==> vs[i] < Pow2(w)
  }

  function Unpack(vs: seq<nat>, w: nat): (b: seq<bool>) {
    if vs == [] then [] else ToBits(vs[0], w) + Unpack(vs[1..], w)
  }

  function Pack(b: seq<bool>, w: nat): (vs: seq<nat>)
    requires w > 0
    ensures Fit(vs, w)
    decreases |b|
  {
    if b == [] then []
    else if |b| <= w then [FromBits(b + Zeros(w - |b|))]
    else [FromBits(b[..w])] + Pack(b[w..], w)
  }

  lemma {:induction false} FromToBits(v: nat, w: nat)
    requires v < Pow2(w)
    ensures FromBits(ToBits(v, w)) == v
  {
    if w > 0 {
      FromToBits(v / 2, w - 1);
      assert ToBits(v, w)[..w - 1] == ToBits(v / 2, w - 1);
    }
  }

  lemma {:induction false} ToFromBits(b: seq<bool>)
    ensures ToBits(FromBits(b), |b|) == b
  {
    if b != [] {
      var front := b[..|b| - 1];
      ToFromBits(front);
      assert FromBits(b) / 2 == FromBits(front);
      assert b == front + [b[|b| - 1]];
    }
  }

  lemma Halves(hi: nat, q: nat, lo: nat)
    ensures (hi * (2 * q) + lo) / 2 == hi * q + lo / 2 && (hi * (2 * q) + lo) % 2 == lo % 2
  {
    assert hi * (2 * q) == 2 * (hi * q);
  }

  /** Writing two numbers one after the other is writing one number. */
  lemma {:induction false} ToBitsConcat(hi: nat, wh: nat, lo: nat, wl: nat, p: nat)
    requires p == Pow2(wl) && lo < p
    ensures ToBits(hi * p + lo, wh + wl) == ToBits(hi, wh) + ToBits(lo, wl)
  {
    if wl > 0 {
      var q := Pow2(wl - 1);
      Halves(hi, q, lo);
      ToBitsConcat(hi, wh, lo / 2, wl - 1, q);
      assert p == 2 * q;
    } else {
      assert hi * p + lo == hi;
    }
  }

  /** `v >> w` */
  function Shr(v: nat, w: nat): nat {
    if w == 0 then v else Shr(v / 2, w - 1)
  }

  lemma {:induction false} ToBitsSplit(v: nat, wh: nat, wl: nat)
    ensures ToBits(v, wh + wl) == ToBits(Shr(v, wl), wh) + ToBits(v, wl)
  {
    if wl > 0 {
      ToBitsSplit(v / 2, wh, wl - 1);
    }
  }

  /** Bits at position `e` and above do not show in the low `w <= e` bits. */
  lemma {:induction false} ToBitsWraps(v: nat, k: nat, e: nat, p: nat, w: nat)
    requires w <= e && p == Pow2(e)
    ensures ToBits(v + k * p, w) == ToBits(v, w)
  {
    if w > 0 {
      var q := Pow2(e - 1);
      assert k * p == 2 * (k * q);
      assert (v + k * p) / 2 == v / 2 + k * q && (v + k * p) % 2 == v % 2;
      ToBitsWraps(v / 2, k, e - 1, q, w - 1);
    }
  }

  lemma {:induction false} UnpackLength(vs: seq<nat>, w: nat)
    ensures |Unpack(vs, w)| == |vs| * w
  {
    if vs != [] {
      UnpackLength(vs[1..], w);
      assert (|vs| - 1) * w + w == |vs| * w;
    }
  }

  lemma {:induction false} UnpackAppend(a: seq<nat>, b: seq<nat>, w: nat)
    ensures Unpack(a + b, w) == Unpack(a, w) + Unpack(b, w)
  {
    hide ToBits;
    if a == [] {
      assert a + b == b;
    } else {
      UnpackAppend(a[1..], b, w);
      assert (a + b)[1..] == a[1..] + b && (a + b)[0] == a[0];
      assert Unpack(a + b, w) == ToBits(a[0], w) + (Unpack(a[1..], w) + Unpack(b, w));
    }
  }

  /** The number whose base-`p` digits are `vs`. */
  function Horner(vs: seq<nat>, p: nat): nat {
    if vs == [] then 0 else Horner(vs[..|vs| - 1], p) * p + vs[|vs| - 1]
  }

  /** Groups of `w` bits written out are the one number they are the digits of. */
  lemma {:induction false} UnpackHorner(vs: seq<nat>, w: nat, p: nat)
    requires p == Pow2(w) && Fit(vs, w)
    ensures Unpack(vs, w) == ToBits(Horner(vs, p), |Unpack(vs, w)|)
  {
    if vs != [] {
      var front, last := vs[..|vs| - 1], vs[|vs| - 1];
      assert front + [last] == vs;
      UnpackAppend(front, [last], w);
      assert Unpack([last], w) == ToBits(last, w) + Unpack([], w);
      UnpackHorner(front, w, p);
      ToBitsConcat(Horner(front, p), |Unpack(front, w)|, last, w, p);
    }
  }

  /** One whole group in front of a bit string. */
  lemma PackGroup(v: nat, rest: seq<bool>, w: nat)
    requires w > 0 && v < Pow2(w)
    ensures Pack(ToBits(v, w) + rest, w) == [v] + Pack(rest, w)
  {
    FromToBits(v, w);
    var bits := ToBits(v, w) + rest;
    assert bits[..w] == ToBits(v, w) && bits[w..] == rest;
    if rest == [] {
      assert bits + Zeros(0) == ToBits(v, w);
    }
  }

  /** Packing undoes unpacking, and goes on with whatever bits follow. */
  lemma {:induction false} PackUnpack(vs: seq<nat>, b: seq<bool>, w: nat)
    requires w > 0 && Fit(vs, w)
    ensures Pack(Unpack(vs, w) + b, w) == vs + Pack(b, w)
  {
    hide Pack;
    if vs == [] {
      assert Unpack(vs, w) + b == b;
    } else {
      PackUnpack(vs[1..], b, w);
      PackGroup(vs[0], Unpack(vs[1..], w) + b, w);
      assert Unpack(vs, w) + b == ToBits(vs[0], w) + (Unpack(vs[1..], w) + b);
      assert vs == [vs[0]] + vs[1..];
    }
  }

  /** Fewer bits than a group are filled with zeros. */
  lemma UnpackPackShort(b: seq<bool>, w: nat)
    requires w > 0 && 0 < |b| <= w
    ensures Unpack(Pack(b, w), w) == b + Zeros(w - |b|)
  {
    var padded := b + Zeros(w - |b|);
    ToFromBits(padded);
    assert Unpack([FromBits(padded)], w) == ToBits(FromBits(padded), w) + [];
  }

  /** The bits of a whole group, packed and unpacked, are followed by what the rest gives. */
  lemma UnpackPackLong(b: seq<bool>, w: nat)
    requires w > 0 && |b| > w
    ensures Unpack(Pack(b, w), w) == b[..w] + Unpack(Pack(b[w..], w), w)
  {
    hide FromBits;
    hide ToBits;
    hide Fit;
    ToFromBits(b[..w]);
    assert Pack(b, w)[1..] == Pack(b[w..], w);
  }

  /** Unpacking a packed bit string gives it back followed by fewer than `w` zero bits. */
  lemma {:induction false} UnpackPack(b: seq<bool>, w: nat)
    requires w > 0
    ensures |b| <= |Unpack(Pack(b, w), w)| < |b| + w
    ensures Unpack(Pack(b, w), w) == b + Zeros(|Unpack(Pack(b, w), w)| - |b|)
    decreases |b|
  {
    if b == [] {
    } else if |b| <= w {
      UnpackPackShort(b, w);
    } else {
      hide Pack;
      hide Unpack;
      UnpackPack(b[w..], w);
      UnpackPackLong(b, w);
      assert b == b[..w] + b[w..];
    }
  }

  /** Groups that fit are determined by the bits they unpack to. */
  lemma UnpackInjective(a: seq<nat>, b: seq<nat>, w: nat)
    requires w > 0 && Fit(a, w) && Fit(b, w)
    requires Unpack(a, w) == Unpack(b, w)
    ensures a == b
  {
    hide Unpack;
    hide FromBits;
    PackUnpack(a, [], w);
    PackUnpack(b, [], w);
    assert a + Pack([], w) == a && b + Pack([], w) == b;
    assert Unpack(a, w) + [] == Unpack(a, w) && Unpack(b, w) + [] == Unpack(b, w);
  }
}
