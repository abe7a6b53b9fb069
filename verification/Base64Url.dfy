/**
 The base64url codec of the Clear Key backend (section 5 of RFC 4648, no padding).

 The specification is the RFC's own: a byte string and its text are two groupings of one bit
 string. The two methods are the backend's loops over 32-bit words.
 */
module Base64Url {
  import opened BitStrings
  import opened Basics

  type Sextet = v: nat | v < 64

  const UINT32: nat := 0x1_0000_0000

  /** The value of an alphabet character, -1 for any other character. */
  function CharValue(c: char): (v: int)
    ensures -1 <= v < 64
  {
    if 'A' <= c <= 'Z' then c as int - 'A' as int
    else if 'a' <= c <= 'z' then c as int - 'a' as int + 26
    else if '0' <= c <= '9' then c as int - '0' as int + 52
    else if c == '-' then 62
    else if c == '_' then 63
    else -1
  }

  /** Entry `v` of the alphabet table "A-Z a-z 0-9 - _". */
  function SextetChar(v: Sextet): (c: char)
    ensures CharValue(c) == v
  {
    if v < 26 then ('A' as int + v) as char
    else if v < 52 then ('a' as int + (v - 26)) as char
    else if v < 62 then ('0' as int + (v - 52)) as char
    else if v == 62 then '-'
    else '_'
  }

  const UPPER: string := "ABCDEFGHIJKLMNOPQRSTUVWXYZ"
  const LOWER: string := "abcdefghijklmnopqrstuvwxyz"
  const DIGITS: string := "0123456789"

  /** `kAlphabet` */
  const ALPHABET: string := UPPER + LOWER + DIGITS + "-_"

  lemma UpperAt(i: nat)
    requires i < 26
    ensures UPPER[i] as int == 'A' as int + i
  {
  }

  lemma LowerAt(i: nat)
    requires i < 26
    ensures LOWER[i] as int == 'a' as int + i
  {
  }

  lemma DigitAt(i: nat)
    requires i < 10
    ensures DIGITS[i] as int == '0' as int + i
  {
  }

  lemma TableEntry(upper: string, lower: string, digits: string, i: nat)
    requires |upper| == 26 && |lower| == 26 && |digits| == 10 && i < 64
    ensures (upper + lower + digits + "-_")[i]
         == if i < 26 then upper[i] else if i < 52 then lower[i - 26] else if i < 62 then digits[i - 52]
            else if i == 62 then '-' else '_'
  {
  }

  /** The table against the four ranges. */
  lemma PlaceHolds(v: Sextet)
    ensures |ALPHABET| == 64 && ALPHABET[v] == SextetChar(v)
  {
    if v < 26 {
      UpperAt(v);
    } else if v < 52 {
      LowerAt(v - 26);
    } else if v < 62 {
      DigitAt(v - 52);
    }
    TableEntry(UPPER, LOWER, DIGITS, v);
  }

  /** The value of a character is its place in the alphabet table, -1 for any character outside it. */
  lemma CharValueIsPlace(c: char)
    ensures |ALPHABET| == 64
    ensures forall v: Sextet :: CharValue(c) == v <==> ALPHABET[v] == c
    ensures CharValue(c) == -1 <==> c !in ALPHABET
  {
    forall v: Sextet ensures ALPHABET[v] == SextetChar(v) {
      PlaceHolds(v);
    }
  }

  predicate InAlphabet(t: string) {
    forall i :: 0 <= i < |t| ==> CharValue(t[i]) >= 0
  }

  function ToText(vs: seq<Sextet>): (t: string)
    ensures |t| == |vs| && InAlphabet(t)
  {
    seq(|vs|, i requires 0 <= i < |vs| => SextetChar(vs[i]))
  }

  function Values(t: string): (vs: seq<Sextet>)
    requires InAlphabet(t)
    ensures |vs| == |t|
  {
    seq(|t|, i requires 0 <= i < |t| => CharValue(t[i]))
  }

  lemma ValuesOfText(vs: seq<Sextet>)
    ensures Values(ToText(vs)) == vs
  {
  }

  lemma TextOfValues(t: string)
    requires InAlphabet(t)
    ensures ToText(Values(t)) == t
  {
    forall i | 0 <= i < |t| ensures ToText(Values(t))[i] == t[i] {
      var c, d := ToText(Values(t))[i], t[i];
      assert CharValue(c) == CharValue(d) >= 0;
    }
  }

  // ---- Specification ----

  function BytesToBits(d: seq<Byte>): seq<bool> {
    Unpack(d, 8)
  }

  /** Regroup a bit string into octets, dropping an incomplete last one. */
  function Octets(b: seq<bool>): (d: seq<Byte>)
  {
    var d := Pack(b[..|b| / 8 * 8], 8);
    assert Pow2(8) == 256;
    assert forall i :: 0 <= i < |d| ==> d[i] < Pow2(8);
    d
  }

  function Sextets(b: seq<bool>): (vs: seq<Sextet>)
  {
    var vs := Pack(b, 6);
    assert Pow2(6) == 64;
    assert forall i :: 0 <= i < |vs| ==> vs[i] < Pow2(6);
    vs
  }

  function Encode(d: seq<Byte>): (t: string)
    ensures InAlphabet(t)
  {
    ToText(Sextets(BytesToBits(d)))
  }

  /** Padding is tolerated anywhere: it is skipped. */
  function StripPad(t: string): (s: string) {
    if t == "" then ""
    else if t[0] == '=' then StripPad(t[1..])
    else [t[0]] + StripPad(t[1..])
  }

  /** Exactly the padding goes. */
  lemma {:induction false} StripPadChars(t: string)
    ensures forall c :: c in StripPad(t) <==> c in t && c != '='
  {
    if t != "" {
      StripPadChars(t[1..]);
      assert t == [t[0]] + t[1..];
    }
  }

  predicate Decodable(t: string) {
    forall i :: 0 <= i < |t| ==> t[i] == '=' || CharValue(t[i]) >= 0
  }

  function DecodedBytes(t: string): (d: seq<Byte>)
    requires InAlphabet(t)
  {
    Octets(Unpack(Values(t), 6))
  }

  function Decode(t: string): (r: Option<seq<Byte>>)
  {
    if Decodable(t) then
      var s := StripPad(t);
      assert InAlphabet(s) by {
        StripPadInAlphabet(t);
      }
      Some(DecodedBytes(s))
    else None
  }

  // ---- Encoding: the backend's loop ----

  /** A text is the encoding as soon as its bits are the data's bits and under six zero bits. */
  lemma EncodeUnique(d: seq<Byte>, t: string, z: nat)
    requires InAlphabet(t) && z < 6
    requires Unpack(Values(t), 6) == BytesToBits(d) + Zeros(z)
    ensures t == Encode(d)
  {
    hide Pack;
    hide Unpack;
    var b, vs := BytesToBits(d), Sextets(BytesToBits(d));
    UnpackPack(b, 6);
    UnpackLength(vs, 6);
    UnpackLength(Values(t), 6);
    assert |Unpack(vs, 6)| - |b| == z;
    assert Pow2(6) == 64;
    UnpackInjective(vs, Values(t), 6);
    TextOfValues(t);
  }

  lemma EncodeBits(d: seq<Byte>) returns (z: nat)
    ensures z < 6 && Unpack(Values(Encode(d)), 6) == BytesToBits(d) + Zeros(z)
    ensures 6 * |Encode(d)| == 8 * |d| + z
  {
    var b, vs := BytesToBits(d), Sextets(BytesToBits(d));
    UnpackPack(b, 6);
    z := |Unpack(vs, 6)| - |b|;
    ValuesOfText(vs);
    UnpackLength(vs, 6);
    UnpackLength(d, 8);
  }

  /** `(x << 16) | (y << 8) | z`; the three octets do not overlap. */
  function Word(x: nat, y: nat, z: nat): nat {
    x * 0x10000 + y * 0x100 + z
  }

  /** `(n >> 18) & 63`, `(n >> 12) & 63`, `(n >> 6) & 63` and `n & 63`. */
  function WordSextets(n: nat): (vs: seq<Sextet>)
    ensures |vs| == 4
  {
    [n / 0x40000 % 64, n / 0x1000 % 64, n / 0x40 % 64, n % 64]
  }

  lemma {:induction false} HornerGrows(vs: seq<nat>, v: nat, p: nat)
    ensures Horner(vs + [v], p) == Horner(vs, p) * p + v
  {
    assert (vs + [v])[..|vs|] == vs;
  }

  lemma HornerOctets(x: Byte, y: Byte, z: Byte)
    ensures Horner([x, y, z], 256) == Word(x, y, z)
  {
    HornerGrows([], x, 256);
    HornerGrows([x], y, 256);
    HornerGrows([x, y], z, 256);
    assert [] + [x] == [x] && [x] + [y] == [x, y] && [x, y] + [z] == [x, y, z];
  }

  lemma HornerSextets(a: Sextet, b: Sextet, c: Sextet, d: Sextet)
    ensures Horner([a, b, c, d], 64) == ((a * 64 + b) * 64 + c) * 64 + d
  {
    HornerGrows([], a, 64);
    HornerGrows([a], b, 64);
    HornerGrows([a, b], c, 64);
    HornerGrows([a, b, c], d, 64);
    assert [] + [a] == [a] && [a] + [b] == [a, b] && [a, b] + [c] == [a, b, c] && [a, b, c] + [d] == [a, b, c, d];
  }

  lemma WordSplits(n: nat)
    requires n < 0x100_0000
    ensures (((n / 0x40000 % 64) * 64 + n / 0x1000 % 64) * 64 + n / 0x40 % 64) * 64 + n % 64 == n
  {
  }

  /** The four sextets of a 24-bit word spell the three octets it was built from. */
  lemma WordBits(x: Byte, y: Byte, z: Byte)
    ensures Unpack(WordSextets(Word(x, y, z)), 6) == Unpack([x, y, z], 8)
  {
    var s, d := WordSextets(Word(x, y, z)), [x, y, z];
    assert Pow2(8) == 256 && Pow2(6) == 64;
    UnpackLength(s, 6);
    UnpackLength(d, 8);
    UnpackHorner(s, 6, 64);
    UnpackHorner(d, 8, 256);
    HornerOctets(x, y, z);
    HornerSextets(s[0], s[1], s[2], s[3]);
    WordSplits(Word(x, y, z));
  }

  /** Appending sextets to the text appends their bits. */
  lemma TextGrows(t: string, vs: seq<Sextet>)
    requires InAlphabet(t)
    ensures InAlphabet(t + ToText(vs))
    ensures Unpack(Values(t + ToText(vs)), 6) == Unpack(Values(t), 6) + Unpack(vs, 6)
  {
    assert Values(t + ToText(vs)) == Values(t) + vs;
    UnpackAppend(Values(t), vs, 6);
  }

  method Base64UrlEncode(data: seq<Byte>) returns (out: string)
    ensures out == Encode(data)
  {
    out := "";
    var i := 0;
    while i + 2 < |data|
      invariant 0 <= i <= |data|
      invariant InAlphabet(out) && Unpack(Values(out), 6) == BytesToBits(data[..i])
    {
      var s := WordSextets(Word(data[i], data[i + 1], data[i + 2]));
      BlockBits(data, i, 3);
      TextGrows(out, s);
      assert s[..4] == s && Zeros(0) == [];
      out := out + ToText(s);
      i := i + 3;
    }
    ghost var z := 0;
    if i + 1 == |data| {
      var s := WordSextets(Word(data[i], 0, 0));
      BlockBits(data, i, 1);
      TextGrows(out, s[..2]);
      out := out + ToText(s[..2]);
      z := 4;
    } else if i + 2 == |data| {
      var s := WordSextets(Word(data[i], data[i + 1], 0));
      BlockBits(data, i, 2);
      TextGrows(out, s[..3]);
      out := out + ToText(s[..3]);
      z := 2;
    }
    assert data[..|data|] == data;
    assert z == 0 ==> BytesToBits(data) + Zeros(0) == BytesToBits(data);
    EncodeUnique(data, out, z);
  }

  /** The first `k + 1` sextets of a word whose octets from the `k`-th on are zero. */
  lemma ShortWordBits(x: Byte, y: Byte, z: Byte, k: nat)
    requires 1 <= k <= 3 && (k < 3 ==> z == 0) && (k < 2 ==> y == 0)
    ensures Unpack(WordSextets(Word(x, y, z))[..k + 1], 6) == Unpack([x, y, z][..k], 8) + Zeros(2 * (3 - k))
  {
    hide Unpack;
    hide WordSextets;
    var s, octets := WordSextets(Word(x, y, z)), [x, y, z];
    WordBits(x, y, z);
    UnpackPrefix(s, k + 1);
    UnpackAppend(octets[..k], octets[k..], 8);
    assert octets[..k] + octets[k..] == octets;
    UnpackLength(octets[..k], 8);
    ZeroBytes(octets[k..]);
  }

  /** The sextets emitted for the `k` octets at `i` spell the data up to `i + k`, then zero bits. */
  lemma BlockBits(data: seq<Byte>, i: nat, k: nat)
    requires 1 <= k <= 3 && i + k <= |data|
    ensures var n := Word(data[i], if k >= 2 then data[i + 1] else 0, if k == 3 then data[i + 2] else 0);
            BytesToBits(data[..i]) + Unpack(WordSextets(n)[..k + 1], 6) == BytesToBits(data[..i + k]) + Zeros(2 * (3 - k))
  {
    hide Unpack;
    hide WordSextets;
    var x: Byte, y: Byte, z: Byte := data[i], if k >= 2 then data[i + 1] else 0, if k == 3 then data[i + 2] else 0;
    ShortWordBits(x, y, z, k);
    assert [x, y, z][..k] == data[i..i + k];
    UnpackAppend(data[..i], data[i..i + k], 8);
    assert data[..i] + data[i..i + k] == data[..i + k];
    SeqAssoc(Unpack(data[..i], 8), Unpack(data[i..i + k], 8), Zeros(2 * (3 - k)));
  }

  lemma {:induction false} ZeroBytes(d: seq<Byte>)
    requires forall i :: 0 <= i < |d| ==> d[i] == 0
    ensures Unpack(d, 8) == Zeros(8 * |d|)
  {
    if d != [] {
      ZeroBytes(d[1..]);
      ZeroBits(8);
    }
  }

  lemma UnpackPrefix(vs: seq<Sextet>, k: nat)
    requires k <= |vs|
    ensures |Unpack(vs, 6)| == 6 * |vs| && Unpack(vs[..k], 6) == Unpack(vs, 6)[..6 * k]
  {
    UnpackAppend(vs[..k], vs[k..], 6);
    assert vs[..k] + vs[k..] == vs;
    UnpackLength(vs, 6);
    UnpackLength(vs[..k], 6);
  }

  lemma {:induction false} ZeroBits(w: nat)
    ensures ToBits(0, w) == Zeros(w)
  {
    if w > 0 { ZeroBits(w - 1); }
  }

  // ---- Decoding: the backend's loop, with a 32-bit accumulator that wraps ----

  lemma StripPadHead(c: char, t: string)
    ensures StripPad([c] + t) == (if c == '=' then "" else [c]) + StripPad(t)
  {
    assert ([c] + t)[1..] == t;
  }

  lemma {:induction false} StripPadAppend(s: string, t: string)
    ensures StripPad(s + t) == StripPad(s) + StripPad(t)
  {
    if s == "" {
      assert s + t == t;
    } else {
      hide StripPad;
      StripPadAppend(s[1..], t);
      StripPadHead(s[0], s[1..]);
      StripPadHead(s[0], s[1..] + t);
      assert s == [s[0]] + s[1..] && s + t == [s[0]] + (s[1..] + t);
    }
  }

  lemma StripPadInAlphabet(t: string)
    requires Decodable(t)
    ensures InAlphabet(StripPad(t))
  {
    StripPadChars(t);
    var s := StripPad(t);
    forall i | 0 <= i < |s| ensures CharValue(s[i]) >= 0 {
      assert s[i] in s && s[i] in t;
    }
  }

  /**
   One accumulator step. Wrapping at 32 bits loses only bits that were emitted already: the
   pending low bits followed by the new sextet are still the low bits of the accumulator.
   */
  lemma WrapKeepsPending(acc: nat, bits: nat, v: Sextet)
    requires bits < 8
    ensures ToBits(acc, bits) + ToBits(v, 6) == ToBits(ShiftIn(acc, v), bits + 6)
  {
    assert Pow2(6) == 64;
    ToBitsConcat(acc, bits, v, 6, 64);
    var k := acc * 64 / UINT32;
    assert acc * 64 + v == (acc * 64 % UINT32 + v) + k * UINT32;
    assert Pow2(32) == UINT32 by {
      assert Pow2(8) == 0x100;
      assert Pow2(16) == 0x1_0000;
      assert Pow2(24) == 0x100_0000;
    }
    ToBitsWraps(acc * 64 % UINT32 + v, k, 32, UINT32, bits + 6);
  }

  /** The octet taken at `bits` and the bits left below it are all the pending bits. */
  lemma EmitSplits(acc: nat, bits: nat)
    ensures ToBits(acc, 8 + bits) == ToBits(Shr(acc, bits) % 256, 8) + ToBits(acc, bits)
  {
    ToBitsSplit(acc, 8, bits);
    var n := Shr(acc, bits);
    assert Pow2(8) == 256;
    ToBitsWraps(n % 256, n / 256, 8, 256, 8);
  }

  /** The decoder's state after the pad-free text `s`: octets emitted, low bits pending. */
  ghost predicate Decoding(s: string, out: seq<Byte>, acc: nat, bits: nat) {
    InAlphabet(s) && Unpack(Values(s), 6) == Unpack(out, 8) + ToBits(acc, bits)
  }

  /** `acc = (acc << 6) | v`; the shift drops bits above the 32nd and frees the low six. */
  function ShiftIn(acc: nat, v: Sextet): (next: nat)
    ensures next < UINT32
  {
    acc * 64 % UINT32 + v
  }

  lemma DecodingShift(s: string, out: seq<Byte>, acc: nat, bits: nat, c: char)
    requires bits < 8 && Decoding(s, out, acc, bits) && CharValue(c) >= 0
    ensures Decoding(s + [c], out, ShiftIn(acc, CharValue(c)), bits + 6)
  {
    var v := CharValue(c);
    assert Values(s + [c]) == Values(s) + [v];
    UnpackAppend(Values(s), [v], 6);
    assert Unpack([v], 6) == ToBits(v, 6) + Unpack([], 6) == ToBits(v, 6);
    WrapKeepsPending(acc, bits, v);
    SeqAssoc(Unpack(out, 8), ToBits(acc, bits), ToBits(v, 6));
  }

  lemma DecodingEmit(s: string, out: seq<Byte>, acc: nat, bits: nat)
    requires Decoding(s, out, acc, 8 + bits)
    ensures Decoding(s, out + [Shr(acc, bits) % 256], acc, bits)
  {
    var octet: Byte := Shr(acc, bits) % 256;
    EmitSplits(acc, bits);
    UnpackAppend(out, [octet], 8);
    assert Unpack([octet], 8) == ToBits(octet, 8) + Unpack([], 8) == ToBits(octet, 8);
    SeqAssoc(Unpack(out, 8), ToBits(octet, 8), ToBits(acc, bits));
  }

  lemma SeqAssoc<T>(a: seq<T>, b: seq<T>, c: seq<T>)
    ensures a + (b + c) == (a + b) + c
  {
  }

  /** Stopping in a decoding state yields the decoded text. */
  lemma DecodingDone(t: string, out: seq<Byte>, acc: nat, bits: nat)
    requires Decodable(t) && bits < 8 && Decoding(StripPad(t), out, acc, bits)
    ensures Decode(t) == Some(out)
  {
    OctetsOf(out, ToBits(acc, bits));
  }

  /** Whole octets followed by fewer than eight bits decode to those octets. */
  lemma OctetsOf(d: seq<Byte>, rest: seq<bool>)
    requires |rest| < 8
    ensures Octets(Unpack(d, 8) + rest) == d
  {
    var b := Unpack(d, 8) + rest;
    UnpackLength(d, 8);
    assert b[..|b| / 8 * 8] == Unpack(d, 8) == Unpack(d, 8) + [];
    assert Pow2(8) == 256;
    PackUnpack(d, [], 8);
  }

  lemma StripStep(t: string, k: nat)
    requires k < |t|
    ensures StripPad(t[..k + 1]) == StripPad(t[..k]) + if t[k] == '=' then [] else [t[k]]
    ensures Decodable(t[..k]) && (t[k] == '=' || CharValue(t[k]) >= 0) ==> Decodable(t[..k + 1])
    ensures !(t[k] == '=' || CharValue(t[k]) >= 0) ==> !Decodable(t[..k + 1]) && !Decodable(t)
  {
    assert t[..k + 1] == t[..k] + [t[k]];
    StripPadAppend(t[..k], [t[k]]);
    assert StripPad([t[k]]) == if t[k] == '=' then [] else [t[k]];
    assert t[..k + 1][k] == t[k];
  }

  lemma DecodingBegins()
    ensures StripPad([]) == [] && Decoding([], [], 0, 0)
  {
  }

  method Base64UrlDecode(text: string) returns (ok: bool, out: seq<Byte>)
    ensures ok <==> Decode(text).Some?
    ensures ok ==> out == Decode(text).value
    ensures !ok ==> exists k :: 0 <= k < |text| && !Decodable(text[..k + 1]) && Decode(text[..k]) == Some(out)
  {
    hide Decoding;
    hide StripPad;
    hide DecodedBytes;
    hide Unpack;
    hide Shr;
    out := [];
    var acc: nat, bits: nat := 0, 0;
    DecodingBegins();
    for k := 0 to |text|
      invariant Decodable(text[..k]) && bits < 8 && Decoding(StripPad(text[..k]), out, acc, bits)
    {
      StripStep(text, k);
      ghost var s := StripPad(text[..k]);
      if text[k] == '=' {
        assert s + [] == s;
        continue;
      }
      var v := CharValue(text[k]);
      if v < 0 {
        DecodingDone(text[..k], out, acc, bits);
        return false, out;
      }
      DecodingShift(s, out, acc, bits, text[k]);
      acc := ShiftIn(acc, v);
      bits := bits + 6;
      if bits >= 8 {
        bits := bits - 8;
        DecodingEmit(s + [text[k]], out, acc, bits);
        out := out + [Shr(acc, bits) % 256];
      }
    }
    assert text[..|text|] == text;
    DecodingDone(text, out, acc, bits);
    return true, out;
  }

  // ---- What the codec guarantees ----

  /** Decoding undoes encoding, even with `=` inserted anywhere in the text. */
  lemma DecodeInvertsEncode(d: seq<Byte>, t: string)
    requires StripPad(t) == Encode(d)
    ensures Decode(t) == Some(d)
  {
    StripPadChars(t);
    forall i | 0 <= i < |t| ensures t[i] == '=' || CharValue(t[i]) >= 0 {
      if t[i] != '=' {
        assert t[i] in t && t[i] in Encode(d);
      }
    }
    var z := EncodeBits(d);
    OctetsOf(d, Zeros(z));
  }

  lemma {:induction false} StripPadIdle(t: string)
    requires '=' !in t
    ensures StripPad(t) == t
  {
    if t != "" {
      StripPadIdle(t[1..]);
      assert t == [t[0]] + t[1..];
    }
  }

  lemma AlphabetPadFree(t: string)
    requires InAlphabet(t)
    ensures '=' !in t && StripPad(t) == t
  {
    StripPadIdle(t);
  }

  lemma DecodeEncode(d: seq<Byte>)
    ensures Decode(Encode(d)) == Some(d)
  {
    AlphabetPadFree(Encode(d));
    DecodeInvertsEncode(d, Encode(d));
  }

  lemma EncodeInjective(a: seq<Byte>, b: seq<Byte>)
    requires Encode(a) == Encode(b)
    ensures a == b
  {
    DecodeEncode(a);
    DecodeEncode(b);
  }

  lemma BitsOfOctets(b: seq<bool>)
    ensures BytesToBits(Octets(b)) == b[..|b| / 8 * 8]
  {
    hide Pack;
    hide Unpack;
    hide Fit;
    var whole := b[..|b| / 8 * 8];
    UnpackPack(whole, 8);
    UnpackLength(Pack(whole, 8), 8);
  }

  /** Decoding fails exactly on a character outside the alphabet and `=`; otherwise 6k/8 octets come out. */
  lemma DecodeOutcome(t: string)
    ensures Decode(t).None? <==> exists i :: 0 <= i < |t| && t[i] != '=' && CharValue(t[i]) < 0
    ensures Decode(t).Some? ==> |Decode(t).value| == 6 * |StripPad(t)| / 8
  {
    if Decodable(t) {
      StripPadInAlphabet(t);
      var vs := Values(StripPad(t));
      BitsOfOctets(Unpack(vs, 6));
      UnpackLength(vs, 6);
      UnpackLength(Octets(Unpack(vs, 6)), 8);
    }
  }

  /** The octets decoded are the text's bits, padding aside, up to the last whole octet. */
  lemma DecodeBits(t: string)
    requires Decode(t).Some?
    ensures InAlphabet(StripPad(t))
    ensures var b := Unpack(Values(StripPad(t)), 6);
            BytesToBits(Decode(t).value) == b[..|b| / 8 * 8]
  {
    hide Unpack;
    StripPadInAlphabet(t);
    BitsOfOctets(Unpack(Values(StripPad(t)), 6));
  }

  /** The bits of the text beyond its last whole octet. */
  ghost function TrailingBits(t: string): seq<bool>
    requires InAlphabet(t)
  {
    var b := Unpack(Values(t), 6);
    b[|b| / 8 * 8..]
  }

  /** Pad-free, no stray last character, and unused trailing bits zero (section 3.5 of RFC 4648). */
  ghost predicate Canonical(t: string) {
    InAlphabet(t) && |t| % 4 != 1 && TrailingBits(t) == Zeros(|TrailingBits(t)|)
  }

  lemma CanonicalEncodes(t: string)
    requires Canonical(t)
    ensures Decode(t).Some? && Encode(Decode(t).value) == t
  {
    hide Unpack;
    hide Octets;
    hide StripPad;
    AlphabetPadFree(t);
    var b := Unpack(Values(t), 6);
    UnpackLength(Values(t), 6);
    BitsOfOctets(b);
    assert b == b[..|b| / 8 * 8] + TrailingBits(t);
    EncodeUnique(Octets(b), t, |TrailingBits(t)|);
  }

  lemma WholeOctets(octets: nat, z: nat)
    requires z < 6
    ensures (8 * octets + z) / 8 * 8 == 8 * octets
  {
    assert (8 * octets + z) / 8 == octets;
  }

  /** Under six bits behind whole octets: never a stray last character. */
  lemma NoStrayCharacter(chars: nat, octets: nat, z: nat)
    requires 6 * chars == 8 * octets + z && z < 6
    ensures chars % 4 != 1
  {
    var m, stray := chars / 4, chars % 4;
    assert 8 * (octets - 3 * m) == 6 * stray - z;
  }

  lemma EncodeIsCanonical(d: seq<Byte>)
    ensures Canonical(Encode(d))
  {
    hide Unpack;
    hide Encode;
    hide Values;
    hide InAlphabet;
    var t := Encode(d);
    var z := EncodeBits(d);
    UnpackLength(d, 8);
    NoStrayCharacter(|t|, |d|, z);
    WholeOctets(|d|, z);
    assert TrailingBits(t) == Zeros(z) by {
      assert (BytesToBits(d) + Zeros(z))[|BytesToBits(d)|..] == Zeros(z);
    }
  }

  /** Re-encoding gives a text back exactly when the text is canonical. */
  lemma EncodeInvertsDecodeIffCanonical(t: string)
    ensures Decode(t).Some? && Encode(Decode(t).value) == t <==> Canonical(t)
  {
    if Canonical(t) {
      CanonicalEncodes(t);
    } else if Decode(t).Some? {
      EncodeIsCanonical(Decode(t).value);
    }
  }

  /** The image of the encoder is the set of canonical texts. */
  lemma EncodeImage(t: string)
    ensures Canonical(t) <==> exists d :: Encode(d) == t
  {
    EncodeInvertsDecodeIffCanonical(t);
    if d :| Encode(d) == t {
      DecodeEncode(d);
    }
  }
}
