/**
 Release ordering: a dotted release is read as three 32-bit components and compared
 lexicographically.
 */
module Release {
  import opened Decimal

  const INT31: int := 0x8000_0000
  const INT32: int := 0x1_0000_0000

  /** `static_cast<int>` */
  function ToInt32(n: int): (r: int)
    ensures -INT31 <= r < INT31
    ensures 0 <= n < INT31 ==> r == n
    ensures (n - r) % INT32 == 0
  {
    (n + INT31) % INT32 - INT31
  }

  /** The text without a leading `v` or `V`. */
  function Body(s: string): string {
    if s != "" && (s[0] == 'v' || s[0] == 'V') then s[1..] else s
  }

  /** The text cut at its dots. */
  function Pieces(s: string): (ps: seq<string>)
    ensures |ps| >= 1
  {
    if s == "" then [""]
    else
      var ps, c := Pieces(s[..|s| - 1]), s[|s| - 1];
      if c == '.' then ps + [""] else ps[..|ps| - 1] + [ps[|ps| - 1] + [c]]
  }

  /** Component `k` of a release; a missing one is 0. */
  function Component(s: string, k: nat): int {
    if k < |Pieces(Body(s))| then ToInt32(Value(Pieces(Body(s))[k])) else 0
  }

  function Components(s: string): (cs: seq<int>)
    ensures |cs| == 3
  {
    [Component(s, 0), Component(s, 1), Component(s, 2)]
  }

  /** The components collected from the pieces `ps`, of which the last may still be open. */
  ghost predicate Collected(out: seq<int>, ps: seq<string>, idx: nat) {
    |out| == 3 && idx <= 3 && idx <= |ps| &&
    forall k :: 0 <= k < 3 ==> out[k] == if k < idx then ToInt32(Value(ps[k])) else 0
  }

  lemma {:induction false} PiecesPrefix(s: string, i: nat)
    requires i <= |s|
    ensures |Pieces(s[..i])| <= |Pieces(s)|
    ensures forall k :: 0 <= k < |Pieces(s[..i])| - 1 ==> Pieces(s)[k] == Pieces(s[..i])[k]
  {
    if i < |s| {
      PiecesPrefix(s[..|s| - 1], i);
      assert s[..|s| - 1][..i] == s[..i];
    } else {
      assert s[..i] == s;
    }
  }

  /** The reader's state after the text `t`: closed pieces collected, the open one in `n`. */
  ghost predicate Reading(out: seq<int>, t: string, idx: nat, n: nat) {
    Collected(out, Pieces(t), idx) && idx == |Pieces(t)| - 1 && n == Value(Pieces(t)[idx])
  }

  /** One more character closes the open piece or extends it. */
  lemma PiecesGrow(t: string, c: char)
    ensures var ps := Pieces(t);
            Pieces(t + [c]) == if c == '.' then ps + [""] else ps[..|ps| - 1] + [ps[|ps| - 1] + [c]]
  {
    assert (t + [c])[..|t|] == t;
  }

  lemma ReadGrows(s: string, c: char)
    ensures Value(s + [c]) == Read(Value(s), c) && Value("") == 0
  {
    ValueGrows(s, c);
  }

  lemma ReadCharacter(out: seq<int>, t: string, idx: nat, n: nat, c: char)
    requires Reading(out, t, idx, n)
    ensures c != '.' ==> Reading(out, t + [c], idx, Read(n, c))
    ensures c == '.' && idx < 3 ==>
              Collected(out[idx := ToInt32(n)], Pieces(t + [c]), idx + 1) && |Pieces(t + [c])| == idx + 2
    ensures c == '.' && idx < 2 ==> Reading(out[idx := ToInt32(n)], t + [c], idx + 1, 0)
  {
    hide Pieces;
    hide Value;
    hide ToInt32;
    hide Read;
    PiecesGrow(t, c);
    ReadGrows(Pieces(t)[idx], c);
  }

  method Parse(s: string, out: array<int>)
    requires out.Length == 3
    modifies out
    ensures out[..] == Components(s)
  {
    hide Pieces;
    hide Value;
    out[0], out[1], out[2] := 0, 0, 0;
    var start := if s != "" && (s[0] == 'v' || s[0] == 'V') then 1 else 0;
    ghost var body := Body(s);
    ghost var done := "";
    var i: nat, idx: nat, n: nat := start, 0, 0;
    ReadingEmpty(out[..]);
    while i <= |s| && idx < 3
      invariant start <= i <= |s| + 1 && idx <= 3
      invariant i <= |s| ==> done == body[..i - start]
      invariant i <= |s| && idx < 3 ==> Reading(out[..], done, idx, n)
      invariant i <= |s| && idx == 3 ==> Collected(out[..], Pieces(done), 3) && |Pieces(done)| > 3
      invariant i == |s| + 1 ==> Collected(out[..], Pieces(body), idx) && idx == |Pieces(body)|
    {
      ghost var before := out[..];
      if i == |s| {
        assert done == body;
        out[idx] := ToInt32(n);
        assert out[..] == before[idx := ToInt32(n)];
        idx := idx + 1;
        n := 0;
      } else {
        ReadCharacter(before, done, idx, n, s[i]);
        assert body[..i + 1 - start] == done + [s[i]];
        done := done + [s[i]];
        if s[i] == '.' {
          out[idx] := ToInt32(n);
          assert out[..] == before[idx := ToInt32(n)];
          idx := idx + 1;
          n := 0;
        } else if IsDigit(s[i]) {
          n := n * 10 + (s[i] as int - '0' as int);
        }
      }
      i := i + 1;
    }
    if i <= |s| {
      CollectedPrefix(out[..], body, i - start);
    }
  }

  lemma ReadingEmpty(out: seq<int>)
    requires out == [0, 0, 0]
    ensures Reading(out, "", 0, 0)
  {
  }

  /** Three closed pieces of a prefix are the first three pieces of the whole. */
  lemma CollectedPrefix(out: seq<int>, body: string, n: nat)
    requires n <= |body| && Collected(out, Pieces(body[..n]), 3) && |Pieces(body[..n])| > 3
    ensures Collected(out, Pieces(body), 3)
  {
    PiecesPrefix(body, n);
  }

  /** Lexicographic order on components. */
  predicate LexAtLeast(a: seq<int>, b: seq<int>)
    requires |a| == |b|
  {
    a == [] || a[0] > b[0] || (a[0] == b[0] && LexAtLeast(a[1..], b[1..]))
  }

  predicate AtLeast(have: string, need: string) {
    LexAtLeast(Components(have), Components(need))
  }

  lemma AtLeastMeans(have: string, need: string)
    ensures var h, n := Components(have), Components(need);
            AtLeast(have, need) <==> h[0] > n[0] || (h[0] == n[0] && (h[1] > n[1] || (h[1] == n[1] && h[2] >= n[2])))
  {
    hide Components;
    LexThree(Components(have), Components(need));
  }

  lemma LexThree(h: seq<int>, n: seq<int>)
    requires |h| == |n| == 3
    ensures LexAtLeast(h, n) <==> h[0] > n[0] || (h[0] == n[0] && (h[1] > n[1] || (h[1] == n[1] && h[2] >= n[2])))
  {
    assert h[1..][1..] == h[2..] && h[2..][1..] == [] && n[1..][1..] == n[2..] && n[2..][1..] == [];
    assert LexAtLeast(h[2..], n[2..]) <==> h[2] >= n[2];
    assert LexAtLeast(h[1..], n[1..]) <==> h[1] > n[1] || (h[1] == n[1] && h[2] >= n[2]);
  }

  method ReleaseAtLeast(have: string, need: string) returns (r: bool)
    ensures r <==> AtLeast(have, need)
    ensures var h, n := Components(have), Components(need);
            r <==> h[0] > n[0] || (h[0] == n[0] && (h[1] > n[1] || (h[1] == n[1] && h[2] >= n[2])))
  {
    AtLeastMeans(have, need);
    var h, n := new int[3], new int[3];
    Parse(have, h);
    Parse(need, n);
    for k := 0 to 3
      invariant h[..] == Components(have) && n[..] == Components(need)
      invariant LexAtLeast(h[..], n[..]) == LexAtLeast(h[k..], n[k..])
    {
      if h[k] != n[k] {
        return h[k] > n[k];
      }
      assert h[k..][1..] == h[k + 1..] && n[k..][1..] == n[k + 1..];
    }
    return true;
  }

  // ---- The order ----

  lemma {:induction false} LexIsTotalOrder(a: seq<int>, b: seq<int>, c: seq<int>)
    requires |a| == |b| == |c|
    ensures LexAtLeast(a, b) || LexAtLeast(b, a)
    ensures LexAtLeast(a, b) && LexAtLeast(b, a) <==> a == b
    ensures LexAtLeast(a, b) && LexAtLeast(b, c) ==> LexAtLeast(a, c)
  {
    if a != [] {
      LexIsTotalOrder(a[1..], b[1..], c[1..]);
      assert a == [a[0]] + a[1..] && b == [b[0]] + b[1..];
    }
  }

  /** A total preorder on all texts, whose ties are exactly the texts with the same components. */
  lemma AtLeastIsTotalPreorder(a: string, b: string, c: string)
    ensures AtLeast(a, a)
    ensures AtLeast(a, b) || AtLeast(b, a)
    ensures AtLeast(a, b) && AtLeast(b, c) ==> AtLeast(a, c)
    ensures AtLeast(a, b) && AtLeast(b, a) <==> Components(a) == Components(b)
  {
    LexIsTotalOrder(Components(a), Components(b), Components(c));
    LexIsTotalOrder(Components(a), Components(a), Components(a));
  }

  // ---- Printed releases ----

  /** A number printed with leading zeros. */
  datatype Numeral = Numeral(zeros: nat, value: nat)

  function PrintNumeral(m: Numeral): string {
    seq(m.zeros, _ => '0') + Print(m.value)
  }

  function Numerals(ms: seq<Numeral>): (texts: seq<string>)
    ensures |texts| == |ms|
  {
    seq(|ms|, i requires 0 <= i < |ms| => PrintNumeral(ms[i]))
  }

  function Dotted(texts: seq<string>): string
    requires texts != []
  {
    if |texts| == 1 then texts[0] else Dotted(texts[..|texts| - 1]) + "." + texts[|texts| - 1]
  }

  lemma {:induction false} PiecesAppend(s: string, t: string)
    requires '.' !in t
    ensures var ps := Pieces(s); Pieces(s + t) == ps[..|ps| - 1] + [ps[|ps| - 1] + t]
  {
    var ps := Pieces(s);
    if t == "" {
      assert s + t == s && ps[|ps| - 1] + t == ps[|ps| - 1];
    } else {
      var front := t[..|t| - 1];
      PiecesAppend(s, front);
      assert (s + t)[..|s + t| - 1] == s + front;
      assert front + [t[|t| - 1]] == t;
      assert ps[|ps| - 1] + front + [t[|t| - 1]] == ps[|ps| - 1] + t;
    }
  }

  lemma NumeralHasNoDot(m: Numeral)
    ensures '.' !in PrintNumeral(m) && PrintNumeral(m) != "" && IsDigit(PrintNumeral(m)[0])
  {
  }

  /** A dot and dot-free text add one piece. */
  lemma PiecesJoin(s: string, t: string)
    requires '.' !in t
    ensures Pieces(s + "." + t) == Pieces(s) + [t]
  {
    PiecesGrow(s, '.');
    PiecesAppend(s + ".", t);
    assert "" + t == t;
  }

  lemma {:induction false} PiecesOfDotted(texts: seq<string>)
    requires texts != [] && forall t :: t in texts ==> '.' !in t
    ensures Pieces(Dotted(texts)) == texts
  {
    hide Pieces;
    var n := |texts| - 1;
    if n == 0 {
      PiecesAppend("", texts[0]);
      OnePiece();
      assert "" + texts[0] == texts[0];
    } else {
      PiecesOfDotted(texts[..n]);
      PiecesJoin(Dotted(texts[..n]), texts[n]);
    }
  }

  /** What a text reads as, whatever stands between its dots: a leading `v` or `V` is dropped, no more. */
  lemma ParseReadsPieces(prefix: string, texts: seq<string>, k: nat)
    requires texts != [] && (forall t :: t in texts ==> '.' !in t) && k < 3
    requires prefix in {"v", "V"}
          || (prefix == "" && (Dotted(texts) == "" || (Dotted(texts)[0] != 'v' && Dotted(texts)[0] != 'V')))
    ensures Components(prefix + Dotted(texts))[k] == if k < |texts| then ToInt32(Value(texts[k])) else 0
  {
    hide Components;
    hide Dotted;
    PiecesOfDotted(texts);
    BodyOf(prefix, Dotted(texts));
    ComponentIs(prefix + Dotted(texts), texts, k);
  }

  lemma ComponentIs(s: string, texts: seq<string>, k: nat)
    requires Pieces(Body(s)) == texts && k < 3
    ensures Components(s)[k] == if k < |texts| then ToInt32(Value(texts[k])) else 0
  {
    hide Pieces;
    hide Body;
    hide Value;
    hide ToInt32;
  }

  lemma BodyOf(prefix: string, t: string)
    requires prefix in {"v", "V"} || (prefix == "" && (t == "" || (t[0] != 'v' && t[0] != 'V')))
    ensures Body(prefix + t) == t
  {
  }

  lemma {:induction false} DottedStart(ms: seq<Numeral>)
    requires ms != []
    ensures Dotted(Numerals(ms)) != "" && IsDigit(Dotted(Numerals(ms))[0])
  {
    var n := |ms| - 1;
    NumeralHasNoDot(ms[0]);
    if n > 0 {
      DottedStart(ms[..n]);
      assert Numerals(ms)[..n] == Numerals(ms[..n]);
    }
  }

  lemma OnePiece()
    ensures Pieces("") == [""]
  {
  }

  /** Three components, missing ones 0 and further ones ignored. */
  function Triple(ms: seq<Numeral>): (t: seq<int>)
    ensures |t| == 3
  {
    seq(3, k requires 0 <= k < 3 => if k < |ms| then ms[k].value else 0)
  }

  ghost predicate Printable(prefix: string, ms: seq<Numeral>) {
    prefix in {"", "v", "V"} && ms != [] && forall m :: m in ms ==> m.value < INT31
  }

  lemma ValueOfNumeral(m: Numeral)
    ensures Value(PrintNumeral(m)) == m.value
  {
    ValueOfPadded(m.zeros, Print(m.value));
    ValueOfPrint(m.value);
  }

  lemma ReadNumerals(prefix: string, ms: seq<Numeral>, k: nat)
    requires prefix in {"", "v", "V"} && ms != [] && k < 3
    ensures Components(prefix + Dotted(Numerals(ms)))[k] == if k < |ms| then ToInt32(ms[k].value) else 0
  {
    hide Components;
    hide Dotted;
    hide PrintNumeral;
    hide ToInt32;
    var texts := Numerals(ms);
    forall t | t in texts ensures '.' !in t {
      var i :| 0 <= i < |texts| && texts[i] == t;
      NumeralHasNoDot(ms[i]);
    }
    DottedStart(ms);
    ParseReadsPieces(prefix, texts, k);
    if k < |ms| {
      ValueOfNumeral(ms[k]);
    }
  }

  /** Reading inverts printing: with or without the prefix, with leading zeros, with components left out. */
  lemma ParseInvertsPrint(prefix: string, ms: seq<Numeral>)
    requires Printable(prefix, ms)
    ensures Components(prefix + Dotted(Numerals(ms))) == Triple(ms)
  {
    hide Components;
    hide Dotted;
    hide Numerals;
    forall k | 0 <= k < 3 ensures Components(prefix + Dotted(Numerals(ms)))[k] == Triple(ms)[k] {
      ReadNumerals(prefix, ms, k);
      assert k < |ms| ==> ms[k] in ms;
    }
  }

  /** A printed component survives the 32-bit narrowing exactly below 2 to the 31. */
  lemma ComponentSurvivesIff(m: Numeral)
    ensures Components(PrintNumeral(m))[0] == m.value <==> m.value < INT31
  {
    hide Components;
    ReadNumerals("", [m], 0);
    assert Dotted(Numerals([m])) == PrintNumeral(m) == "" + PrintNumeral(m);
  }

  /** Printed releases compare like their numbers, the first component weighing most. */
  lemma PrintedOrder(p: string, have: seq<Numeral>, q: string, need: seq<Numeral>)
    requires Printable(p, have) && Printable(q, need)
    ensures var a, b := Triple(have), Triple(need);
            AtLeast(p + Dotted(Numerals(have)), q + Dotted(Numerals(need)))
            <==> a[0] > b[0] || (a[0] == b[0] && (a[1] > b[1] || (a[1] == b[1] && a[2] >= b[2])))
  {
    hide AtLeast;
    hide Components;
    hide Dotted;
    hide Numerals;
    ParseInvertsPrint(p, have);
    ParseInvertsPrint(q, need);
    AtLeastMeans(p + Dotted(Numerals(have)), q + Dotted(Numerals(need)));
  }
}
