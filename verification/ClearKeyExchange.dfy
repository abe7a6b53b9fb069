/**
 The Clear Key exchange as values: the key ids a session takes from a message, the key map it
 builds from license responses, and what any sequence of session calls leaves behind.
 */
module ClearKeyExchange {
  import opened Basics
  import opened JsonScan
  import opened ScanLaws
  import opened Base64Url
  import opened ClearKeyMessages

  // ---- Key ids of a session ----

  /** The non-empty key ids among the scanned texts; undecodable texts are passed over. */
  function DecodableKids(texts: seq<string>): (kids: seq<seq<Byte>>)
    ensures [] !in kids
  {
    if texts == [] then []
    else
      var front := DecodableKids(texts[..|texts| - 1]);
      match Decode(texts[|texts| - 1])
      case None => front
      case Some(kid) => if kid == [] then front else front + [kid]
  }

  function ReadKids(message: string): seq<seq<Byte>> {
    DecodableKids(ScanFields(message, 0, "kids"))
  }

  /** The text decodes to `kid`, which is not empty. */
  ghost predicate Yields(text: string, kid: seq<Byte>) {
    Decode(text) == Some(kid) && kid != []
  }

  ghost predicate YieldsNothing(text: string) {
    forall kid :: !Yields(text, kid)
  }

  /** The kids taken from a list of texts: what the texts at `idx` decode to, in order, the others yielding nothing. */
  ghost predicate KidsOf(texts: seq<string>, kids: seq<seq<Byte>>, idx: seq<nat>) {
    && |idx| == |kids|
    && (forall j :: 0 <= j < |idx| ==> idx[j] < |texts| && Yields(texts[idx[j]], kids[j]))
    && (forall i, j :: 0 <= i < j < |idx| ==> idx[i] < idx[j])
    && (forall i :: 0 <= i < |texts| && i !in idx ==> YieldsNothing(texts[i]))
  }

  lemma DecodableMore(texts: seq<string>, text: string)
    ensures DecodableKids(texts + [text])
         == DecodableKids(texts) + if Decode(text).Some? && Decode(text).value != [] then [Decode(text).value] else []
  {
    hide Decode;
    assert (texts + [text])[..|texts|] == texts;
  }

  lemma KidsOfSkips(texts: seq<string>, text: string, kids: seq<seq<Byte>>, idx: seq<nat>)
    requires KidsOf(texts, kids, idx) && YieldsNothing(text)
    ensures KidsOf(texts + [text], kids, idx)
  {
    hide Yields;
    hide YieldsNothing;
  }

  lemma KidsOfTakes(texts: seq<string>, text: string, kids: seq<seq<Byte>>, kid: seq<Byte>, idx: seq<nat>)
    requires KidsOf(texts, kids, idx) && Yields(text, kid)
    ensures KidsOf(texts + [text], kids + [kid], idx + [|texts|])
  {
    hide Yields;
    hide YieldsNothing;
    var more := idx + [|texts|];
    assert more[|idx|] == |texts|;
    assert forall i :: i in idx ==> i in more;
  }

  /** A text that does not decode, or decodes to nothing, is passed over, and no other is. */
  lemma {:induction false} DecodableKidsAre(texts: seq<string>) returns (idx: seq<nat>)
    ensures KidsOf(texts, DecodableKids(texts), idx)
  {
    if texts == [] {
      idx := [];
    } else {
      hide KidsOf;
      hide Decode;
      var n := |texts| - 1;
      var front, last := texts[..n], texts[n];
      var before := DecodableKidsAre(front);
      DecodableMore(front, last);
      assert texts == front + [last];
      if Decode(last).Some? && Decode(last).value != [] {
        KidsOfTakes(front, last, DecodableKids(front), Decode(last).value, before);
        idx := before + [n];
      } else {
        KidsOfSkips(front, last, DecodableKids(front), before);
        idx := before;
      }
    }
  }

  lemma {:induction false} DecodableEncodings(kids: seq<seq<Byte>>)
    requires [] !in kids
    ensures DecodableKids(Encodings(kids)) == kids
  {
    hide Encode;
    hide Decode;
    if kids != [] {
      var front := kids[..|kids| - 1];
      DecodableEncodings(front);
      assert Encodings(kids)[..|kids| - 1] == Encodings(front);
      DecodeEncode(kids[|kids| - 1]);
    }
  }

  /** The key id whose encoding is the field name `kids`. */
  const KIDS_KID: seq<Byte> := [0x92, 0x27, 0x6C]

  lemma KidsKidEncodes()
    ensures Encode(KIDS_KID) == "kids"
  {
    hide Encode;
    hide BitStrings.Unpack;
    var t := "kids";
    WordBits(0x92, 0x27, 0x6C);
    assert WordSextets(Word(0x92, 0x27, 0x6C)) == [36, 34, 29, 44];
    assert Values(t) == [36, 34, 29, 44];
    assert BytesToBits(KIDS_KID) + BitStrings.Zeros(0) == BytesToBits(KIDS_KID);
    EncodeUnique(KIDS_KID, t, 0);
  }

  lemma KidsKidUnique(kids: seq<seq<Byte>>)
    ensures "kids" in Encodings(kids) <==> KIDS_KID in kids
  {
    KidsKidEncodes();
    if "kids" in Encodings(kids) {
      var i :| 0 <= i < |kids| && Encode(kids[i]) == "kids";
      EncodeInjective(kids[i], KIDS_KID);
    }
    if KIDS_KID in kids {
      var i :| 0 <= i < |kids| && kids[i] == KIDS_KID;
      assert Encodings(kids)[i] == "kids";
    }
  }

  lemma TemporaryDecodes()
    ensures Decode("temporary").Some? && Decode("temporary").value != []
  {
    hide Decode;
    hide StripPad;
    DecodeOutcome("temporary");
    StripPadIdle("temporary");
  }

  /** Reading a printed kid list: its kids, then the six bytes of `temporary` in one case. */
  lemma ReadInvertsPrint(gap: string, kids: seq<seq<Byte>>, typed: bool)
    requires kids != [] && [] !in kids && Gap(gap)
    ensures typed && KIDS_KID in kids ==>
              Decode("temporary").Some? && ReadKids(KidsText(gap, kids, typed)) == kids + [Decode("temporary").value]
    ensures !(typed && KIDS_KID in kids) ==> ReadKids(KidsText(gap, kids, typed)) == kids
  {
    hide Encode;
    hide Decode;
    hide ScanFields;
    hide KidsText;
    var texts := Encodings(kids);
    ScanKidsMessage(gap, kids, typed);
    DecodableEncodings(kids);
    KidsKidUnique(kids);
    if typed && KIDS_KID in kids {
      TemporaryDecodes();
      assert (texts + ["temporary"])[..|texts|] == texts;
    } else {
      assert texts + [] == texts;
    }
  }

  /**
   Feeding a license request back as init data rebuilds the same key ids, and so the same
   request, exactly when no key id encodes to the field name `kids`.
   */
  lemma RequestIsFixedPoint(kids: seq<seq<Byte>>)
    requires kids != [] && [] !in kids
    ensures var again := ReadKids(KidsMessage(kids, true));
            && (again == kids <==> KIDS_KID !in kids)
            && (KidsMessage(again, true) == KidsMessage(kids, true) <==> KIDS_KID !in kids)
  {
    hide ScanFields;
    hide KidsText;
    hide Encode;
    ReadInvertsPrint("", kids, true);
    if KIDS_KID in kids {
      var again := ReadKids(KidsMessage(kids, true));
      KidsKidUnique(kids);
      KidsKidUnique(again);
      ScanKidsMessage("", kids, true);
      ScanKidsMessage("", again, true);
      assert |Encodings(again)| == |Encodings(kids)| + 1;
    }
  }

  // ---- License responses ----

  type KeyMap = map<seq<Byte>, seq<Byte>>

  /** Both texts decode to something, and that is the pair. */
  ghost predicate DecodesTo(kid: string, key: string, pair: Pair) {
    pair.0 != [] && pair.1 != [] && Decode(kid) == Some(pair.0) && Decode(key) == Some(pair.1)
  }

  /** The decoded pairs before the first undecodable or empty kid or key. */
  function ValidPairs(kids: seq<string>, keys: seq<string>): (pairs: seq<Pair>)
    requires |kids| == |keys|
    ensures |pairs| <= |kids|
    ensures forall i :: 0 <= i < |pairs| ==> DecodesTo(kids[i], keys[i], pairs[i])
    ensures |pairs| < |kids| ==> !ValidPair(kids[|pairs|], keys[|pairs|])
  {
    hide Decode;
    if kids == [] || !ValidPair(kids[0], keys[0]) then []
    else
      var first := (Decode(kids[0]).value, Decode(keys[0]).value);
      assert DecodesTo(kids[0], keys[0], first);
      hide DecodesTo;
      hide ValidPair;
      [first] + ValidPairs(kids[1..], keys[1..])
  }

  predicate ValidPair(kid: string, key: string) {
    Decode(kid).Some? && Decode(key).Some? && Decode(kid).value != [] && Decode(key).value != []
  }

  /** Store pairs one after the other; a later duplicate wins. */
  function Store(keys: KeyMap, pairs: seq<Pair>): (stored: KeyMap)
  {
    if pairs == [] then keys
    else Store(keys, pairs[..|pairs| - 1])[pairs[|pairs| - 1].0 := pairs[|pairs| - 1].1]
  }

  /** The stored map is the old one overridden by each kid's last pair. */
  lemma {:induction false} StoreMeaning(keys: KeyMap, pairs: seq<Pair>, kid: seq<Byte>)
    ensures kid in Store(keys, pairs) <==> kid in keys || kid in Firsts(pairs)
    ensures kid in keys && kid !in Firsts(pairs) ==> Store(keys, pairs)[kid] == keys[kid]
    ensures forall i :: 0 <= i < |pairs| && pairs[i].0 == kid && (forall j :: i < j < |pairs| ==> pairs[j].0 != kid) ==>
              kid in Store(keys, pairs) && Store(keys, pairs)[kid] == pairs[i].1
  {
    if pairs != [] {
      var front, last := pairs[..|pairs| - 1], pairs[|pairs| - 1];
      StoreMeaning(keys, front, kid);
      assert Firsts(pairs) == Firsts(front) + [last.0];
    }
  }

  /** The kid and key texts of a response pair up. */
  predicate WellPaired(message: string) {
    var kids := ScanFields(message, 0, "kid");
    kids != [] && |kids| == |ScanFields(message, 0, "k")|
  }

  /** The pairs an update stores before it succeeds or fails. */
  function ResponsePairs(message: string): seq<Pair> {
    if WellPaired(message) then ValidPairs(ScanFields(message, 0, "kid"), ScanFields(message, 0, "k")) else []
  }

  /** What an update stores: nothing from a response without kids or with unequal counts, else the valid pairs. */
  lemma UpdateStores(st: SessionState, message: Buffer16)
    requires message != "" && !st.closed
    ensures var kids, keys := ScanFields(message, 0, "kid"), ScanFields(message, 0, "k");
            if kids == [] || |kids| != |keys| then Apply(st, Update(Some(message))) == st && !Accepted(message)
            else
              && Apply(st, Update(Some(message))) == SessionState(Store(st.keys, ValidPairs(kids, keys)), false)
              && (Accepted(message) <==> |ValidPairs(kids, keys)| == |kids|)
  {
    hide ScanFields;
    hide ValidPairs;
  }

  predicate Accepted(message: string) {
    WellPaired(message) && |ResponsePairs(message)| == |ScanFields(message, 0, "kid")|
  }

  lemma {:induction false} ValidEncodings(pairs: seq<Pair>)
    requires forall p :: p in pairs ==> p.0 != [] && p.1 != []
    ensures ValidPairs(Encodings(Firsts(pairs)), Encodings(Seconds(pairs))) == pairs
  {
    hide Encode;
    hide Decode;
    if pairs != [] {
      ValidEncodings(pairs[1..]);
      DecodeEncode(pairs[0].0);
      DecodeEncode(pairs[0].1);
      assert Encodings(Firsts(pairs))[1..] == Encodings(Firsts(pairs[1..]));
      assert Encodings(Seconds(pairs))[1..] == Encodings(Seconds(pairs[1..]));
    }
  }

  /** Every printed response with non-empty kids and keys is accepted, and stores its own pairs. */
  lemma UpdateInvertsJwkPrint(objects: seq<seq<Field>>, pairs: seq<Pair>, typed: bool)
    requires pairs != [] && (forall p :: p in pairs ==> p.0 != [] && p.1 != []) && Describes(objects, pairs)
    ensures Accepted(JwkSet(objects, typed)) && ResponsePairs(JwkSet(objects, typed)) == pairs
  {
    hide ScanFields;
    hide JwkSet;
    hide Describes;
    ScanInvertsJwkPrint(objects, pairs, typed);
    ValidEncodings(pairs);
  }

  // ---- Sequences of session calls ----

  /** A buffer whose length parameter has 16 bits. */
  type Buffer16 = s: string | |s| < 0x1_0000

  datatype Call = Update(message: Option<Buffer16>) | Remove | Close

  datatype SessionState = SessionState(keys: KeyMap, closed: bool)

  function Apply(st: SessionState, call: Call): SessionState {
    match call
    case Update(None) => st
    case Update(Some(message)) =>
      if message == "" || st.closed then st else st.(keys := Store(st.keys, ResponsePairs(message)))
    case Remove => st.(keys := map[])
    case Close => st.(closed := true)
  }

  function Run(st: SessionState, calls: seq<Call>): SessionState {
    if calls == [] then st else Apply(Run(st, calls[..|calls| - 1]), calls[|calls| - 1])
  }

  const FRESH: SessionState := SessionState(map[], false)

  /** Call `i` is an update that stores `kid`. */
  ghost predicate Stores(calls: seq<Call>, i: nat, kid: seq<Byte>) {
    i < |calls| && calls[i].Update? && calls[i].message.Some? && calls[i].message.value != "" &&
    kid in Firsts(ResponsePairs(calls[i].message.value))
  }

  /** No close before call `i`, and no remove after it. */
  ghost predicate InForce(calls: seq<Call>, i: nat) {
    i < |calls| && (forall j :: 0 <= j < i ==> !calls[j].Close?) && (forall j :: i < j < |calls| ==> !calls[j].Remove?)
  }

  /** A key id is held iff an update before the first close and after the last remove stored it. */
  lemma {:induction false} HeldIff(calls: seq<Call>, kid: seq<Byte>)
    ensures Run(FRESH, calls).closed <==> exists i :: 0 <= i < |calls| && calls[i].Close?
    ensures kid in Run(FRESH, calls).keys <==> exists i: nat :: Stores(calls, i, kid) && InForce(calls, i)
  {
    hide ResponsePairs;
    if calls != [] {
      var n := |calls| - 1;
      var front, last := calls[..n], calls[n];
      HeldIff(front, kid);
      var st := Run(FRESH, front);
      assert st.closed <==> exists i :: 0 <= i < n && calls[i].Close? by {
        assert forall i :: 0 <= i < n ==> calls[i] == front[i];
      }
      forall i: nat | i < n
        ensures Stores(calls, i, kid) && InForce(calls, i) <==> Stores(front, i, kid) && InForce(front, i) && !last.Remove?
      {
        assert calls[i] == front[i];
        assert forall j :: 0 <= j < n ==> calls[j] == front[j];
      }
      if last.Update? && last.message.Some? {
        StoreMeaning(st.keys, ResponsePairs(last.message.value), kid);
      }
      assert InForce(calls, n) <==> !st.closed;
      assert Stores(calls, n, kid) && InForce(calls, n) ==> kid in Apply(st, last).keys;
      assert last.Remove? ==> !Stores(calls, n, kid);
      if kid in Apply(st, last).keys {
        if kid in st.keys && !last.Remove? {
          var i: nat :| Stores(front, i, kid) && InForce(front, i);
          assert Stores(calls, i, kid) && InForce(calls, i);
        } else {
          assert Stores(calls, n, kid) && InForce(calls, n);
        }
      }
    }
  }

  /** The key held is the last pair for that kid in the last such update. */
  lemma {:induction false} HeldKey(calls: seq<Call>, i: nat, m: nat, kid: seq<Byte>)
    requires Stores(calls, i, kid) && InForce(calls, i)
    requires forall j: nat :: i < j && Stores(calls, j, kid) ==> !InForce(calls, j)
    requires var pairs := ResponsePairs(calls[i].message.value);
             m < |pairs| && pairs[m].0 == kid && forall j :: m < j < |pairs| ==> pairs[j].0 != kid
    ensures kid in Run(FRESH, calls).keys
    ensures Run(FRESH, calls).keys[kid] == ResponsePairs(calls[i].message.value)[m].1
  {
    hide ResponsePairs;
    var n := |calls| - 1;
    var front, last := calls[..n], calls[n];
    var st := Run(FRESH, front);
    HeldIff(front, kid);
    assert forall j :: 0 <= j < n ==> calls[j] == front[j];
    if i == n {
      assert !st.closed;
      StoreMeaning(st.keys, ResponsePairs(last.message.value), kid);
    } else {
      assert Stores(front, i, kid) && InForce(front, i);
      forall j: nat | i < j && Stores(front, j, kid) ensures !InForce(front, j) {
        assert Stores(calls, j, kid);
        assert InForce(front, j) ==> InForce(calls, j);
      }
      HeldKey(front, i, m, kid);
      if last.Update? && last.message.Some? && last.message.value != "" && !st.closed {
        assert InForce(calls, n);
        assert !Stores(calls, n, kid);
        StoreMeaning(st.keys, ResponsePairs(last.message.value), kid);
      }
    }
  }

  /** No empty kid or key is ever held. */
  lemma {:induction false} NoEmptyHeld(calls: seq<Call>)
    ensures forall kid :: kid in Run(FRESH, calls).keys ==> kid != [] && Run(FRESH, calls).keys[kid] != []
  {
    if calls != [] {
      var front, last := calls[..|calls| - 1], calls[|calls| - 1];
      NoEmptyHeld(front);
      if last.Update? && last.message.Some? {
        StoreNonEmpty(Run(FRESH, front).keys, ResponsePairs(last.message.value));
      }
    }
  }

  lemma {:induction false} StoreNonEmpty(keys: KeyMap, pairs: seq<Pair>)
    requires forall kid :: kid in keys ==> kid != [] && keys[kid] != []
    requires forall i :: 0 <= i < |pairs| ==> pairs[i].0 != [] && pairs[i].1 != []
    ensures forall kid :: kid in Store(keys, pairs) ==> kid != [] && Store(keys, pairs)[kid] != []
  {
    if pairs != [] {
      StoreNonEmpty(keys, pairs[..|pairs| - 1]);
    }
  }
}
