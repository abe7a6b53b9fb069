/**
 The Clear Key sessions of the OpenCDM backend. Null pointers of the C interface are `null`
 sessions and `None` buffers; the application's callbacks are a trace of events.
 */
module ClearKeySession {
  import opened Basics
  import opened Decimal
  import opened JsonScan
  import opened ScanLaws
  import opened Base64Url
  import opened ClearKeyMessages
  import opened ClearKeyExchange

  datatype OcdmError = ErrorNone | ErrorFail | ErrorInvalidArg | ErrorInvalidSession | ErrorOutOfMemory

  datatype KeyStatus = Usable | StatusPending | InternalError

  /** Which callbacks the application supplied. */
  datatype Callbacks = Callbacks(processChallenge: bool, keyUpdate: bool, keysUpdated: bool)

  /** A callback as the application sees it; `keys` is what the session holds at that moment. */
  datatype Event =
    | ChallengeEvent(url: string, message: string)
    | KeyUpdateEvent(kid: seq<Byte>, keys: KeyMap)
    | KeysUpdatedEvent(keys: KeyMap)

  /** A buffer whose length parameter has 8 bits. */
  type Buffer8 = k: seq<Byte> | |k| < 0x100

  /** What is left of a buffer whose length is narrowed to less than `width`. */
  ghost predicate Narrowed<T>(sent: seq<T>, whole: seq<T>, width: nat)
    requires width > 0
  {
    sent <= whole && |sent| < width && (|whole| - |sent|) % width == 0
  }

  /** `static_cast<uint16_t>` of the request length. */
  function Delivered(request: string): (sent: string)
    ensures Narrowed(sent, request, 0x1_0000)
  {
    request[..|request| % 0x1_0000]
  }

  /** `static_cast<uint8_t>` of the kid length. */
  function Reported(kid: seq<Byte>): (sent: seq<Byte>)
    ensures Narrowed(sent, kid, 0x100)
  {
    kid[..|kid| % 0x100]
  }

  function SessionId(counter: nat): string {
    "clearkey-session-" + Print(counter)
  }

  function KeyUpdates(pairs: seq<Pair>, keys: KeyMap): (events: seq<Event>)
    ensures |events| == |pairs|
  {
    seq(|pairs|, i requires 0 <= i < |pairs| => KeyUpdateEvent(Reported(pairs[i].0), keys))
  }

  /** One key update per pair in response order, then one batch-complete event. */
  function UpdateEvents(callbacks: Option<Callbacks>, pairs: seq<Pair>, keys: KeyMap): seq<Event> {
    match callbacks
    case None => []
    case Some(c) =>
      (if c.keyUpdate then KeyUpdates(pairs, keys) else []) + (if c.keysUpdated then [KeysUpdatedEvent(keys)] else [])
  }

  /**
   What an application with the callbacks `c` is told of stored pairs: for each in response order a
   key update with its kid, all bytes of it if it has at most 255, then one batch event. Every
   event finds the final map. A missing callback leaves out its own events and no others.
   */
  ghost predicate Told(sent: seq<Event>, c: Callbacks, pairs: seq<Pair>, keys: KeyMap) {
    var n := if c.keyUpdate then |pairs| else 0;
    && |sent| == n + (if c.keysUpdated then 1 else 0)
    && (forall k :: 0 <= k < n ==>
          && sent[k].KeyUpdateEvent? && sent[k].keys == keys
          && Narrowed(sent[k].kid, pairs[k].0, 0x100)
          && (|pairs[k].0| <= 255 ==> sent[k].kid == pairs[k].0))
    && (c.keysUpdated ==> sent[n] == KeysUpdatedEvent(keys))
  }

  lemma UpdateEventsTell(c: Callbacks, pairs: seq<Pair>, keys: KeyMap)
    ensures Told(UpdateEvents(Some(c), pairs, keys), c, pairs, keys)
    ensures UpdateEvents(None, pairs, keys) == []
  {
    hide Narrowed;
    forall k | 0 <= k < |pairs|
      ensures Narrowed(Reported(pairs[k].0), pairs[k].0, 0x100) && (|pairs[k].0| <= 255 ==> Reported(pairs[k].0) == pairs[k].0)
    {
      ReportedCompleteIff(pairs[k].0);
    }
  }

  class Session {
    var sessionId: string
    var callbacks: Option<Callbacks>
    var requestedKeyIds: seq<seq<Byte>>
    var keys: KeyMap
    var closed: bool
    var events: seq<Event>

    constructor (sessionId: string, callbacks: Option<Callbacks>, requestedKeyIds: seq<seq<Byte>>)
      ensures this.sessionId == sessionId && this.callbacks == callbacks && this.requestedKeyIds == requestedKeyIds
      ensures State() == FRESH && events == []
    {
      this.sessionId := sessionId;
      this.callbacks := callbacks;
      this.requestedKeyIds := requestedKeyIds;
      keys := map[];
      closed := false;
      events := [];
    }

    function State(): SessionState
      reads this
    {
      SessionState(keys, closed)
    }
  }

  method DecodeKids(texts: seq<string>) returns (kids: seq<seq<Byte>>, ghost idx: seq<nat>)
    ensures kids == DecodableKids(texts)
    ensures KidsOf(texts, kids, idx)
  {
    kids := [];
    for i := 0 to |texts|
      invariant kids == DecodableKids(texts[..i])
    {
      var ok, kid := Base64UrlDecode(texts[i]);
      if ok && kid != [] {
        kids := kids + [kid];
      }
      assert texts[..i + 1][..i] == texts[..i];
    }
    assert texts[..|texts|] == texts;
    idx := DecodableKidsAre(texts);
  }

  /** What the request still lacks when `i` key ids are printed. */
  function RequestRest(kids: seq<seq<Byte>>, i: nat): string
    requires i <= |kids|
  {
    (if 0 < i < |kids| then "," else "") + TextList(Encodings(kids)[i..], Trailer(true))
  }

  lemma RequestStep(kids: seq<seq<Byte>>, i: nat)
    requires i < |kids|
    ensures RequestRest(kids, i) == (if i > 0 then "," else "") + (("\"" + Encode(kids[i]) + "\"") + RequestRest(kids, i + 1))
  {
    hide Encode;
    hide Trailer;
    var texts := Encodings(kids)[i..];
    ListSplits(texts, Trailer(true));
    assert texts[1..] == Encodings(kids)[i + 1..];
    assert RequestRest(kids, i + 1) == ListTail(texts, Trailer(true));
    assert Quoted(texts[0], RequestRest(kids, i + 1)) == ("\"" + texts[0] + "\"") + RequestRest(kids, i + 1);
  }

  method PrintRequest(kids: seq<seq<Byte>>) returns (request: string)
    ensures request == KidsMessage(kids, true)
  {
    hide Encode;
    hide TextList;
    request := "{\"kids\":[";
    assert request + RequestRest(kids, 0) == KidsMessage(kids, true) by {
      assert RequestRest(kids, 0) == TextList(Encodings(kids), Trailer(true));
    }
    for i := 0 to |kids|
      invariant request + RequestRest(kids, i) == KidsMessage(kids, true)
    {
      RequestStep(kids, i);
      var text := Base64UrlEncode(kids[i]);
      if i > 0 {
        request := request + ",";
      }
      request := request + ("\"" + text + "\"");
    }
    request := request + ("]," + Quoted("type", ":" + Quoted("temporary", "}")));
    assert RequestRest(kids, |kids|) == Trailer(true) by {
      NothingLeft(kids);
    }
  }

  lemma NothingLeft(kids: seq<seq<Byte>>)
    ensures RequestRest(kids, |kids|) == Trailer(true)
  {
    assert Encodings(kids)[|kids|..] == [];
  }

  /** The backend library; `sessionCounter` is its one static variable, 32 bits wide. */
  class Backend {
    var sessionCounter: nat

    constructor ()
      ensures sessionCounter == 0
    {
      sessionCounter := 0;
    }

    /** `memory` says whether the session object can be allocated. */
    method ConstructSession(hasSystem: bool, wantsSession: bool, initDataType: Option<string>, initData: Buffer16,
                            callbacks: Option<Callbacks>, memory: bool)
      returns (err: OcdmError, session: Session?)
      modifies this
      ensures err == if !hasSystem || !wantsSession then ErrorInvalidArg
                     else if initDataType != Some("keyids") || ReadKids(initData) == [] then ErrorFail
                     else if !memory then ErrorOutOfMemory
                     else ErrorNone
      ensures session != null <==> err == ErrorNone
      ensures session == null ==> sessionCounter == old(sessionCounter)
      ensures session != null ==>
                && fresh(session)
                && sessionCounter == (old(sessionCounter) + 1) % UINT32
                && session.sessionId == SessionId(sessionCounter)
                && session.callbacks == callbacks
                && session.requestedKeyIds == ReadKids(initData)
                && (exists idx :: KidsOf(ScanFields(initData, 0, "kids"), session.requestedKeyIds, idx))
                && session.State() == FRESH
                && session.events == if callbacks.Some? && callbacks.value.processChallenge
                                     then [ChallengeEvent("", Delivered(KidsMessage(ReadKids(initData), true)))] else []
    {
      hide ScanFields;
      hide DecodableKids;
      hide KidsMessage;
      hide KidsOf;
      hide SessionId;
      if !hasSystem || !wantsSession {
        return ErrorInvalidArg, null;
      }
      if initDataType.None? || initDataType.value != "keyids" {
        return ErrorFail, null;
      }
      var texts := JsonStringValues(initData, "kids");
      var kids, idx := DecodeKids(texts);
      if kids == [] {
        return ErrorFail, null;
      }
      if !memory {
        return ErrorOutOfMemory, null;
      }
      sessionCounter := (sessionCounter + 1) % UINT32;
      session := new Session(SessionId(sessionCounter), callbacks, kids);
      if callbacks.Some? && callbacks.value.processChallenge {
        var request := PrintRequest(kids);
        session.events := session.events + [ChallengeEvent("", Delivered(request))];
      }
      return ErrorNone, session;
    }
  }

  /** What an update leaves and reports, from the state before it. */
  ghost predicate Updated(before: SessionState, message: Option<Buffer16>, err: OcdmError, after: SessionState)
  {
    && after == Apply(before, Update(message))
    && err == if message.None? || message.value == "" then ErrorInvalidArg
              else if before.closed then ErrorInvalidSession
              else if Accepted(message.value) then ErrorNone
              else ErrorFail
  }

  /** The storing loop of an update; it stops at the first invalid pair. */
  method StoreKeys(session: Session, kids: seq<string>, keys: seq<string>) returns (ok: bool, updatedKids: seq<seq<Byte>>)
    requires |kids| == |keys|
    modifies session`keys
    ensures ok <==> |ValidPairs(kids, keys)| == |kids|
    ensures session.keys == Store(old(session.keys), ValidPairs(kids, keys))
    ensures ok ==> updatedKids == Firsts(ValidPairs(kids, keys))
  {
    hide Decode;
    hide ValidPairs;
    ghost var pairs := ValidPairs(kids, keys);
    updatedKids := [];
    for i := 0 to |kids|
      invariant i <= |pairs| && updatedKids == Firsts(pairs[..i])
      invariant session.keys == Store(old(session.keys), pairs[..i])
    {
      var kidOk, kid := Base64UrlDecode(kids[i]);
      var keyOk, key := Base64UrlDecode(keys[i]);
      if !kidOk || !keyOk || kid == [] || key == [] {
        assert pairs[..i] == pairs;
        return false, updatedKids;
      }
      assert ValidPair(kids[i], keys[i]) && pairs[i] == (kid, key);
      assert pairs[..i + 1][..i] == pairs[..i];
      session.keys := session.keys[kid := key];
      updatedKids := updatedKids + [kid];
    }
    assert pairs[..|kids|] == pairs;
    return true, updatedKids;
  }

  /** The callbacks of a successful update. */
  method NotifyUpdated(session: Session, updatedKids: seq<seq<Byte>>, ghost pairs: seq<Pair>)
    requires updatedKids == Firsts(pairs)
    modifies session`events
    ensures session.events == old(session.events) + UpdateEvents(session.callbacks, pairs, session.keys)
    ensures session.callbacks.Some? ==> Told(session.events[|old(session.events)|..], session.callbacks.value, pairs, session.keys)
    ensures session.callbacks.None? ==> session.events == old(session.events)
  {
    if session.callbacks.Some? {
      UpdateEventsTell(session.callbacks.value, pairs, session.keys);
    }
    if session.callbacks.Some? {
      if session.callbacks.value.keyUpdate {
        for i := 0 to |updatedKids|
          invariant session.events == old(session.events) + KeyUpdates(pairs[..i], session.keys)
        {
          session.events := session.events + [KeyUpdateEvent(Reported(updatedKids[i]), session.keys)];
        }
        assert pairs[..|updatedKids|] == pairs;
      }
      if session.callbacks.value.keysUpdated {
        session.events := session.events + [KeysUpdatedEvent(session.keys)];
      }
    }
  }

  method SessionUpdate(session: Session?, keyMessage: Option<Buffer16>) returns (err: OcdmError)
    modifies session
    ensures session == null || keyMessage.None? || keyMessage.value == "" ==> err == ErrorInvalidArg
    ensures session != null && keyMessage.Some? && keyMessage.value != "" && old(session.closed) ==> err == ErrorInvalidSession
    ensures session != null && err in {ErrorInvalidArg, ErrorInvalidSession} ==> session.keys == old(session.keys)
    ensures session != null ==>
              && session.closed == old(session.closed)
              && Updated(old(session.State()), keyMessage, err, session.State())
              && session.events == old(session.events)
                 + (if err == ErrorNone then UpdateEvents(session.callbacks, ResponsePairs(keyMessage.value), session.keys) else [])
              && (err == ErrorNone && session.callbacks.Some? ==>
                    Told(session.events[|old(session.events)|..], session.callbacks.value, ResponsePairs(keyMessage.value), session.keys))
              && (err != ErrorNone || session.callbacks.None? ==> session.events == old(session.events))
              && session.sessionId == old(session.sessionId) && session.callbacks == old(session.callbacks)
              && session.requestedKeyIds == old(session.requestedKeyIds)
    ensures session != null && keyMessage.Some? && keyMessage.value != "" && !session.closed ==>
              var kids, keys := ScanFields(keyMessage.value, 0, "kid"), ScanFields(keyMessage.value, 0, "k");
              if kids == [] || |kids| != |keys| then err == ErrorFail && session.keys == old(session.keys)
              else
                && err == (if |ValidPairs(kids, keys)| == |kids| then ErrorNone else ErrorFail)
                && session.keys == Store(old(session.keys), ValidPairs(kids, keys))
  {
    hide ScanFields;
    hide ValidPairs;
    hide UpdateEvents;
    hide Told;
    if session == null || keyMessage.None? || keyMessage.value == "" {
      return ErrorInvalidArg;
    }
    if session.closed {
      return ErrorInvalidSession;
    }
    var kids := JsonStringValues(keyMessage.value, "kid");
    var keys := JsonStringValues(keyMessage.value, "k");
    if kids == [] || |kids| != |keys| {
      return ErrorFail;
    }
    var ok, updatedKids := StoreKeys(session, kids, keys);
    if !ok {
      return ErrorFail;
    }
    NotifyUpdated(session, updatedKids, ResponsePairs(keyMessage.value));
    return ErrorNone;
  }

  method SessionRemove(session: Session?) returns (err: OcdmError)
    modifies session
    ensures err == if session == null then ErrorInvalidArg else ErrorNone
    ensures session != null ==>
              && session.State() == Apply(old(session.State()), Remove)
              && session.keys == map[] && session.closed == old(session.closed)
              && session.events == old(session.events) && session.callbacks == old(session.callbacks)
              && session.sessionId == old(session.sessionId) && session.requestedKeyIds == old(session.requestedKeyIds)
  {
    if session == null {
      return ErrorInvalidArg;
    }
    session.keys := map[];
    return ErrorNone;
  }

  method SessionClose(session: Session?) returns (err: OcdmError)
    modifies session
    ensures err == if session == null then ErrorInvalidArg else ErrorNone
    ensures session != null ==>
              && session.State() == Apply(old(session.State()), Close)
              && session.closed && session.keys == old(session.keys)
              && session.events == old(session.events) && session.callbacks == old(session.callbacks)
              && session.sessionId == old(session.sessionId) && session.requestedKeyIds == old(session.requestedKeyIds)
  {
    if session == null {
      return ErrorInvalidArg;
    }
    session.closed := true;
    return ErrorNone;
  }

  function SessionStatus(session: Session?, keyId: Option<Buffer8>): (status: KeyStatus)
    reads session
    ensures status == InternalError <==> session == null || keyId.None? || keyId.value == []
    ensures status == Usable <==> SessionHasKeyId(session, keyId) == 1
  {
    if session == null || keyId.None? || keyId.value == [] then InternalError
    else if keyId.value in session.keys then Usable else StatusPending
  }

  function SessionHasKeyId(session: Session?, keyId: Option<Buffer8>): (held: nat)
    reads session
    ensures held in {0, 1}
    ensures held == 1 ==> session != null && keyId.Some? && keyId.value in session.keys
    ensures held == 0 ==> session == null || keyId.None? || keyId.value == [] || keyId.value !in session.keys
  {
    if session == null || keyId.None? || keyId.value == [] then 0
    else if keyId.value in session.keys then 1 else 0
  }

  /** A session id is a fixed prefix and the counter in decimal digits, without leading zeros. */
  lemma SessionIdText(counter: nat) returns (digits: string)
    ensures SessionId(counter) == "clearkey-session-" + digits
    ensures digits != "" && AllDigits(digits) && (digits == "0" || digits[0] != '0') && Value(digits) == counter
  {
    digits := Print(counter);
    NoLeadingZero(counter);
    ValueOfPrint(counter);
  }

  /** Session ids differ as long as the counter does. */
  lemma SessionIdInjective(a: nat, b: nat)
    requires SessionId(a) == SessionId(b)
    ensures a == b
  {
    var prefix := "clearkey-session-";
    assert SessionId(a)[|prefix|..] == Print(a) && SessionId(b)[|prefix|..] == Print(b);
    ValueOfPrint(a);
    ValueOfPrint(b);
  }

  /**
   The challenge for printed init data arrives complete exactly when the init data leaves room for
   the type member within 16 bits; otherwise the length cast cuts it short.
   */
  lemma ChallengeCompleteIff(kids: seq<seq<Byte>>)
    ensures Delivered(KidsMessage(kids, true)) == KidsMessage(kids, true) <==> |KidsMessage(kids, false)| < 0x1_0000 - 19
  {
    hide KidsMessage;
    RequestLength(kids);
  }

  /** A key update names the stored key id exactly when that has at most 255 bytes. */
  lemma ReportedCompleteIff(kid: seq<Byte>)
    ensures Reported(kid) == kid <==> |kid| < 0x100
  {
  }

  /** Call `i` of the sequence is an update that succeeds. */
  ghost predicate Succeeds(calls: seq<Call>, i: nat)
    requires i < |calls|
  {
    calls[i].Update? && calls[i].message.Some? && calls[i].message.value != "" && Accepted(calls[i].message.value) &&
    !Run(FRESH, calls[..i]).closed
  }

  /** What the first `n` calls report: the events of each successful update, in call order. */
  ghost function ReportedBy(callbacks: Option<Callbacks>, calls: seq<Call>, n: nat): seq<Event>
    requires n <= |calls|
  {
    if n == 0 then []
    else
      ReportedBy(callbacks, calls, n - 1)
      + if Succeeds(calls, n - 1)
        then UpdateEvents(callbacks, ResponsePairs(calls[n - 1].message.value), Run(FRESH, calls[..n]).keys)
        else []
  }

  /** One more call: its state, its error, its report. */
  ghost predicate Played(before: SessionState, call: Call, err: OcdmError, after: SessionState) {
    if call.Update? then Updated(before, call.message, err, after) else err == ErrorNone && after == Apply(before, call)
  }

  lemma PlayedSucceeds(calls: seq<Call>, n: nat, err: OcdmError, after: SessionState)
    requires n < |calls| && Played(Run(FRESH, calls[..n]), calls[n], err, after)
    ensures after == Run(FRESH, calls[..n + 1])
    ensures calls[n].Update? && err == ErrorNone <==> Succeeds(calls, n)
    ensures Succeeds(calls, n) ==> calls[n].Update? && calls[n].message.Some?
  {
    hide Accepted;
    hide ResponsePairs;
    assert calls[..n + 1][..n] == calls[..n];
  }

  method PlayOne(session: Session, call: Call) returns (err: OcdmError)
    modifies session
    ensures Played(old(session.State()), call, err, session.State())
    ensures session.callbacks == old(session.callbacks)
    ensures session.events == old(session.events)
            + (if call.Update? && err == ErrorNone
               then UpdateEvents(session.callbacks, ResponsePairs(call.message.value), session.keys) else [])
  {
    hide ResponsePairs;
    hide Accepted;
    hide UpdateEvents;
    match call {
      case Update(message) => err := SessionUpdate(session, message);
      case Remove => err := SessionRemove(session);
      case Close => err := SessionClose(session);
    }
  }

  /**
   A sequence of calls on one session, played by the methods: the state `Run` gives, the error of
   each call, and the callbacks of the successful updates one after the other.
   */
  method Play(session: Session, calls: seq<Call>) returns (errs: seq<OcdmError>)
    requires session.State() == FRESH
    modifies session
    ensures session.State() == Run(FRESH, calls)
    ensures |errs| == |calls|
    ensures forall i :: 0 <= i < |calls| ==> Played(Run(FRESH, calls[..i]), calls[i], errs[i], Run(FRESH, calls[..i + 1]))
    ensures session.callbacks == old(session.callbacks)
    ensures session.events == old(session.events) + ReportedBy(session.callbacks, calls, |calls|)
    ensures forall kid: Buffer8 :: kid != [] ==>
              (SessionStatus(session, Some(kid)) == Usable <==> exists i: nat :: Stores(calls, i, kid) && InForce(calls, i))
  {
    hide Stores;
    hide InForce;
    hide Accepted;
    hide ResponsePairs;
    hide UpdateEvents;
    hide Played;
    hide Succeeds;
    errs := [];
    for n := 0 to |calls|
      invariant session.State() == Run(FRESH, calls[..n])
      invariant |errs| == n
      invariant forall i :: 0 <= i < n ==> Played(Run(FRESH, calls[..i]), calls[i], errs[i], Run(FRESH, calls[..i + 1]))
      invariant session.callbacks == old(session.callbacks)
      invariant session.events == old(session.events) + ReportedBy(session.callbacks, calls, n)
    {
      hide Run;
      var err := PlayOne(session, calls[n]);
      PlayedSucceeds(calls, n, err, session.State());
      errs := errs + [err];
    }
    assert calls[..|calls|] == calls;
    forall kid: Buffer8 | kid != []
      ensures SessionStatus(session, Some(kid)) == Usable <==> exists i: nat :: Stores(calls, i, kid) && InForce(calls, i)
    {
      HeldIff(calls, kid);
    }
  }

  lemma JwkSetBegins(objects: seq<seq<Field>>, typed: bool)
    ensures JwkSet(objects, typed) != ""
  {
  }

  /**
   The whole exchange: a session constructed from printed key-id init data and given the printed
   license response makes exactly the requested key ids usable.
   */
  method Exchange(backend: Backend, pairs: seq<Pair>, gap: string, response: seq<seq<Field>>, typed: bool, callbacks: Option<Callbacks>)
    returns (session: Session)
    requires pairs != [] && (forall p :: p in pairs ==> p.0 != [] && p.1 != []) && Describes(response, pairs)
    requires Gap(gap) && |KidsText(gap, Firsts(pairs), false)| < 0x1_0000 && |JwkSet(response, typed)| < 0x1_0000
    modifies backend
    ensures fresh(session) && session.requestedKeyIds == Firsts(pairs)
    ensures session.keys == Store(map[], pairs)
    ensures forall kid: Buffer8 :: kid != [] ==>
              SessionStatus(session, Some(kid)) == if kid in session.requestedKeyIds then Usable else StatusPending
    ensures session.events
            == (if callbacks.Some? && callbacks.value.processChallenge
                then [ChallengeEvent("", Delivered(KidsMessage(Firsts(pairs), true)))] else [])
               + UpdateEvents(callbacks, pairs, session.keys)
  {
    hide KidsText;
    hide JwkSet;
    hide KidsOf;
    hide UpdateEvents;
    hide Told;
    hide ReadKids;
    hide ResponsePairs;
    hide Accepted;
    hide Describes;
    var kids := Firsts(pairs);
    ReadInvertsPrint(gap, kids, false);
    UpdateInvertsJwkPrint(response, pairs, typed);
    assert JwkSet(response, typed) != "" by {
      JwkSetBegins(response, typed);
    }
    var err, constructed := backend.ConstructSession(true, true, Some("keyids"), KidsText(gap, kids, false), callbacks, true);
    session := constructed;
    err := SessionUpdate(session, Some(JwkSet(response, typed)));
    forall kid: Buffer8 | kid != []
      ensures SessionStatus(session, Some(kid)) == if kid in session.requestedKeyIds then Usable else StatusPending
    {
      StoreMeaning(map[], pairs, kid);
    }
  }
}
