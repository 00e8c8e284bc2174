/** When exactly a station changes its state: the transitions of the authenticator stated event by event, over the
    attributes of a reply and the fields of a frame, and what follows over whole runs. */
module PaeLaws {
  import opened Options
  import opened PaeMachine
  import opened PaeRuns

  // What is in a reply.

  /** An attribute that makes the reply invalid. */
  predicate BadAt(k: nat, q: Request, resp: Response, check: Check)
    requires k < |resp.attributes|
  {
    match resp.attributes[k]
    case Authenticator(length) => length < 16 || !check(q, resp, k)
    case Vendor(malformed, _) => malformed
    case SessionTimeout(length, _) => resp.code == 2 && length < 4
    case _ => false
  }

  ghost predicate Clean(q: Request, resp: Response, check: Check)
  {
    forall k :: 0 <= k < |resp.attributes| ==> !BadAt(k, q, resp, check)
  }

  /** The first EAP message, the last timeout and the last server state from position k on. */
  function FirstEap(a: seq<Attribute>, k: nat): (h: Option<EapHead>)
    decreases |a| - k
  {
    if k >= |a| then None else if a[k].EapMessage? then Some(a[k].head) else FirstEap(a, k + 1)
  }

  function LastTimeout(a: seq<Attribute>, k: nat, n: nat): (t: nat)
    decreases |a| - k
  {
    if k >= |a| then n else LastTimeout(a, k + 1, if a[k].SessionTimeout? then a[k].seconds else n)
  }

  function LastState(a: seq<Attribute>, k: nat, v: Bytes): (w: Bytes)
    decreases |a| - k
  {
    if k >= |a| then v else LastState(a, k + 1, if a[k].State? then a[k].value else v)
  }

  ghost predicate HasSignature(a: seq<Attribute>, k: nat)
  {
    exists j :: k <= j < |a| && a[j].Authenticator?
  }

  ghost predicate HasKey(a: seq<Attribute>, k: nat)
  {
    exists j :: k <= j < |a| && a[j].Vendor? && a[j].recvKey
  }

  predicate IsSuccess(h: Option<EapHead>) { h.Some? && h.value.code == 3 }

  /** What the loop finds in a valid reply. */
  ghost predicate Gathers(g: Found, h: Found, k: nat, resp: Response)
  {
    var a := resp.attributes;
    && !h.error
    && (h.authenticated <==> g.authenticated || HasSignature(a, k))
    && h.eap == (if g.eap.Some? then g.eap else FirstEap(a, k))
    && (h.recvKey <==> g.recvKey || (resp.code == 2 && HasKey(a, k)))
    && h.s == g.s.(serverState := LastState(a, k, g.s.serverState),
                   ssnto := if resp.code == 2 then LastTimeout(a, k, g.s.ssnto) else g.s.ssnto,
                   eapSuccess := g.s.eapSuccess || (g.eap.None? && IsSuccess(FirstEap(a, k))))
  }

  lemma {:induction false} Gathered(g: Found, k: nat, q: Request, resp: Response, check: Check)
    requires !g.error && k <= |resp.attributes|
    ensures ReadAll(g, k, q, resp, check).error <==> exists j :: k <= j < |resp.attributes| && BadAt(j, q, resp, check)
    ensures !ReadAll(g, k, q, resp, check).error ==> Gathers(g, ReadAll(g, k, q, resp, check), k, resp)
    decreases |resp.attributes| - k
  {
    if k < |resp.attributes| {
      var h := Read(g, k, q, resp, check);
      ReadOne(g, k, q, resp, check);
      if !h.error {
        Gathered(h, k + 1, q, resp, check);
        if !ReadAll(h, k + 1, q, resp, check).error { GathersMore(g, h, k, q, resp, check); }
      }
    }
  }

  lemma ReadOne(g: Found, k: nat, q: Request, resp: Response, check: Check)
    requires !g.error && k < |resp.attributes|
    ensures Read(g, k, q, resp, check).error <==> BadAt(k, q, resp, check)
    ensures Read(g, k, q, resp, check).error ==> ReadAll(g, k, q, resp, check).error
    ensures !Read(g, k, q, resp, check).error ==>
      ReadAll(g, k, q, resp, check) == ReadAll(Read(g, k, q, resp, check), k + 1, q, resp, check)
  {
  }

  lemma GathersMore(g: Found, h: Found, k: nat, q: Request, resp: Response, check: Check)
    requires !g.error && k < |resp.attributes| && h == Read(g, k, q, resp, check) && !h.error
    requires ReadAll(g, k, q, resp, check) == ReadAll(h, k + 1, q, resp, check)
    requires Gathers(h, ReadAll(h, k + 1, q, resp, check), k + 1, resp)
    ensures Gathers(g, ReadAll(g, k, q, resp, check), k, resp)
  {
    hide ReadAll, HasSignature, HasKey, FirstEap, LastTimeout, LastState, IsSuccess, BadAt;
    HasMore(resp.attributes, k);
    ValuesMore(resp.attributes, k, g.s.ssnto, g.s.serverState);
  }

  lemma ValuesMore(a: seq<Attribute>, k: nat, n: nat, v: Bytes)
    requires k < |a|
    ensures FirstEap(a, k) == if a[k].EapMessage? then Some(a[k].head) else FirstEap(a, k + 1)
    ensures LastTimeout(a, k, n) == LastTimeout(a, k + 1, if a[k].SessionTimeout? then a[k].seconds else n)
    ensures LastState(a, k, v) == LastState(a, k + 1, if a[k].State? then a[k].value else v)
    ensures !IsSuccess(None) && forall h: EapHead :: IsSuccess(Some(h)) <==> h.code == 3
  {
  }

  lemma HasMore(a: seq<Attribute>, k: nat)
    requires k < |a|
    ensures HasSignature(a, k) <==> a[k].Authenticator? || HasSignature(a, k + 1)
    ensures HasKey(a, k) <==> (a[k].Vendor? && a[k].recvKey) || HasKey(a, k + 1)
  {
  }

  /** The attribute loop fails exactly for a reply with an invalid attribute. In any other it finds whether there is a
      signature, the first EAP message, the last server state, and in an Access-Accept the last timeout and whether
      there is a key; the success flag is set if it was or the first EAP message is a success. */
  lemma AttributesRead(s: Station, q: Request, resp: Response, check: Check)
    ensures Contents(s, q, resp, check).error <==> !Clean(q, resp, check)
    ensures Clean(q, resp, check) ==> Gathers(Begin(s), Contents(s, q, resp, check), 0, resp)
  {
    hide ReadAll;
    Gathered(Begin(s), 0, q, resp, check);
  }

  // Replies.

  /** A valid Access-Reject, an Access-Accept that is signed and valid, to the outstanding request. */
  ghost predicate Rejects(s: Station, resp: Response, check: Check)
  {
    s.request.Some? && s.request.value.id == resp.id && resp.code == 3 && Clean(s.request.value, resp, check)
  }

  ghost predicate Agrees(s: Station, resp: Response, check: Check)
  {
    && s.request.Some? && s.request.value.id == resp.id && resp.code == 2 && Clean(s.request.value, resp, check)
    && HasSignature(resp.attributes, 0)
  }

  predicate Succeeds(s: Station, resp: Response)
  {
    s.eapSuccess || IsSuccess(FirstEap(resp.attributes, 0))
  }

  function NewId(s: Station, resp: Response): (id: int)
  {
    var h := FirstEap(resp.attributes, 0);
    if h.Some? then h.value.id else s.id
  }

  /** A rejection holds the station for sixty seconds, ends its session and request, and announces it; the failure frame
      has the identifier of the server's last message, and the station the next one. */
  lemma RejectionHolds(s: Station, resp: Response, limit: nat, check: Check)
    requires Rejects(s, resp, check)
    ensures var r := OnRadius(s, resp, limit, check);
      r.state == HELD && r.quietWhile == 60 && r.ssnto == 0 && r.request == None && r.id == NewId(s, resp) + 1
    ensures var out := SentOnRadius(s, resp, check);
      |out| >= 2 && out[|out| - 2..] == [Canned(4, 0, NewId(s, resp) % 256, s.preAuth), Deauthorize]
  {
    hide ReadAll, Clean;
    AttributesRead(s, s.request.value, resp, check);
    KeptByReading(Begin(s), 0, s.request.value, resp, check);
  }

  /** A station is held after a reply exactly for a rejection, or for an Access-Accept that is signed and valid while no
      success has been seen. */
  lemma HeldExactly(s: Station, resp: Response, limit: nat, check: Check)
    requires s.state != HELD
    ensures OnRadius(s, resp, limit, check).state == HELD <==>
      Rejects(s, resp, check) || (Agrees(s, resp, check) && !Succeeds(s, resp))
  {
    hide ReadAll, Clean, HasSignature;
    if s.request.Some? {
      AttributesRead(s, s.request.value, resp, check);
      KeptByReading(Begin(s), 0, s.request.value, resp, check);
    }
  }

  /** It is authenticated after a reply exactly for an Access-Accept that is signed and valid with a success seen. */
  lemma AuthenticatedExactly(s: Station, resp: Response, limit: nat, check: Check)
    requires s.state != AUTHENTICATED
    ensures OnRadius(s, resp, limit, check).state == AUTHENTICATED <==> Agrees(s, resp, check) && Succeeds(s, resp)
  {
    hide ReadAll, Clean, HasSignature;
    if s.request.Some? {
      AttributesRead(s, s.request.value, resp, check);
      KeptByReading(Begin(s), 0, s.request.value, resp, check);
    }
  }

  /** Any other reply leaves the state and the countdowns alone; if it answers, the request is gone. */
  lemma OtherReplies(s: Station, resp: Response, limit: nat, check: Check)
    requires !Rejects(s, resp, check) && !Agrees(s, resp, check)
    ensures var r := OnRadius(s, resp, limit, check);
      && r.state == s.state && r.txWhen == s.txWhen && r.authWhile == s.authWhile && r.quietWhile == s.quietWhile
      && r.rxauths == s.rxauths && r.username == s.username
      && r.request == if s.request.Some? && s.request.value.id == resp.id then None else s.request
  {
    hide ReadAll, Clean, HasSignature;
    if s.request.Some? {
      AttributesRead(s, s.request.value, resp, check);
      KeptByReading(Begin(s), 0, s.request.value, resp, check);
    }
  }

  /** The session of a station that is let in lasts as long as the last timeout of the reply says, or else as the station
      had left, but not longer than the limit; nothing to go by means the limit. */
  lemma SessionGranted(s: Station, resp: Response, limit: nat, check: Check)
    requires Agrees(s, resp, check) && Succeeds(s, resp)
    ensures var r, n := OnRadius(s, resp, limit, check), LastTimeout(resp.attributes, 0, s.ssnto);
      && r.state == AUTHENTICATED && r.request == None && r.rxauths == 0 && r.id == NewId(s, resp) + 1
      && (0 < n <= limit ==> r.ssnto == n) && (n == 0 || n > limit ==> r.ssnto == limit)
      && r.preAuth == (s.preAuth && !(HasKey(resp.attributes, 0) && WPA2 in s.mode)) && r.mode == s.mode
    ensures SentOnRadius(s, resp, check) != [] &&
      SentOnRadius(s, resp, check)[|SentOnRadius(s, resp, check)| - 1] == Canned(3, 0, NewId(s, resp) % 256, s.preAuth)
  {
    hide ReadAll, Clean, HasSignature;
    AttributesRead(s, s.request.value, resp, check);
    KeptByReading(Begin(s), 0, s.request.value, resp, check);
  }

  /** A station that is let in is lost again exactly if its key is refused: by the WPA code in a WPA mode, where the key of
      a pre-authenticated WPA2 station is only remembered, by the driver in any other. */
  lemma KeyRefusedExactly(s: Station, resp: Response, check: Check, e: Surroundings)
    ensures KeyRefused(s, resp, check, e) <==>
      && Agrees(s, resp, check) && Succeeds(s, resp) && HasKey(resp.attributes, 0)
      && (WPA in s.mode || WPA2 in s.mode ==> e.wpaFails && !(WPA2 in s.mode && s.preAuth))
      && (WPA in s.mode || WPA2 in s.mode || e.keyFails)
  {
    hide ReadAll, Clean, HasSignature, HasKey;
    if s.request.Some? { AttributesRead(s, s.request.value, resp, check); }
  }

  /** The server's own EAP message goes on to the station unless the reply is refused, or the message is the success or
      failure the authenticator announces itself. */
  lemma RelayedExactly(s: Station, resp: Response, check: Check)
    ensures (exists o :: o in SentOnRadius(s, resp, check) && o.Relayed?) <==>
      && Answers(s, resp) && Clean(s.request.value, resp, check) && (resp.code == 3 || HasSignature(resp.attributes, 0))
      && var h := FirstEap(resp.attributes, 0);
         h.Some? && !(h.value.code == 3 && resp.code == 2) && !(h.value.code == 4 && resp.code == 3)
  {
    hide ReadAll, Clean, HasSignature;
    if Answers(s, resp) {
      var g := Contents(s, s.request.value, resp, check);
      AttributesRead(s, s.request.value, resp, check);
      assert forall o :: o in Verdict(Renumbered(g), resp.code) ==> !o.Relayed?;
      if Passes(g, resp.code) && RelayedTo(g.s, g, resp.code) != [] {
        assert RelayedTo(g.s, g, resp.code)[0] in SentOnRadius(s, resp, check);
      }
    }
  }

  /** Over every run: a station that was rejected is not authenticated until a later reply grants it access. */
  lemma RejectedUntilGranted(slot: nat, inputs: seq<Input>, limit: nat, check: Check, k: nat) returns (l: nat)
    requires k < |inputs| && inputs[k].Radius? && Run(slot, inputs[..k], limit, check).Some?
    requires Rejects(Run(slot, inputs[..k], limit, check).value, inputs[k].resp, check)
    requires var r := Run(slot, inputs, limit, check); r.Some? && r.value.state == AUTHENTICATED
    ensures k < l && GrantedAt(slot, inputs, limit, check, l)
  {
    hide Rejects, GrantedAt, Run, OnRadius;
    HeldThen(slot, inputs, limit, check, k);
    l := AuthenticatedWasGranted(slot, inputs, limit, check);
    GrantIsLater(slot, inputs, limit, check, k, l);
  }

  lemma HeldThen(slot: nat, inputs: seq<Input>, limit: nat, check: Check, k: nat)
    requires k < |inputs| && inputs[k].Radius? && Run(slot, inputs[..k], limit, check).Some?
    requires Rejects(Run(slot, inputs[..k], limit, check).value, inputs[k].resp, check)
    ensures StateAfter(slot, inputs, limit, check, k + 1) == Some(HELD)
  {
    hide Rejects, Run, OnRadius;
    RejectionHolds(Run(slot, inputs[..k], limit, check).value, inputs[k].resp, limit, check);
    RunSnoc(slot, inputs[..k], inputs[k], limit, check);
    assert inputs[..k] + [inputs[k]] == inputs[..k + 1];
  }

  lemma GrantIsLater(slot: nat, inputs: seq<Input>, limit: nat, check: Check, k: nat, l: nat)
    requires k < |inputs| && StateAfter(slot, inputs, limit, check, k + 1) == Some(HELD)
    requires GrantedAt(slot, inputs, limit, check, l)
    ensures k < l
  {
    hide Grants, Run;
    assert StateAfter(slot, inputs, limit, check, k + 1) != Some(AUTHENTICATED);
  }

  /** And it stays held until sixty seconds have passed, whatever frames and replies come. */
  lemma RejectedStaysOut(s: Station, resp: Response, slot: nat, inputs: seq<Input>, limit: nat, check: Check)
    requires Rejects(s, resp, check) && Ticks(inputs) < 60
    requires forall i :: 0 <= i < |inputs| ==> inputs[i].Eapol? || inputs[i].Radius? || inputs[i].Tick?
    ensures var r := Later(OnRadius(s, resp, limit, check), slot, inputs, limit, check);
      r.Some? && r.value.state == HELD && r.value.quietWhile == 60 - Ticks(inputs)
  {
    hide OnRadius, Rejects;
    RejectionHolds(s, resp, limit, check);
    HeldHolds(OnRadius(s, resp, limit, check), slot, inputs, limit, check);
  }

  // Time.

  /** A session of n seconds runs down a second at a time and ends on the n-th: the station is asked for its identity
      under identifier 0. Only a station in a pre-shared key mode keeps its state, without a session. */
  lemma SessionEnds(s: Station, slot: nat, k: nat, limit: nat, check: Check)
    requires s.state == AUTHENTICATED && 1 <= k <= s.ssnto
    ensures k < s.ssnto ==> Later(s, slot, Seconds(k), limit, check) == Some(s.(ssnto := s.ssnto - k))
    ensures k == s.ssnto ==> Later(s, slot, Seconds(k), limit, check) == Some(
      if WPA_PSK in s.mode || WPA2_PSK in s.mode then s.(ssnto := 0)
      else s.(state := CONNECTING, id := 0, eapSuccess := false, ssnto := 0, rxauths := (s.rxauths + 1) % 0x1_0000,
              txWhen := 30, preAuth := false))
  {
    hide Later, OnEapol, OnTick;
    RunsDown(s, slot, k - 1, limit, check);
    TickLater(s, slot, k, limit, check);
    SessionSecond(s.(ssnto := s.ssnto - (k - 1)), slot);
  }

  lemma SessionSecond(s: Station, slot: nat)
    requires s.state == AUTHENTICATED && s.ssnto >= 1
    ensures OnTick(s, slot) ==
      if s.ssnto > 1 || WPA_PSK in s.mode || WPA2_PSK in s.mode then s.(ssnto := s.ssnto - 1)
      else s.(state := CONNECTING, id := 0, eapSuccess := false, ssnto := 0, rxauths := (s.rxauths + 1) % 0x1_0000,
              txWhen := 30, preAuth := false)
  {
  }

  lemma TickLater(s: Station, slot: nat, k: nat, limit: nat, check: Check)
    requires k >= 1 && Later(s, slot, Seconds(k - 1), limit, check).Some?
    ensures Later(s, slot, Seconds(k), limit, check) == Some(OnTick(Later(s, slot, Seconds(k - 1), limit, check).value, slot))
  {
    hide OnTick;
    assert Seconds(k)[..k - 1] == Seconds(k - 1);
  }

  lemma {:induction false} RunsDown(s: Station, slot: nat, k: nat, limit: nat, check: Check)
    requires s.state == AUTHENTICATED && k < s.ssnto
    ensures Later(s, slot, Seconds(k), limit, check) == Some(s.(ssnto := s.ssnto - k))
  {
    hide OnTick;
    if k > 0 {
      RunsDown(s, slot, k - 1, limit, check);
      TickLater(s, slot, k, limit, check);
      SessionSecond(s.(ssnto := s.ssnto - (k - 1)), slot);
    }
  }

  /** Without a session there is nothing to end. */
  lemma {:induction false} NoSession(s: Station, slot: nat, k: nat, limit: nat, check: Check)
    requires s.state == AUTHENTICATED && s.ssnto == 0
    ensures Later(s, slot, Seconds(k), limit, check) == Some(s)
  {
    if k > 0 {
      NoSession(s, slot, k - 1, limit, check);
      assert Seconds(k)[..k - 1] == Seconds(k - 1);
    }
  }

  /** A station the server does not answer for is given up on the last second of its countdown, under the next
      identifier, and asked again. */
  lemma AuthenticationTimesOut(s: Station, slot: nat, k: nat, limit: nat, check: Check)
    requires s.state == AUTHENTICATING && 1 <= k <= s.authWhile
    ensures k < s.authWhile ==> Later(s, slot, Seconds(k), limit, check) == Some(s.(authWhile := s.authWhile - k))
    ensures k == s.authWhile ==> Later(s, slot, Seconds(k), limit, check) == Some(
      s.(state := CONNECTING, username := [], serverState := [], request := None, id := s.id + 1, eapSuccess := false,
         ssnto := 0, rxauths := (s.rxauths + 1) % 0x1_0000, txWhen := 30, authWhile := 0))
  {
    hide Later, OnTick;
    WaitsForServer(s, slot, k - 1, limit, check);
    TickLater(s, slot, k, limit, check);
    WaitingSecond(s.(authWhile := s.authWhile - (k - 1)), slot);
  }

  lemma WaitingSecond(s: Station, slot: nat)
    requires s.state == AUTHENTICATING && s.authWhile >= 1
    ensures OnTick(s, slot) ==
      if s.authWhile > 1 then s.(authWhile := s.authWhile - 1)
      else s.(state := CONNECTING, username := [], serverState := [], request := None, id := s.id + 1, eapSuccess := false,
              ssnto := 0, rxauths := (s.rxauths + 1) % 0x1_0000, txWhen := 30, authWhile := 0)
  {
  }

  lemma {:induction false} WaitsForServer(s: Station, slot: nat, k: nat, limit: nat, check: Check)
    requires s.state == AUTHENTICATING && k < s.authWhile
    ensures Later(s, slot, Seconds(k), limit, check) == Some(s.(authWhile := s.authWhile - k))
  {
    hide OnTick;
    if k > 0 {
      WaitsForServer(s, slot, k - 1, limit, check);
      TickLater(s, slot, k, limit, check);
      WaitingSecond(s.(authWhile := s.authWhile - (k - 1)), slot);
    }
  }

  /** A held station is let go on the last second of its quiet period. */
  lemma HoldEnds(s: Station, slot: nat, limit: nat, check: Check)
    requires Rests(s) && s.state == HELD
    ensures Later(s, slot, Seconds(s.quietWhile), limit, check) == Some(
      s.(state := CONNECTING, eapSuccess := false, ssnto := 0, rxauths := (s.rxauths + 1) % 0x1_0000, txWhen := 30,
         quietWhile := 0))
  {
    var n := s.quietWhile;
    SecondsTick(n - 1);
    HeldHolds(s, slot, Seconds(n - 1), limit, check);
    assert Seconds(n)[..n - 1] == Seconds(n - 1);
  }

  lemma {:induction false} SecondsTick(n: nat)
    ensures Ticks(Seconds(n)) == n
  {
    if n > 0 {
      SecondsTick(n - 1);
      assert Seconds(n)[..n - 1] == Seconds(n - 1);
    }
  }

  /** A station asked for its identity is asked again after every period, three times under one identifier; then it is
      told of failure and asked under the next. */
  lemma AskedAfterPeriod(s: Station, slot: nat, limit: nat, check: Check)
    requires s.state == CONNECTING && s.txWhen >= 1
    ensures Later(s, slot, Seconds(s.txWhen), limit, check) == Some(
      s.(eapSuccess := false, ssnto := 0, txWhen := 30, id := if s.rxauths > 2 then s.id + 1 else s.id,
         rxauths := if s.rxauths > 2 then 1 else s.rxauths + 1))
  {
    hide Later, Seconds;
    AskedAgain(s, slot, limit, check);
  }

  /** What a second sends: an identity request on the last second of a session, of a quiet period, of an authentication
      or of a period of asking, after a failure frame if the station has been asked often enough; nothing otherwise. */
  lemma TickSends(s: Station)
    ensures var ask := (i: int, p: bool) => Canned(1, 1, i % 256, p);
      SentOnTick(s) ==
        if s.state == AUTHENTICATED && s.ssnto == 1 && !(WPA_PSK in s.mode || WPA2_PSK in s.mode) then [ask(0, false)]
        else if s.state == HELD && s.quietWhile == 1 then [ask(s.id, s.preAuth)]
        else if s.state == AUTHENTICATING && s.authWhile == 1 then [ask(s.id + 1, s.preAuth)]
        else if s.state == CONNECTING && s.txWhen == 1 && s.rxauths <= 2 then [ask(s.id, s.preAuth)]
        else if s.state == CONNECTING && s.txWhen == 1 then [Canned(4, 0, s.id % 256, s.preAuth), ask(s.id + 1, s.preAuth)]
        else []
  {
  }

  // Frames.

  /** A frame reaches the authenticator exactly if the station is not held, and either it was pre-authenticated or the
      station's mode has no pre-shared key and the frame is not a key for the WPA code. */
  predicate Reaches(s: Station, f: Frame)
  {
    && s.state != HELD
    && (f.preauth || !(WPA_PSK in s.mode || WPA2_PSK in s.mode))
    && (f.preauth || f.kind != Key(true) || !(WPA in s.mode || WPA2 in s.mode)
        || (s.state != AUTHENTICATED && s.state != INITIALIZE))
  }

  /** A logoff that reaches the authenticator ends every state: the station is told of failure and asked for its identity
      anew, its port is closed, its success and session are gone. Only a station that was neither connecting nor
      authenticated loses its name and request. */
  lemma LogoffEnds(s: Station, slot: nat, f: Frame, e: Surroundings)
    requires f.kind == Logoff && Reaches(s, f)
    ensures var r, aborted := OnEapol(s, slot, f, e), s.state != CONNECTING && s.state != AUTHENTICATED;
      && r.state == CONNECTING && !r.eapSuccess && r.ssnto == 0 && r.rxauths == 1 && r.txWhen == 30
      && r.id == (if aborted then s.id + 2 else s.id + 1)
      && r.request == (if aborted then None else s.request)
      && r.username == (if aborted then [] else s.username)
      && SentOnEapol(s, f) ==
           [Canned(4, 0, (r.id - 1) % 256, f.preauth), Canned(1, 1, r.id % 256, f.preauth), Deauthorize]
  {
  }

  /** A start frame asks for the identity under identifier 0, or 1 if it aborts an authentication. */
  lemma StartAsks(s: Station, slot: nat, f: Frame, e: Surroundings)
    requires f.kind == Start && Reaches(s, f)
    ensures var r, aborted := OnEapol(s, slot, f, e), s.state == AUTHENTICATING;
      && r.state == CONNECTING && !r.eapSuccess && r.ssnto == 0 && r.txWhen == 30
      && r.rxauths == (s.rxauths + 1) % 0x1_0000 && r.id == (if aborted then 1 else 0)
      && r.request == (if aborted then None else s.request)
      && r.username == (if aborted then [] else s.username)
      && SentOnEapol(s, f) == [Canned(1, 1, r.id, f.preauth)]
  {
  }

  /** An identity response that is whole, under the station's identifier, while no authentication is running. */
  predicate Identifies(s: Station, f: Frame)
  {
    && f.kind == EapPacket && f.length >= 5 && f.eap.typ == 1 && f.eap.code == 2
    && f.eap.id == s.id && f.eap.length <= 5 + |f.eap.data| && s.state != AUTHENTICATING
  }

  /** A frame starts an authentication exactly if it reaches the authenticator and is such a response; it lasts sixty
      seconds, and its request carries the slot. */
  lemma IdentityStarts(s: Station, slot: nat, f: Frame, e: Surroundings)
    requires s.state != AUTHENTICATING
    ensures OnEapol(s, slot, f, e).state == AUTHENTICATING <==> Reaches(s, f) && Identifies(s, f)
    ensures OnEapol(s, slot, f, e).state == AUTHENTICATING ==>
      OnEapol(s, slot, f, e).authWhile == 60 && OnEapol(s, slot, f, e).id == s.id
      && OnEapol(s, slot, f, e).request == (if e.sent then Some(Request(slot, e.vector)) else None)
      && (f.eap.length > 5 ==> OnEapol(s, slot, f, e).username == f.eap.data[..f.eap.length - 5])
      && (f.eap.length <= 5 ==> OnEapol(s, slot, f, e).username == s.username)
  {
  }

  /** Any other EAP packet that reaches the authenticator changes at most the request and the tag of its way: what is not
      an identity response is forwarded, and that drops the state the server had left. */
  lemma OtherPackets(s: Station, slot: nat, f: Frame, e: Surroundings)
    requires f.kind == EapPacket && Reaches(s, f) && !Identifies(s, f)
    ensures var r, forwarded := OnEapol(s, slot, f, e), f.eap.typ != 1 && f.length >= 5;
      && r == s.(request := r.request, serverState := r.serverState, preAuth := f.preauth,
                 mode := if f.preauth then {WPA2} else s.mode)
      && (!forwarded ==> r.request == s.request && r.serverState == s.serverState)
      && (forwarded ==> r.serverState == [] && r.request == if e.sent then Some(Request(slot, e.vector)) else None)
  {
  }

  /** A frame that does not reach the authenticator changes nothing, and neither it nor a key nor an alert is answered. */
  lemma Unreached(s: Station, slot: nat, f: Frame, e: Surroundings)
    ensures !Reaches(s, f) ==> OnEapol(s, slot, f, e) == s && SentOnEapol(s, f) == []
    ensures Reaches(s, f) && (f.kind.Key? || f.kind.Asf? || f.kind.Unknown?) ==>
      OnEapol(s, slot, f, e) == s.(preAuth := f.preauth, mode := if f.preauth then {WPA2} else s.mode)
      && SentOnEapol(s, f) == []
  {
  }
}
