/** What the authenticator keeps over every run of events: where a station rests, how it got in, what the server's
    replies answered, where the success flag came from, and what the station was sent. */
module PaeRuns {
  import opened Options
  import opened PaeMachine

  /** The states a station is left in between events, with the countdown of a timed state running. */
  ghost predicate Rests(s: Station)
  {
    && (s.state == INITIALIZE || s.state == CONNECTING || s.state == AUTHENTICATING || s.state == HELD || s.state == AUTHENTICATED)
    && (s.state == CONNECTING ==> 1 <= s.txWhen <= STA_TXPERIOD_MAX)
    && (s.state == AUTHENTICATING ==> 1 <= s.authWhile <= STA_AUTHWHILE_MAX)
    && (s.state == HELD ==> 1 <= s.quietWhile <= STA_QUIETWHILE_MAX && s.request == None)
  }

  /** Entering a state that is not a transient one leaves the station at rest. */
  lemma EnteredRests(s: Station, st: PaeState)
    requires st == CONNECTING || st == DISCONNECTED || st == AUTHENTICATED || st == AUTHENTICATING || (st == HELD && s.request == None)
    ensures Rests(Entered(s, st))
  {
  }

  /** The identifier of the last frame the station was sent. */
  function LastId(out: seq<Output>): (id: Option<int>)
  {
    if out == [] then None
    else
      match out[|out| - 1]
      case Canned(_, _, id, _) => Some(id)
      case Relayed(id, _, _) => Some(id % 256)
      case Deauthorize => LastId(out[..|out| - 1])
  }

  lemma EapRests(s: Station, slot: nat, f: Frame, e: Surroundings)
    requires Rests(s) && s.state != HELD
    ensures Rests(OnEap(s, slot, f, e))
    ensures OnEap(s, slot, f, e).state == AUTHENTICATED ==> s.state == AUTHENTICATED
    ensures OnEap(s, slot, f, e).state == CONNECTING ==> s.state == CONNECTING && OnEap(s, slot, f, e).id == s.id
  {
  }

  lemma StartsConnecting(s: Station, st: PaeState)
    requires st == CONNECTING || st == DISCONNECTED
    ensures Rests(Entered(s, st)) && Entered(s, st).state == CONNECTING
    ensures LastId(Announced(s, st)) == LastId(Announced(s, st) + [Deauthorize]) == Some(Entered(s, st).id % 256)
  {
  }

  /** Frames keep the resting states, never authenticate, and do nothing to a held station. */
  lemma EapolRests(s: Station, slot: nat, f: Frame, e: Surroundings)
    requires Rests(s)
    ensures Rests(OnEapol(s, slot, f, e))
    ensures s.state == HELD ==> OnEapol(s, slot, f, e) == s
    ensures OnEapol(s, slot, f, e).state == AUTHENTICATED ==> s.state == AUTHENTICATED
  {
    hide OnEap, Entered, Restarted, LoggedOff, LastId, IsWpaKey;
    if s.state != HELD { EapRests(Tagged(s, f), slot, f, e); }
    StartsConnecting(Restarted(Tagged(s, f)), CONNECTING);
    StartsConnecting(LoggedOff(Tagged(s, f)), DISCONNECTED);
  }

  lemma WpaKeyIgnored(s: Station, slot: nat, f: Frame, e: Surroundings)
    requires s.state == HELD || IsWpaKey(s, f)
    ensures OnEapol(s, slot, f, e) == s
  {
  }

  lemma TickRests(s: Station, slot: nat)
    requires Rests(s)
    ensures Rests(OnTick(s, slot))
    ensures s.state == HELD && s.quietWhile > 1 ==> OnTick(s, slot) == s.(quietWhile := s.quietWhile - 1)
    ensures s.state == HELD && s.quietWhile == 1 ==> OnTick(s, slot).state == CONNECTING
    ensures OnTick(s, slot).state == AUTHENTICATED ==> s.state == AUTHENTICATED
  {
    EapolRests(s.(ssnto := 0), slot, IDENTITY_REQUEST, NOTHING);
  }

  /** Some Message-Authenticator of a reply is right for the request. */
  ghost predicate Signed(q: Request, resp: Response, check: Check)
  {
    exists k :: 0 <= k < |resp.attributes| && SignedAt(k, q, resp, check)
  }

  predicate SignedAt(k: nat, q: Request, resp: Response, check: Check)
    requires k < |resp.attributes|
  {
    resp.attributes[k].Authenticator? && resp.attributes[k].length >= 16 && check(q, resp, k)
  }

  lemma {:induction false} AuthenticatedWasSigned(g: Found, k: nat, q: Request, resp: Response, check: Check)
    requires g.authenticated ==> Signed(q, resp, check)
    ensures ReadAll(g, k, q, resp, check).authenticated ==> Signed(q, resp, check)
    decreases |resp.attributes| - k
  {
    if !g.error && k < |resp.attributes| {
      var h := Read(g, k, q, resp, check);
      assert h.authenticated && !g.authenticated ==> SignedAt(k, q, resp, check);
      AuthenticatedWasSigned(h, k + 1, q, resp, check);
    }
  }

  /** A reply that grants access: it answers the outstanding request, it is signed, and the success flag was found
      set. */
  ghost predicate Grants(s: Station, resp: Response, check: Check)
  {
    && Answers(s, resp) && resp.code == RADIUS_ACCESS_ACCEPT
    && Signed(s.request.value, resp, check)
    && Contents(s, s.request.value, resp, check).s.eapSuccess
  }

  lemma RadiusRests(s: Station, resp: Response, limit: nat, check: Check)
    requires Rests(s)
    ensures Rests(OnRadius(s, resp, limit, check))
    ensures s.state == HELD ==> OnRadius(s, resp, limit, check) == s
    ensures OnRadius(s, resp, limit, check).state == AUTHENTICATED ==>
      s.state == AUTHENTICATED || Grants(s, resp, check)
    ensures Accepts(s, resp, check) ==> OnRadius(s, resp, limit, check).state == AUTHENTICATED && Grants(s, resp, check)
  {
    hide ReadAll, Signed;
    if Answers(s, resp) {
      KeptByReading(Begin(s), 0, s.request.value, resp, check);
      AuthenticatedWasSigned(Begin(s), 0, s.request.value, resp, check);
    }
  }

  /** The events of one slot of the pool. Entering and tossing a station are decided by the pool and the WPA code,
      which also sets the mode and ends the session of a station whose handshake timed out. */
  datatype Input =
    | Enter(mode: Mode)
    | Toss
    | SetMode(mode: Mode)
    | Expire
    | Eapol(f: Frame, e: Surroundings)
    | Radius(resp: Response)
    | Tick

  /** The slot after an event; None is an unused slot. */
  function Step(o: Option<Station>, slot: nat, i: Input, limit: nat, check: Check): (r: Option<Station>)
  {
    match i
    case Enter(mode) => Some(Fresh(mode))
    case Toss => None
    case Expire => if o.None? then None else Some(o.value.(ssnto := 0))
    case SetMode(mode) => if o.None? then None else Some(o.value.(mode := mode))
    case Eapol(f, e) => if o.None? then None else Some(OnEapol(o.value, slot, f, e))
    case Radius(resp) => if o.None? then None else Some(OnRadius(o.value, resp, limit, check))
    case Tick => if o.None? then None else Some(OnTick(o.value, slot))
  }

  /** The slot after a run that starts with it unused. */
  function Run(slot: nat, inputs: seq<Input>, limit: nat, check: Check): (r: Option<Station>)
  {
    if inputs == [] then None
    else Step(Run(slot, inputs[..|inputs| - 1], limit, check), slot, inputs[|inputs| - 1], limit, check)
  }

  lemma StepRests(o: Option<Station>, slot: nat, i: Input, limit: nat, check: Check)
    requires o.Some? ==> Rests(o.value)
    ensures var r := Step(o, slot, i, limit, check); r.Some? ==> Rests(r.value)
    ensures var r := Step(o, slot, i, limit, check); r.Some? && r.value.state == AUTHENTICATED ==>
      o.Some? && (o.value.state == AUTHENTICATED || (i.Radius? && Grants(o.value, i.resp, check)))
  {
    if o.Some? {
      match i
      case Eapol(f, e) => EapolRests(o.value, slot, f, e);
      case Radius(resp) => RadiusRests(o.value, resp, limit, check);
      case Tick => TickRests(o.value, slot);
      case _ =>
    }
  }

  /** Over every run the station rests in one of five states with its countdown running. */
  lemma {:induction false} RunRests(slot: nat, inputs: seq<Input>, limit: nat, check: Check)
    ensures var r := Run(slot, inputs, limit, check); r.Some? ==> Rests(r.value)
  {
    if inputs != [] {
      RunRests(slot, inputs[..|inputs| - 1], limit, check);
      StepRests(Run(slot, inputs[..|inputs| - 1], limit, check), slot, inputs[|inputs| - 1], limit, check);
    }
  }

  /** The k-th event of the run granted access, and the station has been authenticated since. */
  ghost predicate GrantedAt(slot: nat, inputs: seq<Input>, limit: nat, check: Check, k: nat)
  {
    && k < |inputs| && inputs[k].Radius?
    && Run(slot, inputs[..k], limit, check).Some?
    && Grants(Run(slot, inputs[..k], limit, check).value, inputs[k].resp, check)
    && forall j :: k < j <= |inputs| ==> StateAfter(slot, inputs, limit, check, j) == Some(AUTHENTICATED)
  }

  function StateAfter(slot: nat, inputs: seq<Input>, limit: nat, check: Check, j: nat): (st: Option<PaeState>)
    requires j <= |inputs|
  {
    var r := Run(slot, inputs[..j], limit, check);
    if r.Some? then Some(r.value.state) else None
  }

  /** Whoever is authenticated was let in by a signed Access-Accept that answered the outstanding request and found
      the success flag set; nothing else has happened to the station's state since. */
  lemma {:induction false} AuthenticatedWasGranted(slot: nat, inputs: seq<Input>, limit: nat, check: Check) returns (k: nat)
    requires var r := Run(slot, inputs, limit, check); r.Some? && r.value.state == AUTHENTICATED
    ensures GrantedAt(slot, inputs, limit, check, k)
  {
    hide Grants, Rests, Step;
    var n := |inputs| - 1;
    var before, i := inputs[..n], inputs[n];
    var o := Run(slot, before, limit, check);
    RunRests(slot, before, limit, check);
    StepRests(o, slot, i, limit, check);
    assert inputs[..n + 1] == inputs;
    if o.value.state == AUTHENTICATED {
      k := AuthenticatedWasGranted(slot, before, limit, check);
      GrantLasts(slot, before, inputs, limit, check, k);
    } else {
      k := n;
    }
  }

  lemma GrantLasts(slot: nat, before: seq<Input>, inputs: seq<Input>, limit: nat, check: Check, k: nat)
    requires GrantedAt(slot, before, limit, check, k)
    requires |inputs| == |before| + 1 && before == inputs[..|before|]
    requires StateAfter(slot, inputs, limit, check, |inputs|) == Some(AUTHENTICATED)
    ensures GrantedAt(slot, inputs, limit, check, k)
  {
    hide Grants, Run;
    assert before[..k] == inputs[..k];
    forall j | k < j <= |inputs|
      ensures StateAfter(slot, inputs, limit, check, j) == Some(AUTHENTICATED)
    {
      if j < |inputs| {
        assert before[..j] == inputs[..j];
        assert StateAfter(slot, before, limit, check, j) == Some(AUTHENTICATED);
      }
    }
  }

  datatype Message = Sent(q: Request) | Consumed(q: Request) | Silent

  /** Whether a frame makes the authenticator forward a request. */
  predicate Forwards(s: Station, f: Frame)
  {
    && s.state != HELD && !IsWpaKey(s, f) && (f.preauth || !ChecksPsk(s.mode))
    && f.kind == EapPacket && f.length >= EAP_HEADER_LEN + 1
    && (f.eap.typ == EAP_IDENTITY ==>
          f.eap.id == s.id && f.eap.code == EAP_RESPONSE && s.state != AUTHENTICATING && f.eap.length <= Received(f))
  }

  /** What an event exchanges with the authentication server. */
  function MessageOf(o: Option<Station>, slot: nat, i: Input): (m: Message)
  {
    if o.None? then Silent
    else if i.Eapol? && Forwards(o.value, i.f) && i.e.sent then Sent(Request(slot, i.e.vector))
    else if i.Radius? && o.value.request.Some? && o.value.request.value.id == i.resp.id then Consumed(o.value.request.value)
    else Silent
  }

  /** The messages of a run. */
  function Messages(slot: nat, inputs: seq<Input>, limit: nat, check: Check): (t: seq<Message>)
    ensures |t| == |inputs|
  {
    if inputs == [] then []
    else
      var before := inputs[..|inputs| - 1];
      Messages(slot, before, limit, check) + [MessageOf(Run(slot, before, limit, check), slot, inputs[|inputs| - 1])]
  }

  /** The message before position j is the sending of q. */
  ghost predicate LastSent(t: seq<Message>, j: nat, q: Request, k: nat)
  {
    k < j <= |t| && t[k] == Sent(q) && forall m :: k < m < j ==> t[m] == Silent
  }

  /** Every reply consumes the request sent last, with nothing in between. */
  ghost predicate Paired(t: seq<Message>)
  {
    forall j :: 0 <= j < |t| && t[j].Consumed? ==> exists k :: LastSent(t, j, t[j].q, k)
  }

  /** What a step does to the outstanding request. */
  lemma RequestStep(o: Option<Station>, slot: nat, i: Input, limit: nat, check: Check)
    ensures var r, m := Step(o, slot, i, limit, check), MessageOf(o, slot, i);
      r.Some? && r.value.request.Some? ==>
        m == Sent(r.value.request.value) || (m == Silent && o.Some? && o.value.request == r.value.request)
    ensures var m := MessageOf(o, slot, i); m.Consumed? ==> o.Some? && o.value.request == Some(m.q)
  {
  }

  lemma {:induction false} RunPaired(slot: nat, inputs: seq<Input>, limit: nat, check: Check)
    ensures Paired(Messages(slot, inputs, limit, check))
    ensures var r := Run(slot, inputs, limit, check); r.Some? && r.value.request.Some? ==>
      exists k :: LastSent(Messages(slot, inputs, limit, check), |inputs|, r.value.request.value, k)
  {
    if inputs != [] {
      var before, i := inputs[..|inputs| - 1], inputs[|inputs| - 1];
      RunPaired(slot, before, limit, check);
      var o := Run(slot, before, limit, check);
      RequestStep(o, slot, i, limit, check);
      Extend(Messages(slot, before, limit, check), MessageOf(o, slot, i), if o.Some? then o.value.request else None,
             Messages(slot, inputs, limit, check));
      var r := Run(slot, inputs, limit, check);
      if r.Some? && r.value.request.Some? && MessageOf(o, slot, i).Sent? {
        assert LastSent(Messages(slot, inputs, limit, check), |inputs|, r.value.request.value, |inputs| - 1);
      }
    }
  }

  lemma Extend(t: seq<Message>, m: Message, q: Option<Request>, u: seq<Message>)
    requires Paired(t) && (q.Some? ==> exists k :: LastSent(t, |t|, q.value, k))
    requires (m.Consumed? ==> q == Some(m.q)) && u == t + [m]
    ensures Paired(u)
    ensures q.Some? && m == Silent ==> exists k :: LastSent(u, |u|, q.value, k)
  {
    forall j | 0 <= j < |u| && u[j].Consumed?
      ensures exists k :: LastSent(u, j, u[j].q, k)
    {
      var k :| LastSent(t, j, u[j].q, k);
      assert LastSent(u, j, u[j].q, k);
    }
    if q.Some? && m == Silent {
      var k :| LastSent(t, |t|, q.value, k);
      assert LastSent(u, |u|, q.value, k);
    }
  }

  /** Over every run each sending is consumed at most once. */
  lemma SendingConsumedOnce(slot: nat, inputs: seq<Input>, limit: nat, check: Check, j: nat, l: nat, k: nat)
    requires j < |inputs| && l < |inputs|
    requires var t := Messages(slot, inputs, limit, check);
      t[j].Consumed? && t[l].Consumed? && LastSent(t, j, t[j].q, k) && LastSent(t, l, t[l].q, k)
    ensures j == l
  {
    hide Messages;
  }

  /** And every consumed reply has its own sending: the positions of the sendings are ordered like the replies. */
  lemma ConsumedInOrder(slot: nat, inputs: seq<Input>, limit: nat, check: Check, j: nat, l: nat) returns (k: nat, k': nat)
    requires j < l < |inputs|
    requires Messages(slot, inputs, limit, check)[j].Consumed? && Messages(slot, inputs, limit, check)[l].Consumed?
    ensures var t := Messages(slot, inputs, limit, check);
      LastSent(t, j, t[j].q, k) && LastSent(t, l, t[l].q, k') && k < j < k' < l
  {
    hide Messages;
    var t := Messages(slot, inputs, limit, check);
    RunPaired(slot, inputs, limit, check);
    k :| LastSent(t, j, t[j].q, k);
    k' :| LastSent(t, l, t[l].q, k');
  }

  /** The station after a run of events that neither enter nor toss it. */
  function Later(s: Station, slot: nat, inputs: seq<Input>, limit: nat, check: Check): (r: Option<Station>)
  {
    if inputs == [] then Some(s)
    else Step(Later(s, slot, inputs[..|inputs| - 1], limit, check), slot, inputs[|inputs| - 1], limit, check)
  }

  function Ticks(inputs: seq<Input>): (n: nat)
  {
    if inputs == [] then 0 else Ticks(inputs[..|inputs| - 1]) + (if inputs[|inputs| - 1].Tick? then 1 else 0)
  }

  /** A held station ignores every frame and reply until its quiet period has run out. */
  lemma {:induction false} HeldHolds(s: Station, slot: nat, inputs: seq<Input>, limit: nat, check: Check)
    requires Rests(s) && s.state == HELD && Ticks(inputs) < s.quietWhile
    requires forall i :: 0 <= i < |inputs| ==> inputs[i].Eapol? || inputs[i].Radius? || inputs[i].Tick?
    ensures Later(s, slot, inputs, limit, check) == Some(s.(quietWhile := s.quietWhile - Ticks(inputs)))
  {
    if inputs != [] {
      var before, i := inputs[..|inputs| - 1], inputs[|inputs| - 1];
      HeldHolds(s, slot, before, limit, check);
      var t := s.(quietWhile := s.quietWhile - Ticks(before));
      if i.Tick? { TickRests(t, slot); }
      if i.Radius? { RadiusRests(t, i.resp, limit, check); }
      if i.Eapol? { EapolRests(t, slot, i.f, i.e); }
    }
  }

  // The success flag.

  /** What a reply says, whatever the station. */
  function Reading(q: Request, resp: Response, check: Check): (g: Found)
  {
    Contents(Fresh({}), q, resp, check)
  }

  /** The first EAP message of a reply, read before any error, is a success. */
  predicate CarriesSuccess(q: Request, resp: Response, check: Check)
  {
    var g := Reading(q, resp, check);
    g.eap.Some? && g.eap.value.code == EAP_SUCCESS
  }

  /** The same findings for two stations; the flag of the first is set if it was or a success was read. */
  ghost predicate SameFindings(g: Found, h: Found, was: bool)
  {
    && g.authenticated == h.authenticated && g.eap == h.eap && g.parts == h.parts && g.recvKey == h.recvKey && g.error == h.error
    && (g.s.eapSuccess <==> was || (g.eap.Some? && g.eap.value.code == EAP_SUCCESS))
  }

  lemma {:induction false} SameReading(g: Found, h: Found, was: bool, k: nat, q: Request, resp: Response, check: Check)
    requires SameFindings(g, h, was)
    ensures SameFindings(ReadAll(g, k, q, resp, check), ReadAll(h, k, q, resp, check), was)
    decreases |resp.attributes| - k
  {
    if !g.error && k < |resp.attributes| {
      SameReading(Read(g, k, q, resp, check), Read(h, k, q, resp, check), was, k + 1, q, resp, check);
    }
  }

  /** An Access-Accept lets the station in exactly if it is signed and either the flag was set before it came or it
      carries an EAP-Success itself. */
  lemma AcceptsExactly(s: Station, resp: Response, check: Check)
    ensures Accepts(s, resp, check) <==>
      && Answers(s, resp) && resp.code == RADIUS_ACCESS_ACCEPT
      && Passes(Reading(s.request.value, resp, check), resp.code)
      && (s.eapSuccess || CarriesSuccess(s.request.value, resp, check))
  {
    hide ReadAll;
    if Answers(s, resp) {
      SameReading(Begin(s), Begin(Fresh({})), s.eapSuccess, 0, s.request.value, resp, check);
    }
  }

  /** The flag is set by a reply exactly if the reply answers the request and carries a success; whether it is signed
      plays no part. */
  lemma FlagAfterReply(s: Station, resp: Response, limit: nat, check: Check)
    ensures OnRadius(s, resp, limit, check).eapSuccess <==>
      s.eapSuccess || (Answers(s, resp) && CarriesSuccess(s.request.value, resp, check))
  {
    hide ReadAll;
    if Answers(s, resp) {
      SameReading(Begin(s), Begin(Fresh({})), s.eapSuccess, 0, s.request.value, resp, check);
    }
  }

  /** Every reply that lets a station in carries an EAP-Success under its own signature exactly if the flag was clear
      when the reply came. */
  lemma SuccessIsSigned(s: Station)
    requires s.request.Some?
    ensures (forall resp: Response, check: Check :: Accepts(s, resp, check) ==> CarriesSuccess(s.request.value, resp, check))
      <==> !s.eapSuccess
  {
    hide Accepts, CarriesSuccess;
    if s.eapSuccess {
      BareAccept(s);
    } else {
      forall resp: Response, check: Check | Accepts(s, resp, check)
        ensures CarriesSuccess(s.request.value, resp, check)
      {
        AcceptsExactly(s, resp, check);
      }
    }
  }

  /** With the flag set, a signed Access-Accept without any EAP message lets the station in. */
  lemma BareAccept(s: Station)
    requires s.request.Some? && s.eapSuccess
    ensures var resp, check := Bare(s.request.value.id), (q, r, k) => true;
      Accepts(s, resp, check) && !CarriesSuccess(s.request.value, resp, check)
  {
    hide ReadAll;
    var resp: Response, check: Check := Bare(s.request.value.id), (q, r, k) => true;
    OnlySigned(Begin(s), s.request.value, resp, check);
    OnlySigned(Begin(Fresh({})), s.request.value, resp, check);
  }

  function Bare(id: nat): (resp: Response)
  {
    Response(RADIUS_ACCESS_ACCEPT, id, [Authenticator(16)], [])
  }

  lemma OnlySigned(g: Found, q: Request, resp: Response, check: Check)
    requires resp.attributes == [Authenticator(16)] && check(q, resp, 0) && !g.error
    ensures ReadAll(g, 0, q, resp, check) == g.(authenticated := true)
  {
    var h := Read(g, 0, q, resp, check);
    assert ReadAll(g, 0, q, resp, check) == ReadAll(h, 1, q, resp, check) == h;
  }

  predicate FlagAfter(slot: nat, inputs: seq<Input>, limit: nat, check: Check, j: nat)
    requires j <= |inputs|
  {
    var r := Run(slot, inputs[..j], limit, check);
    r.Some? && r.value.eapSuccess
  }

  /** A reply that sets the flag. */
  predicate Marks(o: Option<Station>, i: Input, check: Check)
  {
    && o.Some? && i.Radius? && !o.value.eapSuccess && Answers(o.value, i.resp)
    && CarriesSuccess(o.value.request.value, i.resp, check)
  }

  /** The flag was set by the j-th event of the run and has been set since. */
  ghost predicate OriginAt(slot: nat, inputs: seq<Input>, limit: nat, check: Check, j: nat)
  {
    && j < |inputs| && Marks(Run(slot, inputs[..j], limit, check), inputs[j], check)
    && forall m :: j < m <= |inputs| ==> FlagAfter(slot, inputs, limit, check, m)
  }

  lemma FlagStep(o: Option<Station>, slot: nat, i: Input, limit: nat, check: Check)
    requires Step(o, slot, i, limit, check).Some? && Step(o, slot, i, limit, check).value.eapSuccess
    ensures o.Some? && (o.value.eapSuccess || Marks(o, i, check))
  {
    hide OnRadius, CarriesSuccess;
    if o.Some? && i.Radius? { FlagAfterReply(o.value, i.resp, limit, check); }
  }

  /** A set flag was set by one reply to an outstanding request that carried an EAP-Success. */
  lemma {:induction false} FlagHasOrigin(slot: nat, inputs: seq<Input>, limit: nat, check: Check) returns (j: nat)
    requires FlagAfter(slot, inputs, limit, check, |inputs|)
    ensures OriginAt(slot, inputs, limit, check, j)
  {
    hide Step, Marks;
    assert inputs[..|inputs|] == inputs;
    var n := |inputs| - 1;
    var before := inputs[..n];
    var o := Run(slot, before, limit, check);
    FlagStep(o, slot, inputs[n], limit, check);
    assert before[..n] == before;
    if o.value.eapSuccess {
      j := FlagHasOrigin(slot, before, limit, check);
      assert before[..j] == inputs[..j];
      forall m | j < m <= |inputs|
        ensures FlagAfter(slot, inputs, limit, check, m)
      {
        if m <= n {
          assert before[..m] == inputs[..m];
          assert FlagAfter(slot, before, limit, check, m);
        }
      }
    } else {
      j := n;
    }
  }

  /** And by only one. */
  lemma OriginUnique(slot: nat, inputs: seq<Input>, limit: nat, check: Check, j: nat, j': nat)
    requires OriginAt(slot, inputs, limit, check, j) && OriginAt(slot, inputs, limit, check, j')
    ensures j == j'
  {
    hide Run, CarriesSuccess;
    assert j < j' ==> FlagAfter(slot, inputs, limit, check, j');
    assert j' < j ==> FlagAfter(slot, inputs, limit, check, j);
  }

  /** Whoever is authenticated was let in by a reply k that used a success carried by a reply j. It is the signed
      reply's own success exactly if the flag was clear before that reply. */
  lemma AuthenticatedHasOrigin(slot: nat, inputs: seq<Input>, limit: nat, check: Check) returns (k: nat, j: nat)
    requires var r := Run(slot, inputs, limit, check); r.Some? && r.value.state == AUTHENTICATED
    ensures GrantedAt(slot, inputs, limit, check, k)
    ensures j <= k && OriginAt(slot, inputs[..k + 1], limit, check, j)
    ensures j == k <==> !FlagAfter(slot, inputs, limit, check, k)
  {
    hide Run, Signed, CarriesSuccess;
    k := AuthenticatedWasGranted(slot, inputs, limit, check);
    var whole := inputs[..k + 1];
    assert whole[..k + 1] == whole && whole[..k] == inputs[..k];
    GrantKeepsFlag(slot, inputs[..k], whole, limit, check);
    j := FlagHasOrigin(slot, whole, limit, check);
    if j < k {
      assert FlagAfter(slot, whole, limit, check, k);
    } else {
      assert Marks(Run(slot, whole[..k], limit, check), whole[k], check);
    }
  }

  lemma GrantKeepsFlag(slot: nat, before: seq<Input>, inputs: seq<Input>, limit: nat, check: Check)
    requires |inputs| == |before| + 1 && before == inputs[..|before|] && inputs[|before|].Radius?
    requires Run(slot, before, limit, check).Some?
    requires Grants(Run(slot, before, limit, check).value, inputs[|before|].resp, check)
    ensures FlagAfter(slot, inputs, limit, check, |inputs|)
  {
    hide ReadAll, Signed, CarriesSuccess;
    var s, resp := Run(slot, before, limit, check).value, inputs[|before|].resp;
    assert inputs[..|inputs|] == inputs;
    SameReading(Begin(s), Begin(Fresh({})), s.eapSuccess, 0, s.request.value, resp, check);
    FlagAfterReply(s, resp, limit, check);
    SuccessRead(s, resp, check);
  }

  lemma SuccessRead(s: Station, resp: Response, check: Check)
    requires Answers(s, resp) && Contents(s, s.request.value, resp, check).s.eapSuccess
    ensures s.eapSuccess || CarriesSuccess(s.request.value, resp, check)
  {
    hide ReadAll;
    SameReading(Begin(s), Begin(Fresh({})), s.eapSuccess, 0, s.request.value, resp, check);
  }

  /** A response to the identity request, and any other response. */
  function EapAnswer(typ: nat): (f: Frame)
  {
    Frame(EapPacket, false, EAP_HEADER_LEN + 1, Eap(typ, 0, EAP_RESPONSE, EAP_HEADER_LEN + 1, []))
  }

  /** A run in which the flag is left by an unsigned reply and used by a signed one without EAP message. */
  function LeftOverRun(slot: nat, e: Surroundings): (inputs: seq<Input>)
  {
    [ Enter({RADIUS}),
      Eapol(EapAnswer(EAP_IDENTITY), e),
      Radius(Response(RADIUS_ACCESS_CHALLENGE, slot, [EapMessage(EapHead(EAP_SUCCESS, 0), [])], [])),
      Eapol(EapAnswer(EAP_IDENTITY + 1), e),
      Radius(Bare(slot)) ]
  }

  lemma RunSnoc(slot: nat, before: seq<Input>, i: Input, limit: nat, check: Check)
    ensures Run(slot, before + [i], limit, check) == Step(Run(slot, before, limit, check), slot, i, limit, check)
  {
    assert (before + [i])[..|before|] == before;
  }

  /** The station of that run is authenticated although no reply was both signed and carried a success. */
  lemma LeftOverSuccess(slot: nat, e: Surroundings, limit: nat)
    requires e.sent
    ensures var check: Check, inputs := (q, r, k) => true, LeftOverRun(slot, e);
      var r := Run(slot, inputs, limit, check);
      r.Some? && r.value.state == AUTHENTICATED &&
      forall j :: 0 <= j < |inputs| && inputs[j].Radius? ==>
        forall q: Request :: !(Signed(q, inputs[j].resp, check) && CarriesSuccess(q, inputs[j].resp, check))
  {
    hide Run, ReadAll, Signed;
    var check: Check, inputs := (q, r, k) => true, LeftOverRun(slot, e);
    var s0 := Fresh({RADIUS});
    RunSnoc(slot, [], inputs[0], limit, check);
    assert [] + [inputs[0]] == inputs[..1];
    RunSnoc(slot, inputs[..1], inputs[1], limit, check);
    assert inputs[..1] + [inputs[1]] == inputs[..2];
    var s2 := OnEapol(s0, slot, inputs[1].f, e);
    RunSnoc(slot, inputs[..2], inputs[2], limit, check);
    assert inputs[..2] + [inputs[2]] == inputs[..3];
    var s3 := OnRadius(s2, inputs[2].resp, limit, check);
    UnsignedSuccess(s2, inputs[2].resp, limit, check);
    RunSnoc(slot, inputs[..3], inputs[3], limit, check);
    assert inputs[..3] + [inputs[3]] == inputs[..4];
    var s4 := OnEapol(s3, slot, inputs[3].f, e);
    RunSnoc(slot, inputs[..4], inputs[4], limit, check);
    assert inputs[..4] + [inputs[4]] == inputs;
    AcceptedBare(s4, slot, limit, check);
    forall j, q: Request | 0 <= j < |inputs| && inputs[j].Radius?
      ensures !(Signed(q, inputs[j].resp, check) && CarriesSuccess(q, inputs[j].resp, check))
    {
      if j == 2 { NotSigned(q, inputs[2].resp, check); }
      if j == 4 { OnlySigned(Begin(Fresh({})), q, inputs[4].resp, check); }
    }
  }

  lemma NotSigned(q: Request, resp: Response, check: Check)
    requires forall a :: a in resp.attributes ==> !a.Authenticator?
    ensures !Signed(q, resp, check)
  {
    forall k | 0 <= k < |resp.attributes|
      ensures !SignedAt(k, q, resp, check)
    {
      assert resp.attributes[k] in resp.attributes;
    }
  }

  /** An unsigned success sets the flag and does nothing else but consume the request. */
  lemma UnsignedSuccess(s: Station, resp: Response, limit: nat, check: Check)
    requires Answers(s, resp) && resp.code == RADIUS_ACCESS_CHALLENGE && resp.attributes == [EapMessage(EapHead(EAP_SUCCESS, 0), [])]
    ensures OnRadius(s, resp, limit, check) == s.(eapSuccess := true, request := None)
  {
    var q := s.request.value;
    var h := Read(Begin(s), 0, q, resp, check);
    assert ReadAll(Begin(s), 0, q, resp, check) == ReadAll(h, 1, q, resp, check) == h;
  }

  lemma AcceptedBare(s: Station, slot: nat, limit: nat, check: Check)
    requires Answers(s, Bare(slot)) && s.eapSuccess && check(s.request.value, Bare(slot), 0)
    ensures OnRadius(s, Bare(slot), limit, check).state == AUTHENTICATED
  {
    hide ReadAll;
    OnlySigned(Begin(s), s.request.value, Bare(slot), check);
  }

  // What the station is sent.

  /** The EAP messages among the attributes from position k. */
  function EapValues(a: seq<Attribute>, k: nat): (v: seq<Bytes>)
    decreases |a| - k
  {
    if k >= |a| then [] else (if a[k].EapMessage? then [a[k].value] else []) + EapValues(a, k + 1)
  }

  function FirstParts(v: seq<Bytes>): (p: seq<Bytes>)
  {
    if |v| < RADIUS_MAX_ATTRIBUTES then v else v[..RADIUS_MAX_ATTRIBUTES - 1]
  }

  lemma {:induction false} PartsGathered(g: Found, k: nat, q: Request, resp: Response, check: Check)
    requires |g.parts| < RADIUS_MAX_ATTRIBUTES && !ReadAll(g, k, q, resp, check).error
    ensures ReadAll(g, k, q, resp, check).parts == FirstParts(g.parts + EapValues(resp.attributes, k))
    decreases |resp.attributes| - k
  {
    var v := EapValues(resp.attributes, k);
    if k < |resp.attributes| {
      var h := Read(g, k, q, resp, check);
      PartsGathered(h, k + 1, q, resp, check);
      if resp.attributes[k].EapMessage? {
        assert g.parts + v == (g.parts + [resp.attributes[k].value]) + EapValues(resp.attributes, k + 1);
      }
    }
  }

  /** A relayed message is the server's whole message exactly if it comes in at most fifteen attributes; the rest is
      dropped. */
  lemma RelayedWhole(s: Station, q: Request, resp: Response, check: Check)
    requires !Contents(s, q, resp, check).error
    ensures Contents(s, q, resp, check).parts <= EapValues(resp.attributes, 0)
    ensures Contents(s, q, resp, check).parts == EapValues(resp.attributes, 0) <==> |EapValues(resp.attributes, 0)| <= 15
  {
    hide ReadAll;
    PartsGathered(Begin(s), 0, q, resp, check);
    assert [] + EapValues(resp.attributes, 0) == EapValues(resp.attributes, 0);
  }

  /** What an event sends. */
  function SentBy(o: Option<Station>, i: Input, check: Check): (out: seq<Output>)
  {
    if o.None? then []
    else
      match i
      case Eapol(f, _) => SentOnEapol(o.value, f)
      case Radius(resp) => SentOnRadius(o.value, resp, check)
      case Tick => SentOnTick(o.value)
      case _ => []
  }

  /** What was sent for the station since it was entered. */
  function Log(slot: nat, inputs: seq<Input>, limit: nat, check: Check): (out: seq<Output>)
  {
    if inputs == [] then []
    else
      var before, i := inputs[..|inputs| - 1], inputs[|inputs| - 1];
      if i.Enter? then [] else Log(slot, before, limit, check) + SentBy(Run(slot, before, limit, check), i, check)
  }

  predicate SendsSuccess(out: seq<Output>) { exists c :: c in out && c.Canned? && c.code == EAP_SUCCESS }

  /** The station is told of success exactly when it is let in. */
  lemma SuccessAnnounced(o: Option<Station>, i: Input, check: Check)
    ensures SendsSuccess(SentBy(o, i, check)) <==> o.Some? && i.Radius? && Accepts(o.value, i.resp, check)
  {
    hide ReadAll;
    if o.Some? && i.Radius? && Accepts(o.value, i.resp, check) {
      var g := Contents(o.value, o.value.request.value, i.resp, check);
      var c := Can(Renumbered(g), EAP_SUCCESS, 0);
      assert Verdict(Renumbered(g), i.resp.code) == [c];
      assert c in SentBy(o, i, check);
    }
  }

  /** A failure frame, then the order to close the port. */
  predicate FailsAndCloses(out: seq<Output>)
  {
    && |out| >= 2 && out[|out| - 1] == Deauthorize
    && out[|out| - 2].Canned? && out[|out| - 2].code == EAP_FAILURE
  }

  /** A station that becomes held has just been told of failure, and its port is closed. */
  lemma HeldAnnounced(o: Option<Station>, slot: nat, i: Input, limit: nat, check: Check)
    requires o.Some? && Rests(o.value) && o.value.state != HELD
    requires Step(o, slot, i, limit, check).Some? && Step(o, slot, i, limit, check).value.state == HELD
    ensures FailsAndCloses(SentBy(o, i, check))
  {
    hide ReadAll;
    if i.Radius? && Answers(o.value, i.resp) {
      KeptByReading(Begin(o.value), 0, o.value.request.value, i.resp, check);
    }
  }

  lemma {:induction false} LastIdAppend(a: seq<Output>, b: seq<Output>)
    ensures LastId(a + b) == if LastId(b).Some? then LastId(b) else LastId(a)
  {
    if b == [] {
      assert a + b == a;
    } else {
      assert (a + b)[..|a + b| - 1] == a + b[..|b| - 1];
      LastIdAppend(a, b[..|b| - 1]);
    }
  }

  /** A station that is left connecting was connecting already and keeps its identifier, or is sent the new one. */
  ghost predicate AskedOrKept(o: Station, r: Station, out: seq<Output>)
  {
    r.state == CONNECTING ==>
      LastId(out) == Some(r.id % 256) || (LastId(out) == None && o.state == CONNECTING && r.id == o.id)
  }

  lemma ConnectingEapol(s: Station, slot: nat, f: Frame, e: Surroundings)
    requires Rests(s)
    ensures AskedOrKept(s, OnEapol(s, slot, f, e), SentOnEapol(s, f))
  {
    hide OnEap, Entered, Restarted, LoggedOff, IsWpaKey, Announced;
    if s.state != HELD { EapRests(Tagged(s, f), slot, f, e); }
    StartsConnecting(Restarted(Tagged(s, f)), CONNECTING);
    StartsConnecting(LoggedOff(Tagged(s, f)), DISCONNECTED);
  }

  lemma ConnectingTick(s: Station, slot: nat)
    requires Rests(s)
    ensures AskedOrKept(s, OnTick(s, slot), SentOnTick(s))
  {
    hide OnEapol, SentOnEapol;
    ConnectingEapol(s.(ssnto := 0), slot, IDENTITY_REQUEST, NOTHING);
  }

  lemma ConnectingRadius(s: Station, resp: Response, limit: nat, check: Check)
    requires Rests(s)
    ensures AskedOrKept(s, OnRadius(s, resp, limit, check), SentOnRadius(s, resp, check))
  {
    hide ReadAll;
    if Answers(s, resp) {
      KeptByReading(Begin(s), 0, s.request.value, resp, check);
    }
  }

  lemma ConnectingStep(o: Option<Station>, slot: nat, i: Input, limit: nat, check: Check)
    requires o.Some? && Rests(o.value) && !i.Enter? && Step(o, slot, i, limit, check).Some?
    ensures AskedOrKept(o.value, Step(o, slot, i, limit, check).value, SentBy(o, i, check))
  {
    hide OnEapol, SentOnEapol, OnTick, SentOnTick, OnRadius, SentOnRadius, Rests;
    match i
    case Eapol(f, e) => ConnectingEapol(o.value, slot, f, e);
    case Radius(resp) => ConnectingRadius(o.value, resp, limit, check);
    case Tick => ConnectingTick(o.value, slot);
    case _ =>
  }

  /** Over every run, the last frame a connecting station was sent carries the identifier it has to answer. */
  lemma {:induction false} RunAsked(slot: nat, inputs: seq<Input>, limit: nat, check: Check)
    ensures var r := Run(slot, inputs, limit, check);
      r.Some? && r.value.state == CONNECTING ==> LastId(Log(slot, inputs, limit, check)) == Some(r.value.id % 256)
  {
    hide Step, SentBy, Rests;
    if inputs != [] {
      var before, i := inputs[..|inputs| - 1], inputs[|inputs| - 1];
      RunAsked(slot, before, limit, check);
      RunRests(slot, before, limit, check);
      var o, r := Run(slot, before, limit, check), Run(slot, inputs, limit, check);
      if r.Some? && r.value.state == CONNECTING {
        StepConnecting(o, slot, i, limit, check);
        ConnectingStep(o, slot, i, limit, check);
        LastIdAppend(Log(slot, before, limit, check), SentBy(o, i, check));
      }
    }
  }

  lemma StepConnecting(o: Option<Station>, slot: nat, i: Input, limit: nat, check: Check)
    requires Step(o, slot, i, limit, check).Some? && Step(o, slot, i, limit, check).value.state == CONNECTING
    ensures o.Some? && !i.Enter?
  {
  }

  /** A well-formed identity response. */
  predicate IdentityResponse(f: Frame)
  {
    && f.kind == EapPacket && f.length >= EAP_HEADER_LEN + 1 && f.eap.typ == EAP_IDENTITY && f.eap.code == EAP_RESPONSE
    && f.eap.length <= Received(f)
  }

  /** A connecting station that echoes the identifier of the last frame it was sent is taken on exactly if the
      station's identifier still fits the byte the frame has for it. */
  lemma EchoTakenOn(slot: nat, inputs: seq<Input>, limit: nat, check: Check, f: Frame, e: Surroundings)
    requires Run(slot, inputs, limit, check).Some? && Run(slot, inputs, limit, check).value.state == CONNECTING
    requires IdentityResponse(f) && Some(f.eap.id) == LastId(Log(slot, inputs, limit, check))
    requires !Ignored(Run(slot, inputs, limit, check).value, f)
    ensures OnEapol(Run(slot, inputs, limit, check).value, slot, f, e).state == AUTHENTICATING
      <==> 0 <= Run(slot, inputs, limit, check).value.id < 256
  {
    hide Run, Log, OnEapol, LastId, IdentityResponse, Ignored;
    RunAsked(slot, inputs, limit, check);
    Echo(Run(slot, inputs, limit, check).value, slot, f, e);
  }

  lemma Echo(s: Station, slot: nat, f: Frame, e: Surroundings)
    requires s.state == CONNECTING && IdentityResponse(f) && f.eap.id == s.id % 256 && !Ignored(s, f)
    ensures OnEapol(s, slot, f, e).state == AUTHENTICATING <==> 0 <= s.id < 256
  {
  }

  /** n seconds. */
  function Seconds(n: nat): (inputs: seq<Input>)
  {
    seq(n, _ => Tick)
  }

  lemma {:induction false} LaterAdd(s: Station, slot: nat, m: nat, n: nat, limit: nat, check: Check)
    requires Later(s, slot, Seconds(m), limit, check).Some?
    ensures Later(s, slot, Seconds(m + n), limit, check)
         == Later(Later(s, slot, Seconds(m), limit, check).value, slot, Seconds(n), limit, check)
  {
    if n == 0 {
      assert Seconds(m + n) == Seconds(m);
    } else {
      LaterAdd(s, slot, m, n - 1, limit, check);
      assert Seconds(m + n)[..m + n - 1] == Seconds(m + (n - 1)) && Seconds(n)[..n - 1] == Seconds(n - 1);
    }
  }

  lemma {:induction false} Waits(s: Station, slot: nat, n: nat, limit: nat, check: Check)
    requires s.state == CONNECTING && n < s.txWhen
    ensures Later(s, slot, Seconds(n), limit, check) == Some(s.(txWhen := s.txWhen - n))
  {
    if n > 0 {
      Waits(s, slot, n - 1, limit, check);
      assert Seconds(n)[..n - 1] == Seconds(n - 1);
    }
  }

  /** A silent station is asked again when its period is over. */
  lemma AskedAgain(s: Station, slot: nat, limit: nat, check: Check)
    requires s.state == CONNECTING && s.txWhen >= 1
    ensures Later(s, slot, Seconds(s.txWhen), limit, check)
         == Some(Entered(s.(txWhen := 0), if s.rxauths > STA_REAUTH_MAX then DISCONNECTED else CONNECTING))
  {
    Waits(s, slot, s.txWhen - 1, limit, check);
    assert Seconds(s.txWhen)[..s.txWhen - 1] == Seconds(s.txWhen - 1);
  }

  /** After at most four periods of silence it is given up and asked under the next identifier. */
  lemma {:induction false} GivenUp(s: Station, slot: nat, limit: nat, check: Check) returns (n: nat)
    requires s.state == CONNECTING && 1 <= s.txWhen && s.rxauths < 0xffff
    ensures var r := Later(s, slot, Seconds(n), limit, check);
      r.Some? && r.value.state == CONNECTING && r.value.txWhen >= 1 && r.value.rxauths == 1 && r.value.id == s.id + 1
    decreases if s.rxauths > STA_REAUTH_MAX then 0 else 1 + STA_REAUTH_MAX - s.rxauths
  {
    hide Later;
    AskedAgain(s, slot, limit, check);
    n := s.txWhen;
    if s.rxauths <= STA_REAUTH_MAX {
      var k := GivenUp(Entered(s.(txWhen := 0), CONNECTING), slot, limit, check);
      LaterAdd(s, slot, n, k, limit, check);
      n := n + k;
    }
  }

  /** So the identifier of a silent station passes every bound. */
  lemma {:induction false} IdGrows(s: Station, slot: nat, k: nat, limit: nat, check: Check) returns (n: nat)
    requires s.state == CONNECTING && 1 <= s.txWhen && s.rxauths < 0xffff
    ensures var r := Later(s, slot, Seconds(n), limit, check);
      r.Some? && r.value.state == CONNECTING && r.value.txWhen >= 1 && r.value.rxauths < 0xffff && r.value.id == s.id + k
  {
    if k == 0 {
      n := 0;
      assert Seconds(0) == [];
    } else {
      hide Later;
      var m := IdGrows(s, slot, k - 1, limit, check);
      var t := Later(s, slot, Seconds(m), limit, check).value;
      var l := GivenUp(t, slot, limit, check);
      LaterAdd(s, slot, m, l, limit, check);
      n := m + l;
    }
  }
}
