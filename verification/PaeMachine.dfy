/** The 802.1X authenticator of one station: nas.c's pae_state and eapol_dispatch_ex, the watchdog's work on one
    station, and nas_radius.c's radius_forward and radius_dispatch. Each event is a function on the station's
    fields, which the methods of class Pae carry out in place, and a list of what it sends; the clock, the driver,
    the radio and the authentication server are inputs. */
module PaeMachine {
  import opened Options

  datatype PaeState = INITIALIZE | DISCONNECTED | CONNECTING | AUTHENTICATING | ABORTING | HELD | AUTHENTICATED

  datatype ModeBit = WPA | WPA_PSK | WPA2 | WPA2_PSK | RADIUS
  type Mode = set<ModeBit>

  type Bytes = seq<bv8>

  /** An Access-Request: its identifier is the station's slot number; its authenticator is random. */
  datatype Request = Request(id: nat, vector: Bytes)

  datatype Station = Station(
    state: PaeState, id: int, username: Bytes, serverState: Bytes, request: Option<Request>,
    eapSuccess: bool, ssnto: nat, rxauths: nat, txWhen: nat, authWhile: nat, quietWhile: nat,
    preAuth: bool, mode: Mode)

  const STA_REAUTH_MAX := 2
  const STA_TXPERIOD_MAX := 30
  const STA_AUTHWHILE_MAX := 60
  const STA_QUIETWHILE_MAX := 60

  const EAP_HEADER_LEN := 4
  const EAP_REQUEST := 1
  const EAP_RESPONSE := 2
  const EAP_SUCCESS := 3
  const EAP_FAILURE := 4
  const EAP_IDENTITY := 1
  const RADIUS_ACCESS_ACCEPT := 2
  const RADIUS_ACCESS_REJECT := 3
  const RADIUS_ACCESS_CHALLENGE := 11
  const RADIUS_MAX_ATTRIBUTES := 16

  /** The entry lookup_sta makes: all fields cleared. */
  function Fresh(mode: Mode): (s: Station)
  {
    Station(INITIALIZE, 0, [], [], None, false, 0, 0, 0, 0, 0, false, mode)
  }

  /** pae_state: entering a state. DISCONNECTED falls through to CONNECTING. */
  function Entered(s: Station, st: PaeState): (r: Station)
  {
    match st
    case AUTHENTICATED => s.(state := AUTHENTICATED, id := s.id + 1, rxauths := 0)
    case HELD => s.(state := HELD, id := s.id + 1, quietWhile := STA_QUIETWHILE_MAX)
    case ABORTING => s.(state := ABORTING, username := [], serverState := [], request := None, id := s.id + 1)
    case DISCONNECTED => Connecting(s.(id := s.id + 1, rxauths := 0))
    case CONNECTING => Connecting(s)
    case AUTHENTICATING => s.(state := AUTHENTICATING, authWhile := STA_AUTHWHILE_MAX)
    case INITIALIZE => s.(state := INITIALIZE)
  }

  function Connecting(s: Station): (r: Station)
  {
    s.(state := CONNECTING, eapSuccess := false, ssnto := 0, rxauths := (s.rxauths + 1) % 0x1_0000,
       txWhen := STA_TXPERIOD_MAX)
  }

  /** What an event sends: a canned EAP frame or a relayed one to the station, an order to close its port to the
      driver. The identifier takes one byte in a frame. */
  datatype Output =
    | Canned(code: nat, typ: nat, id: int, preAuth: bool)
    | Relayed(id: int, parts: seq<Bytes>, preAuth: bool)
    | Deauthorize

  /** eapol_canned */
  function Can(s: Station, code: nat, typ: nat): (o: Output)
  {
    Canned(code, typ, s.id % 256, s.preAuth)
  }

  /** The frames sent on entering a state. */
  function Announced(s: Station, st: PaeState): (o: seq<Output>)
  {
    match st
    case AUTHENTICATED => [Can(s, EAP_SUCCESS, 0)]
    case HELD => [Can(s, EAP_FAILURE, 0)]
    case DISCONNECTED => [Can(s, EAP_FAILURE, 0), Can(s.(id := s.id + 1), EAP_REQUEST, EAP_IDENTITY)]
    case CONNECTING => [Can(s, EAP_REQUEST, EAP_IDENTITY)]
    case _ => []
  }

  datatype Eap = Eap(typ: nat, id: int, code: nat, length: nat, data: Bytes)
  datatype Kind = EapPacket | Start | Logoff | Key(isWpa: bool) | Asf | Unknown
  datatype Frame = Frame(kind: Kind, preauth: bool, length: nat, eap: Eap)

  /** What the surroundings do during one event: the random authenticator, whether the request could be sent,
      whether the WPA code gives the station up, whether the driver refuses its key. */
  datatype Surroundings = Surroundings(vector: Bytes, sent: bool, wpaFails: bool, keyFails: bool)

  /** radius_forward: a new request replaces the outstanding one, which is gone even if sending fails. */
  function Forwarded(s: Station, slot: nat, e: Surroundings): (r: Station)
  {
    s.(serverState := [], request := if e.sent then Some(Request(slot, e.vector)) else None)
  }

  /** The octets received after the Ethernet and EAPOL headers. */
  function Received(f: Frame): (n: nat)
  {
    EAP_HEADER_LEN + 1 + |f.eap.data|
  }

  /** An EAP packet: an identity response starts the authentication, anything else is passed on. */
  function OnEap(s: Station, slot: nat, f: Frame, e: Surroundings): (r: Station)
  {
    if f.length < EAP_HEADER_LEN + 1 then s
    else if f.eap.typ != EAP_IDENTITY then Forwarded(s, slot, e)
    else if f.eap.id != s.id || f.eap.code != EAP_RESPONSE then s
    else if s.state == AUTHENTICATING then s
    else if f.eap.length > Received(f) then s
    else
      var named := if f.eap.length > EAP_HEADER_LEN + 1 then s.(username := f.eap.data[..f.eap.length - EAP_HEADER_LEN - 1]) else s;
      Forwarded(Entered(named, AUTHENTICATING), slot, e)
  }

  /** A start frame resets the identifier and aborts a running authentication. */
  function Restarted(s: Station): (r: Station)
  {
    var t := s.(id := 0);
    if t.state == AUTHENTICATING then Entered(t, ABORTING) else t
  }

  /** A logoff aborts whatever is going on, unless nothing is. */
  function LoggedOff(s: Station): (r: Station)
  {
    if s.state == CONNECTING || s.state == AUTHENTICATED then s else Entered(s, ABORTING)
  }

  predicate ChecksNas(mode: Mode) { WPA in mode || WPA_PSK in mode || WPA2 in mode || WPA2_PSK in mode }
  predicate ChecksPsk(mode: Mode) { WPA_PSK in mode || WPA2_PSK in mode }
  predicate ChecksWpa(mode: Mode) { WPA in mode || WPA2 in mode }

  /** A frame for the WPA code, which does not touch the authenticator's fields. */
  predicate IsWpaKey(s: Station, f: Frame)
  {
    !f.preauth && f.kind == Key(true) && ChecksNas(s.mode) && (s.state == AUTHENTICATED || s.state == INITIALIZE)
  }

  /** Frames that are not for the authenticator. */
  predicate Ignored(s: Station, f: Frame)
  {
    s.state == HELD || IsWpaKey(s, f) || (!f.preauth && ChecksPsk(s.mode))
  }

  /** The frame's way of arrival is remembered. */
  function Tagged(s: Station, f: Frame): (r: Station)
  {
    if f.preauth then s.(preAuth := true, mode := {WPA2}) else s.(preAuth := false)
  }

  /** eapol_dispatch_ex on a station that was found or entered. */
  function OnEapol(s: Station, slot: nat, f: Frame, e: Surroundings): (r: Station)
  {
    if Ignored(s, f) then s
    else
      var t := Tagged(s, f);
      match f.kind
      case EapPacket => OnEap(t, slot, f, e)
      case Start => Entered(Restarted(t), CONNECTING)
      case Logoff => Entered(LoggedOff(t), DISCONNECTED)
      case Key(_) => t
      case Asf => t
      case Unknown => t
  }

  /** What it sends to the station and the driver. */
  function SentOnEapol(s: Station, f: Frame): (o: seq<Output>)
  {
    if Ignored(s, f) then []
    else
      match f.kind
      case Start => Announced(Restarted(Tagged(s, f)), CONNECTING)
      case Logoff => Announced(LoggedOff(Tagged(s, f)), DISCONNECTED) + [Deauthorize]
      case _ => []
  }

  /** cleanup_sta keeps a WPA2 station with a session timeout, and every station of a WDS link. */
  predicate Kept(s: Station, wds: bool)
  {
    wds || (WPA2 in s.mode && s.state == AUTHENTICATED && s.ssnto > 0)
  }

  /** The frame send_identity_req dispatches to itself. */
  const IDENTITY_REQUEST := Frame(Start, false, 0, Eap(0, 0, 0, 0, []))
  const NOTHING := Surroundings([], false, false, false)

  /** One second of nas_watchdog. */
  function OnTick(s: Station, slot: nat): (r: Station)
  {
    match s.state
    case AUTHENTICATED =>
      if s.ssnto == 0 then s
      else if s.ssnto > 1 then s.(ssnto := s.ssnto - 1)
      else OnEapol(s.(ssnto := 0), slot, IDENTITY_REQUEST, NOTHING)
    case HELD =>
      if s.quietWhile == 0 then s
      else if s.quietWhile > 1 then s.(quietWhile := s.quietWhile - 1)
      else Entered(s.(quietWhile := 0), CONNECTING)
    case CONNECTING =>
      if s.txWhen == 0 then s
      else if s.txWhen > 1 then s.(txWhen := s.txWhen - 1)
      else Entered(s.(txWhen := 0), if s.rxauths > STA_REAUTH_MAX then DISCONNECTED else CONNECTING)
    case AUTHENTICATING =>
      if s.authWhile == 0 then s
      else if s.authWhile > 1 then s.(authWhile := s.authWhile - 1)
      else Entered(Entered(s.(authWhile := 0), ABORTING), CONNECTING)
    case _ => s
  }

  function SentOnTick(s: Station): (o: seq<Output>)
  {
    match s.state
    case AUTHENTICATED => if s.ssnto == 1 then SentOnEapol(s.(ssnto := 0), IDENTITY_REQUEST) else []
    case HELD => if s.quietWhile == 1 then Announced(s, CONNECTING) else []
    case CONNECTING =>
      if s.txWhen == 1 then Announced(s, if s.rxauths > STA_REAUTH_MAX then DISCONNECTED else CONNECTING) else []
    case AUTHENTICATING => if s.authWhile == 1 then Announced(Entered(s, ABORTING), CONNECTING) else []
    case _ => []
  }

  /** An attribute of a reply, as cut out by its length octet; length is that of the value. A vendor attribute may
      be malformed, and it may carry the receive key. */
  datatype Attribute =
    | Authenticator(length: nat)
    | State(value: Bytes)
    | EapMessage(head: EapHead, value: Bytes)
    | Vendor(malformed: bool, recvKey: bool)
    | SessionTimeout(length: nat, seconds: nat)
    | Other

  /** The first two octets of an EAP message. */
  datatype EapHead = EapHead(code: nat, id: int)

  datatype Response = Response(code: nat, id: nat, attributes: seq<Attribute>, seal: Bytes)

  /** Whether the HMAC-MD5 in the attribute at this position of a reply is right for the request it answers. */
  type Check = (Request, Response, nat) -> bool

  /** What the attribute loop has found so far. */
  datatype Found = Found(s: Station, authenticated: bool, eap: Option<EapHead>, parts: seq<Bytes>, recvKey: bool, error: bool)

  /** The attribute at position k. */
  function Read(g: Found, k: nat, q: Request, resp: Response, check: Check): (r: Found)
    requires k < |resp.attributes|
  {
    match resp.attributes[k]
    case Authenticator(length) =>
      if length < 16 then g.(error := true)
      else g.(authenticated := check(q, resp, k), error := !check(q, resp, k))
    case State(value) => g.(s := g.s.(serverState := value))
    case EapMessage(head, value) =>
      var p := if |g.parts| < RADIUS_MAX_ATTRIBUTES - 1 then g.parts + [value] else g.parts;
      if g.eap.Some? then g.(parts := p)
      else g.(parts := p, eap := Some(head), s := g.s.(eapSuccess := g.s.eapSuccess || head.code == EAP_SUCCESS))
    case Vendor(malformed, recvKey) =>
      if malformed then g.(error := true)
      else g.(recvKey := g.recvKey || (recvKey && resp.code == RADIUS_ACCESS_ACCEPT))
    case SessionTimeout(length, seconds) =>
      if resp.code != RADIUS_ACCESS_ACCEPT then g
      else if length < 4 then g.(error := true)
      else g.(s := g.s.(ssnto := seconds))
    case Other => g
  }

  /** The attribute loop from position k: it stops at the first error. */
  function ReadAll(g: Found, k: nat, q: Request, resp: Response, check: Check): (r: Found)
    decreases |resp.attributes| - k
  {
    if g.error || k >= |resp.attributes| then g
    else ReadAll(Read(g, k, q, resp, check), k + 1, q, resp, check)
  }

  predicate KeptBy(s: Station, t: Station)
  {
    && t.state == s.state && t.id == s.id && t.username == s.username && t.request == s.request && t.rxauths == s.rxauths
    && t.txWhen == s.txWhen && t.authWhile == s.authWhile && t.quietWhile == s.quietWhile
    && t.preAuth == s.preAuth && t.mode == s.mode
  }

  /** Reading changes only the server's state, the success flag and the session timeout. */
  lemma {:induction false} KeptByReading(g: Found, k: nat, q: Request, resp: Response, check: Check)
    ensures KeptBy(g.s, ReadAll(g, k, q, resp, check).s)
    decreases |resp.attributes| - k
  {
    if !g.error && k < |resp.attributes| {
      KeptByReading(Read(g, k, q, resp, check), k + 1, q, resp, check);
    }
  }

  lemma NoRelay(s: Station, g: Found, code: nat)
    ensures g.eap.None? ==> RelayedTo(s, g, code) == []
  {
  }

  lemma SameAfter(g: Found, e: Surroundings)
    ensures RefusesKey(Renumbered(g), e) == RefusesKey(g.s, e) && Renumbered(g).eapSuccess == g.s.eapSuccess
  {
  }

  lemma PassesToAccept(g: Found)
    ensures Passes(g, RADIUS_ACCESS_ACCEPT) <==> !g.error && g.authenticated
  {
  }

  lemma SameRefusal(s: Station, t: Station, e: Surroundings)
    requires KeptBy(s, t)
    ensures RefusesKey(s, e) == RefusesKey(t, e)
  {
  }

  function Begin(s: Station): (g: Found)
  {
    Found(s, false, None, [], false, false)
  }

  /** Everything radius_dispatch's attribute loop finds in a reply. */
  function Contents(s: Station, q: Request, resp: Response, check: Check): (g: Found)
  {
    ReadAll(Begin(s), 0, q, resp, check)
  }

  /** The session timeout is capped by the configured one. */
  function Capped(ssnto: nat, limit: nat): (r: nat)
  {
    if ssnto == 0 || ssnto > limit then limit else ssnto
  }

  /** A reply whose attributes are right, and signed unless it is a rejection. */
  predicate Passes(g: Found, code: nat)
  {
    !g.error && (g.authenticated || code == RADIUS_ACCESS_REJECT)
  }

  /** The station takes the identifier of the server's EAP message. */
  function Renumbered(g: Found): (s: Station)
  {
    if g.eap.Some? then g.s.(id := g.eap.value.id) else g.s
  }

  /** A key for a pre-authenticated WPA2 station is only remembered, and so is that it need not be again. */
  predicate KeyForLater(s: Station)
  {
    WPA2 in s.mode && s.preAuth
  }

  /** Whether the WPA code or else the driver refuses the key of an accepted station. */
  predicate RefusesKey(s: Station, e: Surroundings)
  {
    if ChecksWpa(s.mode) then !KeyForLater(s) && e.wpaFails else e.keyFails
  }

  /** What the code of a reply does to the station. */
  function Coded(t: Station, code: nat, recvKey: bool, limit: nat): (r: Station)
  {
    if code == RADIUS_ACCESS_ACCEPT then
      if !t.eapSuccess then Entered(t, HELD)
      else
        var u := Entered(t, AUTHENTICATED);
        u.(ssnto := Capped(u.ssnto, limit), preAuth := u.preAuth && !(recvKey && KeyForLater(u)))
    else if code == RADIUS_ACCESS_REJECT then Entered(t, HELD).(ssnto := 0)
    else t
  }

  /** The state change a reply brings once its attributes are read. */
  function Replied(g: Found, code: nat, limit: nat): (r: Station)
  {
    if Passes(g, code) then Coded(Renumbered(g), code, g.recvKey, limit) else g.s
  }

  /** A reply that is looked at: it carries the identifier of the outstanding request. */
  predicate Answers(s: Station, resp: Response)
  {
    s.request.Some? && s.request.value.id == resp.id
  }

  /** radius_dispatch on a used slot: a matching reply consumes the request whatever it says. */
  function OnRadius(s: Station, resp: Response, limit: nat, check: Check): (r: Station)
  {
    if !Answers(s, resp) then s
    else Replied(Contents(s, s.request.value, resp, check), resp.code, limit).(request := None)
  }

  /** The server's EAP message goes to the station, except a success or failure that the authenticator announces
      itself. */
  function RelayedTo(s: Station, g: Found, code: nat): (o: seq<Output>)
  {
    if g.eap.None? || (g.eap.value.code == EAP_SUCCESS && code == RADIUS_ACCESS_ACCEPT)
       || (g.eap.value.code == EAP_FAILURE && code == RADIUS_ACCESS_REJECT) then []
    else [Relayed(g.eap.value.id, g.parts, s.preAuth)]
  }

  /** What the code of a reply makes the authenticator send. */
  function Verdict(t: Station, code: nat): (o: seq<Output>)
  {
    if code == RADIUS_ACCESS_ACCEPT && t.eapSuccess then Announced(t, AUTHENTICATED)
    else if code == RADIUS_ACCESS_ACCEPT || code == RADIUS_ACCESS_REJECT then Announced(t, HELD) + [Deauthorize]
    else []
  }

  /** What a reply makes the authenticator send once its attributes are read. */
  function Reported(g: Found, code: nat): (o: seq<Output>)
  {
    if Passes(g, code) then RelayedTo(g.s, g, code) + Verdict(Renumbered(g), code) else []
  }

  function SentOnRadius(s: Station, resp: Response, check: Check): (o: seq<Output>)
  {
    if Answers(s, resp) then Reported(Contents(s, s.request.value, resp, check), resp.code) else []
  }

  /** A reply that lets the station in. */
  predicate Accepts(s: Station, resp: Response, check: Check)
  {
    && Answers(s, resp) && resp.code == RADIUS_ACCESS_ACCEPT
    && var g := Contents(s, s.request.value, resp, check);
       !g.error && g.authenticated && g.s.eapSuccess
  }

  /** And brings a key that is refused. */
  predicate KeyRefused(s: Station, resp: Response, check: Check, e: Surroundings)
  {
    Accepts(s, resp, check) && Contents(s, s.request.value, resp, check).recvKey && RefusesKey(s, e)
  }

  /** The authenticator's fields of one pool entry, changed in place. */
  class Pae {
    var state: PaeState
    var id: int
    var username: Bytes
    var serverState: Bytes
    var request: Option<Request>
    var eapSuccess: bool
    var ssnto: nat
    var rxauths: nat
    var txWhen: nat
    var authWhile: nat
    var quietWhile: nat
    var preAuth: bool
    var mode: Mode
    ghost var sent: seq<Output>

    function View(): (s: Station)
      reads this
    {
      Station(state, id, username, serverState, request, eapSuccess, ssnto, rxauths, txWhen, authWhile, quietWhile,
              preAuth, mode)
    }

    constructor ()
      ensures View() == Fresh({}) && sent == []
    {
      sent := [];
      state, id, username, serverState, request, eapSuccess := INITIALIZE, 0, [], [], None, false;
      ssnto, rxauths, txWhen, authWhile, quietWhile, preAuth, mode := 0, 0, 0, 0, 0, false, {};
    }

    method ClearTimers(m: Mode)
      modifies this`eapSuccess, this`ssnto, this`rxauths, this`txWhen, this`authWhile, this`quietWhile, this`preAuth, this`mode
      ensures !eapSuccess && ssnto == rxauths == txWhen == authWhile == quietWhile == 0 && !preAuth && mode == m
    {
      eapSuccess, ssnto, rxauths, txWhen, authWhile, quietWhile, preAuth, mode := false, 0, 0, 0, 0, 0, false, m;
    }

    /** The memset of lookup_sta, and the initial mode. */
    method Clear(m: Mode)
      modifies this
      ensures View() == Fresh(m) && sent == []
    {
      ClearTimers(m);
      state, id, username, serverState, request := INITIALIZE, 0, [], [], None;
      sent := [];
    }

    /** pae_state */
    method Become(st: PaeState)
      modifies this
      ensures View() == Entered(old(View()), st)
      ensures sent == old(sent) + Announced(old(View()), st)
    {
      state := st;
      match st {
        case AUTHENTICATED =>
          SendCanned(EAP_SUCCESS, 0);
          id := id + 1;
          rxauths := 0;
        case HELD =>
          SendCanned(EAP_FAILURE, 0);
          id := id + 1;
          quietWhile := STA_QUIETWHILE_MAX;
        case ABORTING =>
          username := [];
          serverState := [];
          request := None;
          id := id + 1;
        case DISCONNECTED =>
          SendCanned(EAP_FAILURE, 0);
          id := id + 1;
          rxauths := 0;
          Connect();
        case CONNECTING =>
          Connect();
        case AUTHENTICATING =>
          authWhile := STA_AUTHWHILE_MAX;
        case INITIALIZE =>
      }
    }

    /** eapol_canned */
    method SendCanned(code: nat, typ: nat)
      modifies this`sent
      ensures sent == old(sent) + [Can(old(View()), code, typ)]
    {
      sent := sent + [Canned(code, typ, id % 256, preAuth)];
    }

    /** nas_deauthorize */
    method CallDeauthorize()
      modifies this`sent
      ensures sent == old(sent) + [Deauthorize]
    {
      sent := sent + [Deauthorize];
    }

    /** The CONNECTING case, which DISCONNECTED falls into. */
    method Connect()
      modifies this
      ensures View() == Connecting(old(View())) && sent == old(sent) + [Can(old(View()), EAP_REQUEST, EAP_IDENTITY)]
    {
      state := CONNECTING;
      eapSuccess := false;
      ssnto := 0;
      SendCanned(EAP_REQUEST, EAP_IDENTITY);
      rxauths := (rxauths + 1) % 0x1_0000;
      txWhen := STA_TXPERIOD_MAX;
    }

    /** radius_forward */
    method Forward(slot: nat, e: Surroundings)
      modifies this
      ensures View() == Forwarded(old(View()), slot, e) && sent == old(sent)
    {
      if serverState != [] { serverState := []; }
      request := if e.sent then Some(Request(slot, e.vector)) else None;
    }

    method EapReceived(slot: nat, f: Frame, e: Surroundings)
      modifies this
      ensures View() == OnEap(old(View()), slot, f, e) && sent == old(sent)
    {
      if f.length < EAP_HEADER_LEN + 1 { return; }
      if f.eap.typ == EAP_IDENTITY {
        if f.eap.id != id || f.eap.code != EAP_RESPONSE { return; }
        if state == AUTHENTICATING { return; }
        if f.eap.length > Received(f) { return; }
        if f.eap.length > EAP_HEADER_LEN + 1 {
          username := f.eap.data[..f.eap.length - EAP_HEADER_LEN - 1];
        }
        Become(AUTHENTICATING);
      }
      Forward(slot, e);
    }

    method StartReceived()
      modifies this
      ensures View() == Entered(Restarted(old(View())), CONNECTING)
      ensures sent == old(sent) + Announced(Restarted(old(View())), CONNECTING)
    {
      id := 0;
      if state == AUTHENTICATING { Become(ABORTING); }
      Become(CONNECTING);
    }

    method LogoffReceived()
      modifies this
      ensures View() == Entered(LoggedOff(old(View())), DISCONNECTED)
      ensures sent == old(sent) + Announced(LoggedOff(old(View())), DISCONNECTED) + [Deauthorize]
    {
      if state != CONNECTING && state != AUTHENTICATED { Become(ABORTING); }
      Become(DISCONNECTED);
      CallDeauthorize();
    }

    /** eapol_dispatch_ex after the station has been looked up. The result tells whether the station is to be
        cleaned up because the WPA code failed. */
    method EapolReceived(slot: nat, f: Frame, e: Surroundings) returns (cleanup: bool)
      modifies this
      ensures View() == OnEapol(old(View()), slot, f, e)
      ensures sent == old(sent) + SentOnEapol(old(View()), f)
      ensures cleanup <==> old(state) != HELD && IsWpaKey(old(View()), f) && e.wpaFails
    {
      hide OnEap, Entered, Announced, Restarted, LoggedOff, Kept;
      cleanup := false;
      if state == HELD { return; }
      if !f.preauth {
        if f.kind == Key(true) {
          if ChecksNas(mode) && (state == AUTHENTICATED || state == INITIALIZE) {
            return e.wpaFails;
          }
        }
        if ChecksPsk(mode) { return; }
        preAuth := false;
      } else {
        preAuth := true;
        mode := {WPA2};
      }
      match f.kind {
        case EapPacket =>
          EapReceived(slot, f, e);
        case Start =>
          StartReceived();
        case Logoff =>
          LogoffReceived();
        case Key(_) =>
        case Asf =>
        case Unknown =>
      }
    }

    /** The watchdog's work on one station. */
    method Second(slot: nat)
      modifies this
      ensures View() == OnTick(old(View()), slot)
      ensures sent == old(sent) + SentOnTick(old(View()))
    {
      match state {
        case AUTHENTICATED =>
          if ssnto == 0 { return; }
          ssnto := ssnto - 1;
          if ssnto != 0 { return; }
          var _ := EapolReceived(slot, IDENTITY_REQUEST, NOTHING);
        case HELD =>
          if quietWhile != 0 {
            quietWhile := quietWhile - 1;
            if quietWhile == 0 { Become(CONNECTING); }
          }
        case CONNECTING =>
          if txWhen != 0 {
            txWhen := txWhen - 1;
            if txWhen == 0 {
              if rxauths > STA_REAUTH_MAX { Become(DISCONNECTED); } else { Become(CONNECTING); }
            }
          }
        case AUTHENTICATING =>
          if authWhile != 0 {
            authWhile := authWhile - 1;
            if authWhile == 0 {
              Become(ABORTING);
              Become(CONNECTING);
            }
          }
        case _ =>
      }
    }

    /** The attribute loop of radius_dispatch. */
    method ReadAttributes(q: Request, resp: Response, check: Check)
      returns (authenticated: bool, eap: Option<EapHead>, parts: seq<Bytes>, recvKey: bool, error: bool)
      modifies this`serverState, this`eapSuccess, this`ssnto
      ensures Found(View(), authenticated, eap, parts, recvKey, error) == Contents(old(View()), q, resp, check)
    {
      authenticated, eap, parts, recvKey, error := false, None, [], false, false;
      ghost var whole := Contents(View(), q, resp, check);
      var i := 0;
      while i < |resp.attributes| && !error
        invariant 0 <= i <= |resp.attributes|
        invariant ReadAll(Found(View(), authenticated, eap, parts, recvKey, error), i, q, resp, check) == whole
        decreases |resp.attributes| - i
      {
        match resp.attributes[i] {
          case Authenticator(length) =>
            if length < 16 {
              error := true;
            } else {
              authenticated := check(q, resp, i);
              if !authenticated { error := true; }
            }
          case State(value) =>
            serverState := value;
          case EapMessage(head, value) =>
            if eap.None? {
              eap := Some(head);
              if head.code == EAP_SUCCESS { eapSuccess := true; }
            }
            if |parts| < RADIUS_MAX_ATTRIBUTES - 1 { parts := parts + [value]; }
          case Vendor(malformed, key) =>
            if malformed {
              error := true;
            } else if key && resp.code == RADIUS_ACCESS_ACCEPT {
              recvKey := true;
            }
          case SessionTimeout(length, seconds) =>
            if resp.code == RADIUS_ACCESS_ACCEPT {
              if length < 4 { error := true; } else { ssnto := seconds; }
            }
          case Other =>
        }
        i := i + 1;
      }
    }

    /** The relaying of the server's EAP message. */
    method Relay(g: Found, code: nat)
      requires g.eap.Some? && g.s.preAuth == preAuth
      modifies this`sent
      ensures sent == old(sent) + RelayedTo(g.s, g, code)
    {
      if (g.eap.value.code != EAP_SUCCESS || code != RADIUS_ACCESS_ACCEPT) &&
         (g.eap.value.code != EAP_FAILURE || code != RADIUS_ACCESS_REJECT) {
        sent := sent + [Relayed(g.eap.value.id, g.parts, preAuth)];
      }
    }

    /** radius_dispatch on a used slot. The result tells whether the station is to be cleaned up because its key was
        refused. */
    method ReplyReceived(resp: Response, limit: nat, check: Check, e: Surroundings) returns (cleanup: bool)
      modifies this
      ensures View() == OnRadius(old(View()), resp, limit, check)
      ensures sent == old(sent) + SentOnRadius(old(View()), resp, check)
      ensures cleanup <==> old(KeyRefused(View(), resp, check, e))
    {
      hide Replied, Reported, Passes, ReadAll, RefusesKey, KeptBy;
      cleanup := false;
      if request.None? || request.value.id != resp.id { return; }
      var q := request.value;
      KeptByReading(Begin(View()), 0, q, resp, check);
      SameRefusal(View(), Contents(View(), q, resp, check).s, e);
      PassesToAccept(Contents(View(), q, resp, check));
      var authenticated, eap, parts, recvKey, error := ReadAttributes(q, resp, check);
      cleanup := Act(Found(View(), authenticated, eap, parts, recvKey, error), resp.code, limit, e);
      request := None;
    }

    /** What follows the attribute loop. */
    method Act(g: Found, code: nat, limit: nat, e: Surroundings) returns (cleanup: bool)
      requires g.s == View()
      modifies this
      ensures View() == Replied(g, code, limit) && sent == old(sent) + Reported(g, code)
      ensures cleanup <==>
        Passes(g, code) && code == RADIUS_ACCESS_ACCEPT && g.s.eapSuccess && g.recvKey && RefusesKey(g.s, e)
    {
      hide Coded, Verdict, RefusesKey, KeptBy, RelayedTo;
      NoRelay(g.s, g, code);
      SameAfter(g, e);
      if g.error || (!g.authenticated && code != RADIUS_ACCESS_REJECT) { return false; }
      if g.eap.Some? {
        id := g.eap.value.id;
        Relay(g, code);
      }
      cleanup := CodeReceived(code, g.recvKey, limit, e);
    }

    /** The switch on the code of a reply. */
    method CodeReceived(code: nat, recvKey: bool, limit: nat, e: Surroundings) returns (cleanup: bool)
      modifies this
      ensures View() == Coded(old(View()), code, recvKey, limit)
      ensures sent == old(sent) + Verdict(old(View()), code)
      ensures cleanup <==> code == RADIUS_ACCESS_ACCEPT && old(eapSuccess) && recvKey && RefusesKey(old(View()), e)
    {
      cleanup := false;
      if code == RADIUS_ACCESS_ACCEPT {
        if !eapSuccess {
          Become(HELD);
          CallDeauthorize();
        } else {
          Become(AUTHENTICATED);
          if ssnto == 0 || ssnto > limit { ssnto := limit; }
          if recvKey {
            cleanup := TakeKey(e);
          }
        }
      } else if code == RADIUS_ACCESS_REJECT {
        Become(HELD);
        CallDeauthorize();
        ssnto := 0;
      }
    }

    /** The key of an accepted station: fix_wpa, or else the driver. */
    method TakeKey(e: Surroundings) returns (cleanup: bool)
      modifies this`preAuth
      ensures preAuth == (old(preAuth) && !KeyForLater(old(View())))
      ensures cleanup <==> RefusesKey(old(View()), e)
    {
      if ChecksWpa(mode) {
        if WPA2 in mode && preAuth {
          preAuth := false;
          return false;
        }
        return e.wpaFails;
      }
      return e.keyFails;
    }
  }
}
