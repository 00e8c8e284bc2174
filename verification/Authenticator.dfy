/** The 802.1X authenticator over the whole pool: frames go through lookup_sta, replies of the authentication server
    are matched by slot number, and the watchdog visits every chain once a second. Over every run of events each slot
    is a station machine of its own, fed with its share of the events. */
module Authenticator {
  import opened Options
  import opened Stations
  import opened PaeMachine
  import opened PaeRuns

  /** A slot of the pool: its station, if any, and what its last occupant was sent. */
  datatype Entry = Entry(station: Option<Station>, sent: seq<Output>)

  function Moved(o: Entry, slot: nat, i: Input, limit: nat, check: Check): (r: Entry)
  {
    Entry(Step(o.station, slot, i, limit, check), if i.Enter? then [] else o.sent + SentBy(o.station, i, check))
  }

  /** The slot after a run of inputs. */
  function MovedBy(o: Entry, slot: nat, inputs: seq<Input>, limit: nat, check: Check): (r: Entry)
  {
    if inputs == [] then o
    else Moved(MovedBy(o, slot, inputs[..|inputs| - 1], limit, check), slot, inputs[|inputs| - 1], limit, check)
  }

  lemma MovedOnce(o: Entry, slot: nat, i: Input, limit: nat, check: Check)
    ensures MovedBy(o, slot, [i], limit, check) == Moved(o, slot, i, limit, check)
  {
    assert [i][..0] == [];
  }

  lemma MovedTwice(o: Entry, slot: nat, i: Input, j: Input, limit: nat, check: Check)
    ensures MovedBy(o, slot, [i, j], limit, check) == Moved(Moved(o, slot, i, limit, check), slot, j, limit, check)
  {
    assert [i, j][..1] == [i];
    MovedOnce(o, slot, i, limit, check);
  }

  lemma {:induction false} MovedInTwo(o: Entry, slot: nat, a: seq<Input>, b: seq<Input>, limit: nat, check: Check)
    ensures MovedBy(o, slot, a + b, limit, check) == MovedBy(MovedBy(o, slot, a, limit, check), slot, b, limit, check)
  {
    if b == [] {
      assert a + b == a;
    } else {
      MovedInTwo(o, slot, a, b[..|b| - 1], limit, check);
      assert (a + b)[..|a + b| - 1] == a + b[..|b| - 1];
    }
  }

  lemma NothingMoves(o: Entry, slot: nat, limit: nat, check: Check)
    ensures MovedBy(o, slot, [], limit, check) == o
  {
  }

  const UNUSED := Entry(None, [])

  /** From an unused slot this is the station's run and what was sent during it. */
  lemma {:induction false} RunFromUnused(slot: nat, inputs: seq<Input>, limit: nat, check: Check)
    ensures MovedBy(UNUSED, slot, inputs, limit, check)
         == Entry(Run(slot, inputs, limit, check), Log(slot, inputs, limit, check))
  {
    if inputs != [] {
      RunFromUnused(slot, inputs[..|inputs| - 1], limit, check);
    }
  }

  /** What comes of an association: nothing yet, an identity request, or the loss of the station. */
  datatype Outcome = Accepted | Asked | GivenUp

  /** What happens to the pool. */
  datatype Event =
    | FrameFrom(a: EtherAddr, f: Frame, e: Surroundings, now: int)
    | ReplyArrives(resp: Response, ee: Surroundings)
    | SecondPasses(time: int)
    | AssociationFrom(station: EtherAddr, mode: Option<Mode>, outcome: Outcome, when: int)
    | LossOf(lost: EtherAddr, timedOut: bool, at: int)

  /** What an event may mean to slot i. */
  predicate Share(ev: Event, i: int, inputs: seq<Input>)
  {
    match ev
    case FrameFrom(_, f, e, _) => forall k :: 0 <= k < |inputs| ==> inputs[k].Enter? || inputs[k] == Eapol(f, e) || inputs[k].Toss?
    case ReplyArrives(resp, _) =>
      if i == resp.id % POOL then inputs == [Radius(resp)] || inputs == [Radius(resp), Toss] else inputs == []
    case SecondPasses(_) => inputs == [Tick]
    case AssociationFrom(_, _, _, _) => forall k :: 0 <= k < |inputs| ==>
      inputs[k].Enter? || inputs[k].SetMode? || inputs[k] == Eapol(IDENTITY_REQUEST, NOTHING) || inputs[k].Toss?
    case LossOf(_, _, _) => forall k :: 0 <= k < |inputs| ==> inputs[k].Expire? || inputs[k].Toss?
  }

  /** What an event means to the slots: something to one slot at most, except for the passing of a second. */
  ghost predicate Shares(ev: Event, fed: seq<seq<Input>>)
  {
    && |fed| == POOL
    && (forall i :: 0 <= i < POOL ==> Share(ev, i, fed[i]))
    && (!ev.SecondPasses? ==> forall i, j :: 0 <= i < j < POOL ==> fed[i] == [] || fed[j] == [])
  }

  /** One entry for every slot. */
  ghost predicate Wide(fed: seq<seq<seq<Input>>>)
  {
    forall n :: 0 <= n < |fed| ==> |fed[n]| == POOL
  }

  ghost predicate AllShares(events: seq<Event>, fed: seq<seq<seq<Input>>>)
  {
    Wide(fed) && |fed| == |events| && forall n :: 0 <= n < |fed| ==> Shares(events[n], fed[n])
  }

  lemma MoreShares(events: seq<Event>, fed: seq<seq<seq<Input>>>, ev: Event, now: seq<seq<Input>>)
    requires AllShares(events, fed) && Shares(ev, now)
    ensures AllShares(events + [ev], fed + [now])
  {
  }

  /** The inputs of slot i over a run. */
  ghost function History(fed: seq<seq<seq<Input>>>, i: int): (inputs: seq<Input>)
    requires 0 <= i < POOL && Wide(fed)
  {
    if fed == [] then [] else History(fed[..|fed| - 1], i) + fed[|fed| - 1][i]
  }

  function Sender(ev: Event): (a: EtherAddr)
  {
    match ev
    case FrameFrom(a, _, _, _) => a
    case AssociationFrom(a, _, _, _) => a
    case LossOf(a, _, _) => a
    case _ => EtherAddr(0, 0, 0, 0, 0, 0)
  }

  lemma OneShare(ev: Event, x: int, inputs: seq<Input>)
    requires !ev.SecondPasses? && Share(ev, x, inputs) && (ev.ReplyArrives? ==> x == ev.resp.id % POOL)
    ensures Shares(ev, OneSlot(x, inputs))
  {
  }

  lemma TickForAll(ev: Event, fed: seq<seq<Input>>)
    requires ev.SecondPasses? && fed == seq(POOL, _ => [Tick])
    ensures Shares(ev, fed)
  {
  }

  function OneSlot(x: int, inputs: seq<Input>): (fed: seq<seq<Input>>)
    ensures |fed| == POOL
  {
    seq(POOL, i => if i == x then inputs else [])
  }

  class Nas {
    const cache: StationCache
    const pae: seq<Pae>
    const initialMode: Mode           // of a new station
    const limit: nat                  // configured session timeout
    const wds: bool                   // authenticator of a WDS link
    const check: Check

    ghost function Objects(): (r: set<Pae>)
    {
      set p | p in pae
    }

    /** The pool keeps its shape, and every used slot is at rest. */
    ghost predicate Valid()
      reads cache, cache.used, cache.ea, cache.next, cache.hashed, Objects()
    {
      && cache.Valid() && |pae| == POOL
      && (forall i, j :: 0 <= i < j < POOL ==> pae[i] != pae[j])
      && (forall i :: 0 <= i < POOL && cache.used[i] ==> Rests(pae[i].View()))
    }

    ghost function Slot(i: int): (s: Entry)
      requires 0 <= i < |pae| && i < cache.used.Length
      reads cache.used, Objects()
    {
      Entry(if cache.used[i] then Some(pae[i].View()) else None, pae[i].sent)
    }

    /** Slot i one second later. */
    ghost function Ticked(i: int): (s: Entry)
      requires 0 <= i < |pae| && i < cache.used.Length
      reads cache.used, Objects()
    {
      Moved(Slot(i), i, Tick, limit, check)
    }

    constructor (m: Mode, timeout: nat, wdsLink: bool, c: Check)
      ensures Valid() && forall i :: 0 <= i < POOL ==> Slot(i) == UNUSED
    {
      hide Shape, Rests;
      initialMode, limit, wds, check := m, timeout, wdsLink, c;
      cache := new StationCache();
      var entries := NewEntries();
      pae := entries;
    }

    /** cleanup_sta, as far as the pool is concerned. */
    method Cleanup(x: int)
      requires Valid() && 0 <= x < POOL && cache.used[x]
      modifies cache`chains, cache.used, cache.next, cache.hashed
      ensures Valid()
      ensures Slot(x) == if Kept(old(pae[x].View()), wds) then old(Slot(x)) else Moved(old(Slot(x)), x, Toss, limit, check)
      ensures forall i :: 0 <= i < POOL && i != x ==> Slot(i) == old(Slot(i))
    {
      hide Shape, Rests;
      if WPA2 in pae[x].mode && pae[x].state == AUTHENTICATED && pae[x].ssnto > 0 { return; }
      if !wds {
        ghost var us := cache.used[..];
        cache.Toss(x);
        Updated(us, cache.used[..], x, false);
      }
    }

    /** lookup_sta for the authenticator: the slot of the address, which a new address gets an entry in. */
    method Admit(a: EtherAddr, now: int) returns (x: int)
      requires Valid()
      modifies cache`chains, cache.used, cache.ea, cache.lastUse, cache.next, cache.hashed, Objects()
      ensures Valid() && (x == NIL || (0 <= x < POOL && cache.used[x]))
      ensures forall i :: 0 <= i < POOL && i != x ==> Slot(i) == old(Slot(i))
      ensures !old(Known(cache.used[..], cache.ea[..], a)) ==>
        old(Chosen(cache.used[..], cache.lastUse[..], now, x))
      ensures old(Known(cache.used[..], cache.ea[..], a)) ==>
        x != NIL && old(HeldAt(cache.used[..], cache.ea[..], a, x))
      ensures x != NIL ==>
        Slot(x) == MovedBy(old(Slot(x)), x, Entering(old(Known(cache.used[..], cache.ea[..], a))), limit, check)
    {
      hide Rests, Shape, Known, Chosen, HeldAt;
      ghost var us, es := cache.used[..], cache.ea[..];
      var created;
      x, created := cache.Lookup(a, true, now);
      if x == NIL { return; }
      HeldSlot(cache.used[..], cache.ea[..], a, x);
      Updated(us, cache.used[..], x, true);
      if created {
        pae[x].Clear(initialMode);
        FreshRests(initialMode);
      }
    }

    function Entering(known: bool): (inputs: seq<Input>)
    {
      if known then [] else [Enter(initialMode)]
    }

    /** A frame for the station in slot x. */
    method Deliver(x: int, f: Frame, e: Surroundings)
      requires Valid() && 0 <= x < POOL && cache.used[x]
      modifies cache`chains, cache.used, cache.next, cache.hashed, pae[x]
      ensures Valid()
      ensures forall i :: 0 <= i < POOL && i != x ==> Slot(i) == old(Slot(i))
      ensures Slot(x) == MovedBy(old(Slot(x)), x, FrameInputs(old(Slot(x)).station, f, e), limit, check)
    {
      hide OnEapol, SentOnEapol, Rests, Shape, Kept, IsWpaKey, MovedBy;
      ghost var s, o := pae[x].View(), Slot(x);
      EapolRests(s, x, f, e);
      if s.state == HELD || IsWpaKey(s, f) { WpaKeyIgnored(s, x, f, e); }
      MovedOnce(o, x, Eapol(f, e), limit, check);
      MovedTwice(o, x, Eapol(f, e), Toss, limit, check);
      var cleanup := pae[x].EapolReceived(x, f, e);
      if cleanup { Cleanup(x); }
    }

    /** A frame from address a. */
    method EapolDispatch(a: EtherAddr, f: Frame, e: Surroundings, now: int) returns (x: int)
      requires Valid()
      modifies cache`chains, cache.used, cache.ea, cache.lastUse, cache.next, cache.hashed, Objects()
      ensures Valid() && (x == NIL || 0 <= x < POOL)
      ensures forall i :: 0 <= i < POOL && i != x ==> Slot(i) == old(Slot(i))
      ensures !old(Known(cache.used[..], cache.ea[..], a)) ==>
        old(Chosen(cache.used[..], cache.lastUse[..], now, x))
      ensures old(Known(cache.used[..], cache.ea[..], a)) ==>
        x != NIL && old(HeldAt(cache.used[..], cache.ea[..], a, x))
      ensures x != NIL ==> Slot(x) == MovedBy(old(Slot(x)), x,
        DispatchInputs(old(Known(cache.used[..], cache.ea[..], a)), old(Slot(x)).station, f, e), limit, check)
    {
      hide Shape, Rests, Known, Chosen, HeldAt, MovedBy, FrameInputs, Fresh;
      ghost var known := Known(cache.used[..], cache.ea[..], a);
      x := Admit(a, now);
      if x == NIL { return; }
      Deliver(x, f, e);
      ghost var o := old(Slot(x));
      MovedOnce(o, x, Enter(initialMode), limit, check);
      NothingMoves(o, x, limit, check);
      MovedInTwo(o, x, Entering(known), FrameInputs(MovedBy(o, x, Entering(known), limit, check).station, f, e), limit, check);
    }

    /** A frame that may bring a new station. */
    function DispatchInputs(known: bool, o: Option<Station>, f: Frame, e: Surroundings): (inputs: seq<Input>)
    {
      Entering(known) + FrameInputs(if known then o else Some(Fresh(initialMode)), f, e)
    }

    /** The WPA code gives up the station a frame belongs to, and it is not kept. */
    predicate LosesFrame(s: Station, f: Frame, e: Surroundings)
    {
      s.state != HELD && IsWpaKey(s, f) && e.wpaFails && !Kept(s, wds)
    }

    /** What a frame means to the slot of its station: the frame, and possibly the loss of the station. */
    function FrameInputs(o: Option<Station>, f: Frame, e: Surroundings): (inputs: seq<Input>)
    {
      if o.Some? && LosesFrame(o.value, f, e) then [Eapol(f, e), Toss] else [Eapol(f, e)]
    }

    /** What a reply means to its slot: the reply, and the loss of the station if its key is refused and it is not
        kept. */
    function ReplyInputs(o: Option<Station>, resp: Response, e: Surroundings): (inputs: seq<Input>)
    {
      if o.Some? && KeyRefused(o.value, resp, check, e) && !Kept(OnRadius(o.value, resp, limit, check), wds)
      then [Radius(resp), Toss] else [Radius(resp)]
    }

    /** A reply of the authentication server. */
    method RadiusDispatch(resp: Response, e: Surroundings) returns (x: int)
      requires Valid()
      modifies cache`chains, cache.used, cache.next, cache.hashed, Objects()
      ensures Valid() && x == resp.id % POOL
      ensures forall i :: 0 <= i < POOL && i != x ==> Slot(i) == old(Slot(i))
      ensures Slot(x) == MovedBy(old(Slot(x)), x, ReplyInputs(old(Slot(x)).station, resp, e), limit, check)
    {
      hide OnRadius, SentOnRadius, Rests, Shape, Kept, KeyRefused, MovedBy;
      x := resp.id % POOL;
      MovedOnce(Slot(x), x, Radius(resp), limit, check);
      MovedTwice(Slot(x), x, Radius(resp), Toss, limit, check);
      if !cache.used[x] { return; }
      RadiusRests(pae[x].View(), resp, limit, check);
      var cleanup := pae[x].ReplyReceived(resp, limit, check, e);
      if cleanup { Cleanup(x); }
    }

    /** An association from address a, judged by the WPA code: the mode it sets, if any, and whether the station is
        asked for its identity or given up. */
    method Associate(a: EtherAddr, mode: Option<Mode>, outcome: Outcome, now: int) returns (x: int)
      requires Valid()
      modifies cache`chains, cache.used, cache.ea, cache.lastUse, cache.next, cache.hashed, Objects()
      ensures Valid() && (x == NIL || 0 <= x < POOL)
      ensures forall i :: 0 <= i < POOL && i != x ==> Slot(i) == old(Slot(i))
      ensures !old(Known(cache.used[..], cache.ea[..], a)) ==>
        old(Chosen(cache.used[..], cache.lastUse[..], now, x))
      ensures old(Known(cache.used[..], cache.ea[..], a)) ==>
        x != NIL && old(HeldAt(cache.used[..], cache.ea[..], a, x))
      ensures x != NIL ==> Slot(x) == MovedBy(old(Slot(x)), x,
        AssociationInputs(old(Known(cache.used[..], cache.ea[..], a)), old(Slot(x)).station, mode, outcome), limit, check)
    {
      hide Shape, Rests, Known, Chosen, HeldAt, MovedBy, FrameInputs, Fresh, Kept;
      ghost var known := Known(cache.used[..], cache.ea[..], a);
      x := Admit(a, now);
      if x == NIL { return; }
      ghost var o: Entry := old(Slot(x));
      ghost var s := if known then o.station else Some(Fresh(initialMode));
      MovedOnce(o, x, Enter(initialMode), limit, check);
      NothingMoves(o, x, limit, check);
      Judge(x, mode, outcome);
      MovedInTwo(o, x, Entering(known), JudgedInputs(s, mode, outcome), limit, check);
    }

    /** The WPA code's verdict on the station in slot x. */
    method Judge(x: int, mode: Option<Mode>, outcome: Outcome)
      requires Valid() && 0 <= x < POOL && cache.used[x]
      modifies cache`chains, cache.used, cache.next, cache.hashed, pae[x]
      ensures Valid()
      ensures forall i :: 0 <= i < POOL && i != x ==> Slot(i) == old(Slot(i))
      ensures Slot(x) == MovedBy(old(Slot(x)), x, JudgedInputs(old(Slot(x)).station, mode, outcome), limit, check)
    {
      hide Shape, MovedBy, FrameInputs, Kept;
      ghost var o: Entry := Slot(x);
      NothingMoves(o, x, limit, check);
      if mode.Some? {
        MovedOnce(o, x, SetMode(mode.value), limit, check);
        pae[x].mode := mode.value;
      }
      ghost var p: Entry := Slot(x);
      ghost var first := if mode.Some? then [SetMode(mode.value)] else [];
      assert o.sent + [] == o.sent;
      assert p == MovedBy(o, x, first, limit, check);
      NothingMoves(p, x, limit, check);
      MovedOnce(p, x, Toss, limit, check);
      MovedInTwo(o, x, first, OutcomeInputs(p.station, outcome), limit, check);
      assert first + OutcomeInputs(p.station, outcome) == JudgedInputs(o.station, mode, outcome);
      match outcome {
        case Accepted =>
        case Asked => Deliver(x, IDENTITY_REQUEST, NOTHING);
        case GivenUp => Cleanup(x);
      }
    }

    function AssociationInputs(known: bool, o: Option<Station>, mode: Option<Mode>, outcome: Outcome): (inputs: seq<Input>)
    {
      Entering(known) + JudgedInputs(if known then o else Some(Fresh(initialMode)), mode, outcome)
    }

    function JudgedInputs(o: Option<Station>, mode: Option<Mode>, outcome: Outcome): (inputs: seq<Input>)
    {
      if o.None? || mode.None? then OutcomeInputs(o, outcome)
      else [SetMode(mode.value)] + OutcomeInputs(Some(o.value.(mode := mode.value)), outcome)
    }

    function OutcomeInputs(o: Option<Station>, outcome: Outcome): (inputs: seq<Input>)
    {
      match outcome
      case Accepted => []
      case Asked => FrameInputs(o, IDENTITY_REQUEST, NOTHING)
      case GivenUp => if o.Some? && !Kept(o.value, wds) then [Toss] else []
    }

    /** The driver or the WPA code gives up the station with address a; a handshake that timed out first ends its
        session, so that it is not kept. */
    method GiveUp(a: EtherAddr, timedOut: bool, now: int) returns (x: int)
      requires Valid()
      modifies cache`chains, cache.used, cache.ea, cache.lastUse, cache.next, cache.hashed, Objects()
      ensures Valid() && (x == NIL || 0 <= x < POOL)
      ensures forall i :: 0 <= i < POOL && i != x ==> Slot(i) == old(Slot(i))
      ensures x != NIL <==> old(Known(cache.used[..], cache.ea[..], a))
      ensures x != NIL ==> old(HeldAt(cache.used[..], cache.ea[..], a, x))
      ensures x != NIL ==>
        Slot(x) == MovedBy(old(Slot(x)), x, GivenUpInputs(old(Slot(x)).station, timedOut), limit, check)
    {
      hide Shape, Rests, Known, HeldAt, MovedBy, Moved, Nas.GivenUpInputs;
      var created;
      x, created := cache.Lookup(a, false, now);
      if x == NIL { return; }
      HeldSlot(cache.used[..], cache.ea[..], a, x);
      Retire(x, timedOut);
    }

    method Retire(x: int, timedOut: bool)
      requires Valid() && 0 <= x < POOL && cache.used[x]
      modifies cache`chains, cache.used, cache.next, cache.hashed, pae[x]
      ensures Valid()
      ensures forall i :: 0 <= i < POOL && i != x ==> Slot(i) == old(Slot(i))
      ensures Slot(x) == MovedBy(old(Slot(x)), x, GivenUpInputs(old(Slot(x)).station, timedOut), limit, check)
    {
      hide Shape, MovedBy, Kept;
      ghost var o: Entry := Slot(x);
      if timedOut { pae[x].ssnto := 0; }
      ghost var p: Entry := Slot(x);
      ghost var first := if timedOut then [Expire] else [];
      NothingMoves(o, x, limit, check);
      MovedOnce(o, x, Expire, limit, check);
      assert o.sent + [] == o.sent;
      assert p == MovedBy(o, x, first, limit, check);
      NothingMoves(p, x, limit, check);
      MovedOnce(p, x, Toss, limit, check);
      MovedInTwo(o, x, first, if Kept(p.station.value, wds) then [] else [Toss], limit, check);
      Cleanup(x);
    }

    function GivenUpInputs(o: Option<Station>, timedOut: bool): (inputs: seq<Input>)
    {
      if o.None? then []
      else
        var s := if timedOut then o.value.(ssnto := 0) else o.value;
        (if timedOut then [Expire] else []) + (if Kept(s, wds) then [] else [Toss])
    }

    /** The pool without the PAE fields: what a walk over the chains relies on. */
    ghost function Links(): (r: (seq<bool>, seq<EtherAddr>, seq<int>, seq<int>, seq<seq<int>>))
      reads cache, cache.used, cache.ea, cache.next, cache.hashed
    {
      (cache.used[..], cache.ea[..], cache.next[..], cache.hashed[..], cache.chains)
    }

    /** The watchdog on one station. An expired session is turned into a start frame that is dispatched like any
        other, which looks the station up again. */
    method WatchStation(x: int, now: int)
      requires Valid() && 0 <= x < POOL && cache.used[x]
      modifies cache`chains, cache.used, cache.ea, cache.lastUse, cache.next, cache.hashed, pae[x]
      ensures Valid() && Links() == old(Links())
      ensures Slot(x) == old(Ticked(x))
      ensures forall i :: 0 <= i < POOL && i != x ==> Slot(i) == old(Slot(i))
    {
      hide OnTick, Rests, Shape, Known, Chosen, HeldAt;
      TickRests(pae[x].View(), x);
      if pae[x].state == AUTHENTICATED && pae[x].ssnto == 1 {
        SlotKnown(cache.used[..], cache.ea[..], x);
        var found, created := cache.Lookup(cache.ea[x], true, now);
      }
      pae[x].Second(x);
    }

    /** nas_watchdog: every station is visited exactly once, chain by chain. */
    method Watchdog(now: int)
      requires Valid()
      modifies cache`chains, cache.used, cache.ea, cache.lastUse, cache.next, cache.hashed, Objects()
      ensures Valid() && Links() == old(Links())
      ensures forall i :: 0 <= i < POOL ==> Slot(i) == old(Ticked(i))
    {
      var h := 0;
      while h < POOL
        invariant 0 <= h <= POOL && Valid() && Links() == old(Links())
        invariant forall i :: 0 <= i < POOL ==>
          Slot(i) == if cache.used[i] && Hash(cache.ea[i]) < h then old(Ticked(i)) else old(Slot(i))
      {
        WatchChain(h, now);
        h := h + 1;
      }
    }

    /** The stations of one chain. */
    method WatchChain(h: nat, now: int)
      requires Valid() && h < POOL
      modifies cache`chains, cache.used, cache.ea, cache.lastUse, cache.next, cache.hashed, Objects()
      ensures Valid() && Links() == old(Links())
      ensures forall i :: 0 <= i < POOL ==>
        Slot(i) == if cache.used[i] && Hash(cache.ea[i]) == h then old(Ticked(i)) else old(Slot(i))
    {
      hide Step, Shape, Rests, Linked, Distinct, Hash, Nas.Valid, Nas.Slot;
      Sizes();
      ghost var us, es, ns, hs, cs := cache.used[..], cache.ea[..], cache.next[..], cache.hashed[..], cache.chains;
      ChainFacts(us, es, ns, hs, cs, h);
      ghost var c := cs[h];
      LinkHead(hs[h], c, ns);
      var sta := cache.hashed[h];
      ghost var k := 0;
      while sta != NIL
        invariant 0 <= k <= |c| && sta == (if k < |c| then c[k] else NIL)
        invariant Valid() && Links() == (us, es, ns, hs, cs)
        invariant forall i :: 0 <= i < POOL ==>
          Slot(i) == if i in c[..k] then old(Ticked(i)) else old(Slot(i))
        decreases |c| - k
      {
        NextOnChain(c, k);
        LinkStep(hs[h], c, ns, k);
        assert us[sta] && cache.used[sta] == us[sta] && cache.next[sta] == ns[sta];
        WatchStation(sta, now);
        assert cache.next[sta] == ns[sta];
        sta := cache.next[sta];
        k := k + 1;
      }
      assert c[..k] == c;
      forall i | 0 <= i < POOL
        ensures cache.used[i] == us[i] && cache.ea[i] == es[i]
      {
        assert cache.used[..][i] == us[i] && cache.ea[..][i] == es[i];
      }
    }

    lemma FrameShare(ev: Event, i: int, known: bool, o: Option<Station>)
      requires ev.FrameFrom?
      ensures Share(ev, i, DispatchInputs(known, o, ev.f, ev.e))
    {
      hide Nas.LosesFrame, Fresh;
    }

    lemma ReplyShare(ev: Event, i: int, o: Option<Station>)
      requires ev.ReplyArrives? && i == ev.resp.id % POOL
      ensures Share(ev, i, ReplyInputs(o, ev.resp, ev.ee))
    {
      hide KeyRefused, Kept, OnRadius;
    }

    lemma AssociationShare(ev: Event, i: int, known: bool, o: Option<Station>)
      requires ev.AssociationFrom?
      ensures Share(ev, i, AssociationInputs(known, o, ev.mode, ev.outcome))
    {
      hide Nas.LosesFrame, Kept, Fresh;
    }

    lemma LossShare(ev: Event, i: int, o: Option<Station>)
      requires ev.LossOf?
      ensures Share(ev, i, GivenUpInputs(o, ev.timedOut))
    {
      hide Kept;
    }

    lemma NothingShared(ev: Event)
      requires !ev.SecondPasses?
      ensures Share(ev, NIL, [])
    {
    }

    /** An event that is for one slot at most: what it means to that slot. */
    method HandleOne(ev: Event) returns (x: int, ghost inputs: seq<Input>)
      requires Valid() && !ev.SecondPasses?
      modifies cache`chains, cache.used, cache.ea, cache.lastUse, cache.next, cache.hashed, Objects()
      ensures Valid() && (x == NIL || 0 <= x < POOL) && Share(ev, x, inputs)
      ensures forall i :: 0 <= i < POOL && i != x ==> Slot(i) == old(Slot(i))
      ensures x != NIL ==> Slot(x) == MovedBy(old(Slot(x)), x, inputs, limit, check)
      ensures ev.ReplyArrives? ==> x == ev.resp.id % POOL
    {
      hide Shape, Rests, MovedBy, Moved, Known, HeldAt, Chosen, Share;
      hide Nas.DispatchInputs, Nas.ReplyInputs, Nas.AssociationInputs, Nas.GivenUpInputs;
      NothingShared(ev);
      ghost var known := Known(cache.used[..], cache.ea[..], Sender(ev));
      x, inputs := NIL, [];
      match ev {
        case FrameFrom(a, f, e, now) =>
          x := EapolDispatch(a, f, e, now);
          if x != NIL {
            inputs := DispatchInputs(known, old(Slot(x)).station, f, e);
            FrameShare(ev, x, known, old(Slot(x)).station);
          }
        case ReplyArrives(resp, e) =>
          x := RadiusDispatch(resp, e);
          inputs := ReplyInputs(old(Slot(x)).station, resp, e);
          ReplyShare(ev, x, old(Slot(x)).station);
        case AssociationFrom(a, mode, outcome, now) =>
          x := Associate(a, mode, outcome, now);
          if x != NIL {
            inputs := AssociationInputs(known, old(Slot(x)).station, mode, outcome);
            AssociationShare(ev, x, known, old(Slot(x)).station);
          }
        case LossOf(a, timedOut, now) =>
          x := GiveUp(a, timedOut, now);
          if x != NIL {
            inputs := GivenUpInputs(old(Slot(x)).station, timedOut);
            LossShare(ev, x, old(Slot(x)).station);
          }
      }
    }

    /** One event; fed is what it means to each slot. */
    method Handle(ev: Event) returns (ghost fed: seq<seq<Input>>)
      requires Valid()
      modifies cache`chains, cache.used, cache.ea, cache.lastUse, cache.next, cache.hashed, Objects()
      ensures Valid() && |fed| == POOL && Shares(ev, fed)
      ensures forall i :: 0 <= i < POOL ==> Slot(i) == MovedBy(old(Slot(i)), i, fed[i], limit, check)
    {
      hide Shape, Rests, MovedBy, Moved, Share;
      if ev.SecondPasses? {
        Watchdog(ev.time);
        fed := seq(POOL, _ => [Tick]);
        TickForAll(ev, fed);
        forall i | 0 <= i < POOL
          ensures Slot(i) == MovedBy(old(Slot(i)), i, fed[i], limit, check)
        {
          MovedOnce(old(Slot(i)), i, Tick, limit, check);
        }
      } else {
        var x;
        ghost var inputs;
        x, inputs := HandleOne(ev);
        fed := OneSlot(x, inputs);
        OneShare(ev, x, inputs);
        forall i | 0 <= i < POOL
          ensures Slot(i) == MovedBy(old(Slot(i)), i, fed[i], limit, check)
        {
          NothingMoves(old(Slot(i)), i, limit, check);
        }
      }
    }

    /** A whole run from an empty pool: every slot is the station machine run over the inputs it was fed, and has sent
        what that run sends. */
    method Play(events: seq<Event>) returns (ghost fed: seq<seq<seq<Input>>>)
      requires Valid() && forall i :: 0 <= i < POOL ==> Slot(i) == UNUSED
      modifies cache`chains, cache.used, cache.ea, cache.lastUse, cache.next, cache.hashed, Objects()
      ensures Valid() && AllShares(events, fed)
      ensures forall i :: 0 <= i < POOL ==>
        Slot(i) == Entry(Run(i, History(fed, i), limit, check), Log(i, History(fed, i), limit, check))
    {
      hide Shape, Rests, MovedBy, Moved, Shares, Run, Log;
      fed := [];
      var n := 0;
      forall i | 0 <= i < POOL
        ensures Slot(i) == MovedBy(UNUSED, i, History(fed, i), limit, check)
      {
        NothingMoves(UNUSED, i, limit, check);
      }
      while n < |events|
        invariant 0 <= n <= |events| && Valid() && AllShares(events[..n], fed)
        invariant forall i :: 0 <= i < POOL ==> Slot(i) == MovedBy(UNUSED, i, History(fed, i), limit, check)
      {
        ghost var before := fed;
        var now := Handle(events[n]);
        fed := before + [now];
        MoreShares(events[..n], before, events[n], now);
        assert events[..n + 1] == events[..n] + [events[n]];
        forall i | 0 <= i < POOL
          ensures Slot(i) == MovedBy(UNUSED, i, History(fed, i), limit, check)
        {
          assert fed[..n] == before;
          MovedInTwo(UNUSED, i, History(before, i), now[i], limit, check);
        }
        n := n + 1;
      }
      assert events[..n] == events;
      forall i | 0 <= i < POOL
        ensures Slot(i) == Entry(Run(i, History(fed, i), limit, check), Log(i, History(fed, i), limit, check))
      {
        RunFromUnused(i, History(fed, i), limit, check);
      }
    }

    lemma Sizes()
      requires Valid()
      ensures |pae| == POOL && cache.Separate()
      ensures Shape(cache.used[..], cache.ea[..], cache.next[..], cache.hashed[..], cache.chains)
    {
    }
  }

  /** The slots of chain h are the used ones whose address hashes to h; an unused slot is in no chain. */
  lemma ChainFacts(us: seq<bool>, es: seq<EtherAddr>, ns: seq<int>, hs: seq<int>, cs: seq<seq<int>>, h: nat)
    requires Shape(us, es, ns, hs, cs) && h < POOL
    ensures |us| == POOL && |es| == POOL && |ns| == POOL && |hs| == POOL && |cs| == POOL
    ensures Linked(hs[h], cs[h], ns) && Distinct(cs[h])
    ensures forall i :: 0 <= i < POOL ==> (i in cs[h] <==> us[i] && h == Hash(es[i]))
    ensures forall k :: 0 <= k < |cs[h]| ==> 0 <= cs[h][k] < POOL && us[cs[h][k]]
  {
    forall i | 0 <= i < POOL
      ensures i in cs[h] <==> us[i] && h == Hash(es[i])
    {
      OnOneChain(us, es, ns, hs, cs, i);
    }
    forall k | 0 <= k < |cs[h]|
      ensures 0 <= cs[h][k] < POOL && us[cs[h][k]]
    {
      ChainMember(h, cs[h], us, es, k);
    }
  }

  lemma NextOnChain(c: seq<int>, k: nat)
    requires Distinct(c) && k < |c|
    ensures c[k] !in c[..k] && forall i :: i in c[..k + 1] <==> i in c[..k] || i == c[k]
  {
    assert c[..k + 1] == c[..k] + [c[k]];
  }

  lemma SlotKnown(used: seq<bool>, ea: seq<EtherAddr>, x: int)
    requires |used| == |ea| && 0 <= x < |used| && used[x]
    ensures HeldAt(used, ea, ea[x], x) && Known(used, ea, ea[x])
  {
    assert HeldAt(used, ea, ea[x], x);
  }

  method NewEntries() returns (entries: seq<Pae>)
    ensures |entries| == POOL && forall i, j :: 0 <= i < j < POOL ==> entries[i] != entries[j]
    ensures forall p :: p in entries ==> fresh(p) && p.sent == []
  {
    entries := [];
    while |entries| < POOL
      invariant |entries| <= POOL && forall i, j :: 0 <= i < j < |entries| ==> entries[i] != entries[j]
      invariant forall p :: p in entries ==> fresh(p) && p.sent == []
    {
      var p := new Pae();
      entries := entries + [p];
    }
  }

  lemma HeldSlot(used: seq<bool>, ea: seq<EtherAddr>, a: EtherAddr, x: int)
    requires |used| == |ea| && HeldAt(used, ea, a, x)
    ensures 0 <= x < |used| && used[x]
  {
  }

  lemma FreshRests(m: Mode)
    ensures Rests(Fresh(m)) && Fresh(m).state == INITIALIZE
  {
  }

  lemma Updated(us: seq<bool>, us': seq<bool>, x: int, b: bool)
    requires 0 <= x < |us| && (us' == us[x := b] || (us' == us && us[x] == b))
    ensures forall i :: 0 <= i < |us'| && i != x ==> us'[i] == us[i]
    ensures us'[x] == b
  {
  }

  /** A reply in a slot's history is one of the replies that arrived, and carries an identifier of that slot. */
  lemma {:induction false} ReplyFed(events: seq<Event>, fed: seq<seq<seq<Input>>>, i: int, k: nat) returns (n: nat)
    requires AllShares(events, fed) && 0 <= i < POOL
    requires k < |History(fed, i)| && History(fed, i)[k].Radius?
    ensures n < |events| && events[n].ReplyArrives? && events[n].resp == History(fed, i)[k].resp && events[n].resp.id % POOL == i
  {
    var l := |fed| - 1;
    var before := History(fed[..l], i);
    if k < |before| {
      n := ReplyFed(events[..l], fed[..l], i, k);
    } else {
      assert Share(events[l], i, fed[l][i]) && fed[l][i][k - |before|] == History(fed, i)[k];
      n := l;
    }
  }

  /** Over every run of the pool, whoever is authenticated was let in by a signed Access-Accept among the replies that
      arrived for its slot, which answered the slot's outstanding request. */
  lemma PoolGranted(events: seq<Event>, fed: seq<seq<seq<Input>>>, i: int, limit: nat, check: Check) returns (k: nat, n: nat)
    requires AllShares(events, fed) && 0 <= i < POOL
    requires Run(i, History(fed, i), limit, check).Some?
    requires Run(i, History(fed, i), limit, check).value.state == AUTHENTICATED
    ensures GrantedAt(i, History(fed, i), limit, check, k)
    ensures n < |events| && events[n].ReplyArrives? && events[n].resp == History(fed, i)[k].resp && events[n].resp.id % POOL == i
  {
    hide Run, Share;
    k := AuthenticatedWasGranted(i, History(fed, i), limit, check);
    n := ReplyFed(events, fed, i, k);
  }

  function SecondsIn(events: seq<Event>): (n: nat)
  {
    if events == [] then 0
    else SecondsIn(events[..|events| - 1]) + (if events[|events| - 1].SecondPasses? then 1 else 0)
  }

  /** Every slot sees every second exactly once. */
  lemma {:induction false} SecondsFed(events: seq<Event>, fed: seq<seq<seq<Input>>>, i: int)
    requires AllShares(events, fed) && 0 <= i < POOL
    ensures Ticks(History(fed, i)) == SecondsIn(events)
  {
    if fed != [] {
      var l := |fed| - 1;
      SecondsFed(events[..l], fed[..l], i);
      TicksAppend(History(fed[..l], i), fed[l][i]);
      TicksOf(events[l], i, fed[l][i]);
    }
  }

  lemma TicksOf(ev: Event, i: int, inputs: seq<Input>)
    requires Share(ev, i, inputs)
    ensures Ticks(inputs) == if ev.SecondPasses? then 1 else 0
  {
    if ev.SecondPasses? {
      assert [Tick][..0] == [];
    } else {
      NoTicks(inputs);
    }
  }

  lemma {:induction false} NoTicks(inputs: seq<Input>)
    requires forall k :: 0 <= k < |inputs| ==> !inputs[k].Tick?
    ensures Ticks(inputs) == 0
  {
    if inputs != [] { NoTicks(inputs[..|inputs| - 1]); }
  }

  lemma {:induction false} TicksAppend(a: seq<Input>, b: seq<Input>)
    ensures Ticks(a + b) == Ticks(a) + Ticks(b)
  {
    if b == [] {
      assert a + b == a;
    } else {
      assert (a + b)[..|a + b| - 1] == a + b[..|b| - 1];
      TicksAppend(a, b[..|b| - 1]);
    }
  }
}
