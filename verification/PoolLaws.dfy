/** What becomes of a station of the pool: when exactly it is lost, and what is left of it otherwise, for the inputs the
    methods of class Nas feed to its slot. */
module PoolLaws {
  import opened Options
  import opened PaeMachine
  import opened PaeRuns
  import opened PaeLaws
  import opened Authenticator

  /** A station that is not given up: of a WDS link, or of WPA2 with a session. */
  predicate Stays(n: Nas, s: Station)
  {
    n.wds || (WPA2 in s.mode && s.state == AUTHENTICATED && s.ssnto > 0)
  }

  /** Giving a station up empties its slot unless it stays; a handshake that timed out ends its session first. */
  lemma LossOutcome(n: Nas, o: Entry, x: int, timedOut: bool)
    requires x >= 0 && o.station.Some?
    ensures var s := if timedOut then o.station.value.(ssnto := 0) else o.station.value;
      MovedBy(o, x, n.GivenUpInputs(o.station, timedOut), n.limit, n.check)
        == Entry(if Stays(n, s) then Some(s) else None, o.sent)
  {
    hide Step;
    NothingMoves(o, x, n.limit, n.check);
    MovedOnce(o, x, Expire, n.limit, n.check);
    MovedOnce(o, x, Toss, n.limit, n.check);
    MovedTwice(o, x, Expire, Toss, n.limit, n.check);
    StepOutside(o.station, x, n);
    StepOutside(Some(o.station.value.(ssnto := 0)), x, n);
    assert o.sent + [] == o.sent;
    assert [Expire] + [Toss] == [Expire, Toss] && [Expire] + [] == [Expire] && [] + [Toss] == [Toss];
  }

  lemma StepOutside(o: Option<Station>, x: nat, n: Nas)
    ensures Step(o, x, Toss, n.limit, n.check) == None
    ensures o.Some? ==> Step(o, x, Expire, n.limit, n.check) == Some(o.value.(ssnto := 0))
    ensures o.Some? ==> forall m: Mode :: Step(o, x, SetMode(m), n.limit, n.check) == Some(o.value.(mode := m))
    ensures forall m: Mode :: Step(o, x, Enter(m), n.limit, n.check) == Some(Fresh(m))
  {
  }

  /** A reply empties the slot exactly if it lets the station in with a key that is refused, and the station has no
      session under WPA2 and is not of a WDS link. */
  lemma ReplyOutcome(n: Nas, o: Entry, x: int, resp: Response, e: Surroundings)
    requires x >= 0 && o.station.Some?
    ensures var s, r := o.station.value, MovedBy(o, x, n.ReplyInputs(o.station, resp, e), n.limit, n.check);
      && (r.station == None <==> KeyRefused(s, resp, n.check, e) && !Stays(n, OnRadius(s, resp, n.limit, n.check)))
      && (r.station != None ==> r.station == Some(OnRadius(s, resp, n.limit, n.check)))
      && r.sent == o.sent + SentOnRadius(s, resp, n.check)
  {
    hide OnRadius, SentOnRadius, KeyRefused;
    MovedOnce(o, x, Radius(resp), n.limit, n.check);
    MovedTwice(o, x, Radius(resp), Toss, n.limit, n.check);
    assert (o.sent + SentOnRadius(o.station.value, resp, n.check)) + [] == o.sent + SentOnRadius(o.station.value, resp, n.check);
  }

  /** A frame empties the slot exactly if it is a key for the WPA code of a station that may have one, the code gives the
      station up, and the station does not stay. */
  lemma FrameOutcome(n: Nas, o: Entry, x: int, f: Frame, e: Surroundings)
    requires x >= 0 && o.station.Some?
    ensures var s, r := o.station.value, MovedBy(o, x, n.FrameInputs(o.station, f, e), n.limit, n.check);
      && (r.station == None <==>
            && !f.preauth && f.kind == Key(true) && (s.state == AUTHENTICATED || s.state == INITIALIZE)
            && (WPA in s.mode || WPA_PSK in s.mode || WPA2 in s.mode || WPA2_PSK in s.mode)
            && e.wpaFails && !Stays(n, s))
      && (r.station != None ==> r.station == Some(OnEapol(s, x, f, e)))
      && r.sent == o.sent + SentOnEapol(s, f)
  {
    hide OnEapol, SentOnEapol;
    MovedOnce(o, x, Eapol(f, e), n.limit, n.check);
    MovedTwice(o, x, Eapol(f, e), Toss, n.limit, n.check);
    assert (o.sent + SentOnEapol(o.station.value, f)) + [] == o.sent + SentOnEapol(o.station.value, f);
  }

  /** An association leaves a station, a new one if there was none, in the mode the WPA code sets. If it is asked, it
      moves as after a start frame; if it is given up, the slot is emptied unless the station stays. */
  lemma AssociationOutcome(n: Nas, o: Entry, x: int, mode: Option<Mode>, outcome: Outcome)
    requires x >= 0
    ensures var known := o.station.Some?;
      var s := if known then o.station.value else Fresh(n.initialMode);
      MovedBy(o, x, n.AssociationInputs(known, o.station, mode, outcome), n.limit, n.check)
        == Judged(n, x, if mode.Some? then s.(mode := mode.value) else s, if known then o.sent else [], outcome)
  {
    hide MovedBy, Step, Nas.JudgedInputs;
    var known := o.station.Some?;
    var s := if known then o.station.value else Fresh(n.initialMode);
    var p := Entry(Some(s), if known then o.sent else []);
    NothingMoves(o, x, n.limit, n.check);
    MovedOnce(o, x, Enter(n.initialMode), n.limit, n.check);
    StepOutside(o.station, x, n);
    MovedInTwo(o, x, n.Entering(known), n.JudgedInputs(Some(s), mode, outcome), n.limit, n.check);
    VerdictOutcome(n, p, x, mode, outcome);
  }

  function Judged(n: Nas, x: int, s: Station, sent: seq<Output>, outcome: Outcome): (r: Entry)
    requires x >= 0
  {
    match outcome
    case Accepted => Entry(Some(s), sent)
    case Asked => Entry(Some(OnEapol(s, x, IDENTITY_REQUEST, NOTHING)), sent + SentOnEapol(s, IDENTITY_REQUEST))
    case GivenUp => Entry(if Stays(n, s) then Some(s) else None, sent)
  }

  lemma VerdictOutcome(n: Nas, o: Entry, x: int, mode: Option<Mode>, outcome: Outcome)
    requires x >= 0 && o.station.Some?
    ensures MovedBy(o, x, n.JudgedInputs(o.station, mode, outcome), n.limit, n.check)
      == Judged(n, x, if mode.Some? then o.station.value.(mode := mode.value) else o.station.value, o.sent, outcome)
  {
    hide MovedBy, Step, Judged, Nas.OutcomeInputs;
    OutcomeAlone(n, o, x, outcome);
    if mode.Some? {
      var s := o.station.value.(mode := mode.value);
      var p := Entry(Some(s), o.sent);
      StepOutside(o.station, x, n);
      MovedOnce(o, x, SetMode(mode.value), n.limit, n.check);
      assert o.sent + [] == o.sent;
      MovedInTwo(o, x, [SetMode(mode.value)], n.OutcomeInputs(Some(s), outcome), n.limit, n.check);
      OutcomeAlone(n, p, x, outcome);
    }
  }

  lemma OutcomeAlone(n: Nas, o: Entry, x: int, outcome: Outcome)
    requires x >= 0 && o.station.Some?
    ensures MovedBy(o, x, n.OutcomeInputs(o.station, outcome), n.limit, n.check) == Judged(n, x, o.station.value, o.sent, outcome)
  {
    hide MovedBy, OnEapol, SentOnEapol;
    NothingMoves(o, x, n.limit, n.check);
    MovedOnce(o, x, Toss, n.limit, n.check);
    MovedOnce(o, x, Eapol(IDENTITY_REQUEST, NOTHING), n.limit, n.check);
    assert o.sent + [] == o.sent;
  }
}
