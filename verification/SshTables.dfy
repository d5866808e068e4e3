/**
 The SSH session table and the host-capability index of pqcdump (pqcdump/src/ssh.rs). The "client" of
 a session is whichever side's KEXINIT was seen first.
 */
module SshTables {
  import opened Common
  import opened Net
  import opened NameLists
  import SshKexInit

  datatype SshSession = SshSession(client: Option<seq<Name>>, server: Option<seq<Name>>, negotiated: Option<Name>)

  /** The two tables as a value. */
  datatype SshState = SshState(sessions: map<Flow, SshSession>, hostCaps: map<IpAddr, set<Name>>)

  const EMPTY := SshState(map[], map[])

  predicate IsFirstCommonAt(client: seq<Name>, server: seq<Name>, alg: Name, i: nat) {
    i < |client| && client[i] == alg && alg in server && forall j | 0 <= j < i :: client[j] !in server
  }

  /** The first client name that the server also lists (first half of the rule in section 7.1 of RFC 4253). */
  ghost predicate IsFirstCommon(client: seq<Name>, server: seq<Name>, alg: Name) {
    exists i: nat :: IsFirstCommonAt(client, server, alg, i)
  }

  lemma FirstCommonLater(client: seq<Name>, server: seq<Name>, alg: Name)
    requires client != [] && client[0] !in server && IsFirstCommon(client[1..], server, alg)
    ensures IsFirstCommon(client, server, alg)
  {
    var i: nat :| IsFirstCommonAt(client[1..], server, alg, i);
    assert IsFirstCommonAt(client, server, alg, i + 1);
  }

  function Negotiated(client: seq<Name>, server: seq<Name>): (r: Option<Name>)
    ensures r.Some? <==> exists alg | alg in client :: alg in server
    ensures r.Some? ==> IsFirstCommon(client, server, r.value)
  {
    if client == [] then None
    else if client[0] in server then
      assert IsFirstCommonAt(client, server, client[0], 0);
      Some(client[0])
    else
      var r := Negotiated(client[1..], server);
      assert r.Some? ==> IsFirstCommon(client, server, r.value) by {
        if r.Some? {
          FirstCommonLater(client, server, r.value);
        }
      }
      r
  }

  method Negotiate(client: seq<Name>, server: seq<Name>) returns (r: Option<Name>)
    ensures r == Negotiated(client, server)
  {
    for i := 0 to |client|
      invariant Negotiated(client, server) == Negotiated(client[i..], server)
    {
      if client[i] in server {
        return Some(client[i]);
      }
      assert client[i..][1..] == client[i + 1..];
    }
    return None;
  }

  function Names(kex: seq<Name>): set<Name> {
    set name | name in kex
  }

  function CapsOf(caps: map<IpAddr, set<Name>>, host: IpAddr): set<Name> {
    if host in caps then caps[host] else {}
  }

  function WithNegotiated(s: SshSession): SshSession {
    if s.negotiated == None && s.client.Some? && s.server.Some? then
      s.(negotiated := Negotiated(s.client.value, s.server.value))
    else s
  }

  /** What one KEXINIT on a flow does to the tables. */
  function Recorded(t: SshState, flow: Flow, kex: seq<Name>): SshState {
    var forward := flow in t.sessions || Reverse(flow) !in t.sessions;
    var key := if forward then flow else Reverse(flow);
    var s := if key in t.sessions then t.sessions[key] else SshSession(None, None, None);
    var isNew := if forward then s.client == None else s.server == None;
    var s' := if !isNew then s else if forward then s.(client := Some(kex)) else s.(server := Some(kex));
    SshState(t.sessions[key := WithNegotiated(s')],
             if isNew then t.hostCaps[flow.src.ip := CapsOf(t.hostCaps, flow.src.ip) + Names(kex)] else t.hostCaps)
  }

  /** What a payload does to the tables: nothing unless it is a KEXINIT. */
  function Processed(t: SshState, flow: Flow, payload: seq<u8>): SshState {
    match SshKexInit.LenientKex(payload)
    case Some(kex) => Recorded(t, flow, kex)
    case None => t
  }

  class SshTracker {
    var sessions: map<Flow, SshSession>
    var hostCaps: map<IpAddr, set<Name>>

    function Value(): SshState
      reads this
    {
      SshState(sessions, hostCaps)
    }

    constructor ()
      ensures Value() == EMPTY
    {
      sessions, hostCaps := map[], map[];
    }

    method UpdateHostCaps(host: IpAddr, kex: seq<Name>)
      modifies this`hostCaps
      ensures hostCaps == old(hostCaps)[host := CapsOf(old(hostCaps), host) + Names(kex)]
    {
      var supported := if host in hostCaps then hostCaps[host] else {};
      hostCaps := hostCaps[host := supported];
      assert supported == supported + Names(kex[..0]);
      for i := 0 to |kex|
        invariant hostCaps == old(hostCaps)[host := supported + Names(kex[..i])]
      {
        assert supported + Names(kex[..i]) + {kex[i]} == supported + Names(kex[..i + 1]);
        hostCaps := hostCaps[host := hostCaps[host] + {kex[i]}];
      }
      assert kex[..|kex|] == kex;
    }

    method ProcessSsh(flow: Flow, payload: seq<u8>)
      modifies this
      ensures Value() == Processed(old(Value()), flow, payload)
    {
      var parsed := SshKexInit.ParseSshKexinit(payload);
      if parsed == None {
        return;
      }
      var kex := parsed.value;
      var reverseFlow := Flow(flow.dst, flow.src);
      var key, isForward := flow, true;
      if flow !in sessions {
        if reverseFlow in sessions {
          key, isForward := reverseFlow, false;
        } else {
          sessions := sessions[flow := SshSession(None, None, None)];
        }
      }
      var session := sessions[key];
      if isForward && session.client == None {
        UpdateHostCaps(flow.src.ip, kex);
        session := session.(client := Some(kex));
      } else if !isForward && session.server == None {
        UpdateHostCaps(flow.src.ip, kex);
        session := session.(server := Some(kex));
      }
      if session.negotiated == None {
        if session.client.Some? && session.server.Some? {
          var neg := Negotiate(session.client.value, session.server.value);
          if neg.Some? {
            session := session.(negotiated := neg);
          }
        }
      }
      sessions := sessions[key := session];
    }
  }

  // ----- every run -----

  datatype KexEvent = KexEvent(flow: Flow, kex: seq<Name>)

  function Run(events: seq<KexEvent>): SshState {
    if events == [] then EMPTY
    else
      var last := events[|events| - 1];
      Recorded(Run(events[..|events| - 1]), last.flow, last.kex)
  }

  lemma RunSnoc(events: seq<KexEvent>, last: KexEvent)
    ensures Run([]) == EMPTY
    ensures Run(events + [last]) == Recorded(Run(events), last.flow, last.kex)
  {
    assert (events + [last])[..|events|] == events;
    hide Recorded;
  }

  /** The first KEXINIT sent on a flow. */
  function FirstOn(f: Flow, events: seq<KexEvent>): Option<seq<Name>> {
    if events == [] then None
    else
      var last := events[|events| - 1];
      var before := FirstOn(f, events[..|events| - 1]);
      if before == None && last.flow == f then Some(last.kex) else before
  }

  /** The direction in which two endpoints first sent a KEXINIT. */
  function Opened(f: Flow, events: seq<KexEvent>): Option<Flow> {
    if events == [] then None
    else
      var last := events[|events| - 1];
      var before := Opened(f, events[..|events| - 1]);
      if before == None && (last.flow == f || last.flow == Reverse(f)) then Some(last.flow) else before
  }

  /** The session a history of KEXINITs ought to leave for a flow. */
  function SessionFor(f: Flow, events: seq<KexEvent>): Option<SshSession> {
    if Opened(f, events) != Some(f) then None
    else
      var client := FirstOn(f, events);
      var server := if f == Reverse(f) then None else FirstOn(Reverse(f), events);
      Some(SshSession(client, server,
                      if client.Some? && server.Some? then Negotiated(client.value, server.value) else None))
  }

  function Lookup(t: SshState, f: Flow): Option<SshSession> {
    if f in t.sessions then Some(t.sessions[f]) else None
  }

  lemma {:induction false} OpenedIsSymmetric(f: Flow, events: seq<KexEvent>)
    ensures Opened(f, events) == Opened(Reverse(f), events)
    ensures Opened(f, events).Some? ==> Opened(f, events).value == f || Opened(f, events).value == Reverse(f)
    ensures Opened(f, events) == None <==> FirstOn(f, events) == None && FirstOn(Reverse(f), events) == None
    ensures Opened(f, events) == Some(f) ==> FirstOn(f, events).Some?
  {
    if events == [] {
    } else {
      OpenedIsSymmetric(f, events[..|events| - 1]);
    }
  }

  /**
   The table after any history: a flow is a key exactly when it is the direction its endpoints opened;
   its slots hold the first KEXINIT of each side; the negotiated name follows from the two.
   */
  lemma {:induction false} TableClosedForm(f: Flow, events: seq<KexEvent>)
    ensures Lookup(Run(events), f) == SessionFor(f, events)
    decreases |events|
  {
    if events == [] {
    } else {
      var before, last := events[..|events| - 1], events[|events| - 1];
      TableClosedForm(f, before);
      TableClosedForm(Reverse(f), before);
      OpenedIsSymmetric(f, before);
      hide Run, Negotiated;
      RecordedAt(Run(before), last.flow, last.kex, f);
    }
  }

  /** One KEXINIT, seen from one flow. */
  lemma RecordedAt(t: SshState, flow: Flow, kex: seq<Name>, f: Flow)
    ensures var s, s' := Lookup(t, f), Lookup(Recorded(t, flow, kex), f);
            if flow == f && f in t.sessions then
              s' == Some(WithNegotiated(if s.value.client == None then s.value.(client := Some(kex)) else s.value))
            else if flow == f && Reverse(f) !in t.sessions then
              s' == Some(SshSession(Some(kex), None, None))
            else if flow == Reverse(f) && flow != f && f in t.sessions && flow !in t.sessions then
              s' == Some(WithNegotiated(if s.value.server == None then s.value.(server := Some(kex)) else s.value))
            else s' == s
  {
    hide Negotiated;
  }

  /** A flow and its distinct reverse are never both keys. */
  lemma NeverBothDirections(f: Flow, events: seq<KexEvent>)
    ensures f in Run(events).sessions && Reverse(f) in Run(events).sessions ==> f == Reverse(f)
  {
    TableClosedForm(f, events);
    TableClosedForm(Reverse(f), events);
    OpenedIsSymmetric(f, events);
  }

  lemma {:induction false} FirstStays(f: Flow, events: seq<KexEvent>, more: seq<KexEvent>)
    ensures FirstOn(f, events).Some? ==> FirstOn(f, events + more) == FirstOn(f, events)
    ensures Opened(f, events).Some? ==> Opened(f, events + more) == Opened(f, events)
  {
    if more == [] {
      assert events + more == events;
    } else {
      FirstStays(f, events, more[..|more| - 1]);
      assert (events + more)[..|events + more| - 1] == events + more[..|more| - 1];
    }
  }

  /** Each slot is written at most once, and the negotiated name never changes once set. */
  lemma SlotsAreWrittenOnce(f: Flow, events: seq<KexEvent>, more: seq<KexEvent>)
    requires f in Run(events).sessions
    ensures f in Run(events + more).sessions
    ensures var s, s' := Run(events).sessions[f], Run(events + more).sessions[f];
            && s.client.Some? && s'.client == s.client
            && (s.server.Some? ==> s'.server == s.server)
            && (s.negotiated.Some? ==> s'.negotiated == s.negotiated)
  {
    TableClosedForm(f, events);
    TableClosedForm(f, events + more);
    OpenedIsSymmetric(f, events);
    FirstStays(f, events, more);
    FirstStays(Reverse(f), events, more);
  }

  /** `negotiated` is the negotiation of the two lists when both are there, and empty otherwise. */
  ghost predicate NegotiatedExactly(t: SshState) {
    forall f | f in t.sessions ::
      var s := t.sessions[f];
      s.negotiated == if s.client.Some? && s.server.Some? then Negotiated(s.client.value, s.server.value) else None
  }

  lemma NegotiationIsExact(events: seq<KexEvent>)
    ensures NegotiatedExactly(Run(events))
  {
    forall f | f in Run(events).sessions {
      TableClosedForm(f, events);
    }
  }

  // ----- host capabilities -----

  /** A KEXINIT from this host stands in the session. */
  predicate SpokeIn(f: Flow, s: SshSession, host: IpAddr) {
    (f.src.ip == host && s.client.Some?) || (f.dst.ip == host && s.server.Some?)
  }

  /** The names this host listed in the session. */
  function ListedIn(f: Flow, s: SshSession, host: IpAddr): set<Name> {
    (if f.src.ip == host && s.client.Some? then Names(s.client.value) else {})
    + if f.dst.ip == host && s.server.Some? then Names(s.server.value) else {}
  }

  /** The index is a view of the sessions: its hosts are those heard in one, their names those they listed. */
  ghost predicate CapsAreView(t: SshState) {
    && (forall host :: host in t.hostCaps <==> exists f :: f in t.sessions && SpokeIn(f, t.sessions[f], host))
    && (forall host, alg :: alg in CapsOf(t.hostCaps, host)
                            <==> exists f :: f in t.sessions && alg in ListedIn(f, t.sessions[f], host))
  }

  lemma RecordedKeepsView(t: SshState, flow: Flow, kex: seq<Name>)
    requires CapsAreView(t)
    ensures CapsAreView(Recorded(t, flow, kex))
  {
    hide Negotiated;
    var t' := Recorded(t, flow, kex);
    var key := if flow in t.sessions || Reverse(flow) !in t.sessions then flow else Reverse(flow);
    forall host
      ensures host in t'.hostCaps <==> exists f :: f in t'.sessions && SpokeIn(f, t'.sessions[f], host)
    {
      assert key in t'.sessions;
      if f :| f in t.sessions && SpokeIn(f, t.sessions[f], host) {
        assert f in t'.sessions && SpokeIn(f, t'.sessions[f], host);
      }
      if f :| f in t'.sessions && SpokeIn(f, t'.sessions[f], host) && f != key {
        assert f in t.sessions && SpokeIn(f, t.sessions[f], host);
      }
      assert SpokeIn(key, t'.sessions[key], flow.src.ip);
    }
    forall host, alg
      ensures alg in CapsOf(t'.hostCaps, host)
              <==> exists f :: f in t'.sessions && alg in ListedIn(f, t'.sessions[f], host)
    {
      ListedStep(t, flow, kex, host, alg);
    }
  }

  /** The session a KEXINIT on the flow belongs to. */
  function KeyOf(t: SshState, flow: Flow): Flow {
    if flow in t.sessions || Reverse(flow) !in t.sessions then flow else Reverse(flow)
  }

  /** What one KEXINIT adds to the names of a host: the same in the index and in its session. */
  function NamesAdded(t: SshState, flow: Flow, kex: seq<Name>, host: IpAddr): set<Name> {
    var key := KeyOf(t, flow);
    var s := if key in t.sessions then t.sessions[key] else SshSession(None, None, None);
    var isNew := if key == flow then s.client == None else s.server == None;
    if isNew && flow.src.ip == host then Names(kex) else {}
  }

  lemma NamesAddedToIndex(t: SshState, flow: Flow, kex: seq<Name>, host: IpAddr)
    ensures CapsOf(Recorded(t, flow, kex).hostCaps, host) == CapsOf(t.hostCaps, host) + NamesAdded(t, flow, kex, host)
    ensures forall f | f != KeyOf(t, flow) :: Lookup(Recorded(t, flow, kex), f) == Lookup(t, f)
  {
    hide WithNegotiated;
  }

  lemma NamesAddedToSession(t: SshState, flow: Flow, kex: seq<Name>, host: IpAddr)
    ensures var t', key := Recorded(t, flow, kex), KeyOf(t, flow);
            && key in t'.sessions
            && ListedIn(key, t'.sessions[key], host)
               == (if key in t.sessions then ListedIn(key, t.sessions[key], host) else {})
                  + NamesAdded(t, flow, kex, host)
  {
    hide Negotiated, CapsOf;
  }

  lemma ListedStep(t: SshState, flow: Flow, kex: seq<Name>, host: IpAddr, alg: Name)
    requires CapsAreView(t)
    ensures var t' := Recorded(t, flow, kex);
            alg in CapsOf(t'.hostCaps, host)
            <==> exists f :: f in t'.sessions && alg in ListedIn(f, t'.sessions[f], host)
  {
    var t', key := Recorded(t, flow, kex), KeyOf(t, flow);
    NamesAddedToIndex(t, flow, kex, host);
    NamesAddedToSession(t, flow, kex, host);
    hide Recorded, ListedIn, CapsOf, KeyOf, NamesAdded;
    if f :| f in t.sessions && alg in ListedIn(f, t.sessions[f], host) {
      assert Lookup(t, f).Some? && (f != key ==> Lookup(t', f) == Lookup(t, f));
      assert f in t'.sessions && alg in ListedIn(f, t'.sessions[f], host);
    }
    if f :| f in t'.sessions && alg in ListedIn(f, t'.sessions[f], host) {
      assert f != key ==> Lookup(t', f) == Lookup(t, f);
      assert f != key ==> f in t.sessions && alg in ListedIn(f, t.sessions[f], host);
    }
  }

  /** After every history the index is exactly the view of the sessions. */
  lemma {:induction false} HostCapsAreExact(events: seq<KexEvent>)
    ensures CapsAreView(Run(events))
  {
    if events == [] {
    } else {
      var before, last := events[..|events| - 1], events[|events| - 1];
      HostCapsAreExact(before);
      RecordedKeepsView(Run(before), last.flow, last.kex);
    }
  }

  /** After any history, a host is one exactly when it sent a KEXINIT. */
  lemma HeardExactly(events: seq<KexEvent>, host: IpAddr)
    ensures host in Run(events).hostCaps <==> exists f: Flow :: f.src.ip == host && FirstOn(f, events).Some?
  {
    HostCapsAreExact(events);
    var t := Run(events);
    hide Run, FirstOn, Opened;
    if host in t.hostCaps {
      var f :| f in t.sessions && SpokeIn(f, t.sessions[f], host);
      TableClosedForm(f, events);
      assert FirstOn(if f.src.ip == host && t.sessions[f].client.Some? then f else Reverse(f), events).Some?;
    }
    if f: Flow :| f.src.ip == host && FirstOn(f, events).Some? {
      StandsInSession(f, events);
      TableClosedForm(f, events);
      TableClosedForm(Reverse(f), events);
      assert if f in t.sessions then SpokeIn(f, t.sessions[f], host)
             else Reverse(f) in t.sessions && SpokeIn(Reverse(f), t.sessions[Reverse(f)], host);
    }
  }

  /** The first KEXINIT of a flow stands in the session of its endpoints. */
  lemma StandsInSession(f: Flow, events: seq<KexEvent>)
    requires FirstOn(f, events).Some?
    ensures Opened(f, events) == Some(f) || (f != Reverse(f) && Opened(Reverse(f), events) == Some(Reverse(f)))
  {
    OpenedIsSymmetric(f, events);
    OpenedIsSymmetric(Reverse(f), events);
  }

  /** After any history, a host has exactly the names of the first KEXINITs of its flows. */
  lemma ListedExactly(events: seq<KexEvent>, host: IpAddr, alg: Name)
    ensures alg in CapsOf(Run(events).hostCaps, host) <==>
            exists f: Flow :: f.src.ip == host && FirstOn(f, events).Some? && alg in FirstOn(f, events).value
  {
    HostCapsAreExact(events);
    var t := Run(events);
    hide Run, FirstOn, Opened, CapsOf;
    if alg in CapsOf(t.hostCaps, host) {
      var f :| f in t.sessions && alg in ListedIn(f, t.sessions[f], host);
      TableClosedForm(f, events);
      var s := t.sessions[f];
      var g := if f.src.ip == host && s.client.Some? && alg in s.client.value then f else Reverse(f);
      assert g.src.ip == host && FirstOn(g, events).Some? && alg in FirstOn(g, events).value;
    }
    if f: Flow :| f.src.ip == host && FirstOn(f, events).Some? && alg in FirstOn(f, events).value {
      StandsInSession(f, events);
      TableClosedForm(f, events);
      TableClosedForm(Reverse(f), events);
      assert if f in t.sessions then alg in ListedIn(f, t.sessions[f], host)
             else Reverse(f) in t.sessions && alg in ListedIn(Reverse(f), t.sessions[Reverse(f)], host);
    }
  }

  /** Recording the same KEXINIT again changes nothing. */
  lemma RecordedTwice(t: SshState, flow: Flow, kex: seq<Name>)
    ensures Recorded(Recorded(t, flow, kex), flow, kex) == Recorded(t, flow, kex)
  {
    hide Negotiated;
    var once := Recorded(t, flow, kex);
    var twice := Recorded(once, flow, kex);
    assert twice.sessions == once.sessions;
  }
}
