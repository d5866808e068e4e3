/** The TLS tables of pqcdump and `process_ssl_hello`, which fills them (pqcdump/src/tls.rs). */
module TlsTables {
  import opened Common
  import opened Net
  import ClientHello
  import ServerHello

  /** The three tables as a value; a session is keyed by (client, server). */
  datatype TlsState = TlsState(ciphers: map<Endpoint, set<u16>>, groups: map<Endpoint, set<u16>>,
                               sessions: map<Flow, u16>)

  const EMPTY := TlsState(map[], map[], map[])

  function ValuesOf(m: map<Endpoint, set<u16>>, key: Endpoint): set<u16> {
    if key in m then m[key] else {}
  }

  function AsSet(values: seq<u16>): set<u16> {
    set v | v in values
  }

  /** The values joined to those of the key; no values make no entry. */
  function Noted(m: map<Endpoint, set<u16>>, key: Endpoint, values: seq<u16>): map<Endpoint, set<u16>> {
    if values == [] then m else m[key := ValuesOf(m, key) + AsSet(values)]
  }

  /** A hello as the tables see it. */
  datatype Hello =
    | Client(from: Endpoint, ciphers: seq<u16>, groups: seq<u16>)
    | Server(session: Flow, ciphers: seq<u16>, group: u16)

  function Sender(h: Hello): Endpoint {
    match h case Client(from, _, _) => from case Server(session, _, _) => session.dst
  }

  function GroupsOf(h: Hello): seq<u16> {
    match h case Client(_, _, groups) => groups case Server(_, _, group) => [group]
  }

  function Recorded(t: TlsState, h: Hello): TlsState {
    TlsState(Noted(t.ciphers, Sender(h), h.ciphers), Noted(t.groups, Sender(h), GroupsOf(h)),
             if h.Server? then t.sessions[h.session := h.group] else t.sessions)
  }

  /** The hello a payload holds, if it parses; `Panic` if parsing it aborts the program. */
  function HelloIn(flow: Flow, payload: seq<u8>): Outcome<Option<Hello>, ()> {
    if |payload| <= 5 then Panic
    else if payload[5] == 0x01 then
      match ClientHello.Parsed(payload)
      case Ok((config, _)) => Ok(Some(Client(flow.src, config.ciphers, config.keyshareGroups)))
      case Err(_) => Ok(None)
      case Panic => Panic
    else if payload[5] == 0x02 then
      match ServerHello.Parsed(payload)
      case Ok(config) => Ok(Some(Server(Reverse(flow), config.ciphers, config.keyshare)))
      case Err(_) => Ok(None)
      case Panic => Panic
    else Ok(None)
  }

  function Processed(t: TlsState, flow: Flow, payload: seq<u8>): Outcome<TlsState, ()> {
    match HelloIn(flow, payload)
    case Ok(Some(h)) => Ok(Recorded(t, h))
    case Ok(None) => Ok(t)
    case _ => Panic
  }

  class TlsTracker {
    var tlsCiphers: map<Endpoint, set<u16>>
    var keyshareGroups: map<Endpoint, set<u16>>
    var tlsSessions: map<Flow, u16>

    function Value(): TlsState
      reads this
    {
      TlsState(tlsCiphers, keyshareGroups, tlsSessions)
    }

    constructor ()
      ensures Value() == EMPTY
    {
      tlsCiphers, keyshareGroups, tlsSessions := map[], map[], map[];
    }

    method NoteCiphers(key: Endpoint, values: seq<u16>)
      modifies this`tlsCiphers
      ensures tlsCiphers == Noted(old(tlsCiphers), key, values)
    {
      for i := 0 to |values|
        invariant tlsCiphers == Noted(old(tlsCiphers), key, values[..i])
      {
        NotedNext(old(tlsCiphers), key, values, i);
        if key !in tlsCiphers {
          tlsCiphers := tlsCiphers[key := {}];
        }
        tlsCiphers := tlsCiphers[key := tlsCiphers[key] + {values[i]}];
      }
      assert values[..|values|] == values;
    }

    method NoteGroups(key: Endpoint, values: seq<u16>)
      modifies this`keyshareGroups
      ensures keyshareGroups == Noted(old(keyshareGroups), key, values)
    {
      for i := 0 to |values|
        invariant keyshareGroups == Noted(old(keyshareGroups), key, values[..i])
      {
        NotedNext(old(keyshareGroups), key, values, i);
        if key !in keyshareGroups {
          keyshareGroups := keyshareGroups[key := {}];
        }
        keyshareGroups := keyshareGroups[key := keyshareGroups[key] + {values[i]}];
      }
      assert values[..|values|] == values;
    }

    method ProcessSslHello(flow: Flow, payload: seq<u8>) returns (r: Outcome<(), ()>)
      requires |payload| > 5
      modifies this
      ensures match Processed(old(Value()), flow, payload)
              case Ok(t) => r == Ok(()) && Value() == t
              case _ => r == Panic
    {
      var handshakeType := payload[5];
      var key := flow.src;
      if handshakeType == 0x01 {
        var result := ClientHello.ParseSslV3ClientHello(payload);
        if result.Panic? {
          return Panic;
        }
        if result.Ok? {
          NoteCiphers(key, result.value.ciphers);
          NoteGroups(key, result.value.keyshareGroups);
        }
      } else if handshakeType == 0x02 {
        var result := ServerHello.ParseServerHelloV3(payload);
        if result.Panic? {
          return Panic;
        }
        if result.Ok? {
          var sessionKey := Flow(flow.dst, flow.src);
          tlsSessions := tlsSessions[sessionKey := result.value.keyshare];
          NoteGroups(key, [result.value.keyshare]);
          NoteCiphers(key, result.value.ciphers);
        }
      }
      r := Ok(());
    }
  }

  lemma NotedNext(m: map<Endpoint, set<u16>>, key: Endpoint, values: seq<u16>, i: nat)
    requires i < |values|
    ensures var before := Noted(m, key, values[..i]);
            Noted(m, key, values[..i + 1]) == before[key := ValuesOf(before, key) + {values[i]}]
  {
    assert AsSet(values[..i + 1]) == AsSet(values[..i]) + {values[i]};
    assert AsSet(values[..0]) == {};
    assert ValuesOf(m, key) + AsSet(values[..i + 1]) == ValuesOf(m, key) + AsSet(values[..i]) + {values[i]};
    assert i == 0 ==> ValuesOf(m, key) + AsSet(values[..1]) == ValuesOf(m, key) + {values[0]};
  }

  // ----- every run -----

  function Run(hellos: seq<Hello>): TlsState {
    if hellos == [] then EMPTY else Recorded(Run(hellos[..|hellos| - 1]), hellos[|hellos| - 1])
  }

  /** The group of the last ServerHello of a session. */
  function LastGroup(session: Flow, hellos: seq<Hello>): Option<u16> {
    if hellos == [] then None
    else
      var last := hellos[|hellos| - 1];
      if last.Server? && last.session == session then Some(last.group) else LastGroup(session, hellos[..|hellos| - 1])
  }

  ghost predicate OfferedCipher(e: Endpoint, v: u16, hellos: seq<Hello>) {
    exists h | h in hellos :: Sender(h) == e && v in h.ciphers
  }

  ghost predicate OfferedGroup(e: Endpoint, v: u16, hellos: seq<Hello>) {
    exists h | h in hellos :: Sender(h) == e && v in GroupsOf(h)
  }

  /**
   The tables after any history: an endpoint's ciphers and groups are exactly those of the hellos it
   sent, and a session's group is that of its last ServerHello.
   */
  lemma {:induction false} TablesClosedForm(hellos: seq<Hello>, e: Endpoint, v: u16, session: Flow)
    ensures var t := Run(hellos);
            && (v in ValuesOf(t.ciphers, e) <==> OfferedCipher(e, v, hellos))
            && (v in ValuesOf(t.groups, e) <==> OfferedGroup(e, v, hellos))
            && (if session in t.sessions then LastGroup(session, hellos) == Some(t.sessions[session])
                else LastGroup(session, hellos) == None)
  {
    if hellos == [] {
    } else {
      var before, last := hellos[..|hellos| - 1], hellos[|hellos| - 1];
      TablesClosedForm(before, e, v, session);
      assert hellos == before + [last];
      OfferedStep(before, last, e, v);
      NotedValues(Run(before).ciphers, Sender(last), last.ciphers, e, v);
      NotedValues(Run(before).groups, Sender(last), GroupsOf(last), e, v);
    }
  }

  lemma OfferedStep(before: seq<Hello>, last: Hello, e: Endpoint, v: u16)
    ensures OfferedCipher(e, v, before + [last])
            <==> OfferedCipher(e, v, before) || (Sender(last) == e && v in last.ciphers)
    ensures OfferedGroup(e, v, before + [last])
            <==> OfferedGroup(e, v, before) || (Sender(last) == e && v in GroupsOf(last))
  {
    assert last in before + [last];
    assert forall h | h in before :: h in before + [last];
  }

  lemma NotedValues(m: map<Endpoint, set<u16>>, key: Endpoint, values: seq<u16>, e: Endpoint, v: u16)
    ensures v in ValuesOf(Noted(m, key, values), e) <==> v in ValuesOf(m, e) || (key == e && v in values)
  {
  }

  /** An endpoint has an entry exactly when a hello it sent had something to enter. */
  lemma {:induction false} EntriesClosedForm(hellos: seq<Hello>, e: Endpoint)
    ensures e in Run(hellos).ciphers <==> exists h | h in hellos :: Sender(h) == e && h.ciphers != []
    ensures e in Run(hellos).groups <==> exists h | h in hellos :: Sender(h) == e && GroupsOf(h) != []
  {
    if hellos != [] {
      var before, last := hellos[..|hellos| - 1], hellos[|hellos| - 1];
      EntriesClosedForm(before, e);
      assert hellos == before + [last];
      NotedEntry(Run(before).ciphers, Sender(last), last.ciphers, e);
      NotedEntry(Run(before).groups, Sender(last), GroupsOf(last), e);
      hide Noted, GroupsOf, Sender;
    }
  }

  lemma NotedEntry(m: map<Endpoint, set<u16>>, key: Endpoint, values: seq<u16>, e: Endpoint)
    ensures e in Noted(m, key, values) <==> e in m || (key == e && values != [])
  {
  }

  /** The group of a session is among its server's groups. */
  lemma {:induction false} SessionGroupIsListed(hellos: seq<Hello>, session: Flow)
    requires session in Run(hellos).sessions
    ensures Run(hellos).sessions[session] in ValuesOf(Run(hellos).groups, session.dst)
  {
    var before, last := hellos[..|hellos| - 1], hellos[|hellos| - 1];
    NotedValues(Run(before).groups, Sender(last), GroupsOf(last), session.dst, Run(hellos).sessions[session]);
    if last.Server? && last.session == session {
      assert last.group in GroupsOf(last);
    } else {
      SessionGroupIsListed(before, session);
    }
  }

  /** Recording the same hello again changes nothing. */
  lemma RecordedTwice(t: TlsState, h: Hello)
    ensures Recorded(Recorded(t, h), h) == Recorded(t, h)
  {
    NotedTwice(t.ciphers, Sender(h), h.ciphers);
    NotedTwice(t.groups, Sender(h), GroupsOf(h));
  }

  lemma NotedTwice(m: map<Endpoint, set<u16>>, key: Endpoint, values: seq<u16>)
    ensures Noted(Noted(m, key, values), key, values) == Noted(m, key, values)
  {
    if values != [] {
      assert ValuesOf(m, key) + AsSet(values) + AsSet(values) == ValuesOf(m, key) + AsSet(values);
    }
  }
}
