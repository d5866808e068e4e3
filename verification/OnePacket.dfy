/**
 From the bytes of one handshake message to the tables and the report of a capture of it: whose message it
 is, what is noted about whom, and what is counted (pqcdump/src/ssh.rs, pqcdump/src/tls.rs, pqcdump/src/main.rs).
 */
module OnePacket {
  import opened Common
  import opened Net
  import opened NameLists
  import Timestamps
  import Tcp
  import SshKexInit
  import SshTables
  import TlsTables
  import S = ServerHello
  import B = ClientHelloBuilder
  import ClientHelloRoundTrip
  import Capture
  import opened CaptureReport

  // ----- captures of one packet, and of one packet in each direction -----

  lemma OneInOrder(p: Packet)
    ensures Capture.InOrder([p])
  {
    assert [p][..0] == [];
  }

  lemma NothingYet()
    ensures Capture.RunPlain([]) == Ok(Capture.START.tables) && Capture.Run([]).Ok? && Capture.FlowsAfter([]) == map[]
  {
  }

  lemma OneIsLookedAt(p: Packet)
    requires |p.payload| >= 6 && Timestamps.IsValid(p.stamp) && !Capture.AbortsOn(p.payload)
    ensures Capture.Run([p]).Ok?
    ensures Ok(Capture.Run([p]).value.tables) == Capture.Looked(Capture.START.tables, p.flow, p.payload)
  {
    hide *;
    OneInOrder(p);
    Capture.SecondPassIsRedundant([p]);
    NothingYet();
    assert [] + [p] == [p];
    Capture.RunsSnoc([], p);
    Capture.LookingPanicsExactly(Capture.START.tables, p.flow, p.payload);
    Timestamps.ConvertsExactly(p.stamp);
  }

  lemma TwoInOrder(p: Packet, q: Packet)
    requires p.flow != q.flow
    ensures Capture.InOrder([p, q])
  {
    assert [p, q][..1] == [p];
    OneInOrder(p);
    FlowsOfOne(p);
    hide Capture.FlowsAfter;
  }

  lemma FlowsOfOne(p: Packet)
    ensures forall f | f in Capture.FlowsAfter([p]) :: f == p.flow
  {
    assert [p][..0] == [];
    hide Tcp.PushResult;
  }

  lemma TwoAreLookedAt(p: Packet, q: Packet)
    requires |p.payload| >= 6 && Timestamps.IsValid(p.stamp) && !Capture.AbortsOn(p.payload)
    requires |q.payload| >= 6 && Timestamps.IsValid(q.stamp) && !Capture.AbortsOn(q.payload)
    requires p.flow != q.flow
    ensures Capture.Run([p]).Ok? && Capture.Run([p, q]).Ok?
    ensures Ok(Capture.Run([p, q]).value.tables) == Capture.Looked(Capture.Run([p]).value.tables, q.flow, q.payload)
  {
    hide *;
    OneIsLookedAt(p);
    OneInOrder(p);
    TwoInOrder(p, q);
    Capture.SecondPassIsRedundant([p]);
    Capture.SecondPassIsRedundant([p, q]);
    assert [p] + [q] == [p, q];
    Capture.RunsSnoc([p], q);
    Capture.LookingPanicsExactly(Capture.Run([p]).value.tables, q.flow, q.payload);
    Timestamps.ConvertsExactly(q.stamp);
  }

  // ----- a ServerHello -----

  /** A message with one key_share extension of one entry, whatever else it holds and whatever follows it. */
  datatype ServerMessage = ServerMessage(recordLen: u16, handshakeLen: u16, h: S.Hello, before: seq<S.Extension>,
                                         group: u16, key: seq<u8>, after: seq<S.Extension>, rest: seq<u8>)

  predicate IsMessage(m: ServerMessage) {
    && |m.key| < 0x1_0000 && !S.HasKeyShare(m.before) && !S.HasKeyShare(m.after) && m.h.recordMinor <= 4
    && S.Encodable(m.h, m.before + [S.Extension(51, S.OneShare(m.group, m.key))] + m.after)
  }

  function Wire(m: ServerMessage): seq<u8>
    requires IsMessage(m)
  {
    S.Encode(m.recordLen, m.handshakeLen, m.h, m.before + [S.Extension(51, S.OneShare(m.group, m.key))] + m.after)
    + m.rest
  }

  lemma WireStart(m: ServerMessage)
    requires IsMessage(m)
    ensures var w := Wire(m);
            |w| >= 6 && w[0] == 22 && w[1] == 3 && w[2] == m.h.recordMinor && w[5] == 2
  {
    hide S.HasKeyShare, S.EncodeStart, S.EncodeExtensions, S.OneShare;
    var es := m.before + [S.Extension(51, S.OneShare(m.group, m.key))] + m.after;
    var tail := Be16(|S.EncodeExtensions(es)|) + S.EncodeExtensions(es) + m.rest;
    assert Wire(m) == S.EncodeStart(m.recordLen, m.handshakeLen, m.h) + tail;
    S.StartIsRead(m.recordLen, m.handshakeLen, m.h, tail);
  }

  /** The server is the sender, the client the receiver, and the session is keyed (client, server). */
  lemma ServerHelloIsSeen(flow: Flow, m: ServerMessage)
    requires IsMessage(m)
    ensures Capture.HelloEventIn(Capture.View(flow, Wire(m)))
            == [TlsTables.Server(Flow(flow.dst, flow.src), [m.h.cipher], m.group)]
    ensures |Wire(m)| >= 6 && !Capture.AbortsOn(Wire(m)) && Wire(m)[5] == 2
  {
    WireStart(m);
    S.ServerHelloRoundTrip(m.recordLen, m.handshakeLen, m.h, m.before, m.group, m.key, m.after, m.rest);
    S.PanicsExactly(Wire(m));
    hide S.Parsed, S.Encode, S.Encodable, S.HasKeyShare, S.IsCutOff;
  }

  /** What a capture of it leaves in the tables: the sender's cipher and group, and one session. */
  lemma ServerHelloTables(p: Packet, m: ServerMessage)
    requires IsMessage(m) && p.payload == Wire(m) && Timestamps.IsValid(p.stamp)
    ensures Capture.Run([p]).Ok?
    ensures var t := Capture.Run([p]).value.tables;
            && t.ssh == SshTables.SshState(map[], map[])
            && t.tls.ciphers == map[p.flow.src := {m.h.cipher}] && t.tls.groups == map[p.flow.src := {m.group}]
            && t.tls.sessions == map[Flow(p.flow.dst, p.flow.src) := m.group]
  {
    var h := TlsTables.Server(Flow(p.flow.dst, p.flow.src), [m.h.cipher], m.group);
    ServerHelloIsSeen(p.flow, m);
    hide *;
    OneIsLookedAt(p);
    HelloIsLookedAt(Capture.START.tables, p.flow, p.payload, h);
    ServerRecorded(p.flow, m.h.cipher, m.group);
    assert Capture.START.tables.ssh == SshTables.SshState(map[], map[]);
  }

  /** One look at a hello, whatever the tables hold. */
  lemma HelloIsLookedAt(t: Capture.Tables, flow: Flow, payload: seq<u8>, h: TlsTables.Hello)
    requires |payload| >= 6 && payload[5] != 20 && Capture.HelloEventIn(Capture.View(flow, payload)) == [h]
    ensures Capture.Looked(t, flow, payload) == Ok(Capture.Tables(t.ssh, TlsTables.Recorded(t.tls, h)))
  {
    hide TlsTables.HelloIn, TlsTables.Recorded;
  }

  lemma ServerRecorded(flow: Flow, cipher: u16, group: u16)
    ensures TlsTables.Recorded(Capture.START.tables.tls, TlsTables.Server(Flow(flow.dst, flow.src), [cipher], group))
            == TlsTables.TlsState(map[flow.src := {cipher}], map[flow.src := {group}],
                                  map[Flow(flow.dst, flow.src) := group])
  {
    assert {} + TlsTables.AsSet([cipher]) == {cipher} && {} + TlsTables.AsSet([group]) == {group};
  }

  /** What its report says: one host, the sender, a PQC host exactly when the data file marks the group. */
  lemma ServerHelloReport(p: Packet, m: ServerMessage, algos: Algorithms)
    requires IsMessage(m) && p.payload == Wire(m) && Timestamps.IsValid(p.stamp) && p.flow.src.ip.V4?
    ensures Capture.Run([p]).Ok? && ReportOf(Capture.Run([p]).value.tables, algos).Ok?
    ensures var r := ReportOf(Capture.Run([p]).value.tables, algos).value;
            var marked := m.group in algos.groups && (algos.groups[m.group].pqc || algos.groups[m.group].hybrid);
            && r.hosts == r.tlsHosts == {p.flow.src.ip} && r.sshHosts == {}
            && r.pqcHosts == (if marked then {p.flow.src.ip} else {})
            && r.tlsSessions == 1 && r.tlsPqcSessions == (if marked then 1 else 0)
            && r.sshSessions == 0 && r.sshPqcSessions == 0
  {
    ServerHelloTables(p, m);
    hide Capture.Run, Wire, IsMessage;
    TlsReport(Capture.Run([p]).value.tables, p.flow, m.h.cipher, m.group, algos);
  }

  lemma TlsReport(t: Capture.Tables, flow: Flow, cipher: u16, group: u16, algos: Algorithms)
    requires t.ssh == SshTables.SshState(map[], map[]) && flow.src.ip.V4?
    requires t.tls.ciphers == map[flow.src := {cipher}] && t.tls.groups == map[flow.src := {group}]
    requires t.tls.sessions == map[Flow(flow.dst, flow.src) := group]
    ensures ReportOf(t, algos).Ok?
    ensures var r := ReportOf(t, algos).value;
            var marked := group in algos.groups && (algos.groups[group].pqc || algos.groups[group].hybrid);
            && r.hosts == r.tlsHosts == {flow.src.ip} && r.sshHosts == {}
            && r.pqcHosts == (if marked then {flow.src.ip} else {})
            && r.tlsSessions == 1 && r.tlsPqcSessions == (if marked then 1 else 0)
            && r.sshSessions == 0 && r.sshPqcSessions == 0
  {
    TlsHosts(flow.src, cipher, group, algos);
    TlsCounts(Flow(flow.dst, flow.src), group, algos);
    NoSsh(algos);
    assert KeysParse(t.tls);
    hide Ips, PqcEndpoints, PqcTlsFlows, PqcSshHosts, PqcSshFlows, KeysParse;
    assert t.ssh.hostCaps.Keys == {} && |t.ssh.sessions| == 0;
    assert {} + {flow.src.ip} == {flow.src.ip};
  }

  lemma TlsHosts(e: Endpoint, cipher: u16, group: u16, algos: Algorithms)
    ensures Ips(map[e := {cipher}].Keys) == {e.ip} && Ips(map[e := {group}].Keys) == {e.ip}
    ensures var marked := group in algos.groups && (algos.groups[group].pqc || algos.groups[group].hybrid);
            Ips(PqcEndpoints(algos, map[e := {group}])) == if marked then {e.ip} else {}
  {
    var endpoints := PqcEndpoints(algos, map[e := {group}]);
    assert map[e := {cipher}].Keys == {e} && map[e := {group}].Keys == {e};
    assert endpoints == if OffersPqcGroup(algos, {group}) then {e} else {};
    hide PqcEndpoints;
  }

  lemma TlsCounts(session: Flow, group: u16, algos: Algorithms)
    ensures var marked := group in algos.groups && (algos.groups[group].pqc || algos.groups[group].hybrid);
            |map[session := group]| == 1 && |PqcTlsFlows(algos, map[session := group])| == if marked then 1 else 0
  {
    assert PqcTlsFlows(algos, map[session := group]) == if GroupIsPqc(algos, group) then {session} else {};
    assert map[session := group].Keys == {session} && |map[session := group]| == |map[session := group].Keys|;
  }

  lemma NoSsh(algos: Algorithms)
    ensures PqcSshHosts(algos, map[]) == {} && PqcSshFlows(algos, map[]) == {}
  {
  }

  // ----- a ClientHello -----

  /** A built ClientHello leaves the sender's suites and groups, each if there are any, and no session. */
  lemma ClientHelloTables(p: Packet, h: B.Hello, kinds: seq<B.Kind>)
    requires B.CanEncode(h) && |h.random| == 32 && B.AllFit(kinds) && h.extensions == B.BuildAll(kinds)
    requires p.payload == B.Encoded(h) && Timestamps.IsValid(p.stamp)
    ensures Capture.Run([p]).Ok?
    ensures var t := Capture.Run([p]).value.tables;
            var groups := ClientHelloRoundTrip.GroupsOf(kinds);
            && t.ssh == SshTables.SshState(map[], map[])
            && t.tls.ciphers == (if h.cipherSuites == [] then map[] else map[p.flow.src := set c | c in h.cipherSuites])
            && t.tls.groups == (if groups == [] then map[] else map[p.flow.src := set g | g in groups])
            && t.tls.sessions == map[]
  {
    var groups := ClientHelloRoundTrip.GroupsOf(kinds);
    BuiltHelloIsSeen(p.flow, h, kinds);
    ClientHelloRoundTrip.LengthsAgree(h);
    var e := B.Encoded(h);
    assert |e| >= 6 && e[5] == 1;
    hide *;
    OneIsLookedAt(p);
    HelloIsLookedAt(Capture.START.tables, p.flow, e, TlsTables.Client(p.flow.src, h.cipherSuites, groups));
    StartIsEmpty();
    ClientRecorded(TlsTables.TlsState(map[], map[], map[]), p.flow.src, h.cipherSuites, groups);
  }

  lemma StartIsEmpty()
    ensures Capture.START.tables.ssh == SshTables.SshState(map[], map[])
    ensures Capture.START.tables.tls == TlsTables.TlsState(map[], map[], map[])
  {
  }

  lemma ClientRecorded(t: TlsTables.TlsState, from: Endpoint, ciphers: seq<u16>, groups: seq<u16>)
    requires t.ciphers == map[] && t.groups == map[]
    ensures var t' := TlsTables.Recorded(t, TlsTables.Client(from, ciphers, groups));
            && t'.ciphers == (if ciphers == [] then map[] else map[from := set c | c in ciphers])
            && t'.groups == (if groups == [] then map[] else map[from := set g | g in groups])
            && t'.sessions == t.sessions
  {
    assert {} + TlsTables.AsSet(ciphers) == set c | c in ciphers;
    assert {} + TlsTables.AsSet(groups) == set g | g in groups;
  }

  // ----- a KEXINIT -----

  /** A KEXINIT whose names come back: there is one, and none holds a comma. */
  predicate IsKexInit(f: SshKexInit.Frame, lists: seq<seq<Name>>) {
    SshKexInit.CanEncode(f, lists) && lists[0] != [] && forall name | name in lists[0] :: 44 !in name
  }

  lemma KexInitIsSeen(flow: Flow, f: SshKexInit.Frame, lists: seq<seq<Name>>, rest: seq<u8>)
    requires IsKexInit(f, lists)
    ensures var payload := SshKexInit.EncodeKexInit(f, lists) + rest;
            && |payload| >= 6 && payload[5] == 20 && !Capture.AbortsOn(payload)
            && SshKexInit.LenientKex(payload) == Some(lists[0])
            && Capture.KexEventIn(Capture.View(flow, payload)) == [SshTables.KexEvent(flow, lists[0])]
  {
    SshKexInit.KexInitRoundTrip(f, lists, rest);
    SshKexInit.EncodedShape(f, lists, rest);
    hide SshKexInit.EncodeKexInit, SshKexInit.EncodeLists, SshKexInit.CanEncode, SshKexInit.LenientKex;
  }

  /** One look at a KEXINIT, whatever the tables hold. */
  lemma KexInitIsLookedAt(t: Capture.Tables, flow: Flow, f: SshKexInit.Frame, lists: seq<seq<Name>>, rest: seq<u8>)
    requires IsKexInit(f, lists)
    ensures var payload := SshKexInit.EncodeKexInit(f, lists) + rest;
            Capture.Looked(t, flow, payload) == Ok(Capture.Tables(SshTables.Recorded(t.ssh, flow, lists[0]), t.tls))
  {
    KexInitIsSeen(flow, f, lists, rest);
    hide SshKexInit.EncodeKexInit, IsKexInit, SshKexInit.LenientKex, SshTables.Recorded;
  }

  /** A capture of one KEXINIT: its sender is the client of a session with the receiver, and a host with its names. */
  lemma KexInitTables(p: Packet, f: SshKexInit.Frame, lists: seq<seq<Name>>, rest: seq<u8>)
    requires IsKexInit(f, lists) && p.payload == SshKexInit.EncodeKexInit(f, lists) + rest
    requires Timestamps.IsValid(p.stamp)
    ensures Capture.Run([p]).Ok?
    ensures var t := Capture.Run([p]).value.tables;
            && t.ssh.sessions == map[p.flow := SshTables.SshSession(Some(lists[0]), None, None)]
            && t.ssh.hostCaps == map[p.flow.src.ip := set n | n in lists[0]]
            && t.tls == TlsTables.TlsState(map[], map[], map[])
  {
    KexInitIsSeen(p.flow, f, lists, rest);
    KexInitIsLookedAt(Capture.START.tables, p.flow, f, lists, rest);
    hide SshKexInit.EncodeKexInit, IsKexInit, Capture.Run, Capture.Looked, Capture.AbortsOn, SshTables.Negotiated;
    OneIsLookedAt(p);
    assert {} + SshTables.Names(lists[0]) == set n | n in lists[0];
  }

  /** What the two sides of a session leave: the session of the one seen first, and the names of both. */
  lemma ExchangeTables(p: Packet, q: Packet, f: SshKexInit.Frame, lists: seq<seq<Name>>, rest: seq<u8>,
                       f': SshKexInit.Frame, lists': seq<seq<Name>>, rest': seq<u8>)
    requires IsKexInit(f, lists) && p.payload == SshKexInit.EncodeKexInit(f, lists) + rest
    requires IsKexInit(f', lists') && q.payload == SshKexInit.EncodeKexInit(f', lists') + rest'
    requires Timestamps.IsValid(p.stamp) && Timestamps.IsValid(q.stamp)
    requires q.flow == Flow(p.flow.dst, p.flow.src) && p.flow.src.ip != p.flow.dst.ip
    ensures Capture.Run([p, q]).Ok?
    ensures var t := Capture.Run([p, q]).value.tables;
            && t.ssh.sessions == map[p.flow := SshTables.SshSession(Some(lists[0]), Some(lists'[0]),
                                                                    SshTables.Negotiated(lists[0], lists'[0]))]
            && t.ssh.hostCaps == map[p.flow.src.ip := set n | n in lists[0]][p.flow.dst.ip := set n | n in lists'[0]]
            && t.tls == TlsTables.TlsState(map[], map[], map[])
  {
    assert |lists| == |lists'| == 10;
    hide *;
    KexInitIsSeen(p.flow, f, lists, rest);
    KexInitIsSeen(q.flow, f', lists', rest');
    KexInitTables(p, f, lists, rest);
    var t := Capture.Run([p]).value.tables;
    KexInitIsLookedAt(t, q.flow, f', lists', rest');
    assert p.flow != q.flow;
    TwoAreLookedAt(p, q);
    ReplyRecorded(t.ssh, p.flow, lists[0], lists'[0]);
  }

  /** The reply completes the session. */
  lemma ReplyRecorded(t: SshTables.SshState, flow: Flow, client: seq<Name>, server: seq<Name>)
    requires flow.src.ip != flow.dst.ip
    requires t.sessions == map[flow := SshTables.SshSession(Some(client), None, None)]
    requires t.hostCaps == map[flow.src.ip := set n | n in client]
    ensures var t' := SshTables.Recorded(t, Flow(flow.dst, flow.src), server);
            && t'.sessions == map[flow := SshTables.SshSession(Some(client), Some(server),
                                                               SshTables.Negotiated(client, server))]
            && t'.hostCaps == map[flow.src.ip := set n | n in client][flow.dst.ip := set n | n in server]
  {
    hide SshTables.Negotiated;
    assert {} + SshTables.Names(server) == set n | n in server;
  }

  predicate IsMarked(algos: Algorithms, name: Name) {
    name in algos.kex && (algos.kex[name].pqc || algos.kex[name].hybrid == Some(true))
  }

  /** What the report says of it: two hosts, each a PQC host by its own names, and one session. */
  lemma ExchangeReport(t: Capture.Tables, flow: Flow, client: seq<Name>, server: seq<Name>, algos: Algorithms)
    requires flow.src.ip != flow.dst.ip
    requires t.ssh.sessions
             == map[flow := SshTables.SshSession(Some(client), Some(server), SshTables.Negotiated(client, server))]
    requires t.ssh.hostCaps == map[flow.src.ip := set n | n in client][flow.dst.ip := set n | n in server]
    requires t.tls == TlsTables.TlsState(map[], map[], map[])
    ensures ReportOf(t, algos).Ok?
    ensures var r := ReportOf(t, algos).value;
            var chosen := SshTables.Negotiated(client, server);
            && r.hosts == r.sshHosts == {flow.src.ip, flow.dst.ip} && r.tlsHosts == {}
            && r.pqcHosts <= r.hosts
            && (flow.src.ip in r.pqcHosts <==> exists n :: n in client && IsMarked(algos, n))
            && (flow.dst.ip in r.pqcHosts <==> exists n :: n in server && IsMarked(algos, n))
            && r.sshSessions == 1
            && r.sshPqcSessions == (if chosen.Some? && chosen.value in algos.kex && algos.kex[chosen.value].pqc
                                    then 1 else 0)
            && r.tlsSessions == 0 && r.tlsPqcSessions == 0
  {
    ExchangeHosts(flow.src.ip, flow.dst.ip, client, server, algos);
    ExchangeCounts(flow, client, server, algos);
    NoTls(algos);
    hide Ips, PqcEndpoints, PqcTlsFlows, PqcSshHosts, PqcSshFlows, IsMarked, SshTables.Negotiated;
    assert t.tls.groups.Keys == {} && t.tls.ciphers.Keys == {} && |t.tls.sessions| == 0;
    NoneAdded(t.ssh.hostCaps.Keys, PqcSshHosts(algos, t.ssh.hostCaps));
  }

  lemma NoneAdded(a: set<IpAddr>, b: set<IpAddr>)
    ensures a + {} == a && b + {} == b
  {
  }

  /** The same for the capture of the two. */
  lemma ExchangeIsReported(p: Packet, q: Packet, f: SshKexInit.Frame, lists: seq<seq<Name>>, rest: seq<u8>,
                           f': SshKexInit.Frame, lists': seq<seq<Name>>, rest': seq<u8>, algos: Algorithms)
    requires IsKexInit(f, lists) && p.payload == SshKexInit.EncodeKexInit(f, lists) + rest
    requires IsKexInit(f', lists') && q.payload == SshKexInit.EncodeKexInit(f', lists') + rest'
    requires Timestamps.IsValid(p.stamp) && Timestamps.IsValid(q.stamp)
    requires q.flow == Flow(p.flow.dst, p.flow.src) && p.flow.src.ip != p.flow.dst.ip
    ensures Capture.Run([p, q]).Ok? && ReportOf(Capture.Run([p, q]).value.tables, algos).Ok?
    ensures var r := ReportOf(Capture.Run([p, q]).value.tables, algos).value;
            && r.sshHosts == {p.flow.src.ip, p.flow.dst.ip} && r.sshSessions == 1 && r.tlsSessions == 0
            && (p.flow.src.ip in r.pqcHosts <==> exists n :: n in lists[0] && IsMarked(algos, n))
            && (p.flow.dst.ip in r.pqcHosts <==> exists n :: n in lists'[0] && IsMarked(algos, n))
  {
    ExchangeTables(p, q, f, lists, rest, f', lists', rest');
    assert |lists| == |lists'| == 10;
    hide *;
    ExchangeReport(Capture.Run([p, q]).value.tables, p.flow, lists[0], lists'[0], algos);
  }

  lemma ExchangeHosts(a: IpAddr, b: IpAddr, client: seq<Name>, server: seq<Name>, algos: Algorithms)
    requires a != b
    ensures var caps := map[a := set n | n in client][b := set n | n in server];
            var hosts := PqcSshHosts(algos, caps);
            && caps.Keys == {a, b} && hosts <= {a, b}
            && (a in hosts <==> exists n :: n in client && IsMarked(algos, n))
            && (b in hosts <==> exists n :: n in server && IsMarked(algos, n))
  {
    var caps := map[a := set n | n in client][b := set n | n in server];
    OffersAny(client, algos);
    OffersAny(server, algos);
    hide OffersPqcKex, IsMarked;
    assert caps.Keys == {a, b};
  }

  lemma OffersAny(names: seq<Name>, algos: Algorithms)
    ensures OffersPqcKex(algos, set n | n in names) <==> exists n :: n in names && IsMarked(algos, n)
  {
    assert forall n :: KexIsPqc(algos, n) <==> IsMarked(algos, n);
    hide KexIsPqc, IsMarked;
  }

  lemma ExchangeCounts(flow: Flow, client: seq<Name>, server: seq<Name>, algos: Algorithms)
    ensures var chosen := SshTables.Negotiated(client, server);
            var sessions := map[flow := SshTables.SshSession(Some(client), Some(server), chosen)];
            && |sessions| == 1
            && |PqcSshFlows(algos, sessions)|
               == if chosen.Some? && chosen.value in algos.kex && algos.kex[chosen.value].pqc then 1 else 0
  {
    hide SshTables.Negotiated;
    var s := SshTables.SshSession(Some(client), Some(server), SshTables.Negotiated(client, server));
    assert PqcSshFlows(algos, map[flow := s]) == if IsPqcSession(algos, s) then {flow} else {};
    assert map[flow := s].Keys == {flow} && |map[flow := s]| == |map[flow := s].Keys|;
  }

  lemma NoTls(algos: Algorithms)
    ensures Ips({}) == {} && PqcEndpoints(algos, map[]) == {} && PqcTlsFlows(algos, map[]) == {}
  {
  }
}
