/**
 The aggregation at the end of pqcdump's `main` (pqcdump/src/main.rs): hosts, hosts with PQC support
 and session counts. Hash-map iteration order is left open: a loop takes any key that is left.
 */
module CaptureReport {
  import opened Common
  import opened Net
  import opened NameLists
  import SshTables
  import TlsTables
  import Capture
  import Timestamps
  import ClientHello
  import B = ClientHelloBuilder
  import ClientHelloRoundTrip

  datatype KexAlgo = KexAlgo(pqc: bool, hybrid: Option<bool>)

  datatype TlsGroup = TlsGroup(pqc: bool, hybrid: bool)

  /** The algorithm tables, which come from data files. */
  datatype Algorithms = Algorithms(kex: map<Name, KexAlgo>, groups: map<u16, TlsGroup>)

  datatype Report = Report(hosts: set<IpAddr>, pqcHosts: set<IpAddr>, sshHosts: set<IpAddr>, tlsHosts: set<IpAddr>,
                           sshSessions: nat, sshPqcSessions: nat, tlsSessions: nat, tlsPqcSessions: nat)

  // ----- what the report is to say -----

  predicate KexIsPqc(algos: Algorithms, alg: Name) {
    alg in algos.kex && (algos.kex[alg].pqc || algos.kex[alg].hybrid == Some(true))
  }

  predicate GroupIsPqc(algos: Algorithms, group: u16) {
    group in algos.groups && (algos.groups[group].pqc || algos.groups[group].hybrid)
  }

  predicate OffersPqcKex(algos: Algorithms, names: set<Name>) {
    exists alg | alg in names :: KexIsPqc(algos, alg)
  }

  predicate OffersPqcGroup(algos: Algorithms, groups: set<u16>) {
    exists g | g in groups :: GroupIsPqc(algos, g)
  }

  function PqcSshHosts(algos: Algorithms, caps: map<IpAddr, set<Name>>): set<IpAddr> {
    set h | h in caps && OffersPqcKex(algos, caps[h])
  }

  function Ips(endpoints: set<Endpoint>): set<IpAddr> {
    set e | e in endpoints :: e.ip
  }

  function PqcEndpoints(algos: Algorithms, groups: map<Endpoint, set<u16>>): set<Endpoint> {
    set e | e in groups && OffersPqcGroup(algos, groups[e])
  }

  function PqcSshFlows(algos: Algorithms, sessions: map<Flow, SshTables.SshSession>): set<Flow> {
    set f | f in sessions && IsPqcSession(algos, sessions[f])
  }

  /** A session counts as PQC by the `pqc` mark of its negotiated name alone. */
  predicate IsPqcSession(algos: Algorithms, s: SshTables.SshSession) {
    s.negotiated.Some? && s.negotiated.value in algos.kex && algos.kex[s.negotiated.value].pqc
  }

  function PqcTlsFlows(algos: Algorithms, sessions: map<Flow, u16>): set<Flow> {
    set f | f in sessions && GroupIsPqc(algos, sessions[f])
  }

  /** A key without brackets parses as a socket address only for IPv4; any other aborts the program. */
  predicate KeysParse(t: TlsTables.TlsState) {
    && (forall e | e in t.ciphers :: e.ip.V4?)
    && (forall e | e in t.groups :: e.ip.V4?)
  }

  function ReportOf(t: Capture.Tables, algos: Algorithms): Outcome<Report, ()> {
    if !KeysParse(t.tls) then Panic
    else Ok(Report(
              t.ssh.hostCaps.Keys + Ips(t.tls.groups.Keys),
              PqcSshHosts(algos, t.ssh.hostCaps) + Ips(PqcEndpoints(algos, t.tls.groups)),
              t.ssh.hostCaps.Keys, Ips(t.tls.ciphers.Keys),
              |t.ssh.sessions|, |PqcSshFlows(algos, t.ssh.sessions)|,
              |t.tls.sessions|, |PqcTlsFlows(algos, t.tls.sessions)|))
  }

  // ----- the loops -----

  method AnyPqcKex(algos: Algorithms, names: set<Name>) returns (pqcSupported: bool)
    ensures pqcSupported <==> OffersPqcKex(algos, names)
  {
    pqcSupported := false;
    var left := names;
    while left != {}
      invariant left <= names
      invariant pqcSupported <==> OffersPqcKex(algos, names - left)
      decreases |left|
    {
      var alg :| alg in left;
      left := left - {alg};
      assert names - left == names - (left + {alg}) + {alg};
      if alg in algos.kex {
        var algo := algos.kex[alg];
        if algo.pqc || (algo.hybrid.Some? && algo.hybrid.value) {
          pqcSupported := true;
        }
      }
    }
    assert names - left == names;
  }

  method AnyPqcGroup(algos: Algorithms, values: set<u16>) returns (pqcSupported: bool)
    ensures pqcSupported <==> OffersPqcGroup(algos, values)
  {
    pqcSupported := false;
    var left := values;
    while left != {}
      invariant left <= values
      invariant pqcSupported <==> OffersPqcGroup(algos, values - left)
      decreases |left|
    {
      var value :| value in left;
      left := left - {value};
      assert values - left == values - (left + {value}) + {value};
      if value in algos.groups {
        var group := algos.groups[value];
        if group.hybrid {
          pqcSupported := true;
        } else if group.pqc {
          pqcSupported := true;
        }
      }
    }
    assert values - left == values;
  }

  method CollectSshHosts(algos: Algorithms, hostCaps: map<IpAddr, set<Name>>)
    returns (sshHosts: set<IpAddr>, hosts: set<IpAddr>, pqcHosts: set<IpAddr>)
    ensures sshHosts == hosts == hostCaps.Keys && pqcHosts == PqcSshHosts(algos, hostCaps)
  {
    hide OffersPqcKex, PqcSshHosts;
    sshHosts, hosts, pqcHosts := {}, {}, {};
    var left := hostCaps.Keys;
    while left != {}
      invariant left <= hostCaps.Keys && sshHosts == hosts
      invariant forall h :: h in hosts <==> h in hostCaps && h !in left
      invariant forall h :: h in pqcHosts <==> h in hosts && OffersPqcKex(algos, hostCaps[h])
      decreases |left|
    {
      var host :| host in left;
      left := left - {host};
      sshHosts := sshHosts + {host};
      hosts := hosts + {host};
      var pqcSupported := AnyPqcKex(algos, hostCaps[host]);
      if pqcSupported {
        pqcHosts := pqcHosts + {host};
      }
    }
    AllHosts(algos, hostCaps, hosts, pqcHosts);
  }

  lemma AllHosts(algos: Algorithms, hostCaps: map<IpAddr, set<Name>>, hosts: set<IpAddr>, pqcHosts: set<IpAddr>)
    requires forall h :: h in hosts <==> h in hostCaps
    requires forall h :: h in pqcHosts <==> h in hostCaps && OffersPqcKex(algos, hostCaps[h])
    ensures hosts == hostCaps.Keys && pqcHosts == PqcSshHosts(algos, hostCaps)
  {
    hide OffersPqcKex;
  }

  method CountSshSessions(algos: Algorithms, sessions: map<Flow, SshTables.SshSession>) returns (count: nat)
    ensures count == |PqcSshFlows(algos, sessions)|
  {
    hide IsPqcSession, PqcSshFlows;
    count := 0;
    var left := sessions.Keys;
    ghost var counted: set<Flow> := {};
    while left != {}
      invariant left <= sessions.Keys && count == |counted|
      invariant forall f :: f in counted <==> f in sessions && f !in left && IsPqcSession(algos, sessions[f])
      decreases |left|
    {
      var flow :| flow in left;
      left := left - {flow};
      SessionIsPqc(algos, sessions[flow]);
      var negotiated := sessions[flow].negotiated;
      if negotiated.Some? && negotiated.value in algos.kex {
        if algos.kex[negotiated.value].pqc {
          count := count + 1;
          counted := counted + {flow};
        }
      }
    }
    AllCounted(algos, sessions, counted);
  }

  lemma SessionIsPqc(algos: Algorithms, s: SshTables.SshSession)
    ensures IsPqcSession(algos, s) <==>
            s.negotiated.Some? && s.negotiated.value in algos.kex && algos.kex[s.negotiated.value].pqc
  {
  }

  lemma AllCounted(algos: Algorithms, sessions: map<Flow, SshTables.SshSession>, counted: set<Flow>)
    requires forall f :: f in counted <==> f in sessions && IsPqcSession(algos, sessions[f])
    ensures counted == PqcSshFlows(algos, sessions)
  {
    hide IsPqcSession;
  }

  /** The addresses of some endpoints, added to those there were. */
  predicate Gathered(hosts: set<IpAddr>, hosts0: set<IpAddr>, endpoints: set<Endpoint>) {
    hosts == hosts0 + Ips(endpoints)
  }

  lemma GatherNone(hosts: set<IpAddr>)
    ensures Gathered(hosts, hosts, {})
  {
  }

  lemma GatherNext(hosts: set<IpAddr>, hosts0: set<IpAddr>, endpoints: set<Endpoint>, e: Endpoint)
    requires Gathered(hosts, hosts0, endpoints)
    ensures Gathered(hosts + {e.ip}, hosts0, endpoints + {e})
  {
    assert Ips(endpoints + {e}) == Ips(endpoints) + {e.ip};
  }

  method CollectTlsHosts(ciphers: map<Endpoint, set<u16>>) returns (r: Outcome<set<IpAddr>, ()>)
    ensures r == if forall e | e in ciphers :: e.ip.V4? then Ok(Ips(ciphers.Keys)) else Panic
  {
    hide Ips, Gathered;
    var tlsHosts: set<IpAddr> := {};
    var left := ciphers.Keys;
    ghost var done: set<Endpoint> := {};
    GatherNone({});
    while left != {}
      invariant forall e :: e in ciphers <==> e in done || e in left
      invariant Gathered(tlsHosts, {}, done)
      invariant forall e | e in done :: e.ip.V4?
      decreases |left|
    {
      var key :| key in left;
      left := left - {key};
      if !key.ip.V4? {
        return Panic;  // `parse::<SocketAddr>().expect(..)`
      }
      GatherNext(tlsHosts, {}, done, key);
      done := done + {key};
      tlsHosts := tlsHosts + {key.ip};
    }
    assert done == ciphers.Keys;
    assert tlsHosts == Ips(done) by { GatheredAll(tlsHosts, done); }
    r := Ok(tlsHosts);
  }

  lemma GatheredAll(hosts: set<IpAddr>, endpoints: set<Endpoint>)
    requires Gathered(hosts, {}, endpoints)
    ensures hosts == Ips(endpoints)
  {
  }

  method CollectGroupHosts(algos: Algorithms, groups: map<Endpoint, set<u16>>,
                           hosts0: set<IpAddr>, pqcHosts0: set<IpAddr>)
    returns (r: Outcome<(set<IpAddr>, set<IpAddr>), ()>)
    ensures r == if forall e | e in groups :: e.ip.V4?
                 then Ok((hosts0 + Ips(groups.Keys), pqcHosts0 + Ips(PqcEndpoints(algos, groups)))) else Panic
  {
    hide *;
    var hosts, pqcHosts := hosts0, pqcHosts0;
    var left := groups.Keys;
    ghost var done: set<Endpoint>, donePqc: set<Endpoint> := {}, {};
    GatherNone(hosts0);
    GatherNone(pqcHosts0);
    while left != {}
      invariant forall e :: e in groups <==> e in done || e in left
      invariant Gathered(hosts, hosts0, done) && Gathered(pqcHosts, pqcHosts0, donePqc)
      invariant forall e :: e in donePqc <==> e in done && e in groups && OffersPqcGroup(algos, groups[e])
      invariant forall e | e in done :: e.ip.V4?
      decreases |left|
    {
      var key :| key in left;
      left := left - {key};
      if !key.ip.V4? {
        return Panic;  // `parse::<SocketAddr>().expect(..)`
      }
      GatherNext(hosts, hosts0, done, key);
      done := done + {key};
      hosts := hosts + {key.ip};
      var pqcSupported := AnyPqcGroup(algos, groups[key]);
      if pqcSupported {
        GatherNext(pqcHosts, pqcHosts0, donePqc, key);
        donePqc := donePqc + {key};
        pqcHosts := pqcHosts + {key.ip};
      }
    }
    AllGathered(algos, groups, hosts, hosts0, done);
    AllGathered(algos, groups, pqcHosts, pqcHosts0, donePqc);
    r := Ok((hosts, pqcHosts));
  }

  lemma AllGathered(algos: Algorithms, groups: map<Endpoint, set<u16>>, hosts: set<IpAddr>, hosts0: set<IpAddr>,
                    endpoints: set<Endpoint>)
    requires Gathered(hosts, hosts0, endpoints)
    ensures (forall e :: e in endpoints <==> e in groups) ==> hosts == hosts0 + Ips(groups.Keys)
    ensures (forall e :: e in endpoints <==> e in groups && OffersPqcGroup(algos, groups[e])) ==>
              hosts == hosts0 + Ips(PqcEndpoints(algos, groups))
  {
    hide OffersPqcGroup;
    if forall e :: e in endpoints <==> e in groups {
      assert endpoints == groups.Keys;
    }
    if forall e :: e in endpoints <==> e in groups && OffersPqcGroup(algos, groups[e]) {
      assert endpoints == PqcEndpoints(algos, groups);
    }
  }

  method CountTlsSessions(algos: Algorithms, sessions: map<Flow, u16>) returns (count: nat)
    ensures count == |PqcTlsFlows(algos, sessions)|
  {
    hide PqcTlsFlows;
    count := 0;
    var left := sessions.Keys;
    ghost var counted: set<Flow> := {};
    while left != {}
      invariant left <= sessions.Keys && count == |counted|
      invariant forall f :: f in counted <==> f in sessions && f !in left && GroupIsPqc(algos, sessions[f])
      decreases |left|
    {
      var key :| key in left;
      left := left - {key};
      if sessions[key] in algos.groups {
        var group := algos.groups[sessions[key]];
        if group.hybrid {
          count := count + 1;
          counted := counted + {key};
        } else if group.pqc {
          count := count + 1;
          counted := counted + {key};
        }
      }
    }
    AllTlsCounted(algos, sessions, counted);
  }

  lemma AllTlsCounted(algos: Algorithms, sessions: map<Flow, u16>, counted: set<Flow>)
    requires forall f :: f in counted <==> f in sessions && GroupIsPqc(algos, sessions[f])
    ensures counted == PqcTlsFlows(algos, sessions)
  {
    hide GroupIsPqc;
  }

  method Aggregate(t: Capture.Tables, algos: Algorithms) returns (r: Outcome<Report, ()>)
    ensures r == ReportOf(t, algos)
  {
    hide PqcSshHosts, PqcEndpoints, PqcSshFlows, PqcTlsFlows, Ips;
    var sshHosts, hosts, pqcHosts := CollectSshHosts(algos, t.ssh.hostCaps);
    var sshPqc := CountSshSessions(algos, t.ssh.sessions);
    var tlsHosts :- CollectTlsHosts(t.tls.ciphers);
    var both :- CollectGroupHosts(algos, t.tls.groups, hosts, pqcHosts);
    var tlsPqc := CountTlsSessions(algos, t.tls.sessions);
    r := Ok(Report(both.0, both.1, sshHosts, tlsHosts, |t.ssh.sessions|, sshPqc, |t.tls.sessions|, tlsPqc));
  }

  // ----- what follows for every capture -----

  /** Tables a run of packets can leave. */
  ghost predicate Reached(t: Capture.Tables) {
    exists packets :: IsRunOf(packets, t)
  }

  predicate IsRunOf(packets: seq<Packet>, t: Capture.Tables) {
    var r := Capture.Run(packets);
    r.Ok? && r.value.tables == t
  }

  lemma NegotiatedIsOffered(t: SshTables.SshState, algos: Algorithms, f: Flow)
    requires SshTables.CapsAreView(t) && SshTables.NegotiatedExactly(t)
    requires f in t.sessions && t.sessions[f].negotiated.Some? && KexIsPqc(algos, t.sessions[f].negotiated.value)
    ensures f.src.ip in PqcSshHosts(algos, t.hostCaps) && f.dst.ip in PqcSshHosts(algos, t.hostCaps)
  {
    hide KexIsPqc;
    var s := t.sessions[f];
    var alg := s.negotiated.value;
    assert s.client.Some? && s.server.Some? && alg in s.client.value && alg in s.server.value;
    assert alg in SshTables.ListedIn(f, s, f.src.ip) && alg in SshTables.ListedIn(f, s, f.dst.ip);
    assert alg in SshTables.CapsOf(t.hostCaps, f.src.ip) && alg in SshTables.CapsOf(t.hostCaps, f.dst.ip);
  }

  /** A session that negotiated a PQC exchange has both its hosts among the PQC hosts. */
  lemma PqcSshSessionHasPqcHosts(t: Capture.Tables, algos: Algorithms, f: Flow)
    requires Reached(t) && ReportOf(t, algos).Ok?
    requires f in t.ssh.sessions && t.ssh.sessions[f].negotiated.Some?
    requires KexIsPqc(algos, t.ssh.sessions[f].negotiated.value)
    ensures f.src.ip in ReportOf(t, algos).value.pqcHosts
    ensures f.dst.ip in ReportOf(t, algos).value.pqcHosts
  {
    var packets :| IsRunOf(packets, t);
    Capture.RunIsTablesOfViews(packets);
    var events := Capture.KexEvents(Capture.Views(packets));
    SshTables.HostCapsAreExact(events);
    SshTables.NegotiationIsExact(events);
    hide Capture.Run, Capture.Views, Capture.KexEvents, SshTables.Run, SshTables.CapsAreView,
         SshTables.NegotiatedExactly, PqcSshHosts, KexIsPqc;
    NegotiatedIsOffered(t.ssh, algos, f);
  }

  /** The sessions whose negotiated exchange is PQC or hybrid. */
  function PqcKexFlows(algos: Algorithms, sessions: map<Flow, SshTables.SshSession>): set<Flow> {
    set f | f in sessions && sessions[f].negotiated.Some? && KexIsPqc(algos, sessions[f].negotiated.value)
  }

  /** A name the data file marks hybrid but not PQC. */
  predicate HybridOnly(algos: Algorithms, alg: Name) {
    alg in algos.kex && !algos.kex[alg].pqc && algos.kex[alg].hybrid == Some(true)
  }

  /**
   The session count is the number of sessions with a PQC or hybrid exchange exactly when none of them
   negotiated a name that is hybrid only; it is never more.
   */
  lemma SessionCountIsExact(algos: Algorithms, sessions: map<Flow, SshTables.SshSession>)
    ensures |PqcSshFlows(algos, sessions)| <= |PqcKexFlows(algos, sessions)|
    ensures |PqcSshFlows(algos, sessions)| == |PqcKexFlows(algos, sessions)| <==>
            forall f | f in sessions && sessions[f].negotiated.Some? ::
              !HybridOnly(algos, sessions[f].negotiated.value)
  {
    var counted, all := PqcSshFlows(algos, sessions), PqcKexFlows(algos, sessions);
    assert all == counted + (all - counted);
    assert forall f :: f in all - counted <==>
      f in sessions && sessions[f].negotiated.Some? && HybridOnly(algos, sessions[f].negotiated.value);
    if all - counted == {} {
      assert all == counted;
    }
  }

  /** Two hosts that both list one hybrid-only name: each is a PQC host, their session is not counted. */
  lemma HybridOnlySession(f: Flow, alg: Name)
    requires f != Reverse(f)
    ensures var algos := Algorithms(map[alg := KexAlgo(false, Some(true))], map[]);
            var t := SshTables.Run([SshTables.KexEvent(f, [alg]), SshTables.KexEvent(Reverse(f), [alg])]);
            && f.src.ip in PqcSshHosts(algos, t.hostCaps) && f.dst.ip in PqcSshHosts(algos, t.hostCaps)
            && f in t.sessions && t.sessions[f].negotiated == Some(alg)
            && f !in PqcSshFlows(algos, t.sessions)
  {
    var first, second := SshTables.KexEvent(f, [alg]), SshTables.KexEvent(Reverse(f), [alg]);
    SshTables.RunSnoc([], first);
    SshTables.RunSnoc([first], second);
    assert [] + [first] == [first] && [first] + [second] == [first, second];
    hide SshTables.Run;
    assert SshTables.Negotiated([alg], [alg]) == Some(alg);
    assert alg in SshTables.Names([alg]);
    var algos := Algorithms(map[alg := KexAlgo(false, Some(true))], map[]);
    assert KexIsPqc(algos, alg);
  }

  /** A TLS session whose group is PQC has its server among the PQC hosts. */
  lemma PqcTlsSessionHasPqcServer(t: Capture.Tables, algos: Algorithms, f: Flow)
    requires Reached(t) && ReportOf(t, algos).Ok?
    requires f in t.tls.sessions && GroupIsPqc(algos, t.tls.sessions[f])
    ensures f.dst.ip in ReportOf(t, algos).value.pqcHosts
  {
    var packets :| IsRunOf(packets, t);
    Capture.RunIsTablesOfViews(packets);
    TlsTables.SessionGroupIsListed(Capture.Hellos(Capture.Views(packets)), f);
    hide Capture.Run, Capture.Views, Capture.Hellos, TlsTables.Run;
    assert f.dst in PqcEndpoints(algos, t.tls.groups);
  }

  /** PQC hosts are hosts. */
  lemma PqcHostsAreHosts(t: Capture.Tables, algos: Algorithms)
    requires ReportOf(t, algos).Ok?
    ensures ReportOf(t, algos).value.pqcHosts <= ReportOf(t, algos).value.hosts
  {
    hide OffersPqcGroup, OffersPqcKex;
  }

  ghost predicate OfferedKex(events: seq<SshTables.KexEvent>, algos: Algorithms, host: IpAddr) {
    exists f: Flow, alg ::
      f.src.ip == host && SshTables.FirstOn(f, events).Some? && alg in SshTables.FirstOn(f, events).value
      && KexIsPqc(algos, alg)
  }

  ghost predicate OfferedGroup(hellos: seq<TlsTables.Hello>, algos: Algorithms, host: IpAddr) {
    exists h, g :: h in hellos && TlsTables.Sender(h).ip == host && g in TlsTables.GroupsOf(h) && GroupIsPqc(algos, g)
  }

  lemma PqcTlsHostsOffered(hellos: seq<TlsTables.Hello>, algos: Algorithms, host: IpAddr)
    ensures host in Ips(PqcEndpoints(algos, TlsTables.Run(hellos).groups)) <==> OfferedGroup(hellos, algos, host)
  {
    var groups := TlsTables.Run(hellos).groups;
    hide TlsTables.Run, GroupIsPqc, TlsTables.GroupsOf, TlsTables.Sender;
    if host in Ips(PqcEndpoints(algos, groups)) {
      var e :| e in PqcEndpoints(algos, groups) && e.ip == host;
      var g :| g in groups[e] && GroupIsPqc(algos, g);
      TlsTables.TablesClosedForm(hellos, e, g, Flow(e, e));
    }
    if h, g :| h in hellos && TlsTables.Sender(h).ip == host && g in TlsTables.GroupsOf(h) && GroupIsPqc(algos, g) {
      var e := TlsTables.Sender(h);
      TlsTables.TablesClosedForm(hellos, e, g, Flow(e, e));
      assert e in PqcEndpoints(algos, groups);
    }
  }

  lemma PqcSshHostsOffered(events: seq<SshTables.KexEvent>, algos: Algorithms, host: IpAddr)
    ensures host in PqcSshHosts(algos, SshTables.Run(events).hostCaps) <==> OfferedKex(events, algos, host)
  {
    var caps := SshTables.Run(events).hostCaps;
    hide SshTables.Run, SshTables.FirstOn, KexIsPqc;
    if host in PqcSshHosts(algos, caps) {
      var alg :| alg in caps[host] && KexIsPqc(algos, alg);
      assert alg in SshTables.CapsOf(caps, host);
      SshTables.ListedExactly(events, host, alg);
    }
    if f: Flow, alg :| f.src.ip == host && SshTables.FirstOn(f, events).Some?
                       && alg in SshTables.FirstOn(f, events).value && KexIsPqc(algos, alg) {
      SshTables.ListedExactly(events, host, alg);
      assert alg in SshTables.CapsOf(caps, host);
    }
  }

  /**
   A host is a PQC host exactly when it offered something PQC: a name in the first KEXINIT of a flow from
   it, or a group in a hello it sent.
   */
  lemma PqcHostsOfferedPqc(packets: seq<Packet>, t: Capture.Tables, algos: Algorithms, host: IpAddr)
    requires IsRunOf(packets, t) && ReportOf(t, algos).Ok?
    ensures host in ReportOf(t, algos).value.pqcHosts <==>
            || OfferedKex(Capture.KexEvents(Capture.Views(packets)), algos, host)
            || OfferedGroup(Capture.Hellos(Capture.Views(packets)), algos, host)
  {
    Capture.RunIsTablesOfViews(packets);
    hide Capture.Run, Capture.Views, Capture.KexEvents, Capture.Hellos, SshTables.Run, TlsTables.Run,
         PqcSshHosts, PqcEndpoints, OfferedGroup, OfferedKex;
    PqcSshHostsOffered(Capture.KexEvents(Capture.Views(packets)), algos, host);
    PqcTlsHostsOffered(Capture.Hellos(Capture.Views(packets)), algos, host);
  }

  /**
   The report aborts exactly when a hello with cipher suites or groups came from an IPv6 endpoint, as
   every ServerHello has.
   */
  lemma ReportAbortsExactly(packets: seq<Packet>, algos: Algorithms)
    requires Capture.Run(packets).Ok?
    ensures ReportOf(Capture.Run(packets).value.tables, algos) == Panic <==>
            exists h | h in Capture.Hellos(Capture.Views(packets)) ::
              !TlsTables.Sender(h).ip.V4? && (h.ciphers != [] || TlsTables.GroupsOf(h) != [])
  {
    Capture.RunIsTablesOfViews(packets);
    var hellos := Capture.Hellos(Capture.Views(packets));
    hide Capture.Run, Capture.Views, Capture.Hellos, TlsTables.Run, TlsTables.GroupsOf, TlsTables.Sender;
    forall e
      ensures e in TlsTables.Run(hellos).ciphers
              <==> exists h | h in hellos :: TlsTables.Sender(h) == e && h.ciphers != []
      ensures e in TlsTables.Run(hellos).groups
              <==> exists h | h in hellos :: TlsTables.Sender(h) == e && TlsTables.GroupsOf(h) != []
    {
      TlsTables.EntriesClosedForm(hellos, e);
    }
  }

  // ----- a capture whose report aborts -----

  lemma {:induction false} HelloIsListed(views: seq<Capture.View>, v: Capture.View, h: TlsTables.Hello)
    requires v in views && Capture.HelloEventIn(v) == [h]
    ensures h in Capture.Hellos(views)
  {
    hide Capture.HelloEventIn;
    var before, last := views[..|views| - 1], views[|views| - 1];
    assert views == before + [last];
    if v != last {
      HelloIsListed(before, v, h);
    } else {
      assert h in Capture.HelloEventIn(last);
    }
  }

  /** A built ClientHello is a hello that the parser does not panic on. */
  lemma BuiltHelloIsSeen(flow: Flow, h: B.Hello, kinds: seq<B.Kind>)
    requires B.CanEncode(h) && |h.random| == 32 && B.AllFit(kinds) && h.extensions == B.BuildAll(kinds)
    ensures var groups := ClientHelloRoundTrip.GroupsOf(kinds);
            Capture.HelloEventIn(Capture.View(flow, B.Encoded(h)))
            == [TlsTables.Client(flow.src, h.cipherSuites, groups)]
    ensures |B.Encoded(h)| >= 6 && !Capture.AbortsOn(B.Encoded(h))
  {
    var e := B.Encoded(h);
    ClientHelloRoundTrip.LengthsAgree(h);
    ClientHelloRoundTrip.RoundTrip(h, kinds, []);
    assert e + [] == e;
    ClientHello.PanicsExactly(e);
    hide B.Encoded, B.BuildAll, B.AllFit, B.CanEncode, ClientHello.Parsed, ClientHello.EndsInOddSuites,
         ClientHelloRoundTrip.GroupsOf;
  }

  /** A run of one packet looks at its payload and at nothing else. */
  lemma OneView(p: Packet)
    requires |p.payload| >= 6
    ensures forall v :: v in Capture.Views([p]) <==> v == Capture.View(p.flow, p.payload)
  {
    assert [p][..0] == [];
    Capture.NewViews([p]);
    Capture.JoinedInOrder([], p);
    assert Capture.Views([]) == [];
    hide Capture.Views;
  }

  /** A capture of one built ClientHello from an IPv6 endpoint is read, and its report aborts. */
  lemma BuiltHelloAborts(p: Packet, h: B.Hello, kinds: seq<B.Kind>, algos: Algorithms)
    requires B.CanEncode(h) && |h.random| == 32 && B.AllFit(kinds) && h.extensions == B.BuildAll(kinds)
    requires p.payload == B.Encoded(h) && h.cipherSuites != []
    requires Timestamps.IsValid(p.stamp) && p.flow.src.ip.V6?
    ensures Capture.Run([p]).Ok? && ReportOf(Capture.Run([p]).value.tables, algos) == Panic
  {
    hide *;
    var hello := TlsTables.Client(p.flow.src, h.cipherSuites, ClientHelloRoundTrip.GroupsOf(kinds));
    BuiltHelloIsSeen(p.flow, h, kinds);
    OneView(p);
    Capture.RunPanicsExactly([p]);
    HelloIsListed(Capture.Views([p]), Capture.View(p.flow, p.payload), hello);
    SenderOfClient(p.flow.src, h.cipherSuites, ClientHelloRoundTrip.GroupsOf(kinds));
    ReportAbortsExactly([p], algos);
  }

  /** For example, a hello with one suite and no extensions. */
  lemma Ipv6HelloAborts(from: Endpoint, to: Endpoint, random: seq<u8>, algos: Algorithms)
    requires from.ip.V6? && |random| == 32
    ensures var h := B.Hello(0x0303, random, [], [0x1301], [0], []);
            && B.CanEncode(h)
            && var p := Packet(Stamp(0, 0), Flow(from, to), 0, B.Encoded(h));
            && Capture.Run([p]).Ok? && ReportOf(Capture.Run([p]).value.tables, algos) == Panic
  {
    var h := B.Hello(0x0303, random, [], [0x1301], [0], []);
    assert B.CanEncode(h) && h.extensions == B.BuildAll([]) && B.AllFit([]);
    assert Timestamps.IsValid(Stamp(0, 0));
    hide *;
    BuiltHelloAborts(Packet(Stamp(0, 0), Flow(from, to), 0, B.Encoded(h)), h, [], algos);
  }

  lemma SenderOfClient(from: Endpoint, ciphers: seq<u16>, groups: seq<u16>)
    ensures TlsTables.Sender(TlsTables.Client(from, ciphers, groups)) == from
  {
  }

  // ----- the whole report, by what was captured -----

  /** What the two sides of a session negotiated, by their first KEXINITs. */
  function Chosen(events: seq<SshTables.KexEvent>, f: Flow): Option<Name> {
    var client, server := SshTables.FirstOn(f, events), SshTables.FirstOn(Reverse(f), events);
    if client == None || server == None || f == Reverse(f) then None
    else SshTables.Negotiated(client.value, server.value)
  }

  function SshFlows(events: seq<SshTables.KexEvent>): set<Flow> {
    set e | e in events && SshTables.Opened(e.flow, events) == Some(e.flow) :: e.flow
  }

  function MarkedSshFlows(events: seq<SshTables.KexEvent>, algos: Algorithms): set<Flow> {
    set f | f in SshFlows(events) && Chosen(events, f).Some? && Chosen(events, f).value in algos.kex
            && algos.kex[Chosen(events, f).value].pqc
  }

  function TlsFlows(hellos: seq<TlsTables.Hello>): set<Flow> {
    set h | h in hellos && h.Server? :: h.session
  }

  function MarkedTlsFlows(hellos: seq<TlsTables.Hello>, algos: Algorithms): set<Flow> {
    set f | f in TlsFlows(hellos) && TlsTables.LastGroup(f, hellos).Some?
            && var g := TlsTables.LastGroup(f, hellos).value;
            g in algos.groups && (algos.groups[g].pqc || algos.groups[g].hybrid)
  }

  lemma {:induction false} OpenedByEvent(events: seq<SshTables.KexEvent>, f: Flow)
    ensures SshTables.Opened(f, events).Some? ==> exists e | e in events :: e.flow == SshTables.Opened(f, events).value
  {
    if events != [] {
      OpenedByEvent(events[..|events| - 1], f);
    }
  }

  lemma {:induction false} GroupByHello(hellos: seq<TlsTables.Hello>, f: Flow)
    ensures f in TlsFlows(hellos) <==> TlsTables.LastGroup(f, hellos).Some?
  {
    if hellos != [] {
      var before, last := hellos[..|hellos| - 1], hellos[|hellos| - 1];
      GroupByHello(before, f);
      assert hellos == before + [last];
    }
  }

  /** The sessions and their counts. */
  lemma SshCountsExactly(events: seq<SshTables.KexEvent>, algos: Algorithms)
    ensures var sessions := SshTables.Run(events).sessions;
            |sessions| == |SshFlows(events)| && |PqcSshFlows(algos, sessions)| == |MarkedSshFlows(events, algos)|
  {
    var sessions, flows, marked := SshTables.Run(events).sessions, SshFlows(events), MarkedSshFlows(events, algos);
    hide SshTables.Run, SshTables.FirstOn, SshTables.Opened, SshTables.Negotiated;
    forall f
      ensures f in sessions <==> f in flows
      ensures f in sessions ==> sessions[f].negotiated == Chosen(events, f)
    {
      SshTables.TableClosedForm(f, events);
      OpenedByEvent(events, f);
    }
    assert sessions.Keys == flows && |sessions| == |sessions.Keys|;
    assert PqcSshFlows(algos, sessions) == marked;
  }

  lemma TlsCountsExactly(hellos: seq<TlsTables.Hello>, algos: Algorithms)
    ensures var sessions := TlsTables.Run(hellos).sessions;
            |sessions| == |TlsFlows(hellos)| && |PqcTlsFlows(algos, sessions)| == |MarkedTlsFlows(hellos, algos)|
  {
    var sessions, flows, marked := TlsTables.Run(hellos).sessions, TlsFlows(hellos), MarkedTlsFlows(hellos, algos);
    hide TlsTables.Run, TlsTables.LastGroup;
    forall f
      ensures f in sessions <==> f in flows
      ensures f in sessions ==> TlsTables.LastGroup(f, hellos) == Some(sessions[f])
    {
      TlsTables.TablesClosedForm(hellos, f.dst, 0, f);
      GroupByHello(hellos, f);
    }
    assert sessions.Keys == flows && |sessions| == |sessions.Keys|;
    assert PqcTlsFlows(algos, sessions) == marked;
  }

  ghost predicate SentHello(hellos: seq<TlsTables.Hello>, host: IpAddr, withGroups: bool) {
    exists h :: h in hellos && TlsTables.Sender(h).ip == host
                && (if withGroups then TlsTables.GroupsOf(h) != [] else h.ciphers != [])
  }

  lemma TlsHostsExactly(hellos: seq<TlsTables.Hello>, host: IpAddr)
    ensures host in Ips(TlsTables.Run(hellos).ciphers.Keys) <==> SentHello(hellos, host, false)
    ensures host in Ips(TlsTables.Run(hellos).groups.Keys) <==> SentHello(hellos, host, true)
  {
    var t := TlsTables.Run(hellos);
    hide TlsTables.Run, TlsTables.Sender, TlsTables.GroupsOf;
    forall e
      ensures e in t.ciphers <==> exists h | h in hellos :: TlsTables.Sender(h) == e && h.ciphers != []
      ensures e in t.groups <==> exists h | h in hellos :: TlsTables.Sender(h) == e && TlsTables.GroupsOf(h) != []
    {
      TlsTables.EntriesClosedForm(hellos, e);
    }
  }

  /**
   Every field of the report, by the KEXINITs and hellos in what the capture looked at: the hosts are
   those that sent one with something in it, and the counts are of the sessions they make.
   */
  lemma ReportSaysExactly(packets: seq<Packet>, t: Capture.Tables, algos: Algorithms, host: IpAddr)
    requires IsRunOf(packets, t) && ReportOf(t, algos).Ok?
    ensures var r := ReportOf(t, algos).value;
            var events := Capture.KexEvents(Capture.Views(packets));
            var hellos := Capture.Hellos(Capture.Views(packets));
            && (host in r.sshHosts <==>
                  exists f: Flow :: f.src.ip == host && SshTables.FirstOn(f, events).Some?)
            && (host in r.tlsHosts <==> SentHello(hellos, host, false))
            && (host in r.hosts <==> host in r.sshHosts || SentHello(hellos, host, true))
            && r.sshSessions == |SshFlows(events)| && r.sshPqcSessions == |MarkedSshFlows(events, algos)|
            && r.tlsSessions == |TlsFlows(hellos)| && r.tlsPqcSessions == |MarkedTlsFlows(hellos, algos)|
  {
    Capture.RunIsTablesOfViews(packets);
    var events, hellos := Capture.KexEvents(Capture.Views(packets)), Capture.Hellos(Capture.Views(packets));
    assert t.ssh == SshTables.Run(events) && t.tls == TlsTables.Run(hellos);
    SshCountsExactly(events, algos);
    TlsCountsExactly(hellos, algos);
    SshTables.HeardExactly(events, host);
    TlsHostsExactly(hellos, host);
    hide SshTables.Run, TlsTables.Run, Capture.Run, Capture.Views, Capture.KexEvents, Capture.Hellos, SshFlows,
         MarkedSshFlows, TlsFlows, MarkedTlsFlows, Chosen, SentHello, Ips, PqcSshHosts, PqcEndpoints,
         PqcSshFlows, PqcTlsFlows, KeysParse,
         SshTables.FirstOn, TlsTables.LastGroup;
  }
}
