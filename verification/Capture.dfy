/**
 The per-packet driver of pqcdump, `process_packet` and `process_packet_helper` (pqcdump/src/main.rs):
 each payload is looked at by itself and again as the joiner returns it.
 */
module Capture {
  import opened Common
  import opened Net
  import Tcp
  import SshKexInit
  import SshTables
  import TlsTables
  import ClientHello
  import ServerHello
  import opened Timestamps

  /** The tables of both protocols. */
  datatype Tables = Tables(ssh: SshTables.SshState, tls: TlsTables.TlsState)

  datatype State = State(tables: Tables, flows: map<Flow, Tcp.Joiner>)

  const START := State(Tables(SshTables.EMPTY, TlsTables.EMPTY), map[])

  predicate LooksLikeKexInit(payload: seq<u8>) {
    |payload| > 5 && payload[5] == SshKexInit.SSH_MSG_KEXINIT
  }

  predicate LooksLikeHello(payload: seq<u8>) {
    |payload| > 5 && payload[0] == 0x16 && payload[1] == 0x03 && payload[2] <= 0x04
  }

  /** What looking at a payload does to the tables; `Panic` if it aborts the program. */
  function Looked(t: Tables, flow: Flow, payload: seq<u8>): Outcome<Tables, ()> {
    if |payload| <= 5 then Panic
    else
      var ssh := if LooksLikeKexInit(payload) then SshTables.Processed(t.ssh, flow, payload) else t.ssh;
      var tls :- if LooksLikeHello(payload) then TlsTables.Processed(t.tls, flow, payload) else Ok(t.tls);
      Ok(Tables(ssh, tls))
  }

  /** What handing a segment to the reassembler and looking at what it returns does. */
  function JoinedResult(s: State, p: Packet): Outcome<State, ()> {
    var (flows, joined) := Tcp.ReassemblerResult(s.flows, Tcp.Arrival(p.flow, Tcp.Segment(p.seqNo, p.payload)));
    match joined
    case None => Ok(State(s.tables, flows))
    case Some(data) =>
      var twice :- Looked(s.tables, p.flow, data);
      Ok(State(twice, flows))
  }

  /** What a packet does. */
  function PacketResult(s: State, p: Packet): Outcome<State, ()> {
    if |p.payload| < 6 then Ok(s)
    else
      var once :- Looked(s.tables, p.flow, p.payload);
      JoinedResult(State(once, s.flows), p)
  }

  class Analyzer {
    const ssh: SshTables.SshTracker
    const tls: TlsTables.TlsTracker
    const reassembler: Tcp.TcpReassembler

    ghost predicate Valid()
      reads this, reassembler
    {
      reassembler.Valid()
    }

    ghost function Value(): State
      reads this, ssh, tls, reassembler, reassembler.flows.Values
    {
      State(Tables(ssh.Value(), tls.Value()), reassembler.Value())
    }

    constructor ()
      ensures Valid() && Value() == START && fresh(ssh) && fresh(tls) && fresh(reassembler)
      ensures reassembler.flows == map[]
    {
      ssh := new SshTables.SshTracker();
      tls := new TlsTables.TlsTracker();
      reassembler := new Tcp.TcpReassembler();
    }

    method ProcessPacketHelper(flow: Flow, payload: seq<u8>) returns (r: Outcome<(), ()>)
      requires |payload| > 5
      modifies ssh, tls
      ensures match Looked(old(Tables(ssh.Value(), tls.Value())), flow, payload)
              case Ok(t) => r == Ok(()) && Tables(ssh.Value(), tls.Value()) == t
              case _ => r == Panic
    {
      r := Ok(());
      if payload[5] == SshKexInit.SSH_MSG_KEXINIT {
        ssh.ProcessSsh(flow, payload);
      }
      if |payload| > 5 && payload[0] == 0x16 && payload[1] == 0x03 && 0x00 <= payload[2] <= 0x04 {
        r := tls.ProcessSslHello(flow, payload);
      }
    }

    method ProcessPacket(p: Packet) returns (r: Outcome<(), ()>)
      requires Valid()
      modifies ssh, tls, reassembler, reassembler.flows.Values
      ensures match PacketResult(old(Value()), p)
              case Ok(s) => r == Ok(()) && Valid() && Value() == s
              case _ => r == Panic
      ensures fresh(reassembler.flows.Values - old(reassembler.flows.Values))
    {
      hide Looked, JoinedResult;
      if |p.payload| < 6 {
        return Ok(());
      }
      r := ProcessPacketHelper(p.flow, p.payload);
      if r.Panic? {
        return;
      }
      r := ProcessJoined(p);
    }

    /** Try a reassembled packet. */
    method ProcessJoined(p: Packet) returns (r: Outcome<(), ()>)
      requires Valid() && |p.payload| >= 6
      modifies ssh, tls, reassembler, reassembler.flows.Values
      ensures match JoinedResult(old(Value()), p)
              case Ok(s) => r == Ok(()) && Valid() && Value() == s
              case _ => r == Panic
      ensures fresh(reassembler.flows.Values - old(reassembler.flows.Values))
    {
      hide Looked, Tcp.ReassemblerResult;
      JoinedIsLonger(reassembler.Value(), p);
      r := Ok(());
      var joined := reassembler.Push(p.flow, p.seqNo, p.payload);
      if joined.Some? {
        r := ProcessPacketHelper(p.flow, joined.value);
      }
    }
  }

  lemma PacketCases(s: State, p: Packet)
    requires |p.payload| >= 6
    ensures var once := Looked(s.tables, p.flow, p.payload);
            var (flows, joined) := Tcp.ReassemblerResult(s.flows, Tcp.Arrival(p.flow, Tcp.Segment(p.seqNo, p.payload)));
            && (!once.Ok? ==> !PacketResult(s, p).Ok?)
            && (once.Ok? && joined == None ==> PacketResult(s, p) == Ok(State(once.value, flows)))
            && (once.Ok? && joined.Some? ==>
                  var twice := Looked(once.value, p.flow, joined.value);
                  && (!twice.Ok? ==> !PacketResult(s, p).Ok?)
                  && (twice.Ok? ==> PacketResult(s, p) == Ok(State(twice.value, flows))))
  {
    hide Looked, Tcp.ReassemblerResult;
  }

  /** What the joiner returns ends with the payload just pushed. */
  lemma JoinedIsLonger(flows: map<Flow, Tcp.Joiner>, p: Packet)
    ensures var joined := Tcp.ReassemblerResult(flows, Tcp.Arrival(p.flow, Tcp.Segment(p.seqNo, p.payload))).1;
            joined.Some? ==> |joined.value| >= |p.payload|
  {
  }

  // ----- every run -----

  /** One turn of the read loop: the packet, then its timestamp. */
  function Step(s: State, p: Packet): Outcome<State, ()> {
    var s' :- PacketResult(s, p);
    var _ :- TimeOf(p.stamp);
    Ok(s')
  }

  function Run(packets: seq<Packet>): Outcome<State, ()> {
    if packets == [] then Ok(START)
    else
      var s :- Run(packets[..|packets| - 1]);
      Step(s, packets[|packets| - 1])
  }

  /** What the read loop leaves: the tables, the number of packets and the times of the first and the last. */
  datatype Summary = Summary(tables: Tables, packetCount: nat, startTime: Option<Time>, endTime: Option<Time>)

  /** The read loop of `main`. */
  method Analyze(packets: seq<Packet>) returns (r: Outcome<Summary, ()>)
    ensures match Run(packets)
            case Ok(s) =>
              && r.Ok? && r.value.tables == s.tables && r.value.packetCount == |packets|
              && (packets == [] ==> r.value.startTime == r.value.endTime == None)
              && (packets != [] ==> r.value.startTime == TimeIn(packets[0])
                                    && r.value.endTime == TimeIn(packets[|packets| - 1]))
            case _ => r == Panic
  {
    hide PacketResult, TimeOf;
    var analyzer := new Analyzer();
    var packetCount := 0;
    var startTime: Option<Time>, endTime: Option<Time> := None, None;
    assert Run(packets[..0]) == Ok(START);
    for i := 0 to |packets|
      invariant fresh(analyzer.ssh) && fresh(analyzer.tls) && fresh(analyzer.reassembler)
      invariant fresh(analyzer.reassembler.flows.Values)
      invariant analyzer.Valid() && Run(packets[..i]) == Ok(analyzer.Value())
      invariant packetCount == i
      invariant if i == 0 then startTime == endTime == None
                else startTime == TimeIn(packets[0]) && endTime == TimeIn(packets[i - 1])
      invariant i > 0 ==> startTime.Some?
    {
      RunNext(packets, i, analyzer.Value());
      packetCount := packetCount + 1;
      var step := analyzer.ProcessPacket(packets[i]);
      if step.Panic? {
        PanicStays(packets, i + 1);
        return Panic;
      }
      var ts := TimeOf(packets[i].stamp);
      if !ts.Ok? {
        PanicStays(packets, i + 1);
        return Panic;
      }
      if startTime == None {
        startTime := Some(ts.value);
      }
      endTime := Some(ts.value);
    }
    assert packets[..|packets|] == packets;
    r := Ok(Summary(Tables(analyzer.ssh.Value(), analyzer.tls.Value()), packetCount, startTime, endTime));
  }

  function TimeIn(p: Packet): Option<Time> {
    match TimeOf(p.stamp) case Ok(time) => Some(time) case _ => None
  }

  lemma RunNext(packets: seq<Packet>, i: nat, s: State)
    requires i < |packets| && Run(packets[..i]) == Ok(s)
    ensures Run(packets[..i + 1]) == Step(s, packets[i])
  {
    assert packets[..i + 1][..i] == packets[..i];
    hide Step;
  }

  lemma {:induction false} PanicStays(packets: seq<Packet>, n: nat)
    requires n <= |packets| && !Run(packets[..n]).Ok?
    ensures !Run(packets).Ok?
  {
    hide Step;
    if n == |packets| {
      assert packets[..n] == packets;
    } else {
      assert packets[..|packets| - 1][..n] == packets[..n];
      PanicStays(packets[..|packets| - 1], n);
    }
  }

  // ----- the second pass -----

  /** Looking again at a payload just looked at changes nothing. */
  lemma LookedTwice(t: Tables, flow: Flow, payload: seq<u8>)
    requires Looked(t, flow, payload).Ok?
    ensures Looked(Looked(t, flow, payload).value, flow, payload) == Looked(t, flow, payload)
  {
    var kex := SshKexInit.LenientKex(payload);
    if kex.Some? {
      SshTables.RecordedTwice(t.ssh, flow, kex.value);
    }
    var hello := TlsTables.HelloIn(flow, payload);
    if hello.Ok? && hello.value.Some? {
      TlsTables.RecordedTwice(t.tls, hello.value.value);
    }
    hide SshTables.Recorded, TlsTables.Recorded, SshKexInit.LenientKex, TlsTables.HelloIn;
  }

  /** The joiners after some packets, whatever the tables. */
  function FlowsAfter(packets: seq<Packet>): map<Flow, Tcp.Joiner> {
    if packets == [] then map[]
    else
      var before, p := FlowsAfter(packets[..|packets| - 1]), packets[|packets| - 1];
      if |p.payload| < 6 then before
      else Tcp.ReassemblerResult(before, Tcp.Arrival(p.flow, Tcp.Segment(p.seqNo, p.payload))).0
  }

  /** Every pushed segment starts its flow or continues it. */
  predicate InOrder(packets: seq<Packet>) {
    packets == [] ||
    var before, p := packets[..|packets| - 1], packets[|packets| - 1];
    && InOrder(before)
    && (|p.payload| >= 6 && p.flow in FlowsAfter(before) ==> p.seqNo == FlowsAfter(before)[p.flow].nextSeq)
  }

  /** The run of a driver without the reassembler. */
  function RunPlain(packets: seq<Packet>): Outcome<Tables, ()> {
    if packets == [] then Ok(START.tables)
    else
      var t :- RunPlain(packets[..|packets| - 1]);
      var p := packets[|packets| - 1];
      var t' :- if |p.payload| < 6 then Ok(t) else Looked(t, p.flow, p.payload);
      var _ :- TimeOf(p.stamp);
      Ok(t')
  }

  lemma {:induction false} NothingIsPending(packets: seq<Packet>, f: Flow)
    requires InOrder(packets) && f in FlowsAfter(packets)
    ensures FlowsAfter(packets)[f].buffer == []
  {
    var before, p := packets[..|packets| - 1], packets[|packets| - 1];
    if f in FlowsAfter(before) {
      NothingIsPending(before, f);
    }
  }

  /** A packet in order, with the reassembler and without it. */
  lemma PlainPacket(before: seq<Packet>, p: Packet, t: Tables)
    requires InOrder(before)
    requires |p.payload| >= 6 && p.flow in FlowsAfter(before) ==> p.seqNo == FlowsAfter(before)[p.flow].nextSeq
    ensures var r := PacketResult(State(t, FlowsAfter(before)), p);
            var plain := if |p.payload| < 6 then Ok(t) else Looked(t, p.flow, p.payload);
            && (r.Ok? <==> plain.Ok?)
            && (r.Ok? ==> r.value == State(plain.value, FlowsAfter(before + [p])))
  {
    assert (before + [p])[..|before|] == before;
    if |p.payload| >= 6 {
      JoinedInOrder(before, p);
      PacketCases(State(t, FlowsAfter(before)), p);
      if Looked(t, p.flow, p.payload).Ok? {
        LookedTwice(t, p.flow, p.payload);
      }
      hide Looked, Tcp.ReassemblerResult, InOrder, PacketResult;
    }
  }

  /** On in-order traffic the reassembled pass is redundant: the tables (or the panic) are those without it. */
  lemma {:induction false} SecondPassIsRedundant(packets: seq<Packet>)
    requires InOrder(packets)
    ensures Run(packets).Ok? <==> RunPlain(packets).Ok?
    ensures Run(packets).Ok? ==> Run(packets).value == State(RunPlain(packets).value, FlowsAfter(packets))
  {
    hide *;
    if packets == [] {
      NoPackets();
    } else {
      var before, p := packets[..|packets| - 1], packets[|packets| - 1];
      assert packets == before + [p];
      OrderSnoc(before, p);
      SecondPassIsRedundant(before);
      RunsSnoc(before, p);
      if Run(before).Ok? {
        PlainPacket(before, p, RunPlain(before).value);
      }
    }
  }

  lemma OrderSnoc(before: seq<Packet>, p: Packet)
    requires InOrder(before + [p])
    ensures InOrder(before)
    ensures |p.payload| >= 6 && p.flow in FlowsAfter(before) ==> p.seqNo == FlowsAfter(before)[p.flow].nextSeq
  {
    assert (before + [p])[..|before|] == before;
    hide FlowsAfter;
  }

  /** One packet more, for both drivers. */
  lemma RunsSnoc(before: seq<Packet>, p: Packet)
    ensures !Run(before).Ok? ==> !Run(before + [p]).Ok?
    ensures !RunPlain(before).Ok? ==> !RunPlain(before + [p]).Ok?
    ensures Run(before).Ok? ==>
              var r := PacketResult(Run(before).value, p);
              && (Run(before + [p]).Ok? <==> r.Ok? && TimeOf(p.stamp).Ok?)
              && (Run(before + [p]).Ok? ==> Run(before + [p]) == r)
    ensures RunPlain(before).Ok? ==>
              var t := RunPlain(before).value;
              var plain := if |p.payload| < 6 then Ok(t) else Looked(t, p.flow, p.payload);
              && (RunPlain(before + [p]).Ok? <==> plain.Ok? && TimeOf(p.stamp).Ok?)
              && (RunPlain(before + [p]).Ok? ==> RunPlain(before + [p]) == plain)
  {
    assert (before + [p])[..|before|] == before;
    hide PacketResult, TimeOf, Looked;
  }

  lemma JoinedInOrder(before: seq<Packet>, p: Packet)
    requires InOrder(before) && |p.payload| >= 6
    requires p.flow in FlowsAfter(before) ==> p.seqNo == FlowsAfter(before)[p.flow].nextSeq
    ensures Tcp.ReassemblerResult(FlowsAfter(before), Tcp.Arrival(p.flow, Tcp.Segment(p.seqNo, p.payload))).1
            == Some(p.payload)
  {
    if p.flow in FlowsAfter(before) {
      NothingIsPending(before, p.flow);
    }
    assert [] + p.payload == p.payload;
  }

  // ----- the tables of a run are those of what it looked at -----

  datatype View = View(flow: Flow, payload: seq<u8>)

  /** Every payload a run looks at, in order. */
  function Views(packets: seq<Packet>): seq<View> {
    if packets == [] then []
    else
      var before, p := packets[..|packets| - 1], packets[|packets| - 1];
      if |p.payload| < 6 then Views(before)
      else
        var joined := Tcp.ReassemblerResult(FlowsAfter(before), Tcp.Arrival(p.flow, Tcp.Segment(p.seqNo, p.payload))).1;
        Views(before) + [View(p.flow, p.payload)] + JoinedView(p, joined)
  }

  function JoinedView(p: Packet, joined: Option<seq<u8>>): seq<View> {
    match joined case Some(data) => [View(p.flow, data)] case None => []
  }

  function KexEventIn(v: View): seq<SshTables.KexEvent> {
    match SshKexInit.LenientKex(v.payload)
    case Some(kex) => [SshTables.KexEvent(v.flow, kex)]
    case None => []
  }

  function HelloEventIn(v: View): seq<TlsTables.Hello> {
    if !LooksLikeHello(v.payload) then []
    else match TlsTables.HelloIn(v.flow, v.payload) case Ok(Some(h)) => [h] case _ => []
  }

  function KexEvents(views: seq<View>): seq<SshTables.KexEvent> {
    if views == [] then [] else KexEvents(views[..|views| - 1]) + KexEventIn(views[|views| - 1])
  }

  function Hellos(views: seq<View>): seq<TlsTables.Hello> {
    if views == [] then [] else Hellos(views[..|views| - 1]) + HelloEventIn(views[|views| - 1])
  }

  function TablesOf(views: seq<View>): Tables {
    Tables(SshTables.Run(KexEvents(views)), TlsTables.Run(Hellos(views)))
  }

  lemma LookedIsNextEvent(views: seq<View>, v: View)
    requires Looked(TablesOf(views), v.flow, v.payload).Ok?
    ensures Looked(TablesOf(views), v.flow, v.payload) == Ok(TablesOf(views + [v]))
  {
    assert (views + [v])[..|views|] == views;
    SshNext(KexEvents(views), v);
    TlsNext(Hellos(views), v);
    hide SshTables.Processed, TlsTables.Processed, KexEventIn, HelloEventIn, SshTables.Run, TlsTables.Run;
  }

  lemma SshNext(events: seq<SshTables.KexEvent>, v: View)
    ensures SshTables.Run(events + KexEventIn(v))
         == if LooksLikeKexInit(v.payload) then SshTables.Processed(SshTables.Run(events), v.flow, v.payload)
            else SshTables.Run(events)
  {
    hide SshTables.Recorded;
    match SshKexInit.LenientKex(v.payload)
    case Some(kex) => assert (events + KexEventIn(v))[..|events|] == events;
    case None => assert events + [] == events;
  }

  lemma TlsNext(hellos: seq<TlsTables.Hello>, v: View)
    requires LooksLikeHello(v.payload) ==> TlsTables.Processed(TlsTables.Run(hellos), v.flow, v.payload).Ok?
    ensures Ok(TlsTables.Run(hellos + HelloEventIn(v)))
         == if LooksLikeHello(v.payload) then TlsTables.Processed(TlsTables.Run(hellos), v.flow, v.payload)
            else Ok(TlsTables.Run(hellos))
  {
    hide TlsTables.Recorded, TlsTables.HelloIn;
    if HelloEventIn(v) == [] {
      assert hellos + [] == hellos;
    } else {
      assert (hellos + HelloEventIn(v))[..|hellos|] == hellos;
    }
  }

  /** What one packet adds to the payloads looked at and to the joiners. */
  lemma ViewsSnoc(before: seq<Packet>, p: Packet)
    ensures var arrival := Tcp.Arrival(p.flow, Tcp.Segment(p.seqNo, p.payload));
            var joined := Tcp.ReassemblerResult(FlowsAfter(before), arrival);
            && Views(before + [p]) == (if |p.payload| < 6 then Views(before)
                                       else Views(before) + [View(p.flow, p.payload)] + JoinedView(p, joined.1))
            && FlowsAfter(before + [p]) == (if |p.payload| < 6 then FlowsAfter(before) else joined.0)
  {
    assert (before + [p])[..|before|] == before;
    hide Tcp.ReassemblerResult;
  }

  lemma PacketIsNextViews(before: seq<Packet>, p: Packet)
    requires PacketResult(State(TablesOf(Views(before)), FlowsAfter(before)), p).Ok?
    ensures PacketResult(State(TablesOf(Views(before)), FlowsAfter(before)), p).value
            == State(TablesOf(Views(before + [p])), FlowsAfter(before + [p]))
  {
    ViewsSnoc(before, p);
    hide Looked, TablesOf, Tcp.ReassemblerResult, Views, FlowsAfter;
    if |p.payload| >= 6 {
      var looked := Views(before) + [View(p.flow, p.payload)];
      LookedIsNextEvent(Views(before), View(p.flow, p.payload));
      var joined := Tcp.ReassemblerResult(FlowsAfter(before), Tcp.Arrival(p.flow, Tcp.Segment(p.seqNo, p.payload))).1;
      if joined.Some? {
        LookedIsNextEvent(looked, View(p.flow, joined.value));
      } else {
        assert looked + [] == looked;
      }
    }
  }

  /** So every closed form over KEXINITs and hellos is one over packets. */
  lemma {:induction false} RunIsTablesOfViews(packets: seq<Packet>)
    requires Run(packets).Ok?
    ensures Run(packets).value == State(TablesOf(Views(packets)), FlowsAfter(packets))
  {
    hide *;
    if packets == [] {
      NoPackets();
    } else {
      var before, p := packets[..|packets| - 1], packets[|packets| - 1];
      assert packets == before + [p];
      RunsSnoc(before, p);
      RunIsTablesOfViews(before);
      PacketIsNextViews(before, p);
    }
  }

  lemma NoPackets()
    ensures Run([]) == Ok(State(TablesOf(Views([])), FlowsAfter([]))) && Views([]) == []
    ensures RunPlain([]).Ok? && Run([]) == Ok(State(RunPlain([]).value, FlowsAfter([])))
  {
  }

  // ----- when a capture aborts -----

  /** A payload that aborts the program: a hello that its parser panics on. */
  ghost predicate AbortsOn(payload: seq<u8>) {
    && LooksLikeHello(payload)
    && ((payload[5] == 0x01 && ClientHello.EndsInOddSuites(payload))
        || (payload[5] == 0x02 && ServerHello.IsCutOff(payload)))
  }

  lemma LookingPanicsExactly(t: Tables, flow: Flow, payload: seq<u8>)
    requires |payload| >= 6
    ensures Looked(t, flow, payload).Ok? <==> !AbortsOn(payload)
  {
    ClientHello.PanicsExactly(payload);
    ServerHello.PanicsExactly(payload);
    hide ClientHello.Parsed, ServerHello.Parsed, ClientHello.EndsInOddSuites, ServerHello.IsCutOff,
         SshTables.Processed, TlsTables.Recorded;
  }

  /** A packet aborts a run exactly when its payload or the joined one does. */
  lemma PacketPanicsExactly(s: State, p: Packet)
    requires |p.payload| >= 6
    ensures var joined := Tcp.ReassemblerResult(s.flows, Tcp.Arrival(p.flow, Tcp.Segment(p.seqNo, p.payload))).1;
            PacketResult(s, p).Ok? <==> !AbortsOn(p.payload) && (joined.Some? ==> !AbortsOn(joined.value))
  {
    JoinedIsLonger(s.flows, p);
    hide Looked, AbortsOn, Tcp.ReassemblerResult;
    var joined := Tcp.ReassemblerResult(s.flows, Tcp.Arrival(p.flow, Tcp.Segment(p.seqNo, p.payload))).1;
    LookingPanicsExactly(s.tables, p.flow, p.payload);
    var once := Looked(s.tables, p.flow, p.payload);
    if once.Ok? && joined.Some? {
      LookingPanicsExactly(once.value, p.flow, joined.value);
    }
  }

  /** One turn of the loop aborts exactly at such a payload or at a timestamp that cannot be converted. */
  lemma StepPanicsExactly(s: State, p: Packet)
    ensures var joined := Tcp.ReassemblerResult(s.flows, Tcp.Arrival(p.flow, Tcp.Segment(p.seqNo, p.payload))).1;
            Step(s, p).Ok? <==>
            && IsValid(p.stamp)
            && (|p.payload| >= 6 ==> !AbortsOn(p.payload) && (joined.Some? ==> !AbortsOn(joined.value)))
  {
    ConvertsExactly(p.stamp);
    if |p.payload| >= 6 {
      PacketPanicsExactly(s, p);
      hide PacketResult, AbortsOn, TimeOf, IsValid, Tcp.ReassemblerResult;
    } else {
      assert PacketResult(s, p) == Ok(s);
      hide TimeOf, IsValid, AbortsOn;
    }
  }

  /**
   A run aborts exactly when it looks at a payload, captured or joined, that a parser panics on, or
   meets a timestamp that cannot be converted.
   */
  lemma {:induction false} RunPanicsExactly(packets: seq<Packet>)
    ensures Run(packets).Ok? <==>
            (forall v | v in Views(packets) :: !AbortsOn(v.payload)) && (forall p | p in packets :: IsValid(p.stamp))
  {
    hide *;
    if packets == [] {
      NoPackets();
    } else {
      var before, p := packets[..|packets| - 1], packets[|packets| - 1];
      assert packets == before + [p];
      RunPanicsExactly(before);
      CleanSnoc(before, p);
      RunsSnoc(before, p);
      if Run(before).Ok? {
        RunIsTablesOfViews(before);
        FlowsOfRun(before);
        StepPanicsExactly(Run(before).value, p);
        StepIsPacketThenStamp(Run(before).value, p);
      }
    }
  }

  lemma FlowsOfRun(packets: seq<Packet>)
    requires Run(packets).Ok? && Run(packets).value == State(TablesOf(Views(packets)), FlowsAfter(packets))
    ensures Run(packets).value.flows == FlowsAfter(packets)
  {
  }

  lemma StepIsPacketThenStamp(s: State, p: Packet)
    ensures Step(s, p).Ok? <==> PacketResult(s, p).Ok? && TimeOf(p.stamp).Ok?
  {
    hide PacketResult, TimeOf;
  }

  /** Nothing aborts on what a run looks at, for one packet more. */
  lemma CleanSnoc(before: seq<Packet>, p: Packet)
    ensures var arrival := Tcp.Arrival(p.flow, Tcp.Segment(p.seqNo, p.payload));
            var joined := Tcp.ReassemblerResult(FlowsAfter(before), arrival).1;
            (forall v | v in Views(before + [p]) :: !AbortsOn(v.payload)) <==>
            && (forall v | v in Views(before) :: !AbortsOn(v.payload))
            && (|p.payload| >= 6 ==> !AbortsOn(p.payload) && (joined.Some? ==> !AbortsOn(joined.value)))
  {
    ViewsSnoc(before, p);
    hide Views, FlowsAfter, AbortsOn, Tcp.ReassemblerResult;
    if |p.payload| >= 6 {
      var joined := Tcp.ReassemblerResult(FlowsAfter(before), Tcp.Arrival(p.flow, Tcp.Segment(p.seqNo, p.payload))).1;
      var views := Views(before + [p]);
      assert View(p.flow, p.payload) in views;
      if joined.Some? {
        assert View(p.flow, joined.value) in JoinedView(p, joined) && View(p.flow, joined.value) in views;
      }
      assert forall v | v in Views(before) :: v in views;
    }
  }

  /** What the last packet adds to the payloads looked at. */
  lemma NewViews(packets: seq<Packet>)
    requires packets != [] && |packets[|packets| - 1].payload| >= 6
    ensures var before, p := packets[..|packets| - 1], packets[|packets| - 1];
            var joined := Tcp.ReassemblerResult(FlowsAfter(before),
                                                Tcp.Arrival(p.flow, Tcp.Segment(p.seqNo, p.payload))).1;
            forall v :: v in Views(packets) <==>
              || v in Views(before) || v == View(p.flow, p.payload)
              || (joined.Some? && v == View(p.flow, joined.value))
  {
    var before, p := packets[..|packets| - 1], packets[|packets| - 1];
    ViewsSnoc(before, p);
    assert packets == before + [p];
    hide Tcp.ReassemblerResult, Views;
  }

  /** One frame stamped with a million microseconds past second 0 aborts the run, whatever it holds. */
  lemma FullMillionPanics(p: Packet)
    requires p.stamp == Stamp(0, 1_000_000)
    ensures !Run([p]).Ok?
  {
    RecordStamps(p.stamp);
    ConvertsExactly(p.stamp);
    RunPanicsExactly([p]);
  }

}
