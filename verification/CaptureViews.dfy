/**
 What a capture looks at, said without the tables of joiners: each payload, and what a lone joiner of its
 flow returns for it (pqcdump/src/main.rs, pqcdump/src/tcp.rs).
 */
module CaptureViews {
  import opened Common
  import opened Net
  import Tcp
  import Capture

  /** The segments of one flow, in order; a payload under six bytes is left alone. */
  function SegmentsOf(f: Flow, packets: seq<Packet>): seq<Tcp.Segment> {
    if packets == [] then []
    else
      var before, p := packets[..|packets| - 1], packets[|packets| - 1];
      SegmentsOf(f, before) + if p.flow == f && |p.payload| >= 6 then [Tcp.Segment(p.seqNo, p.payload)] else []
  }

  function Pushes(packets: seq<Packet>): seq<Tcp.Arrival> {
    if packets == [] then []
    else
      var before, p := packets[..|packets| - 1], packets[|packets| - 1];
      Pushes(before) + if |p.payload| >= 6 then [Tcp.Arrival(p.flow, Tcp.Segment(p.seqNo, p.payload))] else []
  }

  lemma SegmentsSnoc(f: Flow, before: seq<Packet>, p: Packet)
    ensures SegmentsOf(f, before + [p])
            == SegmentsOf(f, before) + if p.flow == f && |p.payload| >= 6 then [Tcp.Segment(p.seqNo, p.payload)] else []
  {
    assert (before + [p])[..|before|] == before;
  }

  lemma {:induction false} SegmentsAreFull(f: Flow, packets: seq<Packet>)
    ensures forall s | s in SegmentsOf(f, packets) :: |s.payload| >= 6
  {
    if packets != [] {
      SegmentsAreFull(f, packets[..|packets| - 1]);
    }
  }

  lemma {:induction false} FlowsAreTable(packets: seq<Packet>)
    ensures Capture.FlowsAfter(packets) == Tcp.Table(Pushes(packets))
  {
    if packets != [] {
      var before, p := packets[..|packets| - 1], packets[|packets| - 1];
      FlowsAreTable(before);
      var arrival := Tcp.Arrival(p.flow, Tcp.Segment(p.seqNo, p.payload));
      assert (Pushes(before) + [arrival])[..|Pushes(before)|] == Pushes(before);
      assert Pushes(before) + [] == Pushes(before);
      hide Tcp.ReassemblerResult;
    }
  }

  lemma {:induction false} OnlyIsSegments(f: Flow, packets: seq<Packet>)
    ensures Tcp.Only(f, Pushes(packets)) == SegmentsOf(f, packets)
  {
    if packets != [] {
      var before, p := packets[..|packets| - 1], packets[|packets| - 1];
      OnlyIsSegments(f, before);
      var arrival := Tcp.Arrival(p.flow, Tcp.Segment(p.seqNo, p.payload));
      assert (Pushes(before) + [arrival])[..|Pushes(before)|] == Pushes(before);
      assert Pushes(before) + [] == Pushes(before);
    }
  }

  /** The joiner of a flow is that of its segments. */
  lemma JoinerOfFlow(packets: seq<Packet>, f: Flow)
    ensures f in Capture.FlowsAfter(packets) <==> SegmentsOf(f, packets) != []
    ensures SegmentsOf(f, packets) != [] ==> Capture.FlowsAfter(packets)[f] == Tcp.Feed(SegmentsOf(f, packets)).0
  {
    hide *;
    FlowsAreTable(packets);
    OnlyIsSegments(f, packets);
    Tcp.FlowsAreIndependent(f, Pushes(packets));
  }

  /** What the reassembler returns for a packet. */
  lemma JoinedExactly(before: seq<Packet>, p: Packet)
    requires |p.payload| >= 6
    ensures SegmentsOf(p.flow, before + [p]) != []
    ensures Tcp.ReassemblerResult(Capture.FlowsAfter(before), Tcp.Arrival(p.flow, Tcp.Segment(p.seqNo, p.payload))).1
            == Tcp.LastReturn(SegmentsOf(p.flow, before + [p]))
  {
    var segments, s := SegmentsOf(p.flow, before), Tcp.Segment(p.seqNo, p.payload);
    JoinerOfFlow(before, p.flow);
    SegmentsSnoc(p.flow, before, p);
    SegmentsAreFull(p.flow, before + [p]);
    Tcp.ReturnsExactly(segments + [s]);
    assert (segments + [s])[..|segments|] == segments;
    hide SegmentsOf, Capture.FlowsAfter, Tcp.PushResult, Tcp.LastReturn;
  }

  /**
   The payloads a capture looks at: for each packet of six bytes or more its payload, and then what its
   flow gives by the last segments: nothing behind a gap, two payloads right after one, else it again.
   */
  lemma ViewsExactly(before: seq<Packet>, p: Packet)
    ensures |p.payload| < 6 ==> Capture.Views(before + [p]) == Capture.Views(before)
    ensures |p.payload| >= 6 ==>
              && SegmentsOf(p.flow, before + [p]) != []
              && Capture.Views(before + [p])
                 == Capture.Views(before) + [Capture.View(p.flow, p.payload)]
                    + match Tcp.LastReturn(SegmentsOf(p.flow, before + [p]))
                      case Some(data) => [Capture.View(p.flow, data)]
                      case None => []
  {
    Capture.ViewsSnoc(before, p);
    if |p.payload| >= 6 {
      JoinedExactly(before, p);
    }
    hide Capture.Views, Capture.FlowsAfter, SegmentsOf, Tcp.LastReturn, Tcp.ReassemblerResult;
  }

  // ----- order -----

  ghost predicate IsGapless(segments: seq<Tcp.Segment>) {
    segments == [] || Tcp.IsRun(segments)
  }

  lemma GaplessSnoc(segments: seq<Tcp.Segment>, s: Tcp.Segment)
    ensures IsGapless(segments + [s]) <==>
            IsGapless(segments) && (segments != [] ==> Tcp.Contiguous(Tcp.Last(segments), s))
  {
    hide Tcp.Contiguous;
    var n := |segments|;
    var all := segments + [s];
    if IsGapless(all) {
      if n > 0 {
        assert Tcp.Contiguous(all[n - 1], all[n]);
        forall i, j | 0 <= i && j == i + 1 && j < n ensures Tcp.Contiguous(segments[i], segments[j]) {
          assert Tcp.Contiguous(all[i], all[j]);
        }
      }
    }
    if IsGapless(segments) && (n > 0 ==> Tcp.Contiguous(Tcp.Last(segments), s)) {
      forall i, j | 0 <= i && j == i + 1 && j < n + 1 ensures Tcp.Contiguous(all[i], all[j]) {
        if j < n {
          assert Tcp.Contiguous(segments[i], segments[j]);
        }
      }
    }
  }

  /** A packet is the next of its flow exactly when its segment is contiguous to the last one. */
  lemma NextInFlow(before: seq<Packet>, p: Packet)
    requires |p.payload| >= 6
    ensures (p.flow in Capture.FlowsAfter(before) ==> p.seqNo == Capture.FlowsAfter(before)[p.flow].nextSeq) <==>
            (SegmentsOf(p.flow, before) != [] ==>
               Tcp.Contiguous(Tcp.Last(SegmentsOf(p.flow, before)), Tcp.Segment(p.seqNo, p.payload)))
  {
    var segments := SegmentsOf(p.flow, before);
    JoinerOfFlow(before, p.flow);
    if segments != [] {
      SegmentsAreFull(p.flow, before);
      Tcp.ReturnsExactly(segments);
    }
    hide SegmentsOf, Capture.FlowsAfter, Tcp.Feed, Tcp.Advance;
  }

  ghost predicate FlowsAreGapless(packets: seq<Packet>) {
    forall f :: IsGapless(SegmentsOf(f, packets))
  }

  lemma GaplessStep(before: seq<Packet>, p: Packet)
    ensures FlowsAreGapless(before + [p]) <==>
            && FlowsAreGapless(before)
            && (|p.payload| >= 6 && SegmentsOf(p.flow, before) != [] ==>
                  Tcp.Contiguous(Tcp.Last(SegmentsOf(p.flow, before)), Tcp.Segment(p.seqNo, p.payload)))
  {
    hide SegmentsOf, IsGapless, Tcp.Contiguous;
    forall f
      ensures IsGapless(SegmentsOf(f, before + [p])) <==>
              && IsGapless(SegmentsOf(f, before))
              && (f == p.flow && |p.payload| >= 6 && SegmentsOf(f, before) != [] ==>
                    Tcp.Contiguous(Tcp.Last(SegmentsOf(f, before)), Tcp.Segment(p.seqNo, p.payload)))
    {
      SegmentsSnoc(f, before, p);
      GaplessSnoc(SegmentsOf(f, before), Tcp.Segment(p.seqNo, p.payload));
      assert SegmentsOf(f, before) + [] == SegmentsOf(f, before);
    }
  }

  /** Traffic is in order exactly when the segments of every flow follow one another without a gap. */
  lemma {:induction false} InOrderExactly(packets: seq<Packet>)
    ensures Capture.InOrder(packets) <==> FlowsAreGapless(packets)
  {
    if packets != [] {
      var before, p := packets[..|packets| - 1], packets[|packets| - 1];
      assert packets == before + [p];
      InOrderExactly(before);
      GaplessStep(before, p);
      if |p.payload| >= 6 {
        NextInFlow(before, p);
      }
      hide FlowsAreGapless, SegmentsOf, Capture.FlowsAfter, Tcp.Contiguous;
    }
  }
}
