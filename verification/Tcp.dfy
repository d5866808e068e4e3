/**
 The TCP stream joiner of pqcdump (pqcdump/src/tcp.rs). Sequence numbers are modulo 2^32
 (section 3.4 of RFC 9293); `+` wraps as in a release build.
 */
module Tcp {
  import opened Common
  import opened Net

  const SEQ_SPACE := 0x1_0000_0000

  datatype Segment = Segment(seqNo: u32, payload: seq<u8>)

  /** The joiner's fields as a value. */
  datatype Joiner = Joiner(nextSeq: u32, buffer: seq<u8>)

  /** The sequence number n bytes on. */
  function Advance(seqNo: u32, n: nat): u32 {
    (seqNo + n) % SEQ_SPACE
  }

  /** What one push does to a joiner, and what it returns. */
  function PushResult(j: Joiner, s: Segment): (Joiner, Option<seq<u8>>) {
    if s.payload == [] then (j, None)
    else if s.seqNo == j.nextSeq then
      (Joiner(Advance(s.seqNo, |s.payload|), []), Some(j.buffer + s.payload))
    else (Joiner(Advance(s.seqNo, |s.payload|), s.payload), None)
  }

  /** Sequence numbers go on past 2^32 - 1 with 0. */
  lemma AdvanceWrapsAt32Bits(seqNo: u32, n: nat)
    ensures seqNo + n < 0x1_0000_0000 ==> Advance(seqNo, n) == seqNo + n
    ensures 0x1_0000_0000 <= seqNo + n < 0x2_0000_0000 ==> Advance(seqNo, n) == seqNo + n - 0x1_0000_0000
    ensures Advance(seqNo, n + 0x1_0000_0000) == Advance(seqNo, n)
  {
  }

  class TcpJoiner {
    var nextSeq: u32
    var buffer: seq<u8>

    function Value(): Joiner
      reads this
    {
      Joiner(nextSeq, buffer)
    }

    constructor (seqNo: u32)
      ensures Value() == Joiner(seqNo, [])
    {
      nextSeq := seqNo;
      buffer := [];
    }

    method Push(seqNo: u32, payload: seq<u8>) returns (out: Option<seq<u8>>)
      modifies this
      ensures (Value(), out) == PushResult(old(Value()), Segment(seqNo, payload))
    {
      if payload == [] {
        return None;
      }
      hide Advance;
      var len: u32 := |payload| % SEQ_SPACE;  // `payload.len() as u32`
      LengthWraps(seqNo, |payload|);
      if seqNo == nextSeq {
        buffer := buffer + payload;
        nextSeq := (nextSeq + len) % SEQ_SPACE;
        out := Some(buffer);
        buffer := [];
        return;
      }
      buffer := [];
      buffer := buffer + payload;
      assert buffer == payload;
      nextSeq := (seqNo + len) % SEQ_SPACE;
      return None;
    }
  }

  /** Adding the truncated length is adding the length. */
  lemma LengthWraps(seqNo: u32, n: nat)
    ensures (seqNo + n % SEQ_SPACE) % SEQ_SPACE == Advance(seqNo, n)
  {
  }

  // ----- one flow: a joiner created by its first segment and fed a history -----

  function Feed(h: seq<Segment>): (Joiner, Option<seq<u8>>)
    requires h != []
  {
    var n := |h| - 1;
    PushResult(if n == 0 then Joiner(h[0].seqNo, []) else Feed(h[..n]).0, h[n])
  }

  /** Everything the joiner returned, in order. */
  function Returned(h: seq<Segment>): seq<Option<seq<u8>>> {
    if h == [] then [] else Returned(h[..|h| - 1]) + [Feed(h).1]
  }

  function Output(h: seq<Segment>): seq<u8> {
    if h == [] then [] else Output(h[..|h| - 1]) + Sent(Feed(h).1)
  }

  function Sent(out: Option<seq<u8>>): seq<u8> {
    match out case Some(bytes) => bytes case None => []
  }

  predicate Contiguous(a: Segment, b: Segment) {
    b.seqNo == Advance(a.seqNo, |a.payload|)
  }

  /** A history cut into runs: the closed ones and the one the next segment may still extend. */
  datatype Cut = Cut(closed: seq<seq<Segment>>, open: seq<Segment>)

  function Last(h: seq<Segment>): Segment
    requires h != []
  {
    h[|h| - 1]
  }

  function Extend(c: Cut, s: Segment): Cut
    requires c.open != []
  {
    if Contiguous(Last(c.open), s) then Cut(c.closed, c.open + [s]) else Cut(c.closed + [c.open], [s])
  }

  function Runs(h: seq<Segment>): (c: Cut)
    requires h != []
    ensures c.open != [] && Last(c.open) == Last(h)
  {
    if |h| == 1 then Cut([], h) else Extend(Runs(h[..|h| - 1]), Last(h))
  }

  function Bytes(h: seq<Segment>): seq<u8> {
    if h == [] then [] else Bytes(h[..|h| - 1]) + h[|h| - 1].payload
  }

  /** The bytes of the first run and of every later run of two segments or more. */
  function Kept(rs: seq<seq<Segment>>): seq<u8> {
    if rs == [] then []
    else
      var m := |rs| - 1;
      Kept(rs[..m]) + if m == 0 || |rs[m]| >= 2 then Bytes(rs[m]) else []
  }

  lemma KeptAppend(rs: seq<seq<Segment>>, r: seq<Segment>)
    ensures Kept(rs + [r]) == Kept(rs) + if rs == [] || |r| >= 2 then Bytes(r) else []
  {
    assert (rs + [r])[..|rs|] == rs;
  }

  lemma BytesAppend(h: seq<Segment>, s: Segment)
    ensures Bytes(h + [s]) == Bytes(h) + s.payload
  {
    assert (h + [s])[..|h|] == h;
  }

  function Flatten(rs: seq<seq<Segment>>): seq<Segment> {
    if rs == [] then [] else Flatten(rs[..|rs| - 1]) + rs[|rs| - 1]
  }

  ghost predicate IsRun(h: seq<Segment>) {
    h != [] && forall i, j | 0 <= i && j == i + 1 && j < |h| :: Contiguous(h[i], h[j])
  }

  ghost predicate Apart(a: seq<Segment>, b: seq<Segment>) {
    a != [] && b != [] && !Contiguous(Last(a), b[0])
  }

  /** Runs one after the other, no two neighbours of which could be joined. */
  ghost predicate IsMaximalCut(rs: seq<seq<Segment>>) {
    && (forall r | r in rs :: IsRun(r))
    && (forall i, j | 0 <= i && j == i + 1 && j < |rs| :: Apart(rs[i], rs[j]))
  }

  /** `Runs` is the cut its name says: maximal runs, which together are the history. */
  lemma {:induction false} RunsAreMaximal(h: seq<Segment>)
    requires h != []
    ensures IsMaximalCut(Runs(h).closed + [Runs(h).open])
    ensures Flatten(Runs(h).closed) + Runs(h).open == h
  {
    if |h| == 1 {
    } else {
      var front := h[..|h| - 1];
      RunsAreMaximal(front);
      assert h == front + [Last(h)];
      ExtendKeepsMaximal(Runs(front), Last(h));
      ExtendKeepsHistory(Runs(front), Last(h));
    }
  }

  lemma ExtendKeepsMaximal(c: Cut, s: Segment)
    requires c.open != [] && IsMaximalCut(c.closed + [c.open])
    ensures var c' := Extend(c, s); IsMaximalCut(c'.closed + [c'.open])
  {
    var rs := c.closed + [c.open];
    var c' := Extend(c, s);
    var rs' := c'.closed + [c'.open];
    assert IsRun(rs[|c.closed|]);
    forall r | r in rs'
      ensures IsRun(r)
    {
      assert r in rs || r == c'.open;
    }
    forall i, j | 0 <= i && j == i + 1 && j < |rs'|
      ensures Apart(rs'[i], rs'[j])
    {
      assert j < |rs| ==> Apart(rs[i], rs[j]);
    }
  }

  lemma ExtendKeepsHistory(c: Cut, s: Segment)
    requires c.open != []
    ensures Flatten(Extend(c, s).closed) + Extend(c, s).open == Flatten(c.closed) + c.open + [s]
  {
    assert (c.closed + [c.open])[..|c.closed|] == c.closed;
  }

  /** The joiner's fields and everything it has returned, said by the cut of its history. */
  predicate Matches(j: Joiner, output: seq<u8>, c: Cut)
    requires c.open != []
  {
    && j.nextSeq == Advance(Last(c.open).seqNo, |Last(c.open).payload|)
    && j.buffer == (if c.closed != [] && |c.open| == 1 then Bytes(c.open) else [])
    && output == Kept(c.closed) + if c.closed == [] || |c.open| >= 2 then Bytes(c.open) else []
  }

  lemma PushMatches(j: Joiner, output: seq<u8>, c: Cut, s: Segment)
    requires c.open != [] && Matches(j, output, c) && s.payload != []
    ensures Matches(PushResult(j, s).0, output + Sent(PushResult(j, s).1), Extend(c, s))
  {
    hide Bytes, Kept, Advance;
    if Contiguous(Last(c.open), s) {
      BytesAppend(c.open, s);
      if c.closed == [] || |c.open| >= 2 {
        assert output + ([] + s.payload) == Kept(c.closed) + (Bytes(c.open) + s.payload);
      } else {
        assert output + (j.buffer + s.payload) == Kept(c.closed) + (Bytes(c.open) + s.payload);
      }
    } else {
      KeptAppend(c.closed, c.open);
      BytesAppend([], s);
      assert [] + [s] == [s];
      assert output + [] == output;
      NoBytes();
      assert [] + s.payload == s.payload;
    }
  }

  lemma NoBytes()
    ensures Bytes([]) == []
  {
  }

  lemma {:induction false} JoinerState(h: seq<Segment>)
    requires h != [] && forall s | s in h :: s.payload != []
    ensures Matches(Feed(h).0, Output(h), Runs(h))
  {
    if |h| == 1 {
      FirstMatches(h);
    } else {
      var front, s := h[..|h| - 1], Last(h);
      assert s in h;
      JoinerState(front);
      PushMatches(Feed(front).0, Output(front), Runs(front), s);
    }
  }

  lemma FirstMatches(h: seq<Segment>)
    requires |h| == 1 && h[0].payload != []
    ensures Matches(Feed(h).0, Output(h), Runs(h))
  {
    BytesAppend([], h[0]);
    assert h == [] + [h[0]];
    assert Output(h) == [] + ([] + h[0].payload);
  }

  /**
   The closed form over any history of non-empty segments: the returned bytes are those of the first
   run and of every later run of two or more segments, and together with the pending buffer they are
   those of the closed runs so kept and all of the open run. So a lone segment is lost exactly when it
   is not the first and another run begins after it.
   */
  lemma JoinerClosedForm(h: seq<Segment>)
    requires h != [] && forall s | s in h :: s.payload != []
    ensures var c := Runs(h);
            && Output(h) == Kept(c.closed + [c.open])
            && Output(h) + Feed(h).0.buffer == Kept(c.closed) + Bytes(c.open)
  {
    hide Feed, Output, Runs, Bytes, Kept, Extend, Advance;
    JoinerState(h);
    KeptAppend(Runs(h).closed, Runs(h).open);
  }

  // ----- segments cut from one byte stream -----

  /** The segment is `stream[at..]`, numbered from the stream's initial sequence number. */
  predicate IsSlice(stream: seq<u8>, initial: u32, s: Segment, at: nat) {
    && at + |s.payload| <= |stream|
    && s.payload == stream[at..at + |s.payload|]
    && s.seqNo == Advance(initial, at)
  }

  /** `bytes` is the stream between two positions. */
  predicate IsStretch(stream: seq<u8>, from: nat, to: nat, bytes: seq<u8>) {
    from <= to <= |stream| && bytes == stream[from..to]
  }

  /** After the segment at `at`, the joiner expects its end and holds at most that segment. */
  predicate Follows(stream: seq<u8>, initial: u32, j: Joiner, s: Segment, at: nat) {
    && j.nextSeq == Advance(initial, at + |s.payload|)
    && (j.buffer == [] || IsStretch(stream, at, at + |s.payload|, j.buffer))
  }

  lemma PushFollows(stream: seq<u8>, initial: u32, j: Joiner, s: Segment, at: nat, s': Segment, at': nat)
    requires |stream| < SEQ_SPACE && s'.payload != []
    requires IsSlice(stream, initial, s, at) && IsSlice(stream, initial, s', at') && Follows(stream, initial, j, s, at)
    ensures var (j', out) := PushResult(j, s');
            && Follows(stream, initial, j', s', at')
            && (out.Some? <==> at + |s.payload| == at')
            && (out.Some? ==> IsStretch(stream, at', at' + |s'.payload|, out.value)
                              || IsStretch(stream, at, at' + |s'.payload|, out.value))
  {
    AdvanceTwice(initial, at', |s'.payload|);
    SequenceNumbersTell(initial, at + |s.payload|, at');
    hide Advance;
    if at + |s.payload| == at' {
      JoinedIsStretch(stream, j.buffer, at, at', s'.payload);
    }
  }

  /** A buffer that is empty or ends where the payload starts, and the payload behind it. */
  lemma JoinedIsStretch(stream: seq<u8>, buffer: seq<u8>, at: nat, at': nat, payload: seq<u8>)
    requires IsStretch(stream, at', at' + |payload|, payload)
    requires buffer == [] || IsStretch(stream, at, at', buffer)
    ensures buffer == [] ==> IsStretch(stream, at', at' + |payload|, buffer + payload)
    ensures buffer != [] ==> IsStretch(stream, at, at' + |payload|, buffer + payload)
  {
    if buffer == [] {
      assert buffer + payload == payload;
    } else {
      Adjacent(stream, at, at', at' + |payload|);
    }
  }

  lemma Adjacent(stream: seq<u8>, from: nat, mid: nat, to: nat)
    requires from <= mid <= to <= |stream|
    ensures stream[from..mid] + stream[mid..to] == stream[from..to]
  {
  }

  lemma AdvanceTwice(initial: u32, a: nat, b: nat)
    ensures Advance(Advance(initial, a), b) == Advance(initial, a + b)
  {
  }

  /**
   Stream soundness with wrap-around: `nextSeq` denotes the end of the last segment; a push returns
   something exactly when its segment starts where the last one ended, and then the stream from the
   start of this or of the last segment up to this one's end.
   */
  lemma {:induction false} ReturnsStreamSlices(stream: seq<u8>, initial: u32, h: seq<Segment>, at: seq<nat>)
    requires |stream| < 0x1_0000_0000 && h != [] && |at| == |h|
    requires forall i | 0 <= i < |h| :: h[i].payload != [] && IsSlice(stream, initial, h[i], at[i])
    ensures var n := |h| - 1;
            var end := at[n] + |h[n].payload|;
            var (j, out) := Feed(h);
            && Follows(stream, initial, j, h[n], at[n])
            && (out.Some? <==> n == 0 || at[n - 1] + |h[n - 1].payload| == at[n])
            && (out.Some? ==> IsStretch(stream, at[n], end, out.value)
                              || (n > 0 && IsStretch(stream, at[n - 1], end, out.value)))
  {
    var n := |h| - 1;
    if n == 0 {
      assert [] + h[0].payload == h[0].payload;
      AdvanceTwice(initial, at[0], |h[0].payload|);
    } else {
      ReturnsStreamSlices(stream, initial, h[..n], at[..n]);
      PushFollows(stream, initial, Feed(h[..n]).0, h[n - 1], at[n - 1], h[n], at[n]);
    }
  }

  /** What the last push returned: nothing behind a gap; two payloads right after one; else its own payload. */
  function LastReturn(h: seq<Segment>): Option<seq<u8>>
    requires h != []
  {
    var n := |h| - 1;
    if n == 0 then Some(h[0].payload)
    else if !Contiguous(h[n - 1], h[n]) then None
    else if n >= 2 && !Contiguous(h[n - 2], h[n - 1]) then Some(h[n - 1].payload + h[n].payload)
    else Some(h[n].payload)
  }

  /** The buffer holds the last segment exactly when it came right behind a gap. */
  lemma {:induction false} ReturnsExactly(h: seq<Segment>)
    requires h != [] && forall s | s in h :: s.payload != []
    ensures Feed(h).1 == LastReturn(h)
    ensures var n := |h| - 1;
            Feed(h).0 == Joiner(Advance(h[n].seqNo, |h[n].payload|),
                                if n >= 1 && !Contiguous(h[n - 1], h[n]) then h[n].payload else [])
  {
    var n := |h| - 1;
    assert h[n] in h && [] + h[n].payload == h[n].payload;
    if n > 0 {
      ReturnsExactly(h[..n]);
      hide Advance;
    }
  }

  /** Within a stream shorter than the sequence space, equal numbers mean equal positions. */
  lemma SequenceNumbersTell(initial: u32, a: nat, b: nat)
    requires a < SEQ_SPACE && b < SEQ_SPACE
    ensures Advance(initial, a) == Advance(initial, b) <==> a == b
  {
  }

  // ----- many flows -----

  datatype Arrival = Arrival(flow: Flow, segment: Segment)

  /** What one push does to the table of joiners, and what it returns. */
  function ReassemblerResult(flows: map<Flow, Joiner>, p: Arrival): (map<Flow, Joiner>, Option<seq<u8>>) {
    var j := if p.flow in flows then flows[p.flow] else Joiner(p.segment.seqNo, []);
    var (j', out) := PushResult(j, p.segment);
    (flows[p.flow := j'], out)
  }

  class TcpReassembler {
    var flows: map<Flow, TcpJoiner>

    /** Each flow has a joiner of its own. */
    ghost predicate Valid()
      reads this
    {
      forall f, g | f in flows && g in flows && f != g :: flows[f] != flows[g]
    }

    ghost function Value(): map<Flow, Joiner>
      reads this, flows.Values
    {
      map f | f in flows :: flows[f].Value()
    }

    constructor ()
      ensures Valid() && Value() == map[] && flows == map[]
    {
      flows := map[];
    }

    /** `entry(key).or_insert_with(..)`: the joiner of the flow, made if there is none. */
    method JoinerOf(flow: Flow, seqNo: u32) returns (stream: TcpJoiner)
      requires Valid()
      modifies this
      ensures Valid() && flow in flows && flows[flow] == stream
      ensures fresh(flows.Values - old(flows.Values))
      ensures Value() == if flow in old(flows) then old(Value()) else old(Value())[flow := Joiner(seqNo, [])]
    {
      if flow !in flows {
        stream := new TcpJoiner(seqNo);
        flows := flows[flow := stream];
      }
      stream := flows[flow];
    }

    method Push(flow: Flow, seqNo: u32, payload: seq<u8>) returns (out: Option<seq<u8>>)
      requires Valid()
      modifies this, flows.Values
      ensures Valid() && fresh(flows.Values - old(flows.Values))
      ensures (Value(), out) == ReassemblerResult(old(Value()), Arrival(flow, Segment(seqNo, payload)))
    {
      hide PushResult;
      ghost var at0 := Value();
      var stream := JoinerOf(flow, seqNo);
      ghost var before := Value();
      assert before[flow] == stream.Value();
      out := stream.Push(seqNo, payload);
      assert Value() == before[flow := stream.Value()];
      assert before[flow := stream.Value()] == at0[flow := stream.Value()];
    }
  }

  function Table(pushes: seq<Arrival>): map<Flow, Joiner> {
    if pushes == [] then map[]
    else ReassemblerResult(Table(pushes[..|pushes| - 1]), pushes[|pushes| - 1]).0
  }

  /** What the table returned for the pushes of one flow, in order. */
  function ReturnedFor(f: Flow, pushes: seq<Arrival>): seq<Option<seq<u8>>> {
    if pushes == [] then []
    else
      var n := |pushes| - 1;
      ReturnedFor(f, pushes[..n])
      + if pushes[n].flow == f then [ReassemblerResult(Table(pushes[..n]), pushes[n]).1] else []
  }

  function Only(f: Flow, pushes: seq<Arrival>): seq<Segment> {
    if pushes == [] then []
    else
      var n := |pushes| - 1;
      Only(f, pushes[..n]) + if pushes[n].flow == f then [pushes[n].segment] else []
  }

  /** However the flows are interleaved, each behaves like a lone joiner fed only its own segments. */
  lemma {:induction false} FlowsAreIndependent(f: Flow, pushes: seq<Arrival>)
    ensures f in Table(pushes) <==> Only(f, pushes) != []
    ensures f in Table(pushes) ==> Table(pushes)[f] == Feed(Only(f, pushes)).0
    ensures ReturnedFor(f, pushes) == Returned(Only(f, pushes))
  {
    if pushes == [] {
    } else {
      var n := |pushes| - 1;
      FlowsAreIndependent(f, pushes[..n]);
      if pushes[n].flow == f {
        var before := Only(f, pushes[..n]);
        assert Only(f, pushes)[..|before|] == before;
      } else {
        assert Only(f, pushes) == Only(f, pushes[..n]);
      }
    }
  }
}
