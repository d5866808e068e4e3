/** What the ServerHello parser of pqcdump accepts, whoever wrote it (pqcdump/src/tls.rs). */
module ServerHelloLanguage {
  import opened Common
  import opened ServerHello

  // ----- the entries of a key_share -----

  predicate Shared(es: seq<KeyShareEntry>) {
    es == [] || (|es[0].keyExchange| < 0x1_0000 && Shared(es[1..]))
  }

  function EncodeShares(es: seq<KeyShareEntry>): seq<u8>
    requires Shared(es)
  {
    if es == [] then [] else OneShare(es[0].group, es[0].keyExchange) + EncodeShares(es[1..])
  }

  /** Too little for an entry, or an entry announced longer than what is there. */
  predicate EndsShares(rest: seq<u8>) {
    |rest| < 4 || 4 + U16At(rest, 2) > |rest|
  }

  predicate IsShareList(body: seq<u8>, es: seq<KeyShareEntry>, rest: seq<u8>) {
    Shared(es) && EndsShares(rest) && body == EncodeShares(es) + rest
  }

  lemma ShareHead(group: u16, key: seq<u8>, tail: seq<u8>)
    requires |key| < 0x1_0000
    ensures var body := OneShare(group, key) + tail;
            var end := 4 + |key|;
            && end <= |body| && U16At(body, 0) == group && U16At(body, 2) == |key|
            && body[4..end] == key && body[end..] == tail
  {
    hide Be16, U16At;
    var body := OneShare(group, key) + tail;
    assert body[0..2] == Be16(group) && body[2..4] == Be16(|key|);
    WordInside(body, 0, group);
    WordInside(body, 2, |key|);
  }

  lemma {:induction false} SharesAreRead(es: seq<KeyShareEntry>, rest: seq<u8>)
    requires Shared(es) && EndsShares(rest)
    ensures ShareEntries(EncodeShares(es) + rest) == es
  {
    hide ShareEntries, OneShare, U16At;
    if es == [] {
      assert EncodeShares(es) + rest == rest;
      ShareEntriesStep(rest);
    } else {
      var e, tail := es[0], EncodeShares(es[1..]) + rest;
      var body := OneShare(e.group, e.keyExchange) + tail;
      assert EncodeShares(es) + rest == body;
      ShareHead(e.group, e.keyExchange, tail);
      ShareEntriesStep(body);
      SharesAreRead(es[1..], rest);
      assert es == [e] + es[1..];
    }
  }

  lemma FirstShare(body: seq<u8>)
    requires |body| >= 4 && 4 + U16At(body, 2) <= |body|
    ensures var end := 4 + U16At(body, 2);
            |body[4..end]| < 0x1_0000 && body == OneShare(U16At(body, 0), body[4..end]) + body[end..]
  {
    Be16OfWord(body, 0);
    Be16OfWord(body, 2);
    hide U16At, Be16;
    var end := 4 + U16At(body, 2);
    assert body == body[0..2] + body[2..4] + body[4..end] + body[end..];
  }

  lemma {:induction false} SharesSplit(body: seq<u8>) returns (rest: seq<u8>)
    ensures IsShareList(body, ShareEntries(body), rest)
    decreases |body|
  {
    ShareEntriesStep(body);
    if EndsShares(body) {
      rest := body;
      assert [] + body == body;
    } else {
      hide ShareEntries, OneShare;
      var end := 4 + U16At(body, 2);
      var e := KeyShareEntry(U16At(body, 0), body[4..end]);
      var later := ShareEntries(body[end..]);
      FirstShare(body);
      rest := SharesSplit(body[end..]);
      hide U16At, EndsShares;
      assert ([e] + later)[1..] == later;
      var first := OneShare(e.group, e.keyExchange);
      assert first + (EncodeShares(later) + rest) == (first + EncodeShares(later)) + rest;
    }
  }

  /** The entries read from a key_share body are these exactly when the body is their encoding and no further entry. */
  lemma SharesReadExactly(body: seq<u8>, es: seq<KeyShareEntry>)
    ensures ShareEntries(body) == es <==> exists rest :: IsShareList(body, es, rest)
  {
    if ShareEntries(body) == es {
      var rest := SharesSplit(body);
    }
    if rest :| IsShareList(body, es, rest) {
      SharesAreRead(es, rest);
    }
  }

  // ----- the message -----

  predicate IsOnly(found: seq<KeyShareEntry>, group: u16) {
    if |found| == 1 then group == found[0].group else group == 0
  }

  /** The block is whole, and its reading has one entry, of this group, or the group is 0. */
  ghost predicate HasGroup(block: seq<u8>, group: u16) {
    exists es, tail, found :: IsReading(block, [], es, tail, found) && IsOnly(found, group)
  }

  lemma BlockHasGroup(block: seq<u8>, group: u16)
    ensures HasGroup(block, group) <==> LastEntries([], block).Ok? && GroupOf(LastEntries([], block).value) == group
  {
    hide LastEntries, IsReading;
    if LastEntries([], block).Ok? && GroupOf(LastEntries([], block).value) == group {
      var found := LastEntries([], block).value;
      BlockReadsExactly([], block, found);
      var es, tail :| IsReading(block, [], es, tail, found);
    }
    if es, tail, found :| IsReading(block, [], es, tail, found) && IsOnly(found, group) {
      BlockReadsExactly([], block, found);
    }
  }

  /**
   For every payload: the parser returns this cipher and group exactly when it is a ServerHello up to its
   extension length, the cipher is the word behind the session id, and the extension block is cut and the
   group is 0, or the block is whole and the group is that of its reading.
   */
  lemma AcceptedExactly(payload: seq<u8>, cipher: u16, group: u16)
    ensures Parsed(payload) == Ok(SessionConfig([cipher], group)) <==>
            && |payload| >= 47 && payload[5] == 2
            && var pos := 44 + payload[43] as int;
            && |payload| >= pos + 5 && cipher == U16At(payload, pos)
            && var end := pos + 5 + U16At(payload, pos + 3);
            if |payload| < end then group == 0 else HasGroup(payload[pos + 5..end], group)
  {
    hide LastEntries, HasGroup, U16At;
    if |payload| >= 47 && |payload| >= 49 + payload[43] as int {
      var pos := 44 + payload[43] as int;
      var end := pos + 5 + U16At(payload, pos + 3);
      if end <= |payload| {
        BlockHasGroup(payload[pos + 5..end], group);
      }
    }
  }

  /** The parser never returns more or fewer ciphers than one. */
  lemma OneCipher(payload: seq<u8>)
    ensures Parsed(payload).Ok? ==> |Parsed(payload).value.ciphers| == 1
  {
    hide LastEntries, U16At;
  }

  /** A message cut behind its extension length still gives its cipher, and group 0. */
  lemma CutMessageHasNoGroup(recordLen: u16, handshakeLen: u16, h: Hello, es: seq<Extension>, n: nat)
    requires Encodable(h, es)
    requires 49 + |h.sessionId| <= n < |Encode(recordLen, handshakeLen, h, es)|
    ensures Parsed(Encode(recordLen, handshakeLen, h, es)[..n]) == Ok(SessionConfig([h.cipher], 0))
  {
    var block := EncodeExtensions(es);
    var tail := Be16(|block|) + block;
    var data := Encode(recordLen, handshakeLen, h, es);
    var sid := |h.sessionId|;
    assert data == EncodeStart(recordLen, handshakeLen, h) + tail;
    hide Be16, Encode, EncodeStart, EncodeExtensions, LastEntries, HasGroup, U16At;
    StartIsRead(recordLen, handshakeLen, h, tail);
    assert tail + [] == tail && Be16(|block|) + block + [] == tail;
    BlockIsFound(data, 47 + sid, block, []);
    var cut := data[..n];
    assert cut == data[0..n];
    WordOfSlice(data, 0, n, 44 + sid);
    WordOfSlice(data, 0, n, 47 + sid);
    AcceptedExactly(cut, h.cipher, 0);
  }
}
