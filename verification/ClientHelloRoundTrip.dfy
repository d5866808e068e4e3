/** pqcscan prints a ClientHello, pqcdump reads it back (pqcscan/src/tls.rs against pqcdump/src/tls.rs). */
module ClientHelloRoundTrip {
  import opened Common
  import opened ClientHello
  import B = ClientHelloBuilder

  function EntryGroups(entries: seq<B.KeyShareEntry>): seq<u16> {
    if entries == [] then [] else [entries[0].group] + EntryGroups(entries[1..])
  }

  function GroupsIn(k: B.Kind): seq<u16> {
    if k.KeyShare? then EntryGroups(k.entries) else []
  }

  /** The groups of all key_share entries, in order. */
  function GroupsOf(kinds: seq<B.Kind>): seq<u16> {
    if kinds == [] then [] else GroupsIn(kinds[0]) + GroupsOf(kinds[1..])
  }

  lemma {:induction false} EntriesAreRead(found: seq<u16>, entries: seq<B.KeyShareEntry>)
    requires |B.EncodeEntries(entries)| < B.U16_SPACE
    ensures KeyShares(found, B.EncodeEntries(entries)) == Ok(found + EntryGroups(entries))
    decreases |entries|
  {
    if entries == [] {
      assert found + [] == found;
    } else {
      var e := entries[0];
      var list := B.EncodeEntries(entries);
      var tail := B.EncodeEntries(entries[1..]);
      EntryIsRead(e, tail);
      EntriesAreRead(found + [e.group], entries[1..]);
      assert (found + [e.group]) + EntryGroups(entries[1..]) == found + ([e.group] + EntryGroups(entries[1..]));
    }
  }

  lemma EntryIsRead(e: B.KeyShareEntry, tail: seq<u8>)
    requires |e.exchange| < B.U16_SPACE
    ensures var list := B.EncodeEntry(e) + tail;
            var end := 4 + |e.exchange|;
            end <= |list| && U16At(list, 0) == e.group && U16At(list, 2) == |e.exchange| && list[end..] == tail
  {
    hide Be16, U16At;
    var list := B.EncodeEntry(e) + tail;
    assert list[0..2] == Be16(e.group) && list[2..4] == Be16(|e.exchange|);
    WordInside(list, 0, e.group);
    WordInside(list, 2, |e.exchange|);
  }

  lemma ExtensionIsRead(k: B.Kind, tail: seq<u8>)
    requires B.Fits(k)
    ensures var block := B.EncodeExtension(B.Build(k)) + tail;
            var end := 4 + |B.PayloadOf(k)|;
            && end <= |block| && U16At(block, 0) == B.TypeOf(k) && U16At(block, 2) == |B.PayloadOf(k)|
            && block[4..end] == B.PayloadOf(k) && block[end..] == tail
  {
    hide B.PayloadOf, B.TypeOf, Be16, U16At;
    var block := B.EncodeExtension(B.Build(k)) + tail;
    assert block[0..2] == Be16(B.TypeOf(k)) && block[2..4] == Be16(|B.PayloadOf(k)|);
    WordInside(block, 0, B.TypeOf(k));
    WordInside(block, 2, |B.PayloadOf(k)|);
  }

  /** The outer loop takes one built extension off the block. */
  lemma ExtensionStep(found: seq<u16>, k: B.Kind, tail: seq<u8>)
    requires B.Fits(k)
    ensures Extensions(found, B.EncodeExtension(B.Build(k)) + tail) == Extensions(found + GroupsIn(k), tail)
  {
    var block := B.EncodeExtension(B.Build(k)) + tail;
    var end := 4 + |B.PayloadOf(k)|;
    ExtensionIsRead(k, tail);
    TypeTells(k);
    hide KeyShares, B.PayloadOf, B.TypeOf, B.EncodeExtension, B.Build, EntryGroups;
    if k.KeyShare? {
      EntriesAreRead(found, k.entries);
    } else {
      assert found + [] == found;
    }
  }

  lemma {:induction false} ExtensionsAreRead(found: seq<u16>, kinds: seq<B.Kind>)
    requires B.AllFit(kinds)
    ensures Extensions(found, B.EncodeExtensions(B.BuildAll(kinds))) == Ok(found + GroupsOf(kinds))
    decreases |kinds|
  {
    hide KeyShares, B.PayloadOf, B.TypeOf, B.EncodeExtension, GroupsIn, B.Fits;
    if kinds == [] {
      assert found + [] == found;
    } else {
      assert B.BuildAll(kinds)[1..] == B.BuildAll(kinds[1..]);
      ExtensionStep(found, kinds[0], B.EncodeExtensions(B.BuildAll(kinds[1..])));
      ExtensionsAreRead(found + GroupsIn(kinds[0]), kinds[1..]);
      hide Extensions;
      assert (found + GroupsIn(kinds[0])) + GroupsOf(kinds[1..]) == found + (GroupsIn(kinds[0]) + GroupsOf(kinds[1..]));
    }
  }

  lemma TypeTells(k: B.Kind)
    ensures B.TypeOf(k) == KEY_SHARE <==> k.KeyShare?
    ensures k.KeyShare? ==> |B.PayloadOf(k)| >= 2 && B.PayloadOf(k)[2..] == B.EncodeEntries(k.entries)
  {
  }

  /** A counted list: its length word counts exactly what follows. */
  lemma VectorIsCounted(bytes: seq<u8>)
    requires |bytes| < B.U16_SPACE
    ensures var v := B.Vector(bytes); U16At(v, 0) == |v| - 2 == |bytes| && v[2..] == bytes
  {
    hide Be16, U16At;
    var v := B.Vector(bytes);
    assert v[0..2] == Be16(|bytes|);
    WordInside(v, 0, |bytes|);
  }

  /**
   The lengths inside a payload that fits agree with the bytes they count, none has wrapped, and what
   they count is what the extension was made from (section 3 of RFC 6066, sections 4.2.1, 4.2.3, 4.2.7
   and 4.2.8 of RFC 8446, section 4 of RFC 8449, section 3 of RFC 8879).
   */
  lemma PayloadsDecode(k: B.Kind)
    requires B.Fits(k)
    ensures var p := B.PayloadOf(k);
            match k
            case ServerName(hostname) =>
              && U16At(p, 0) == |p| - 2 && p[2] == 0
              && U16At(p, 3) == |p| - 5 && p[5..] == hostname
            case SupportedVersions => p[0] == |p| - 1 && U16s(p[1..]) == [0x0304]
            case RecordSizeLimit(limit) => U16s(p) == [limit]
            case SupportedGroups(groups) => U16At(p, 0) == |p| - 2 && U16s(p[2..]) == groups
            case SignatureAlgorithms(algos) => U16At(p, 0) == |p| - 2 && U16s(p[2..]) == algos
            case CompressCertificate => p[0] == |p| - 1 && U16s(p[1..]) == [1, 2, 3]
            case KeyShare(entries) =>
              U16At(p, 0) == |p| - 2 && KeyShares([], p[2..]) == Ok(EntryGroups(entries))
            case RenegotiationInfo => p[0] == |p| - 1
            case EcPointFormats => p[0] == |p| - 1
            case _ => true
  {
    match k
    case ServerName(hostname) => ServerNameDecodes(hostname);
    case SupportedVersions =>
      assert B.PayloadOf(k)[1..] == Be16s([0x0304]);
      U16sOfBe16s([0x0304]);
    case RecordSizeLimit(limit) =>
      assert B.PayloadOf(k) == Be16s([limit]);
      U16sOfBe16s([limit]);
    case SupportedGroups(groups) =>
      VectorIsCounted(Be16s(groups));
      U16sOfBe16s(groups);
    case SignatureAlgorithms(algos) =>
      VectorIsCounted(Be16s(algos));
      U16sOfBe16s(algos);
    case CompressCertificate =>
      assert B.PayloadOf(k)[1..] == Be16s([1, 2, 3]);
      U16sOfBe16s([1, 2, 3]);
    case KeyShare(entries) =>
      VectorIsCounted(B.EncodeEntries(entries));
      EntriesAreRead([], entries);
      assert [] + EntryGroups(entries) == EntryGroups(entries);
    case _ =>
  }

  lemma ServerNameDecodes(hostname: seq<u8>)
    requires B.Fits(B.ServerName(hostname))
    ensures var p := B.PayloadOf(B.ServerName(hostname));
            && U16At(p, 0) == |p| - 2 && p[2] == 0
            && U16At(p, 3) == |p| - 5 && p[5..] == hostname
  {
    hide Be16, U16At;
    var p := B.PayloadOf(B.ServerName(hostname));
    var inner := [0] + B.Vector(hostname);
    assert p[0..2] == Be16(|inner|) && p[3..5] == Be16(|hostname|);
    WordInside(p, 0, |inner|);
    WordInside(p, 3, |hostname|);
  }

  /** The record, handshake and extension lengths against the bytes that follow them. */
  lemma LengthsAgree(h: B.Hello)
    requires B.CanEncode(h) && |h.random| == 32
    ensures var e := B.Encoded(h);
            && |e| == 9 + B.BodySize(h)
            && e[0] == 22 && e[1] == 3 && e[2] == 1 && e[5] == 1 && e[6] == 0
            && U16At(e, 7) == |e| - 9
            && (U16At(e, 3) == |e| - 5 <==> B.BodySize(h) <= 65531)
  {
    hide B.EncodeExtensions, Be16s, B.Body, Be16, U16At;
    var recordLength := (B.BodySize(h) + 4) % B.U16_SPACE;
    HeaderBytes(recordLength, B.BodySize(h), B.Body(h));
  }

  lemma HeaderBytes(recordLength: u16, length: u16, body: seq<u8>)
    ensures var e := [22] + Be16(0x0301) + Be16(recordLength) + [1, 0] + Be16(length) + body;
            && |e| == 9 + |body|
            && e[0] == 22 && e[1] == 3 && e[2] == 1 && e[5] == 1 && e[6] == 0
            && U16At(e, 3) == recordLength && U16At(e, 7) == length
  {
    assert Be16(0x0301) == [3, 1];
    hide Be16, U16At;
    var e := [22] + Be16(0x0301) + Be16(recordLength) + [1, 0] + Be16(length) + body;
    assert e[3..5] == Be16(recordLength) && e[7..9] == Be16(length);
    WordInside(e, 3, recordLength);
    WordInside(e, 7, length);
  }

  lemma HeadParts(h: B.Hello)
    requires B.CanEncode(h) && |h.random| == 32
    ensures var b, sid, words := B.BodyHead(h), |h.sessionId|, 2 * |h.cipherSuites|;
            && |b| == 37 + sid + words
            && b[34] == sid
            && b[35 + sid..37 + sid] == Be16(words)
            && b[37 + sid..37 + sid + words] == Be16s(h.cipherSuites)
  {
    hide Be16s, Be16;
  }

  lemma TailParts(h: B.Hello)
    requires B.CanEncode(h)
    ensures var b, comp, n := B.BodyTail(h), |h.compressionMethods|, |B.EncodeExtensions(h.extensions)|;
            && |b| == 3 + comp + n
            && b[0] == comp
            && b[1 + comp..3 + comp] == Be16(n)
            && b[3 + comp..3 + comp + n] == B.EncodeExtensions(h.extensions)
  {
    hide B.EncodeExtensions, Be16;
  }

  /** The spans the parser finds in data with a built body at its place. */
  lemma BodyIsFound(h: B.Hello, data: seq<u8>)
    requires B.CanEncode(h) && |h.random| == 32
    requires |data| >= 9 + B.BodySize(h) && data[9..9 + B.BodySize(h)] == B.Body(h)
    ensures var start, words := 46 + |h.sessionId|, 2 * |h.cipherSuites|;
            var end := 9 + B.BodySize(h);
            var block := end - |B.EncodeExtensions(h.extensions)|;
            && CipherSpan(data) == Ok((start, words))
            && data[start..start + words] == Be16s(h.cipherSuites)
            && ExtensionSpan(data, start + words) == Ok((block, end))
            && data[block..end] == B.EncodeExtensions(h.extensions)
  {
    hide *;
    BodyParts(h);
    PartsAreSlices(data, 9, B.BodyHead(h), B.BodyTail(h));
    HeadIsFound(h, data);
    TailIsFound(h, data, 9 + |B.BodyHead(h)|);
  }

  lemma BodyParts(h: B.Hello)
    requires B.CanEncode(h) && |h.random| == 32
    ensures B.Body(h) == B.BodyHead(h) + B.BodyTail(h)
    ensures |B.BodyHead(h)| == 37 + |h.sessionId| + 2 * |h.cipherSuites|
    ensures |B.BodyHead(h)| + |B.BodyTail(h)| == B.BodySize(h)
  {
    HeadParts(h);
    hide B.BodyHead, B.BodyTail;
  }

  lemma PartsAreSlices(data: seq<u8>, at: nat, a: seq<u8>, b: seq<u8>)
    requires at + |a| + |b| <= |data| && data[at..at + |a| + |b|] == a + b
    ensures data[at..at + |a|] == a && data[at + |a|..at + |a| + |b|] == b
  {
    SliceOfSlice(data, at, at + |a| + |b|, 0, |a|);
    SliceOfSlice(data, at, at + |a| + |b|, |a|, |a| + |b|);
  }

  lemma HeadIsFound(h: B.Hello, data: seq<u8>)
    requires B.CanEncode(h) && |h.random| == 32 && 9 + |B.BodyHead(h)| <= |data|
    requires data[9..9 + |B.BodyHead(h)|] == B.BodyHead(h)
    ensures var start, words := 46 + |h.sessionId|, 2 * |h.cipherSuites|;
            CipherSpan(data) == Ok((start, words)) && data[start..start + words] == Be16s(h.cipherSuites)
  {
    HeadParts(h);
    hide Be16s, Be16, U16At, B.BodyHead;
    var b := B.BodyHead(h);
    var sid, words := |h.sessionId|, 2 * |h.cipherSuites|;
    assert data[43] == data[9..9 + |b|][34];
    SliceOfSlice(data, 9, 9 + |b|, 35 + sid, 37 + sid);
    WordInside(data, 44 + sid, words);
    SliceOfSlice(data, 9, 9 + |b|, 37 + sid, 37 + sid + words);
  }

  lemma TailIsFound(h: B.Hello, data: seq<u8>, next: nat)
    requires B.CanEncode(h) && next + |B.BodyTail(h)| <= |data|
    requires data[next..next + |B.BodyTail(h)|] == B.BodyTail(h)
    ensures var end := next + |B.BodyTail(h)|;
            var block := end - |B.EncodeExtensions(h.extensions)|;
            && block >= 0 && ExtensionSpan(data, next) == Ok((block, end))
            && data[block..end] == B.EncodeExtensions(h.extensions)
  {
    TailParts(h);
    hide Be16, U16At, B.BodyTail, B.EncodeExtensions, ExtensionSpan;
    var b := B.BodyTail(h);
    var comp, n := |h.compressionMethods|, |B.EncodeExtensions(h.extensions)|;
    assert data[next] == data[next..next + |b|][0];
    SliceOfSlice(data, next, next + |b|, 1 + comp, 3 + comp);
    WordInside(data, next + 1 + comp, n);
    SliceOfSlice(data, next, next + |b|, 3 + comp, 3 + comp + n);
    SpanIs(data, next, comp, n);
  }

  lemma SpanIs(data: seq<u8>, next: nat, comp: nat, n: u16)
    requires next + 3 + comp + n <= |data| && data[next] == comp && U16At(data, next + 1 + comp) == n
    ensures ExtensionSpan(data, next) == Ok((next + 3 + comp, next + 3 + comp + n))
  {
    hide U16At;
  }

  lemma EncodedHasBody(h: B.Hello, rest: seq<u8>)
    requires B.CanEncode(h)
    ensures var data := B.Encoded(h) + rest;
            |data| >= 9 + B.BodySize(h) && data[9..9 + B.BodySize(h)] == B.Body(h)
  {
    hide Be16, B.Body;
  }

  /**
   Whatever follows it, a built ClientHello parses to its own cipher suites and the groups of all its
   key_share entries, both in order, and the parse ends where it ends.
   */
  lemma RoundTrip(h: B.Hello, kinds: seq<B.Kind>, rest: seq<u8>)
    requires B.CanEncode(h) && |h.random| == 32 && B.AllFit(kinds) && h.extensions == B.BuildAll(kinds)
    ensures Parsed(B.Encoded(h) + rest) == Ok((CryptoConfig(h.cipherSuites, GroupsOf(kinds)), |B.Encoded(h)|))
  {
    hide *;
    var data := B.Encoded(h) + rest;
    EncodedHasBody(h, rest);
    BodyIsFound(h, data);
    LengthsAgree(h);
    U16sOfBe16s(h.cipherSuites);
    ExtensionsAreRead([], kinds);
    assert [] + GroupsOf(kinds) == GroupsOf(kinds);
    ParsedFrom(data, 46 + |h.sessionId|, h.cipherSuites, 9 + B.BodySize(h) - |B.EncodeExtensions(h.extensions)|,
               9 + B.BodySize(h), GroupsOf(kinds));
  }

  /** The parse, put together from its spans. */
  lemma ParsedFrom(data: seq<u8>, start: nat, suites: seq<u16>, block: nat, end: nat, groups: seq<u16>)
    requires CipherSpan(data) == Ok((start, 2 * |suites|)) && data[start..start + 2 * |suites|] == Be16s(suites)
    requires U16s(Be16s(suites)) == suites
    requires ExtensionSpan(data, start + 2 * |suites|) == Ok((block, end))
    requires Extensions([], data[block..end]) == Ok(groups)
    ensures Parsed(data) == Ok((CryptoConfig(suites, groups), end))
  {
    hide CipherSpan, ExtensionSpan, Extensions, U16s, Be16s;
    assert PairedLength(2 * |suites|) == 2 * |suites|;
  }

  /** Every strict prefix of a built ClientHello is rejected with an error: no partial result, no panic. */
  lemma TruncationIsRejected(h: B.Hello, kinds: seq<B.Kind>, n: nat)
    requires B.CanEncode(h) && |h.random| == 32 && B.AllFit(kinds) && h.extensions == B.BuildAll(kinds)
    requires n < 9 + B.BodySize(h)
    ensures Parsed(B.Encoded(h)[..n]).Err?
  {
    hide *;
    var data := B.Encoded(h);
    RoundTrip(h, kinds, []);
    EncodedHasBody(h, []);
    assert data + [] == data;
    BodyIsFound(h, data);
    PrefixIsRejected(data, n);
    assert (2 * |h.cipherSuites|) % 2 == 0;
  }
}
