/**
 The bytes of the handshake pqcscan sends (pqcscan/src/tls.rs), said without its printer: by offsets,
 literal numbers and a reader of extension blocks (sections 4.1.2 and 4.2 of RFC 8446).
 */
module HandshakeBytes {
  import opened Common
  import opened ClientHello
  import opened ClientHelloRoundTrip
  import B = ClientHelloBuilder

  datatype WireExtension = WireExtension(extType: u16, body: seq<u8>)

  /** The extensions of a block that is exactly whole extensions. */
  function ReadBlock(block: seq<u8>): Option<seq<WireExtension>>
    decreases |block|
  {
    if block == [] then Some([])
    else if |block| < 4 || 4 + U16At(block, 2) > |block| then None
    else
      var end := 4 + U16At(block, 2);
      match ReadBlock(block[end..])
      case Some(later) => Some([WireExtension(U16At(block, 0), block[4..end])] + later)
      case None => None
  }

  /** A list of one host name. */
  predicate NamesHost(body: seq<u8>, host: seq<u8>) {
    && |body| == 5 + |host| && U16At(body, 0) == 3 + |host|
    && body[2] == 0 && U16At(body, 3) == |host| && body[5..] == host
  }

  /** A counted list of words. */
  predicate ListsWords(body: seq<u8>, words: seq<u16>) {
    |body| == 2 + 2 * |words| && U16At(body, 0) == 2 * |words| && U16s(body[2..]) == words
  }

  predicate AreHandshakeExtensions(es: seq<WireExtension>, host: seq<u8>, group: u16, sigschemes: seq<u16>) {
    && |es| == 12
    && es[0].extType == 0 && NamesHost(es[0].body, host)
    && es[1] == WireExtension(43, [2, 3, 4])
    && es[2].extType == 13 && ListsWords(es[2].body, sigschemes)
    && es[3] == WireExtension(5, [1, 0, 0, 0, 0])
    && es[4].extType == 10 && ListsWords(es[4].body, [group])
    && es[5] == WireExtension(51, [0, 0])
    && es[6] == WireExtension(28, [64, 1])
    && es[7] == WireExtension(18, []) && es[8] == WireExtension(23, [])
    && es[9] == WireExtension(27, [6, 0, 1, 0, 2, 0, 3])
    && es[10] == WireExtension(65281, [0])
    && es[11] == WireExtension(11, [1, 0])
  }

  /** The record and handshake headers and the fields up to the extension block, which starts at 82 + 2 n. */
  predicate HasFields(data: seq<u8>, ciphers: seq<u16>, random: seq<u8>, sessionId: seq<u8>) {
    var n := |ciphers|;
    && |data| >= 82 + 2 * n
    && data[0] == 22 && data[1] == 3 && data[2] == 1
    && data[5] == 1 && data[6] == 0 && U16At(data, 7) == |data| - 9
    && data[9] == 3 && data[10] == 3 && data[11..43] == random
    && data[43] == 32 && data[44..76] == sessionId
    && U16At(data, 76) == 2 * n && U16s(data[78..78 + 2 * n]) == ciphers
    && data[78 + 2 * n] == 1 && data[79 + 2 * n] == 0
    && U16At(data, 80 + 2 * n) == |data| - 82 - 2 * n
  }

  predicate IsHandshake(data: seq<u8>, host: seq<u8>, group: u16, ciphers: seq<u16>, sigschemes: seq<u16>,
                        random: seq<u8>, sessionId: seq<u8>) {
    && HasFields(data, ciphers, random, sessionId)
    && var es := ReadBlock(data[82 + 2 * |ciphers|..]);
    && es.Some? && AreHandshakeExtensions(es.value, host, group, sigschemes)
  }

  // ----- the extensions -----

  function WireOf(kinds: seq<B.Kind>): seq<WireExtension> {
    seq(|kinds|, i requires 0 <= i < |kinds| => WireExtension(B.TypeOf(kinds[i]), B.PayloadOf(kinds[i])))
  }

  lemma BuiltCons(k: B.Kind, later: seq<B.Kind>)
    ensures B.EncodeExtensions(B.BuildAll([k] + later))
            == B.EncodeExtension(B.Build(k)) + B.EncodeExtensions(B.BuildAll(later))
  {
    hide B.EncodeExtension, B.Build;
    var es := B.BuildAll([k] + later);
    assert es == [B.Build(k)] + B.BuildAll(later);
    assert es[1..] == B.BuildAll(later) && es[0] == B.Build(k);
    hide B.BuildAll;
  }

  lemma WireCons(k: B.Kind, later: seq<B.Kind>)
    ensures WireOf([k] + later) == [WireExtension(B.TypeOf(k), B.PayloadOf(k))] + WireOf(later)
  {
    hide B.TypeOf, B.PayloadOf;
  }

  lemma FitsCons(k: B.Kind, later: seq<B.Kind>)
    requires B.AllFit([k] + later)
    ensures B.Fits(k) && B.AllFit(later)
  {
    hide B.Fits;
    var kinds := [k] + later;
    assert B.Fits(kinds[0]);
    forall i | 0 <= i < |later| ensures B.Fits(later[i]) {
      assert later[i] == kinds[i + 1] && B.Fits(kinds[i + 1]);
    }
  }

  lemma NothingIsRead()
    ensures ReadBlock(B.EncodeExtensions(B.BuildAll([]))) == Some(WireOf([]))
  {
    assert |WireOf([])| == 0;
  }

  lemma {:induction false} BlockIsRead(kinds: seq<B.Kind>)
    requires B.AllFit(kinds)
    ensures ReadBlock(B.EncodeExtensions(B.BuildAll(kinds))) == Some(WireOf(kinds))
  {
    hide *;
    if kinds == [] {
      NothingIsRead();
    } else {
      var k, later := kinds[0], kinds[1..];
      assert kinds == [k] + later;
      FitsCons(k, later);
      BuiltCons(k, later);
      WireCons(k, later);
      BlockIsRead(later);
      FirstIsRead(k, B.EncodeExtensions(B.BuildAll(later)));
    }
  }

  lemma FirstIsRead(k: B.Kind, tail: seq<u8>)
    requires B.Fits(k) && ReadBlock(tail).Some?
    ensures ReadBlock(B.EncodeExtension(B.Build(k)) + tail)
            == Some([WireExtension(B.TypeOf(k), B.PayloadOf(k))] + ReadBlock(tail).value)
  {
    hide B.PayloadOf, B.TypeOf, B.EncodeExtension, B.Build, U16At;
    ExtensionIsRead(k, tail);
  }

  lemma PlainPayloads(group: u16)
    ensures B.PayloadOf(B.SupportedVersions) == [2, 3, 4]
    ensures B.PayloadOf(B.KeyShare([])) == [0, 0]
    ensures B.PayloadOf(B.RecordSizeLimit(16385)) == [64, 1]
    ensures B.PayloadOf(B.CompressCertificate) == [6, 0, 1, 0, 2, 0, 3]
  {
  }

  lemma ListIsRead(words: seq<u16>)
    requires 2 * |words| < B.U16_SPACE
    ensures ListsWords(B.Vector(Be16s(words)), words)
  {
    VectorIsCounted(Be16s(words));
    U16sOfBe16s(words);
  }

  lemma HostIsRead(host: seq<u8>)
    requires B.Fits(B.ServerName(host))
    ensures NamesHost(B.PayloadOf(B.ServerName(host)), host)
  {
    ServerNameDecodes(host);
    B.PayloadSizes(B.ServerName(host));
    hide B.PayloadOf, U16At;
  }

  /** The twelve kinds, one by one. */
  lemma TheTwelve(host: seq<u8>, group: u16, sigschemes: seq<u16>)
    ensures var kinds := B.HandshakeKinds(host, group, sigschemes);
            && |kinds| == 12 && kinds[0] == B.ServerName(host) && kinds[1] == B.SupportedVersions
            && kinds[2] == B.SignatureAlgorithms(sigschemes) && kinds[3] == B.StatusRequest
            && kinds[4] == B.SupportedGroups([group]) && kinds[5] == B.KeyShare([])
            && kinds[6] == B.RecordSizeLimit(16385) && kinds[7] == B.SignedCertificateTimestamp
            && kinds[8] == B.ExtendedMasterSecret && kinds[9] == B.CompressCertificate
            && kinds[10] == B.RenegotiationInfo && kinds[11] == B.EcPointFormats
  {
  }

  lemma ExtensionsAreAsAsked(host: seq<u8>, group: u16, sigschemes: seq<u16>)
    requires B.AllFit(B.HandshakeKinds(host, group, sigschemes))
    ensures AreHandshakeExtensions(WireOf(B.HandshakeKinds(host, group, sigschemes)), host, group, sigschemes)
  {
    TheTwelve(host, group, sigschemes);
    var kinds := B.HandshakeKinds(host, group, sigschemes);
    assert B.Fits(kinds[0]) && B.Fits(kinds[2]);
    B.PayloadSizes(B.SignatureAlgorithms(sigschemes));
    HostIsRead(host);
    ListIsRead(sigschemes);
    ListIsRead([group]);
    PlainPayloads(group);
    hide B.HandshakeKinds, NamesHost, ListsWords, B.Vector, Be16s, B.EncodeEntries;
  }

  // ----- the fields -----

  lemma HeadFront(h: B.Hello)
    requires B.CanEncode(h) && |h.random| == |h.sessionId| == 32
    ensures var b := B.BodyHead(h);
            && |b| == 69 + 2 * |h.cipherSuites|
            && b[0..2] == Be16(h.legacyVersion) && b[2..34] == h.random && b[34] == 32 && b[35..67] == h.sessionId
            && b[67..69] == Be16(2 * |h.cipherSuites|)
            && b[69..69 + 2 * |h.cipherSuites|] == Be16s(h.cipherSuites)
  {
    hide Be16, Be16s;
  }

  lemma HeadFields(h: B.Hello, data: seq<u8>)
    requires B.CanEncode(h) && |h.random| == |h.sessionId| == 32 && h.legacyVersion == 0x0303
    requires 9 + |B.BodyHead(h)| <= |data| && data[9..9 + |B.BodyHead(h)|] == B.BodyHead(h)
    ensures var n := |h.cipherSuites|;
            && |data| >= 78 + 2 * n && data[9] == 3 && data[10] == 3 && data[11..43] == h.random
            && data[43] == 32 && data[44..76] == h.sessionId
            && U16At(data, 76) == 2 * n && data[78..78 + 2 * n] == Be16s(h.cipherSuites)
  {
    HeadFront(h);
    var b, n := B.BodyHead(h), |h.cipherSuites|;
    assert Be16(0x0303) == [3, 3];
    hide B.BodyHead, Be16, Be16s, U16At;
    assert data[9] == b[0..2][0] && data[10] == b[0..2][1] && data[43] == b[34];
    SliceOfSlice(data, 9, 9 + |b|, 2, 34);
    SliceOfSlice(data, 9, 9 + |b|, 35, 67);
    SliceOfSlice(data, 9, 9 + |b|, 67, 69);
    WordInside(data, 76, 2 * n);
    SliceOfSlice(data, 9, 9 + |b|, 69, 69 + 2 * n);
  }

  lemma TailFields(h: B.Hello, data: seq<u8>, at: nat)
    requires B.CanEncode(h) && h.compressionMethods == [0]
    requires at + |B.BodyTail(h)| == |data| && data[at..] == B.BodyTail(h)
    ensures |data| >= at + 4 && data[at] == 1 && data[at + 1] == 0
    ensures U16At(data, at + 2) == |data| - at - 4 && data[at + 4..] == B.EncodeExtensions(h.extensions)
  {
    TailParts(h);
    var b, n := B.BodyTail(h), |B.EncodeExtensions(h.extensions)|;
    assert b[1] == 0;
    hide B.BodyTail, B.EncodeExtensions, Be16, U16At;
    assert data[at] == data[at..][0] && data[at + 1] == data[at..][1];
    assert data[at..] == data[at..|data|] && data[at + 4..] == data[at + 4..|data|];
    SliceOfSlice(data, at, |data|, 2, 4);
    WordInside(data, at + 2, n);
    SliceOfSlice(data, at, |data|, 4, 4 + n);
  }

  lemma FieldsAreAsAsked(h: B.Hello)
    requires B.CanEncode(h) && |h.random| == |h.sessionId| == 32 && h.legacyVersion == 0x0303
    requires h.compressionMethods == [0]
    ensures HasFields(B.Encoded(h), h.cipherSuites, h.random, h.sessionId)
    ensures B.Encoded(h)[82 + 2 * |h.cipherSuites|..] == B.EncodeExtensions(h.extensions)
  {
    var data := B.Encoded(h);
    LengthsAgree(h);
    BodyInMessage(h);
    HeadFront(h);
    U16sOfBe16s(h.cipherSuites);
    hide B.Encoded, B.BodyHead, B.BodyTail, B.Body, B.EncodeExtensions, Be16, Be16s, U16At, U16s;
    HeadFields(h, data);
    TailFields(h, data, 78 + 2 * |h.cipherSuites|);
  }

  lemma BodyInMessage(h: B.Hello)
    requires B.CanEncode(h) && |h.random| == 32
    ensures var data, n := B.Encoded(h), 9 + |B.BodyHead(h)|;
            n + |B.BodyTail(h)| == |data| && data[9..n] == B.BodyHead(h) && data[n..] == B.BodyTail(h)
  {
    EncodedHasBody(h, []);
    var data := B.Encoded(h);
    assert data + [] == data;
    BodyParts(h);
    hide B.Encoded, B.BodyHead, B.BodyTail, B.BodySize;
    PartsAreSlices(data, 9, B.BodyHead(h), B.BodyTail(h));
    assert data[9 + |B.BodyHead(h)|..] == data[9 + |B.BodyHead(h)|..|data|];
  }

  /** The message for these arguments is the handshake that they ask for. */
  lemma HandshakeIsAsAsked(host: seq<u8>, group: u16, ciphers: seq<u16>, sigschemes: seq<u16>,
                           random: seq<u8>, sessionId: seq<u8>)
    requires |random| == |sessionId| == 32 && B.AllFit(B.HandshakeKinds(host, group, sigschemes))
    requires B.CanEncode(B.Hello(0x0303, random, sessionId, ciphers, [0],
                                 B.BuildAll(B.HandshakeKinds(host, group, sigschemes))))
    ensures var h := B.Hello(0x0303, random, sessionId, ciphers, [0],
                             B.BuildAll(B.HandshakeKinds(host, group, sigschemes)));
            IsHandshake(B.Encoded(h), host, group, ciphers, sigschemes, random, sessionId)
  {
    var kinds := B.HandshakeKinds(host, group, sigschemes);
    var h := B.Hello(0x0303, random, sessionId, ciphers, [0], B.BuildAll(kinds));
    hide *;
    var data := B.Encoded(h);
    FieldsAreAsAsked(h);
    FieldsFit(data, ciphers, random, sessionId);
    BlockIsRead(kinds);
    ExtensionsAreAsAsked(host, group, sigschemes);
    Together(data, host, group, ciphers, sigschemes, random, sessionId, WireOf(kinds));
  }

  lemma Together(data: seq<u8>, host: seq<u8>, group: u16, ciphers: seq<u16>, sigschemes: seq<u16>,
                 random: seq<u8>, sessionId: seq<u8>, es: seq<WireExtension>)
    requires HasFields(data, ciphers, random, sessionId) && |data| >= 82 + 2 * |ciphers|
    requires ReadBlock(data[82 + 2 * |ciphers|..]) == Some(es)
    requires AreHandshakeExtensions(es, host, group, sigschemes)
    ensures IsHandshake(data, host, group, ciphers, sigschemes, random, sessionId)
  {
    hide HasFields, ReadBlock, AreHandshakeExtensions;
  }

  lemma FieldsFit(data: seq<u8>, ciphers: seq<u16>, random: seq<u8>, sessionId: seq<u8>)
    ensures HasFields(data, ciphers, random, sessionId) ==> |data| >= 82 + 2 * |ciphers|
  {
  }

  /**
   The handshake pqcscan sends: it is built exactly up to 65381 bytes of host name, suites and schemes,
   its lengths agree exactly up to 65377, it says what it was asked to say, byte for byte, and pqcdump reads
   its suites and, there being no key share, no group.
   */
  method Handshake(host: seq<u8>, group: u16, ciphers: seq<u16>, sigschemes: seq<u16>,
                   random: seq<u8>, sessionId: seq<u8>)
    returns (sent: Outcome<seq<u8>, B.BuildError>)
    requires |random| == |sessionId| == 32
    ensures sent.Ok? <==> |host| + 2 * |ciphers| + 2 * |sigschemes| <= 65381
    ensures sent.Ok? ==>
              && |sent.value| >= 9
              && (U16At(sent.value, 3) == |sent.value| - 5 <==> |host| + 2 * |ciphers| + 2 * |sigschemes| <= 65377)
              && U16At(sent.value, 7) == |sent.value| - 9
    ensures sent.Ok? ==> Parsed(sent.value) == Ok((CryptoConfig(ciphers, []), |sent.value|))
    ensures sent.Ok? ==> IsHandshake(sent.value, host, group, ciphers, sigschemes, random, sessionId)
  {
    hide IsHandshake, B.EncodeExtensions, Be16s, Be16, B.Encoded, B.Body, Parsed, B.BuildAll, B.AllFit,
         B.HandshakeKinds, GroupsOf;
    sent := B.BuildHandshake(host, group, ciphers, sigschemes, random, sessionId);
    if sent.Ok? {
      ghost var kinds := B.HandshakeKinds(host, group, sigschemes);
      ghost var h := B.Hello(0x0303, random, sessionId, ciphers, [0], B.BuildAll(kinds));
      LengthsAgree(h);
      RoundTrip(h, kinds, []);
      assert sent.value + [] == sent.value;
      HandshakeHasNoGroups(host, group, sigschemes);
      HandshakeIsAsAsked(host, group, ciphers, sigschemes, random, sessionId);
    }
  }

  lemma HandshakeHasNoGroups(host: seq<u8>, group: u16, sigschemes: seq<u16>)
    ensures GroupsOf(B.HandshakeKinds(host, group, sigschemes)) == []
  {
    NoGroups(B.HandshakeKinds(host, group, sigschemes));
  }

  lemma {:induction false} NoGroups(kinds: seq<B.Kind>)
    requires forall k | k in kinds && k.KeyShare? :: k.entries == []
    ensures GroupsOf(kinds) == []
  {
    if kinds != [] {
      assert kinds[0] in kinds;
      NoGroups(kinds[1..]);
    }
  }
}
