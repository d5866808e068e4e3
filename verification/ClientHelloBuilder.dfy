/**
 The ClientHello printer of pqcscan (pqcscan/src/tls.rs): sections 4.1.2, 4.2 and 5.1 of RFC 8446.
 Length counters are u16 and `+` on them wraps, as in a release build.
 */
module ClientHelloBuilder {
  import opened Common

  const U16_SPACE := 0x1_0000

  /** A length that does not fit its field. */
  datatype BuildError = TooLong

  datatype Extension = Extension(extType: u16, extLen: u16, payload: seq<u8>)

  datatype KeyShareEntry = KeyShareEntry(group: u16, exchangeLen: u16, exchange: seq<u8>)

  function NewKeyShareEntry(group: u16, exchange: seq<u8>): KeyShareEntry {
    KeyShareEntry(group, |exchange| % U16_SPACE, exchange)  // `as u16` truncates
  }

  // ----- what each extension is to say -----

  datatype Kind =
    | ServerName(hostname: seq<u8>)
    | SupportedVersions
    | RecordSizeLimit(limit: u16)
    | SupportedGroups(groups: seq<u16>)
    | SignatureAlgorithms(algos: seq<u16>)
    | SignedCertificateTimestamp
    | ExtendedMasterSecret
    | CompressCertificate
    | RenegotiationInfo
    | EcPointFormats
    | StatusRequest
    | KeyShare(entries: seq<KeyShareEntry>)

  function EncodeEntry(e: KeyShareEntry): seq<u8> {
    Be16(e.group) + Be16(|e.exchange| % U16_SPACE) + e.exchange
  }

  function EncodeEntries(entries: seq<KeyShareEntry>): seq<u8> {
    if entries == [] then [] else EncodeEntry(entries[0]) + EncodeEntries(entries[1..])
  }

  function Vector(bytes: seq<u8>): seq<u8> {
    Be16(|bytes| % U16_SPACE) + bytes
  }

  function TypeOf(k: Kind): u16 {
    match k
    case ServerName(_) => 0
    case SupportedVersions => 43
    case RecordSizeLimit(_) => 28
    case SupportedGroups(_) => 10
    case SignatureAlgorithms(_) => 13
    case SignedCertificateTimestamp => 18
    case ExtendedMasterSecret => 23
    case CompressCertificate => 27
    case RenegotiationInfo => 65281
    case EcPointFormats => 11
    case StatusRequest => 5
    case KeyShare(_) => 51
  }

  function PayloadOf(k: Kind): seq<u8> {
    match k
    case ServerName(hostname) => Vector([0] + Vector(hostname))
    case SupportedVersions => [2] + Be16(0x0304)
    case RecordSizeLimit(limit) => Be16(limit)
    case SupportedGroups(groups) => Vector(Be16s(groups))
    case SignatureAlgorithms(algos) => Vector(Be16s(algos))
    case SignedCertificateTimestamp => []
    case ExtendedMasterSecret => []
    case CompressCertificate => [6] + Be16(1) + Be16(2) + Be16(3)
    case RenegotiationInfo => [0]
    case EcPointFormats => [1, 0]
    case StatusRequest => [1, 0, 0, 0, 0]
    case KeyShare(entries) => Vector(EncodeEntries(entries))
  }

  /** The payload fits an extension; no length inside it has wrapped then. */
  predicate Fits(k: Kind) {
    |PayloadOf(k)| < U16_SPACE
  }

  function Build(k: Kind): Extension {
    Extension(TypeOf(k), |PayloadOf(k)| % U16_SPACE, PayloadOf(k))
  }

  function Built(k: Kind): Outcome<Extension, BuildError> {
    if Fits(k) then Ok(Build(k)) else Err(TooLong)
  }

  // ----- the constructors -----

  method MakeServerName(hostname: seq<u8>) returns (r: Outcome<Extension, BuildError>)
    ensures r == Built(ServerName(hostname))
  {
    hide PayloadOf, Vector;
    PayloadSizes(ServerName(hostname));
    if |hostname| >= U16_SPACE {
      return Err(TooLong);
    }
    var hblen: u16 := |hostname|;
    var buf := Be16((hblen + 3) % U16_SPACE);
    buf := buf + [0];
    buf := buf + Be16(hblen);
    buf := buf + hostname;
    ServerNamePayload(hostname);
    if |buf| >= U16_SPACE {
      return Err(TooLong);
    }
    r := Ok(Extension(0, |buf|, buf));
  }

  lemma ServerNamePayload(hostname: seq<u8>)
    requires |hostname| < U16_SPACE
    ensures PayloadOf(ServerName(hostname))
            == Be16((|hostname| + 3) % U16_SPACE) + [0] + Be16(|hostname|) + hostname
  {
    hide Be16;
    var inner := [0] + Vector(hostname);
    assert inner == [0] + (Be16(|hostname|) + hostname);
  }

  /** One `write_u16` after the other. */
  method AppendWords(start: seq<u8>, words: seq<u16>) returns (buf: seq<u8>)
    ensures buf == start + Be16s(words)
  {
    buf := start;
    for i := 0 to |words|
      invariant buf == start + Be16s(words[..i])
    {
      assert words[..i + 1] == words[..i] + [words[i]];
      Be16sAppend(words[..i], words[i]);
      buf := buf + Be16(words[i]);
    }
    assert words[..|words|] == words;
  }

  /** A counted list of words as the payload. */
  method MakeWords(extType: u16, words: seq<u16>) returns (r: Outcome<Extension, BuildError>)
    ensures r == if 2 + 2 * |words| < U16_SPACE then Ok(Extension(extType, 2 + 2 * |words|, Vector(Be16s(words))))
                 else Err(TooLong)
  {
    if |words| * 2 >= U16_SPACE {
      return Err(TooLong);
    }
    var buf := Be16(|words| * 2);
    buf := AppendWords(buf, words);
    if |buf| >= U16_SPACE {
      return Err(TooLong);
    }
    r := Ok(Extension(extType, |buf|, buf));
  }

  method MakeSupportedGroups(groups: seq<u16>) returns (r: Outcome<Extension, BuildError>)
    ensures r == Built(SupportedGroups(groups))
  {
    hide Vector, Be16s;
    PayloadSizes(SupportedGroups(groups));
    r := MakeWords(10, groups);
  }

  method MakeSignatureAlgorithms(algos: seq<u16>) returns (r: Outcome<Extension, BuildError>)
    ensures r == Built(SignatureAlgorithms(algos))
  {
    hide Vector, Be16s;
    PayloadSizes(SignatureAlgorithms(algos));
    r := MakeWords(13, algos);
  }

  /** Entries as `KeyShareEntry::new` makes them. */
  predicate Truncated(entries: seq<KeyShareEntry>) {
    forall e | e in entries :: e == NewKeyShareEntry(e.group, e.exchange)
  }

  lemma {:induction false} EncodeEntriesAppend(entries: seq<KeyShareEntry>, e: KeyShareEntry)
    ensures EncodeEntries(entries + [e]) == EncodeEntries(entries) + EncodeEntry(e)
  {
    if entries == [] {
      assert [e][1..] == [];
    } else {
      EncodeEntriesAppend(entries[1..], e);
      assert (entries + [e])[1..] == entries[1..] + [e];
    }
  }

  lemma EncodeEntriesStep(entries: seq<KeyShareEntry>, i: nat)
    requires i < |entries|
    ensures EncodeEntries(entries[..i + 1])
            == EncodeEntries(entries[..i])
               + (Be16(entries[i].group) + Be16(|entries[i].exchange| % U16_SPACE) + entries[i].exchange)
  {
    assert entries[..i + 1] == entries[..i] + [entries[i]];
    EncodeEntriesAppend(entries[..i], entries[i]);
  }

  lemma WrappedSum(a: nat, b: nat)
    ensures (a % U16_SPACE + b % U16_SPACE + 4) % U16_SPACE == (a + b + 4) % U16_SPACE
  {
  }

  /** The wrapping sum of the truncated entry lengths. */
  method KeyShareLength(keyshares: seq<KeyShareEntry>) returns (keyshareLen: u16)
    requires Truncated(keyshares)
    ensures keyshareLen == |EncodeEntries(keyshares)| % U16_SPACE
  {
    assert EncodeEntries(keyshares[..0]) == [];
    hide EncodeEntries;
    keyshareLen := 0;
    for i := 0 to |keyshares|
      invariant keyshareLen == |EncodeEntries(keyshares[..i])| % U16_SPACE
    {
      EncodeEntriesStep(keyshares, i);
      WrappedSum(|EncodeEntries(keyshares[..i])|, |keyshares[i].exchange|);
      keyshareLen := (keyshareLen + keyshares[i].exchangeLen + 4) % U16_SPACE;
    }
    assert keyshares[..|keyshares|] == keyshares;
  }

  /** The entries, one after the other. */
  method AppendEntries(start: seq<u8>, keyshares: seq<KeyShareEntry>) returns (buf: seq<u8>)
    requires Truncated(keyshares)
    ensures buf == start + EncodeEntries(keyshares)
  {
    assert EncodeEntries(keyshares[..0]) == [];
    hide Be16, EncodeEntries;
    buf := start;
    for i := 0 to |keyshares|
      invariant buf == start + EncodeEntries(keyshares[..i])
    {
      EncodeEntriesStep(keyshares, i);
      buf := buf + Be16(keyshares[i].group);
      buf := buf + Be16(keyshares[i].exchangeLen);
      buf := buf + keyshares[i].exchange;
    }
    assert keyshares[..|keyshares|] == keyshares;
  }

  /** Truncation and wrapping are never seen: where they happen, the payload is too long. */
  method MakeKeyShare(keyshares: seq<KeyShareEntry>) returns (r: Outcome<Extension, BuildError>)
    requires Truncated(keyshares)
    ensures r == Built(KeyShare(keyshares))
  {
    hide Be16, EncodeEntries;
    var keyshareLen := KeyShareLength(keyshares);
    var buf := Be16(keyshareLen);
    buf := AppendEntries(buf, keyshares);
    if |buf| >= U16_SPACE {
      return Err(TooLong);
    }
    r := Ok(Extension(51, |buf|, buf));
  }

  method MakeSupportedVersions() returns (e: Extension)
    ensures e == Build(SupportedVersions)
  {
    var buf: seq<u8> := [2];
    buf := buf + Be16(0x0304);
    e := Extension(43, 3, buf);
  }

  method MakeRecordSizeLimit(limit: u16) returns (e: Extension)
    ensures e == Build(RecordSizeLimit(limit))
  {
    e := Extension(28, 2, Be16(limit));
  }

  method MakeEmpty(extType: u16) returns (e: Extension)
    ensures e == Extension(extType, 0, [])
  {
    e := Extension(extType, 0, []);
  }

  method MakeSignedCertificateTimestamp() returns (e: Extension)
    ensures e == Build(SignedCertificateTimestamp)
  {
    e := MakeEmpty(18);
  }

  method MakeExtendedMasterSecret() returns (e: Extension)
    ensures e == Build(ExtendedMasterSecret)
  {
    e := MakeEmpty(23);
  }

  method MakeCompressCertificate() returns (e: Extension)
    ensures e == Build(CompressCertificate)
  {
    var buf: seq<u8> := [6];
    buf := buf + Be16(1);
    buf := buf + Be16(2);
    buf := buf + Be16(3);
    e := Extension(27, |buf|, buf);
  }

  method MakeRenegotiationInfo() returns (e: Extension)
    ensures e == Build(RenegotiationInfo)
  {
    e := Extension(65281, 1, [0]);
  }

  method MakeEcPointFormats() returns (e: Extension)
    ensures e == Build(EcPointFormats)
  {
    e := Extension(11, 2, [1, 0]);
  }

  method MakeStatusRequest() returns (e: Extension)
    ensures e == Build(StatusRequest)
  {
    e := Extension(5, 5, [1, 0, 0, 0, 0]);
  }

  // ----- the message -----

  /** The builder's fields as a value. */
  datatype Hello = Hello(legacyVersion: u16, random: seq<u8>, sessionId: seq<u8>, cipherSuites: seq<u16>,
                         compressionMethods: seq<u8>, extensions: seq<Extension>)

  function EncodeExtension(e: Extension): seq<u8> {
    Be16(e.extType) + Be16(e.extLen) + e.payload
  }

  function EncodeExtensions(es: seq<Extension>): seq<u8> {
    if es == [] then [] else EncodeExtension(es[0]) + EncodeExtensions(es[1..])
  }

  lemma {:induction false} EncodeExtensionsAppend(es: seq<Extension>, e: Extension)
    ensures EncodeExtensions(es + [e]) == EncodeExtensions(es) + EncodeExtension(e)
  {
    if es == [] {
      assert [e][1..] == [];
    } else {
      EncodeExtensionsAppend(es[1..], e);
      assert (es + [e])[1..] == es[1..] + [e];
    }
  }

  function BodySize(h: Hello): nat {
    2 + |h.random| + 1 + |h.sessionId| + 2 + 2 * |h.cipherSuites| + 1 + |h.compressionMethods| + 2
    + |EncodeExtensions(h.extensions)|
  }

  /** Every length fits the field `into_buf` converts it to. */
  predicate CanEncode(h: Hello) {
    && |h.sessionId| < 0x100 && |h.compressionMethods| < 0x100
    && 2 * |h.cipherSuites| < U16_SPACE
    && BodySize(h) < U16_SPACE
  }

  /** The version up to the cipher suites. */
  function BodyHead(h: Hello): seq<u8>
    requires CanEncode(h)
  {
    Be16(h.legacyVersion) + h.random
    + [|h.sessionId|] + h.sessionId
    + Be16(2 * |h.cipherSuites|) + Be16s(h.cipherSuites)
  }

  /** The compression methods and the extensions. */
  function BodyTail(h: Hello): seq<u8>
    requires CanEncode(h)
  {
    [|h.compressionMethods|] + h.compressionMethods
    + Be16(|EncodeExtensions(h.extensions)|) + EncodeExtensions(h.extensions)
  }

  function Body(h: Hello): (body: seq<u8>)
    requires CanEncode(h)
    ensures |body| == BodySize(h)
  {
    BodyHead(h) + BodyTail(h)
  }

  function Encoded(h: Hello): (bytes: seq<u8>)
    requires CanEncode(h)
    ensures |bytes| == 9 + BodySize(h)
  {
    [22] + Be16(0x0301) + Be16((BodySize(h) + 4) % U16_SPACE)
    + [1, 0] + Be16(BodySize(h)) + Body(h)
  }

  method AppendExtensions(start: seq<u8>, extensions: seq<Extension>) returns (buf: seq<u8>)
    ensures buf == start + EncodeExtensions(extensions)
  {
    buf := start;
    for i := 0 to |extensions|
      invariant buf == start + EncodeExtensions(extensions[..i])
    {
      assert extensions[..i + 1] == extensions[..i] + [extensions[i]];
      EncodeExtensionsAppend(extensions[..i], extensions[i]);
      buf := buf + Be16(extensions[i].extType);
      buf := buf + Be16(extensions[i].extLen);
      buf := buf + extensions[i].payload;
    }
    assert extensions[..|extensions|] == extensions;
  }

  class Builder {
    var legacyVersion: u16
    var random: seq<u8>
    var sessionId: seq<u8>
    var cipherSuites: seq<u16>
    var compressionMethods: seq<u8>
    var extensionsLen: u16
    var extensions: seq<Extension>

    function Value(): Hello
      reads this
    {
      Hello(legacyVersion, random, sessionId, cipherSuites, compressionMethods, extensions)
    }

    /** The running counter is the encoded size of the extensions, modulo 2^16. */
    predicate Valid()
      reads this
    {
      extensionsLen == |EncodeExtensions(extensions)| % U16_SPACE
    }

    /** The random bytes come from outside. */
    constructor (random: seq<u8>, sessionId: seq<u8>)
      requires |random| == |sessionId| == 32
      ensures Valid() && Value() == Hello(0x0303, random, sessionId, [], [], [])
    {
      this.legacyVersion := 0x0303;
      this.random := random;
      this.sessionId := sessionId;
      this.cipherSuites := [];
      this.compressionMethods := [];
      this.extensionsLen := 0;
      this.extensions := [];
    }

    method AddExtension(extension: Extension)
      requires Valid() && extension.extLen == |extension.payload|
      modifies this`extensions, this`extensionsLen
      ensures Valid() && Value() == old(Value()).(extensions := old(extensions) + [extension])
      ensures |EncodeExtensions(extensions)| == old(|EncodeExtensions(extensions)|) + 4 + |extension.payload|
    {
      EncodeExtensionsAppend(extensions, extension);
      WrappedSum(|EncodeExtensions(extensions)|, |extension.payload|);
      hide EncodeExtensions;
      extensionsLen := (extensionsLen + extension.extLen + 4) % U16_SPACE;
      extensions := extensions + [extension];
    }

    method AddCompressionMethod(m: u8)
      requires Valid()
      modifies this`compressionMethods
      ensures Valid() && Value() == old(Value()).(compressionMethods := old(compressionMethods) + [m])
    {
      compressionMethods := compressionMethods + [m];
    }

    method AddCipherSuite(cipherSuite: u16)
      requires Valid()
      modifies this`cipherSuites
      ensures Valid() && Value() == old(Value()).(cipherSuites := old(cipherSuites) + [cipherSuite])
    {
      cipherSuites := cipherSuites + [cipherSuite];
    }

    /** Everything behind the record and handshake headers. */
    method WriteBody() returns (buf: seq<u8>)
      requires Valid() && |sessionId| < 0x100 && |compressionMethods| < 0x100 && 2 * |cipherSuites| < U16_SPACE
      ensures |buf| == BodySize(Value())
      ensures CanEncode(Value()) ==> buf == Body(Value())
    {
      hide Be16, Be16s, EncodeExtensions;
      buf := Be16(legacyVersion);
      buf := buf + random;
      buf := buf + [|sessionId|];
      buf := buf + sessionId;
      buf := buf + Be16(2 * |cipherSuites|);
      buf := AppendWords(buf, cipherSuites);
      buf := buf + [|compressionMethods|];
      ghost var head := buf;
      for i := 0 to |compressionMethods|
        invariant buf == head + compressionMethods[..i]
      {
        buf := buf + [compressionMethods[i]];
      }
      assert buf == head + compressionMethods;
      buf := buf + Be16(extensionsLen);
      buf := AppendExtensions(buf, extensions);
      if CanEncode(Value()) {
        assert buf == Body(Value());
      }
    }

    method IntoBuf() returns (r: Outcome<seq<u8>, BuildError>)
      requires Valid()
      ensures r == if CanEncode(Value()) then Ok(Encoded(Value())) else Err(TooLong)
    {
      if |sessionId| >= 0x100 || 2 * |cipherSuites| >= U16_SPACE || |compressionMethods| >= 0x100 {
        return Err(TooLong);
      }
      var buf := WriteBody();
      if |buf| >= U16_SPACE {
        return Err(TooLong);
      }
      var buflen: u16 := |buf|;
      var preamble: seq<u8> := [22];
      preamble := preamble + Be16(0x0301);
      preamble := preamble + Be16((buflen + 4) % U16_SPACE);
      preamble := preamble + [1];
      preamble := preamble + [0];
      preamble := preamble + Be16(buflen);
      preamble := preamble + buf;
      assert preamble == Encoded(Value());
      r := Ok(preamble);
    }
  }

  // ----- the fixed handshake -----

  function BuildAll(kinds: seq<Kind>): (es: seq<Extension>)
    ensures |es| == |kinds|
  {
    seq(|kinds|, i requires 0 <= i < |kinds| => Build(kinds[i]))
  }

  predicate AllFit(kinds: seq<Kind>) {
    forall i | 0 <= i < |kinds| :: Fits(kinds[i])
  }

  function PayloadSize(k: Kind): nat {
    match k
    case ServerName(hostname) => 5 + |hostname|
    case SupportedVersions => 3
    case RecordSizeLimit(_) => 2
    case SupportedGroups(groups) => 2 + 2 * |groups|
    case SignatureAlgorithms(algos) => 2 + 2 * |algos|
    case SignedCertificateTimestamp => 0
    case ExtendedMasterSecret => 0
    case CompressCertificate => 7
    case RenegotiationInfo => 1
    case EcPointFormats => 2
    case StatusRequest => 5
    case KeyShare(entries) => 2 + |EncodeEntries(entries)|
  }

  lemma PayloadSizes(k: Kind)
    ensures |PayloadOf(k)| == PayloadSize(k)
  {
  }

  /** The bytes kinds take as extensions. */
  function SizeOf(kinds: seq<Kind>): nat {
    if kinds == [] then 0 else 4 + PayloadSize(kinds[0]) + SizeOf(kinds[1..])
  }

  lemma {:induction false} SizeIsEncoded(kinds: seq<Kind>)
    ensures |EncodeExtensions(BuildAll(kinds))| == SizeOf(kinds)
  {
    if kinds != [] {
      SizeIsEncoded(kinds[1..]);
      PayloadSizes(kinds[0]);
      hide PayloadOf, PayloadSize, TypeOf;
      assert BuildAll(kinds)[1..] == BuildAll(kinds[1..]);
      assert BuildAll(kinds)[0] == Build(kinds[0]);
    }
  }

  lemma {:induction false} KindsAppend(a: seq<Kind>, b: seq<Kind>)
    ensures SizeOf(a + b) == SizeOf(a) + SizeOf(b)
    ensures BuildAll(a + b) == BuildAll(a) + BuildAll(b)
    ensures AllFit(a) && AllFit(b) ==> AllFit(a + b)
  {
    hide PayloadSize, Build, Fits;
    if a == [] {
      assert a + b == b;
    } else {
      KindsAppend(a[1..], b);
      assert (a + b)[1..] == a[1..] + b;
    }
  }

  lemma SizeCons(k: Kind, rest: seq<Kind>)
    ensures SizeOf([k] + rest) == 4 + PayloadSize(k) + SizeOf(rest)
  {
    hide PayloadSize;
    assert ([k] + rest)[1..] == rest;
  }

  function LeadingKinds(host: seq<u8>, sigschemes: seq<u16>): seq<Kind> {
    [ServerName(host), SupportedVersions, SignatureAlgorithms(sigschemes)]
  }

  function MiddleKinds(group: u16): seq<Kind> {
    [StatusRequest, SupportedGroups([group]), KeyShare([]), RecordSizeLimit(16385)]
  }

  function TrailingKinds(): seq<Kind> {
    [SignedCertificateTimestamp, ExtendedMasterSecret, CompressCertificate, RenegotiationInfo, EcPointFormats]
  }

  /** The twelve extensions `tls_connect_with_group` adds, in order. */
  function HandshakeKinds(host: seq<u8>, group: u16, sigschemes: seq<u16>): seq<Kind> {
    LeadingKinds(host, sigschemes) + (MiddleKinds(group) + TrailingKinds())
  }

  lemma LeadingSize(host: seq<u8>, sigschemes: seq<u16>)
    ensures SizeOf(LeadingKinds(host, sigschemes)) == 22 + |host| + 2 * |sigschemes|
  {
    SizeCons(SignatureAlgorithms(sigschemes), []);
    var after1 := [SignatureAlgorithms(sigschemes)] + [];
    SizeCons(SupportedVersions, after1);
    var after2 := [SupportedVersions] + after1;
    SizeCons(ServerName(host), after2);
    assert LeadingKinds(host, sigschemes) == [ServerName(host)] + after2;
  }

  lemma MiddleSize(group: u16)
    ensures SizeOf(MiddleKinds(group)) == 29
  {
    SizeCons(RecordSizeLimit(16385), []);
    var after1 := [RecordSizeLimit(16385)] + [];
    SizeCons(KeyShare([]), after1);
    var after2 := [KeyShare([])] + after1;
    SizeCons(SupportedGroups([group]), after2);
    var after3 := [SupportedGroups([group])] + after2;
    SizeCons(StatusRequest, after3);
    assert MiddleKinds(group) == [StatusRequest] + after3;
  }

  lemma TrailingSize()
    ensures SizeOf(TrailingKinds()) == 30
  {
    SizeCons(EcPointFormats, []);
    var after1 := [EcPointFormats] + [];
    SizeCons(RenegotiationInfo, after1);
    var after2 := [RenegotiationInfo] + after1;
    SizeCons(CompressCertificate, after2);
    var after3 := [CompressCertificate] + after2;
    SizeCons(ExtendedMasterSecret, after3);
    var after4 := [ExtendedMasterSecret] + after3;
    SizeCons(SignedCertificateTimestamp, after4);
    assert TrailingKinds() == [SignedCertificateTimestamp] + after4;
  }

  method LeadingExtensions(host: seq<u8>, sigschemes: seq<u16>) returns (r: Outcome<seq<Extension>, BuildError>)
    ensures var kinds := LeadingKinds(host, sigschemes);
            && r == (if 5 + |host| < U16_SPACE && 2 + 2 * |sigschemes| < U16_SPACE then Ok(BuildAll(kinds))
                     else Err(TooLong))
            && (r.Ok? ==> AllFit(kinds))
  {
    PayloadSizes(ServerName(host));
    PayloadSizes(SupportedVersions);
    PayloadSizes(SignatureAlgorithms(sigschemes));
    hide PayloadOf, TypeOf;
    var serverName :- MakeServerName(host);
    var supportedVersions := MakeSupportedVersions();
    var signatureAlgorithms :- MakeSignatureAlgorithms(sigschemes);
    var es := [serverName, supportedVersions, signatureAlgorithms];
    assert es == BuildAll(LeadingKinds(host, sigschemes));
    r := Ok(es);
  }

  method MiddleExtensions(group: u16) returns (es: seq<Extension>)
    ensures var kinds := MiddleKinds(group);
            es == BuildAll(kinds) && AllFit(kinds)
  {
    PayloadSizes(StatusRequest);
    PayloadSizes(SupportedGroups([group]));
    PayloadSizes(KeyShare([]));
    PayloadSizes(RecordSizeLimit(16385));
    assert |EncodeEntries([])| == 0 && |[group]| == 1;
    hide PayloadOf, TypeOf;
    var statusRequest := MakeStatusRequest();
    var supportedGroups := MakeSupportedGroups([group]);  // one group always fits
    var keyShare := MakeKeyShare([]);                     // so does an empty list
    var recordSizeLimit := MakeRecordSizeLimit(16385);
    es := [statusRequest, supportedGroups.value, keyShare.value, recordSizeLimit];
  }

  method TrailingExtensions() returns (es: seq<Extension>)
    ensures var kinds := TrailingKinds();
            es == BuildAll(kinds) && AllFit(kinds)
  {
    PayloadSizes(SignedCertificateTimestamp);
    PayloadSizes(ExtendedMasterSecret);
    PayloadSizes(CompressCertificate);
    PayloadSizes(RenegotiationInfo);
    PayloadSizes(EcPointFormats);
    hide PayloadOf, TypeOf;
    var signedCertificateTimestamp := MakeSignedCertificateTimestamp();
    var extendedMasterSecret := MakeExtendedMasterSecret();
    var compressCertificate := MakeCompressCertificate();
    var renegotiationInfo := MakeRenegotiationInfo();
    var ecPointFormats := MakeEcPointFormats();
    es := [signedCertificateTimestamp, extendedMasterSecret, compressCertificate, renegotiationInfo, ecPointFormats];
  }

  lemma BuiltLengths(kinds: seq<Kind>)
    requires AllFit(kinds)
    ensures forall e | e in BuildAll(kinds) :: e.extLen == |e.payload|
  {
    hide PayloadOf, TypeOf;
  }

  lemma HandshakeParts(host: seq<u8>, group: u16, sigschemes: seq<u16>)
    ensures var kinds := HandshakeKinds(host, group, sigschemes);
            var leading, middle, trailing := LeadingKinds(host, sigschemes), MiddleKinds(group), TrailingKinds();
            && BuildAll(kinds) == BuildAll(leading) + BuildAll(middle) + BuildAll(trailing)
            && |EncodeExtensions(BuildAll(kinds))| == 81 + |host| + 2 * |sigschemes|
            && (AllFit(leading) && AllFit(middle) && AllFit(trailing) ==> AllFit(kinds))
  {
    hide LeadingKinds, MiddleKinds, TrailingKinds, BuildAll, SizeOf, AllFit;
    KindsAppend(LeadingKinds(host, sigschemes), MiddleKinds(group) + TrailingKinds());
    KindsAppend(MiddleKinds(group), TrailingKinds());
    SizeIsEncoded(HandshakeKinds(host, group, sigschemes));
    LeadingSize(host, sigschemes);
    MiddleSize(group);
    TrailingSize();
  }

  method AddAll(chb: Builder, extensions: seq<Extension>)
    requires chb.Valid() && forall e | e in extensions :: e.extLen == |e.payload|
    modifies chb`extensions, chb`extensionsLen
    ensures chb.Valid() && chb.extensions == old(chb.extensions) + extensions
  {
    for i := 0 to |extensions|
      invariant chb.Valid() && chb.extensions == old(chb.extensions) + extensions[..i]
    {
      chb.AddExtension(extensions[i]);
    }
  }

  /** The ClientHello `tls_connect_with_group` sends, up to `into_buf`. */
  method BuildHandshake(host: seq<u8>, group: u16, ciphers: seq<u16>, sigschemes: seq<u16>,
                        random: seq<u8>, sessionId: seq<u8>)
    returns (r: Outcome<seq<u8>, BuildError>)
    requires |random| == |sessionId| == 32
    ensures r.Ok? <==> |host| + 2 * |ciphers| + 2 * |sigschemes| <= 65381
    ensures !r.Ok? ==> r == Err(TooLong)
    ensures r.Ok? ==>
              var kinds := HandshakeKinds(host, group, sigschemes);
              var h := Hello(0x0303, random, sessionId, ciphers, [0], BuildAll(kinds));
              && AllFit(kinds) && CanEncode(h) && r.value == Encoded(h)
              && BodySize(h) == 154 + |host| + 2 * |ciphers| + 2 * |sigschemes|
  {
    hide PayloadOf, PayloadSize, EncodeExtensions, EncodeEntries, Be16, Be16s, Encoded, BuildAll, AllFit,
         SizeOf, HandshakeKinds, LeadingKinds, MiddleKinds, TrailingKinds;
    var chb := new Builder(random, sessionId);
    for i := 0 to |ciphers|
      invariant fresh(chb) && chb.Valid()
      invariant chb.Value() == Hello(0x0303, random, sessionId, ciphers[..i], [], [])
    {
      chb.AddCipherSuite(ciphers[i]);
    }
    assert ciphers[..|ciphers|] == ciphers;
    chb.AddCompressionMethod(0);
    assert [] + [0] == chb.compressionMethods == [0];
    var leading :- LeadingExtensions(host, sigschemes);
    var middle := MiddleExtensions(group);
    var trailing := TrailingExtensions();
    HandshakeParts(host, group, sigschemes);
    BuiltLengths(LeadingKinds(host, sigschemes));
    BuiltLengths(MiddleKinds(group));
    BuiltLengths(TrailingKinds());
    AddAll(chb, leading);
    AddAll(chb, middle);
    AddAll(chb, trailing);
    assert chb.extensions == leading + middle + trailing;
    r := chb.IntoBuf();
  }
}
