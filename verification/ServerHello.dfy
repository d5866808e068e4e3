/**
 The ServerHello parser of pqcdump (pqcdump/src/tls.rs), against the encoding of section 4.1.3 of RFC 8446.
 Group 0 stands for "no key share".
 */
module ServerHello {
  import opened Common

  const KEY_SHARE: u16 := 0x0033
  const SIGNATURE_ALGORITHMS: u16 := 0x000d

  datatype ServerHelloError = TooShort | NotServerHello | NoSessionId

  datatype SessionConfig = SessionConfig(ciphers: seq<u16>, keyshare: u16)

  datatype KeyShareEntry = KeyShareEntry(group: u16, keyExchange: seq<u8>)

  // ----- the grammar the parser follows -----

  /** The entries a key_share body starts with. */
  function ShareEntries(body: seq<u8>): seq<KeyShareEntry>
    decreases |body|
  {
    if |body| < 4 || 4 + U16At(body, 2) > |body| then []
    else
      var end := 4 + U16At(body, 2);
      [KeyShareEntry(U16At(body, 0), body[4..end])] + ShareEntries(body[end..])
  }

  /**
   The entries of the last key_share extension. An extension that reaches past the block is sliced, and
   so a panic, only if it is a key_share or signature_algorithms one; any other ends the loop.
   */
  function LastEntries(entries: seq<KeyShareEntry>, block: seq<u8>): Outcome<seq<KeyShareEntry>, ServerHelloError>
    decreases |block|
  {
    if |block| < 4 then Ok(entries)
    else
      var extType, end := U16At(block, 0), 4 + U16At(block, 2);
      if end > |block| then
        if extType == KEY_SHARE || extType == SIGNATURE_ALGORITHMS then Panic else Ok(entries)
      else LastEntries(if extType == KEY_SHARE then ShareEntries(block[4..end]) else entries, block[end..])
  }

  function GroupOf(entries: seq<KeyShareEntry>): u16 {
    if |entries| == 1 then entries[0].group else 0
  }

  function Parsed(payload: seq<u8>): Outcome<SessionConfig, ServerHelloError> {
    if |payload| < 47 then Err(TooShort)
    else if payload[5] != 0x02 then Err(NotServerHello)
    else
      var pos: nat := 44 + payload[43] as int;
      if |payload| < pos + 3 then Err(NoSessionId)
      else if |payload| < pos + 5 then Panic
      else
        var end := pos + 5 + U16At(payload, pos + 3);
        var entries :- if |payload| < end then Ok([]) else LastEntries([], payload[pos + 5..end]);
        Ok(SessionConfig([U16At(payload, pos)], GroupOf(entries)))
  }

  // ----- the parser -----

  /** One entry, or one extension, in the middle of the data. */
  lemma HeadAt(data: seq<u8>, offset: nat)
    requires offset + 4 <= |data|
    ensures var rest := data[offset..];
            var length := 4 + U16At(data, offset + 2);
            && U16At(rest, 0) == U16At(data, offset) && U16At(rest, 2) == U16At(data, offset + 2)
            && (offset + length <= |data| ==>
                  rest[4..length] == data[offset + 4..offset + length] && rest[length..] == data[offset + length..])
  {
    hide U16At;
    var n := |data|;
    assert data[offset..] == data[offset..n];
    WordOfSlice(data, offset, n, 0);
    WordOfSlice(data, offset, n, 2);
    var length := 4 + U16At(data, offset + 2);
    if offset + length <= n {
      SliceOfSlice(data, offset, n, 4, length);
      SliceOfSlice(data, offset, n, length, n - offset);
    }
  }

  lemma ShareEntriesStep(body: seq<u8>)
    ensures ShareEntries(body) ==
              if |body| < 4 || 4 + U16At(body, 2) > |body| then []
              else
                var end := 4 + U16At(body, 2);
                [KeyShareEntry(U16At(body, 0), body[4..end])] + ShareEntries(body[end..])
  {
    hide U16At;
  }

  method ParseKeyShare(data: seq<u8>) returns (entries: seq<KeyShareEntry>)
    ensures entries == ShareEntries(data)
  {
    hide ShareEntries, U16At;
    ShareEntriesStep(data);
    entries := [];
    if |data| < 2 {
      return;
    }
    var offset := 0;
    while offset + 4 <= |data|
      invariant 0 <= offset <= |data|
      invariant ShareEntries(data) == entries + ShareEntries(data[offset..])
    {
      HeadAt(data, offset);
      ShareEntriesStep(data[offset..]);
      var group := U16At(data, offset);
      var keyLen := U16At(data, offset + 2);
      offset := offset + 4;
      if offset + keyLen > |data| {
        return;
      }
      var keyExchange := data[offset..offset + keyLen];
      entries := entries + [KeyShareEntry(group, keyExchange)];
      offset := offset + keyLen;
    }
    ShareEntriesStep(data[offset..]);
  }

  lemma LastEntriesStep(entries: seq<KeyShareEntry>, block: seq<u8>)
    ensures LastEntries(entries, block) ==
              if |block| < 4 then Ok(entries)
              else
                var extType, end := U16At(block, 0), 4 + U16At(block, 2);
                if end > |block| then
                  if extType == KEY_SHARE || extType == SIGNATURE_ALGORITHMS then Panic else Ok(entries)
                else LastEntries(if extType == KEY_SHARE then ShareEntries(block[4..end]) else entries, block[end..])
  {
    hide U16At, ShareEntries;
  }

  method ParseExtensions(extensions: seq<u8>) returns (r: Outcome<seq<KeyShareEntry>, ServerHelloError>)
    ensures r == LastEntries([], extensions)
  {
    hide LastEntries, ShareEntries, U16At;
    var pos := 0;
    var keyShareEntries: seq<KeyShareEntry> := [];
    while pos + 4 <= |extensions|
      invariant 0 <= pos
      invariant LastEntries([], extensions)
             == if pos <= |extensions| then LastEntries(keyShareEntries, extensions[pos..]) else Ok(keyShareEntries)
      decreases |extensions| - pos
    {
      HeadAt(extensions, pos);
      LastEntriesStep(keyShareEntries, extensions[pos..]);
      var extType := U16At(extensions, pos);
      var extLen := U16At(extensions, pos + 2);
      pos := pos + 4;
      if extType == KEY_SHARE {
        if pos + extLen > |extensions| {
          return Panic;  // `&extensions[pos..pos+ext_len]` is out of bounds
        }
        keyShareEntries := ParseKeyShare(extensions[pos..pos + extLen]);
      }
      if extType == SIGNATURE_ALGORITHMS && pos + extLen > |extensions| {
        return Panic;  // the same slice
      }
      pos := pos + extLen;
    }
    if pos <= |extensions| {
      LastEntriesStep(keyShareEntries, extensions[pos..]);
    }
    r := Ok(keyShareEntries);
  }

  method ParseServerHelloV3(payload: seq<u8>) returns (r: Outcome<SessionConfig, ServerHelloError>)
    ensures r == Parsed(payload)
  {
    hide LastEntries;
    if |payload| < 5 + 4 + 38 {
      return Err(TooShort);
    }
    var handshakeStart: nat := 5;
    if payload[handshakeStart] != 0x02 {
      return Err(NotServerHello);
    }
    var pos := handshakeStart + 4;
    pos := pos + 2;
    pos := pos + 32;
    var sessionIdLen := payload[pos];
    pos := pos + 1;
    if |payload| < pos + sessionIdLen + 3 {
      return Err(NoSessionId);
    }
    pos := pos + sessionIdLen;
    var cipherCode := U16At(payload, pos);
    pos := pos + 2;
    pos := pos + 1;
    if |payload| < pos + 2 {
      return Panic;  // reported, then read anyway
    }
    var extensionsLen := U16At(payload, pos);
    pos := pos + 2;
    var keyshare: Option<u16> := None;
    if |payload| >= pos + extensionsLen {
      var entries :- ParseExtensions(payload[pos..pos + extensionsLen]);
      if |entries| == 1 {
        keyshare := Some(entries[0].group);
      }
    }
    r := Ok(SessionConfig([cipherCode], match keyshare case Some(group) => group case None => 0));
  }

  // ----- the encoder -----

  datatype Extension = Extension(extType: u16, body: seq<u8>)

  /** The minor version is that of the record layer, whose major version is 3. */
  datatype Hello = Hello(recordMinor: u8, version: u16, random: seq<u8>, sessionId: seq<u8>, cipher: u16,
                         compression: u8)

  function EncodeExtension(e: Extension): seq<u8>
    requires |e.body| < 0x1_0000
  {
    Be16(e.extType) + Be16(|e.body|) + e.body
  }

  predicate Sized(es: seq<Extension>) {
    es == [] || (|es[0].body| < 0x1_0000 && Sized(es[1..]))
  }

  function EncodeExtensions(es: seq<Extension>): seq<u8>
    requires Sized(es)
  {
    if es == [] then [] else EncodeExtension(es[0]) + EncodeExtensions(es[1..])
  }

  /** The record and handshake headers (their lengths are free: the parser skips them) and the fixed fields. */
  function EncodeStart(recordLen: u16, handshakeLen: u16, h: Hello): (bytes: seq<u8>)
    requires |h.random| == 32 && |h.sessionId| <= 32
    ensures |bytes| == 47 + |h.sessionId|
  {
    ([22, 3, h.recordMinor] + Be16(recordLen) + [2, 0] + Be16(handshakeLen) + Be16(h.version) + h.random)
    + ([|h.sessionId|] + h.sessionId + Be16(h.cipher) + [h.compression])
  }

  predicate Encodable(h: Hello, es: seq<Extension>) {
    |h.random| == 32 && |h.sessionId| <= 32 && Sized(es) && |EncodeExtensions(es)| < 0x1_0000
  }

  function Encode(recordLen: u16, handshakeLen: u16, h: Hello, es: seq<Extension>): seq<u8>
    requires Encodable(h, es)
  {
    EncodeStart(recordLen, handshakeLen, h) + (Be16(|EncodeExtensions(es)|) + EncodeExtensions(es))
  }

  /** The entries of the last key_share extension of a list, or those given. */
  function EntriesIn(entries: seq<KeyShareEntry>, es: seq<Extension>): seq<KeyShareEntry>
    decreases |es|
  {
    if es == [] then entries
    else EntriesIn(if es[0].extType == 51 then ShareEntries(es[0].body) else entries, es[1..])
  }

  lemma ExtensionIsRead(entries: seq<KeyShareEntry>, e: Extension, tail: seq<u8>)
    requires |e.body| < 0x1_0000
    ensures LastEntries(entries, EncodeExtension(e) + tail)
         == LastEntries(if e.extType == KEY_SHARE then ShareEntries(e.body) else entries, tail)
  {
    hide ShareEntries;
    var block := EncodeExtension(e) + tail;
    var end := 4 + |e.body|;
    assert block[0..2] == Be16(e.extType) && block[2..4] == Be16(|e.body|);
    WordInside(block, 0, e.extType);
    WordInside(block, 2, |e.body|);
    hide U16At, Be16;
    assert block[4..end] == e.body && block[end..] == tail;
  }

  lemma {:induction false} ExtensionsAreRead(entries: seq<KeyShareEntry>, es: seq<Extension>)
    requires Sized(es)
    ensures LastEntries(entries, EncodeExtensions(es)) == Ok(EntriesIn(entries, es))
    decreases |es|
  {
    hide ShareEntries, EncodeExtension, LastEntries;
    if es == [] {
      EmptyBlock(entries);
    } else {
      ExtensionIsRead(entries, es[0], EncodeExtensions(es[1..]));
      ExtensionsAreRead(if es[0].extType == KEY_SHARE then ShareEntries(es[0].body) else entries, es[1..]);
    }
  }

  lemma EmptyBlock(entries: seq<KeyShareEntry>)
    ensures LastEntries(entries, []) == Ok(entries)
  {
  }

  lemma StartIsRead(recordLen: u16, handshakeLen: u16, h: Hello, rest: seq<u8>)
    requires |h.random| == 32 && |h.sessionId| <= 32
    ensures var data := EncodeStart(recordLen, handshakeLen, h) + rest;
            var pos := 44 + |h.sessionId|;
            && data[0] == 22 && data[1] == 3 && data[2] == h.recordMinor
            && data[5] == 2 && data[43] == |h.sessionId| && U16At(data, pos) == h.cipher
            && data[pos + 3..] == rest
  {
    hide Be16, U16At;
    var head := [22, 3, h.recordMinor] + Be16(recordLen) + [2, 0] + Be16(handshakeLen) + Be16(h.version) + h.random;
    var fields := [|h.sessionId|] + h.sessionId + Be16(h.cipher) + [h.compression];
    var data := EncodeStart(recordLen, handshakeLen, h) + rest;
    var pos := 44 + |h.sessionId|;
    assert data == head + fields + rest && |head| == 43;
    assert head[0] == 22 && head[1] == 3 && head[2] == h.recordMinor && head[5] == 2;
    assert fields[1 + |h.sessionId|..3 + |h.sessionId|] == Be16(h.cipher);
    assert data[pos..pos + 2] == fields[1 + |h.sessionId|..3 + |h.sessionId|];
    WordInside(data, pos, h.cipher);
  }

  /** A counted block at a position. */
  lemma BlockIsFound(data: seq<u8>, at: nat, block: seq<u8>, rest: seq<u8>)
    requires at <= |data| && |block| < 0x1_0000 && data[at..] == Be16(|block|) + block + rest
    ensures |data| >= at + 2 + |block| && U16At(data, at) == |block| && data[at + 2..at + 2 + |block|] == block
  {
    hide Be16, U16At;
    var n := |data|;
    var tail := Be16(|block|) + block + rest;
    assert tail[0..2] == Be16(|block|) && tail[2..2 + |block|] == block;
    assert data[at..n] == tail;
    SliceOfSlice(data, at, n, 0, 2);
    WordInside(data, at, |block|);
    SliceOfSlice(data, at, n, 2, 2 + |block|);
  }

  /** The parser returns the cipher and the group of the last key_share extension, whatever follows the message. */
  lemma EncodedIsParsed(recordLen: u16, handshakeLen: u16, h: Hello, es: seq<Extension>, rest: seq<u8>)
    requires Encodable(h, es)
    ensures Parsed(Encode(recordLen, handshakeLen, h, es) + rest)
            == Ok(SessionConfig([h.cipher], GroupOf(EntriesIn([], es))))
  {
    var block := EncodeExtensions(es);
    var tail := Be16(|block|) + block + rest;
    var data := Encode(recordLen, handshakeLen, h, es) + rest;
    hide Be16, EncodeStart, EncodeExtensions, LastEntries, EntriesIn, ShareEntries, U16At;
    assert data == EncodeStart(recordLen, handshakeLen, h) + tail;
    hide Encode;
    StartIsRead(recordLen, handshakeLen, h, tail);
    BlockIsFound(data, 47 + |h.sessionId|, block, rest);
    ExtensionsAreRead([], es);
  }

  /** A key_share body with one entry. */
  function OneShare(group: u16, key: seq<u8>): seq<u8>
    requires |key| < 0x1_0000
  {
    Be16(group) + Be16(|key|) + key
  }

  lemma OneShareIsOneEntry(group: u16, key: seq<u8>)
    requires |key| < 0x1_0000
    ensures ShareEntries(OneShare(group, key)) == [KeyShareEntry(group, key)]
  {
    var body := OneShare(group, key);
    assert body[0..2] == Be16(group) && body[2..4] == Be16(|key|) && body[4..4 + |key|] == key;
    WordInside(body, 0, group);
    WordInside(body, 2, |key|);
    hide U16At, Be16;
    assert body[4 + |key|..] == [];
    assert ShareEntries([]) == [];
  }

  predicate HasKeyShare(es: seq<Extension>) {
    exists e | e in es :: e.extType == 51
  }

  lemma {:induction false} OthersAreSkipped(entries: seq<KeyShareEntry>, es: seq<Extension>)
    requires !HasKeyShare(es)
    ensures EntriesIn(entries, es) == entries
    decreases |es|
  {
    if es != [] {
      assert es[0] in es;
      assert forall e | e in es[1..] :: e in es;
      OthersAreSkipped(entries, es[1..]);
    }
  }

  lemma {:induction false} EntriesInAppend(entries: seq<KeyShareEntry>, a: seq<Extension>, b: seq<Extension>)
    ensures EntriesIn(entries, a + b) == EntriesIn(EntriesIn(entries, a), b)
    decreases |a|
  {
    hide ShareEntries;
    if a == [] {
      assert a + b == b;
    } else {
      EntriesInAppend(if a[0].extType == KEY_SHARE then ShareEntries(a[0].body) else entries, a[1..], b);
      assert (a + b)[1..] == a[1..] + b;
    }
  }

  /** Of several key_share extensions the last one is taken. */
  lemma LastKeyShareWins(entries: seq<KeyShareEntry>, before: seq<Extension>, body: seq<u8>, after: seq<Extension>)
    requires !HasKeyShare(after)
    ensures EntriesIn(entries, before + [Extension(51, body)] + after) == ShareEntries(body)
  {
    hide ShareEntries;
    var share := [Extension(51, body)];
    EntriesInAppend(entries, before + share, after);
    EntriesInAppend(entries, before, share);
    assert share[1..] == [];
    OthersAreSkipped(ShareEntries(body), after);
  }

  /** One key_share extension with one entry, at any position: its group. None at all: group 0. */
  lemma ServerHelloRoundTrip(recordLen: u16, handshakeLen: u16, h: Hello, before: seq<Extension>,
                             group: u16, key: seq<u8>, after: seq<Extension>, rest: seq<u8>)
    requires |key| < 0x1_0000 && !HasKeyShare(before) && !HasKeyShare(after)
    ensures var es := before + [Extension(51, OneShare(group, key))] + after;
            Encodable(h, es) ==>
              Parsed(Encode(recordLen, handshakeLen, h, es) + rest) == Ok(SessionConfig([h.cipher], group))
    ensures var es := before + after;
            Encodable(h, es) ==>
              Parsed(Encode(recordLen, handshakeLen, h, es) + rest) == Ok(SessionConfig([h.cipher], 0))
  {
    hide Parsed, Encode, Encodable, ShareEntries, OneShare;
    var share := [Extension(51, OneShare(group, key))];
    OthersAreSkipped([], before);
    OthersAreSkipped([], after);
    EntriesInAppend([], before, after);
    EntriesInAppend([], before + share, after);
    EntriesInAppend([], before, share);
    OneShareIsOneEntry(group, key);
    assert EntriesIn([], share) == [KeyShareEntry(group, key)];
    OthersAreSkipped([KeyShareEntry(group, key)], after);
    if Encodable(h, before + share + after) {
      EncodedIsParsed(recordLen, handshakeLen, h, before + share + after, rest);
    }
    if Encodable(h, before + after) {
      EncodedIsParsed(recordLen, handshakeLen, h, before + after, rest);
    }
  }

  // ----- what aborts the program -----

  /** An extension of one of the two types that are sliced, announced longer than what is there. */
  predicate IsOverLong(tail: seq<u8>) {
    && |tail| >= 4 && 4 + U16At(tail, 2) > |tail|
    && (U16At(tail, 0) == 51 || U16At(tail, 0) == 13)
  }

  predicate IsSplit(block: seq<u8>, es: seq<Extension>, tail: seq<u8>) {
    Sized(es) && block == EncodeExtensions(es) + tail
  }

  /** Whole extensions, and behind them one that is over-long. */
  ghost predicate BreaksOff(block: seq<u8>) {
    exists es, tail :: IsSplit(block, es, tail) && IsOverLong(tail)
  }

  /** The first extension of a block is the encoding of its type and body. */
  lemma FirstExtension(block: seq<u8>) returns (e: Extension)
    requires |block| >= 4 && 4 + U16At(block, 2) <= |block|
    ensures var end := 4 + U16At(block, 2);
            e == Extension(U16At(block, 0), block[4..end]) && EncodeExtension(e) == block[..end]
  {
    Be16OfWord(block, 0);
    Be16OfWord(block, 2);
    hide U16At, Be16;
    var end := 4 + U16At(block, 2);
    e := Extension(U16At(block, 0), block[4..end]);
    assert block[..end] == block[0..2] + block[2..4] + block[4..end];
  }

  lemma SplitCons(e: Extension, rest: seq<u8>, es: seq<Extension>, tail: seq<u8>)
    requires |e.body| < 0x1_0000 && IsSplit(rest, es, tail)
    ensures IsSplit(EncodeExtension(e) + rest, [e] + es, tail)
  {
    hide EncodeExtension;
    assert ([e] + es)[1..] == es;
  }

  lemma BreaksOffLater(block: seq<u8>)
    requires |block| >= 4 && 4 + U16At(block, 2) <= |block| && BreaksOff(block[4 + U16At(block, 2)..])
    ensures BreaksOff(block)
  {
    var end := 4 + U16At(block, 2);
    var rest := block[end..];
    var es, tail :| IsSplit(rest, es, tail) && IsOverLong(tail);
    var e := FirstExtension(block);
    SplitCons(e, rest, es, tail);
    assert block == block[..end] + rest;
    hide *;
  }

  lemma BreaksOffHere(block: seq<u8>)
    requires IsOverLong(block)
    ensures BreaksOff(block)
  {
    assert IsSplit(block, [], block) by { assert [] + block == block; }
  }

  /** Where a panic comes from. */
  lemma {:induction false} PanicBreaksOff(entries: seq<KeyShareEntry>, block: seq<u8>)
    requires LastEntries(entries, block) == Panic
    ensures BreaksOff(block)
    decreases |block|
  {
    LastEntriesStep(entries, block);
    hide LastEntries, BreaksOff, ShareEntries, U16At;
    var end := 4 + U16At(block, 2);
    if end > |block| {
      BreaksOffHere(block);
    } else {
      PanicBreaksOff(if U16At(block, 0) == KEY_SHARE then ShareEntries(block[4..end]) else entries, block[end..]);
      BreaksOffLater(block);
    }
  }

  lemma {:induction false} BreakingOffPanics(entries: seq<KeyShareEntry>, es: seq<Extension>, tail: seq<u8>)
    requires Sized(es) && IsOverLong(tail)
    ensures LastEntries(entries, EncodeExtensions(es) + tail) == Panic
    decreases |es|
  {
    hide ShareEntries, EncodeExtension, LastEntries;
    if es == [] {
      assert EncodeExtensions(es) + tail == tail;
      LastEntriesStep(entries, tail);
    } else {
      var rest := EncodeExtensions(es[1..]) + tail;
      assert EncodeExtensions(es) + tail == EncodeExtension(es[0]) + rest;
      ExtensionIsRead(entries, es[0], rest);
      BreakingOffPanics(if es[0].extType == KEY_SHARE then ShareEntries(es[0].body) else entries, es[1..], tail);
    }
  }

  /** The extension loop panics exactly at a block that breaks off in a key_share or signature_algorithms extension. */
  lemma BlockPanicsExactly(entries: seq<KeyShareEntry>, block: seq<u8>)
    ensures LastEntries(entries, block) == Panic <==> BreaksOff(block)
  {
    if LastEntries(entries, block) == Panic {
      PanicBreaksOff(entries, block);
    }
    if BreaksOff(block) {
      var es, tail :| IsSplit(block, es, tail) && IsOverLong(tail);
      BreakingOffPanics(entries, es, tail);
    }
  }

  // ----- what the extension loop accepts -----

  /** What may follow the last extension read: too little for one, or one that is over-long but not sliced. */
  predicate EndsQuietly(tail: seq<u8>) {
    |tail| < 4 || (4 + U16At(tail, 2) > |tail| && !IsOverLong(tail))
  }

  predicate IsReading(block: seq<u8>, entries: seq<KeyShareEntry>, es: seq<Extension>, tail: seq<u8>,
                      found: seq<KeyShareEntry>) {
    IsSplit(block, es, tail) && EndsQuietly(tail) && found == EntriesIn(entries, es)
  }

  lemma {:induction false} ReadingIsReturned(entries: seq<KeyShareEntry>, es: seq<Extension>, tail: seq<u8>)
    requires Sized(es) && EndsQuietly(tail)
    ensures LastEntries(entries, EncodeExtensions(es) + tail) == Ok(EntriesIn(entries, es))
    decreases |es|
  {
    hide ShareEntries, EncodeExtension, LastEntries;
    if es == [] {
      assert EncodeExtensions(es) + tail == tail;
      LastEntriesStep(entries, tail);
    } else {
      var rest := EncodeExtensions(es[1..]) + tail;
      assert EncodeExtensions(es) + tail == EncodeExtension(es[0]) + rest;
      ExtensionIsRead(entries, es[0], rest);
      ReadingIsReturned(if es[0].extType == KEY_SHARE then ShareEntries(es[0].body) else entries, es[1..], tail);
    }
  }

  lemma {:induction false} ReturnedIsReading(entries: seq<KeyShareEntry>, block: seq<u8>)
    returns (es: seq<Extension>, tail: seq<u8>)
    requires LastEntries(entries, block).Ok?
    ensures IsReading(block, entries, es, tail, LastEntries(entries, block).value)
    decreases |block|
  {
    LastEntriesStep(entries, block);
    if |block| < 4 || 4 + U16At(block, 2) > |block| {
      es, tail := [], block;
      assert [] + block == block;
    } else {
      var end := 4 + U16At(block, 2);
      var next := if U16At(block, 0) == KEY_SHARE then ShareEntries(block[4..end]) else entries;
      hide LastEntries, ShareEntries, U16At;
      var e := FirstExtension(block);
      var later;
      later, tail := ReturnedIsReading(next, block[end..]);
      es := [e] + later;
      SplitCons(e, block[end..], later, tail);
      assert block == block[..end] + block[end..];
      assert es[1..] == later;
      hide EncodeExtension, EndsQuietly, IsSplit;
    }
  }

  /**
   The extension loop returns entries exactly when the block is whole extensions followed by something
   it passes over, and they are those of the last key_share among the whole ones.
   */
  lemma BlockReadsExactly(entries: seq<KeyShareEntry>, block: seq<u8>, found: seq<KeyShareEntry>)
    ensures LastEntries(entries, block) == Ok(found) <==> exists es, tail :: IsReading(block, entries, es, tail, found)
  {
    if LastEntries(entries, block) == Ok(found) {
      var es, tail := ReturnedIsReading(entries, block);
    }
    if es, tail :| IsReading(block, entries, es, tail, found) {
      ReadingIsReturned(entries, es, tail);
    }
  }

  /** A ServerHello up to the compression method, whose extensions have no length or break off. */
  ghost predicate IsCutOff(payload: seq<u8>) {
    && |payload| >= 47 && payload[5] == 0x02
    && var pos := 44 + payload[43] as int;
    && |payload| >= pos + 3
    && (|payload| < pos + 5
        || var end := pos + 5 + U16At(payload, pos + 3);
           end <= |payload| && BreaksOff(payload[pos + 5..end]))
  }

  /** When the parser aborts the program, for every payload. */
  lemma PanicsExactly(payload: seq<u8>)
    ensures Parsed(payload) == Panic <==> IsCutOff(payload)
  {
    hide LastEntries, BreaksOff, U16At;
    if |payload| >= 47 && |payload| >= 49 + payload[43] as int {
      var pos := 44 + payload[43] as int;
      var end := pos + 5 + U16At(payload, pos + 3);
      if end <= |payload| {
        BlockPanicsExactly([], payload[pos + 5..end]);
      }
    }
  }

  /**
   A ServerHello without extensions, as TLS 1.2 allows (section 7.4.1.3 of RFC 5246), aborts the program
   when nothing follows it.
   */
  lemma NoExtensionsPanics(recordLen: u16, handshakeLen: u16, h: Hello, rest: seq<u8>)
    requires |h.random| == 32 && |h.sessionId| <= 32 && |rest| < 2
    ensures Parsed(EncodeStart(recordLen, handshakeLen, h) + rest) == Panic
  {
    hide LastEntries, EncodeStart;
    StartIsRead(recordLen, handshakeLen, h, rest);
  }
}
