/** The ClientHello parser of pqcdump, `parse_ssl_v3_client_hello` (pqcdump/src/tls.rs). */
module ClientHello {
  import opened Common

  const KEY_SHARE: u16 := 0x0033

  datatype HelloError =
    | NoRandom | NoSessionIdLength | NoSessionId | NoCipherSuitesLength | NoCipherSuites
    | NoCompressionLength | NoExtensionsLength | NoExtensions
    | ExtensionTooLong | KeyShareTooShort | KeyExchangeTooLong

  datatype CryptoConfig = CryptoConfig(ciphers: seq<u16>, keyshareGroups: seq<u16>)

  // ----- the grammar the parser follows -----

  /** The groups of a key_share entry list, behind those already found. */
  function KeyShares(found: seq<u16>, list: seq<u8>): Outcome<seq<u16>, HelloError>
    decreases |list|
  {
    if |list| < 4 then Ok(found)
    else
      var end := 4 + U16At(list, 2);
      if end > |list| then Err(KeyExchangeTooLong)
      else KeyShares(found + [U16At(list, 0)], list[end..])
  }

  /** The groups behind one more extension, which only a key_share adds to. */
  function OneExtension(found: seq<u16>, extType: u16, body: seq<u8>): Outcome<seq<u16>, HelloError> {
    if extType != KEY_SHARE then Ok(found)
    else if |body| < 2 then Err(KeyShareTooShort)
    else KeyShares(found, body[2..])
  }

  /** The groups of every key_share extension of an extension block, behind those already found. */
  function Extensions(found: seq<u16>, block: seq<u8>): Outcome<seq<u16>, HelloError>
    decreases |block|
  {
    if |block| < 4 then Ok(found)
    else
      var end := 4 + U16At(block, 2);
      if end > |block| then Err(ExtensionTooLong)
      else
        var groups :- OneExtension(found, U16At(block, 0), block[4..end]);
        Extensions(groups, block[end..])
  }

  /** Where the cipher suites start, and their announced length. */
  function CipherSpan(data: seq<u8>): (r: Outcome<(nat, nat), HelloError>)
    ensures r.Ok? ==> 46 <= r.value.0 <= r.value.0 + r.value.1 <= |data|
  {
    if |data| < 34 then Err(NoRandom)
    else if |data| <= 43 then Err(NoSessionIdLength)
    else
      var lengthAt: nat := 44 + data[43] as int;
      if lengthAt > |data| then Err(NoSessionId)
      else if lengthAt + 2 > |data| then Err(NoCipherSuitesLength)
      else if lengthAt + 2 + U16At(data, lengthAt) > |data| then Err(NoCipherSuites)
      else Ok((lengthAt + 2, U16At(data, lengthAt)))
  }

  /** Where the extension block behind the compression methods starts and ends. */
  function ExtensionSpan(data: seq<u8>, offset: nat): (r: Outcome<(nat, nat), HelloError>)
    ensures r.Ok? ==> offset + 3 <= r.value.0 <= r.value.1 <= |data|
  {
    if offset >= |data| then Err(NoCompressionLength)
    else
      var lengthAt: nat := offset + 1 + data[offset];
      if lengthAt + 2 > |data| then Err(NoExtensionsLength)
      else
        var end := lengthAt + 2 + U16At(data, lengthAt);
        if end > |data| then Err(NoExtensions) else Ok((lengthAt + 2, end))
  }

  /** The suites are read in pairs of bytes, so an odd length reads one byte more. */
  function PairedLength(length: nat): nat {
    2 * ((length + 1) / 2)
  }

  /** What the parser returns, and how far into the data it looked. */
  function Parsed(data: seq<u8>): (r: Outcome<(CryptoConfig, nat), HelloError>)
    ensures r.Ok? ==> 49 <= r.value.1 <= |data|
  {
    var (start, length) :- CipherSpan(data);
    var next := start + PairedLength(length);
    if next > |data| then Panic
    else
      var (block, end) :- ExtensionSpan(data, next);
      var groups :- Extensions([], data[block..end]);
      Ok((CryptoConfig(U16s(data[start..next]), groups), end))
  }

  // ----- the parser -----

  lemma KeySharesStep(found: seq<u16>, list: seq<u8>)
    requires |list| >= 4 && 4 + U16At(list, 2) <= |list|
    ensures KeyShares(found, list) == KeyShares(found + [U16At(list, 0)], list[4 + U16At(list, 2)..])
  {
    hide U16At;
  }

  lemma KeySharesEnd(found: seq<u16>, list: seq<u8>)
    ensures |list| < 4 ==> KeyShares(found, list) == Ok(found)
    ensures |list| >= 4 && 4 + U16At(list, 2) > |list| ==> KeyShares(found, list) == Err(KeyExchangeTooLong)
  {
    hide U16At;
  }

  lemma ExtensionsEnd(found: seq<u16>, block: seq<u8>)
    ensures |block| < 4 ==> Extensions(found, block) == Ok(found)
    ensures |block| >= 4 && 4 + U16At(block, 2) > |block| ==> Extensions(found, block) == Err(ExtensionTooLong)
  {
    hide U16At, OneExtension;
  }

  lemma ExtensionsStep(found: seq<u16>, block: seq<u8>)
    requires |block| >= 4 && 4 + U16At(block, 2) <= |block|
    ensures var end := 4 + U16At(block, 2);
            Extensions(found, block) ==
              var groups :- OneExtension(found, U16At(block, 0), block[4..end]);
              Extensions(groups, block[end..])
  {
    hide U16At, OneExtension;
  }

  /** The head of a block in the middle of the data. */
  lemma HeadAt(data: seq<u8>, offset: nat, end: nat)
    requires offset + 4 <= end <= |data|
    ensures var block := data[offset..end];
            var length := 4 + U16At(data, offset + 2);
            && U16At(block, 0) == U16At(data, offset) && U16At(block, 2) == U16At(data, offset + 2)
            && (offset + length <= end ==>
                  && block[4..length] == data[offset + 4..offset + length]
                  && block[length..] == data[offset + length..end])
  {
    hide U16At;
    WordOfSlice(data, offset, end, 0);
    WordOfSlice(data, offset, end, 2);
    var length := 4 + U16At(data, offset + 2);
    if offset + length <= end {
      SliceOfSlice(data, offset, end, 4, length);
      SliceOfSlice(data, offset, end, length, end - offset);
    }
  }

  /** The inner loop: the entries of one key_share extension. */
  method ReadKeyShares(data: seq<u8>, from: nat, end: nat, found: seq<u16>) returns (r: Outcome<seq<u16>, HelloError>)
    requires from <= end <= |data|
    ensures r == KeyShares(found, data[from..end])
  {
    hide KeyShares, U16At;
    var ksOffset := from;
    var keyshareGroups := found;
    while ksOffset + 4 <= end
      invariant from <= ksOffset <= end
      invariant KeyShares(found, data[from..end]) == KeyShares(keyshareGroups, data[ksOffset..end])
    {
      ghost var list := data[ksOffset..end];
      HeadAt(data, ksOffset, end);
      var group := U16At(data, ksOffset);
      var keyExchangeLen := U16At(data, ksOffset + 2);
      ksOffset := ksOffset + 4;
      if ksOffset + keyExchangeLen > end {
        KeySharesEnd(keyshareGroups, list);
        return Err(KeyExchangeTooLong);
      }
      KeySharesStep(keyshareGroups, list);
      keyshareGroups := keyshareGroups + [group];
      ksOffset := ksOffset + keyExchangeLen;
    }
    KeySharesEnd(keyshareGroups, data[ksOffset..end]);
    r := Ok(keyshareGroups);
  }

  /** The outer loop over the extension block. */
  method ReadExtensions(data: seq<u8>, from: nat, extensionsEnd: nat) returns (r: Outcome<seq<u16>, HelloError>)
    requires from <= extensionsEnd <= |data|
    ensures r == Extensions([], data[from..extensionsEnd])
  {
    hide Extensions, KeyShares, U16At;
    var offset := from;
    var keyshareGroups: seq<u16> := [];
    while offset + 4 <= extensionsEnd
      invariant from <= offset <= extensionsEnd
      invariant Extensions([], data[from..extensionsEnd]) == Extensions(keyshareGroups, data[offset..extensionsEnd])
    {
      ghost var block := data[offset..extensionsEnd];
      HeadAt(data, offset, extensionsEnd);
      var extType := U16At(data, offset);
      var extLen := U16At(data, offset + 2);
      offset := offset + 4;
      if offset + extLen > extensionsEnd {
        ExtensionsEnd(keyshareGroups, block);
        return Err(ExtensionTooLong);
      }
      ExtensionsStep(keyshareGroups, block);
      if extType == KEY_SHARE {
        if extLen < 2 {
          return Err(KeyShareTooShort);
        }
        SliceOfSlice(data, offset, offset + extLen, 2, extLen);
        keyshareGroups :- ReadKeyShares(data, offset + 2, offset + extLen, keyshareGroups);
      }
      offset := offset + extLen;
    }
    ExtensionsEnd(keyshareGroups, data[offset..extensionsEnd]);
    r := Ok(keyshareGroups);
  }

  lemma OneWordMore(data: seq<u8>, start: nat, offset: nat)
    requires start <= offset && offset + 2 <= |data| && (offset - start) % 2 == 0
    ensures U16s(data[start..offset + 2]) == U16s(data[start..offset]) + [U16At(data, offset)]
  {
    var word := data[offset..offset + 2];
    assert data[start..offset + 2] == data[start..offset] + word;
    U16sAppend(data[start..offset], word);
    WordOfSlice(data, offset, offset + 2, 0);
    assert word[2..] == [] && U16s(word) == [U16At(word, 0)];
  }

  /** The suites, two bytes at a time, and the offset behind them. Reading past the data is a panic. */
  method ReadCipherSuites(data: seq<u8>, start: nat, cipherSuitesLen: nat)
    returns (r: Outcome<(seq<u16>, nat), HelloError>)
    requires start + cipherSuitesLen <= |data|
    ensures var next := start + PairedLength(cipherSuitesLen);
            r == if next > |data| then Panic else Ok((U16s(data[start..next]), next))
  {
    hide U16s, U16At;
    assert data[start..start] == [] && U16s([]) == [] by { assert |U16s([])| == 0; }
    var offset := start;
    var cipherSuites: seq<u16> := [];
    var i := 0;
    while i < cipherSuitesLen
      invariant i % 2 == 0 && i <= PairedLength(cipherSuitesLen)
      invariant offset == start + i <= |data|
      invariant cipherSuites == U16s(data[start..offset])
    {
      if offset + 1 >= |data| {
        return Panic;  // `data[offset + 1]` is out of bounds
      }
      OneWordMore(data, start, offset);
      cipherSuites := cipherSuites + [U16At(data, offset)];
      offset := offset + 2;
      i := i + 2;
    }
    r := Ok((cipherSuites, offset));
  }

  method ParseSslV3ClientHello(data: seq<u8>) returns (r: Outcome<CryptoConfig, HelloError>)
    ensures r == match Parsed(data) case Ok((config, _)) => Ok(config) case Err(e) => Err(e) case Panic => Panic
  {
    hide Extensions, U16s, U16At;
    var offset: nat := 9;
    if |data| < 34 {
      return Err(NoRandom);
    }
    offset := offset + 34;
    if offset >= |data| {
      return Err(NoSessionIdLength);
    }
    var sessionIdLen := data[offset];
    offset := offset + 1;
    if offset + sessionIdLen > |data| {
      return Err(NoSessionId);
    }
    offset := offset + sessionIdLen;
    if offset + 2 > |data| {
      return Err(NoCipherSuitesLength);
    }
    var cipherSuitesLen := U16At(data, offset);
    offset := offset + 2;
    if offset + cipherSuitesLen > |data| {
      return Err(NoCipherSuites);
    }
    var suites :- ReadCipherSuites(data, offset, cipherSuitesLen);
    var cipherSuites := suites.0;
    offset := suites.1;
    if offset >= |data| {
      return Err(NoCompressionLength);
    }
    var compLen := data[offset];
    offset := offset + 1 + compLen;
    if offset + 2 > |data| {
      return Err(NoExtensionsLength);
    }
    var extensionsLen := U16At(data, offset);
    offset := offset + 2;
    if offset + extensionsLen > |data| {
      return Err(NoExtensions);
    }
    var groups :- ReadExtensions(data, offset, offset + extensionsLen);
    r := Ok(CryptoConfig(cipherSuites, groups));
  }

  // ----- what holds of every input -----

  /** An odd cipher-suite length whose last byte is the last of the data. */
  predicate EndsInOddSuites(data: seq<u8>) {
    && CipherSpan(data).Ok?
    && var (start, length) := CipherSpan(data).value; length % 2 == 1 && start + length == |data|
  }

  /** The one way to panic. */
  lemma PanicsExactly(data: seq<u8>)
    ensures Parsed(data) == Panic <==> EndsInOddSuites(data)
  {
    SpansNeverPanic(data, 0);
    if CipherSpan(data).Ok? {
      hide CipherSpan, ExtensionSpan, Extensions, U16s;
      var (start, length) := CipherSpan(data).value;
      var next := start + PairedLength(length);
      SpansNeverPanic(data, next);
      if next <= |data| && ExtensionSpan(data, next).Ok? {
        var (block, end) := ExtensionSpan(data, next).value;
        ExtensionsNeverPanic([], data[block..end]);
      }
    }
  }

  lemma SpansNeverPanic(data: seq<u8>, offset: nat)
    ensures CipherSpan(data) != Panic && ExtensionSpan(data, offset) != Panic
  {
    hide U16At;
  }

  /** A record of 47 bytes that does it: no session id, a suite length of 1 and one byte. */
  lemma OddSuitesPanic(data: seq<u8>)
    requires |data| == 47 && data[..3] == [22, 3, 1] && data[5] == 1 && data[43..46] == [0, 0, 1]
    ensures Parsed(data) == Panic
  {
    assert data[43] == data[43..46][0] && data[44] == data[43..46][1] && data[45] == data[43..46][2];
    PanicsExactly(data);
  }

  lemma {:induction false} KeySharesNeverPanic(found: seq<u16>, list: seq<u8>)
    ensures KeyShares(found, list) != Panic
    decreases |list|
  {
    if |list| >= 4 && 4 + U16At(list, 2) <= |list| {
      KeySharesNeverPanic(found + [U16At(list, 0)], list[4 + U16At(list, 2)..]);
    }
  }

  lemma {:induction false} ExtensionsNeverPanic(found: seq<u16>, block: seq<u8>)
    ensures Extensions(found, block) != Panic
    decreases |block|
  {
    if |block| >= 4 && 4 + U16At(block, 2) <= |block| {
      var extType, end := U16At(block, 0), 4 + U16At(block, 2);
      if extType == KEY_SHARE && end >= 6 {
        KeySharesNeverPanic(found, block[4..end][2..]);
      }
      var groups := OneExtension(found, extType, block[4..end]);
      if groups.Ok? {
        ExtensionsNeverPanic(groups.value, block[end..]);
      }
    }
  }

  lemma SpansIgnoreSuffix(data: seq<u8>, more: seq<u8>, offset: nat)
    ensures CipherSpan(data).Ok? ==> CipherSpan(data + more) == CipherSpan(data)
    ensures ExtensionSpan(data, offset).Ok? ==> ExtensionSpan(data + more, offset) == ExtensionSpan(data, offset)
  {
  }

  /** The format is self-delimiting: a successful parse is unchanged by whatever follows. */
  lemma SuffixIsIgnored(data: seq<u8>, more: seq<u8>)
    requires Parsed(data).Ok?
    ensures Parsed(data + more) == Parsed(data)
  {
    hide CipherSpan, ExtensionSpan, Extensions, U16s;
    var (start, length) := CipherSpan(data).value;
    var next := start + PairedLength(length);
    SpansIgnoreSuffix(data, more, next);
    var (block, end) := ExtensionSpan(data, next).value;
    assert (data + more)[start..next] == data[start..next];
    assert (data + more)[block..end] == data[block..end];
  }

  /** So nothing shorter than what a parse looked at parses: a strict prefix is an error, or the odd-length panic. */
  lemma PrefixIsRejected(data: seq<u8>, n: nat)
    requires Parsed(data).Ok? && n < Parsed(data).value.1
    ensures !Parsed(data[..n]).Ok?
    ensures Parsed(data[..n]) == Panic ==> CipherSpan(data).value.1 % 2 == 1
  {
    assert data == data[..n] + data[n..];
    if Parsed(data[..n]).Ok? {
      SuffixIsIgnored(data[..n], data[n..]);
    }
    PanicsExactly(data[..n]);
    SpansIgnoreSuffix(data[..n], data[n..], 0);
  }
}
