/**
 The converse of the ClientHello round trip: what the parser of pqcdump accepts (pqcdump/src/tls.rs),
 whoever wrote it.
 */
module ClientHelloLanguage {
  import opened Common
  import opened ClientHello
  import opened ClientHelloRoundTrip
  import B = ClientHelloBuilder

  /**
   An extension as the parser takes it: a key_share with its list length, which is skipped, its entries
   and up to three bytes behind them; or any other.
   */
  datatype Item =
    | Share(listLength: u16, entries: seq<B.KeyShareEntry>, rest: seq<u8>)
    | Other(extType: u16, body: seq<u8>)

  function TypeIn(i: Item): u16 {
    match i case Share(_, _, _) => KEY_SHARE case Other(extType, _) => extType
  }

  function BodyOf(i: Item): seq<u8> {
    match i
    case Share(listLength, entries, rest) => Be16(listLength) + (B.EncodeEntries(entries) + rest)
    case Other(_, body) => body
  }

  predicate IsItem(i: Item) {
    && |BodyOf(i)| < B.U16_SPACE
    && match i case Share(_, _, rest) => |rest| < 4 case Other(extType, _) => extType != KEY_SHARE
  }

  function EncodeItem(i: Item): seq<u8> {
    Be16(TypeIn(i)) + Be16(|BodyOf(i)| % B.U16_SPACE) + BodyOf(i)
  }

  function EncodeItems(items: seq<Item>): seq<u8> {
    if items == [] then [] else EncodeItem(items[0]) + EncodeItems(items[1..])
  }

  predicate AreItems(items: seq<Item>) {
    items == [] || (IsItem(items[0]) && AreItems(items[1..]))
  }

  function ItemGroups(i: Item): seq<u16> {
    if i.Share? then EntryGroups(i.entries) else []
  }

  /** The groups of the key_share extensions among them. */
  function GroupsAmong(items: seq<Item>): seq<u16> {
    if items == [] then [] else ItemGroups(items[0]) + GroupsAmong(items[1..])
  }

  // ----- the entries of a key_share -----

  lemma ShareIsRead(found: seq<u16>, e: B.KeyShareEntry, tail: seq<u8>)
    requires |e.exchange| < B.U16_SPACE
    ensures KeyShares(found, B.EncodeEntry(e) + tail) == KeyShares(found + [e.group], tail)
  {
    hide KeyShares, B.EncodeEntry, U16At;
    EntryIsRead(e, tail);
    KeySharesStep(found, B.EncodeEntry(e) + tail);
  }

  lemma EntriesCons(entries: seq<B.KeyShareEntry>, rest: seq<u8>)
    requires entries != []
    ensures B.EncodeEntries(entries) + rest == B.EncodeEntry(entries[0]) + (B.EncodeEntries(entries[1..]) + rest)
    ensures |B.EncodeEntries(entries)| == 4 + |entries[0].exchange| + |B.EncodeEntries(entries[1..])|
  {
    hide B.EncodeEntry;
    EntrySize(entries[0]);
    var first, later := B.EncodeEntry(entries[0]), B.EncodeEntries(entries[1..]);
    assert B.EncodeEntries(entries) == first + later;
    hide B.EncodeEntries;
    assert (first + later) + rest == first + (later + rest);
  }

  lemma EntrySize(e: B.KeyShareEntry)
    ensures |B.EncodeEntry(e)| == 4 + |e.exchange|
  {
    hide Be16;
  }

  lemma {:induction false} SharesAreRead(found: seq<u16>, entries: seq<B.KeyShareEntry>, rest: seq<u8>)
    requires |B.EncodeEntries(entries)| < B.U16_SPACE && |rest| < 4
    ensures KeyShares(found, B.EncodeEntries(entries) + rest) == Ok(found + EntryGroups(entries))
    decreases |entries|
  {
    if entries == [] {
      assert B.EncodeEntries(entries) + rest == rest && found + [] == found;
      KeySharesEnd(found, rest);
    } else {
      hide KeyShares, B.EncodeEntry, B.EncodeEntries;
      var e, later := entries[0], entries[1..];
      EntriesCons(entries, rest);
      ShareIsRead(found, e, B.EncodeEntries(later) + rest);
      SharesAreRead(found + [e.group], later, rest);
      assert (found + [e.group]) + EntryGroups(later) == found + ([e.group] + EntryGroups(later));
    }
  }

  /** The first entry of a list is the encoding of its group and key. */
  lemma FirstEntry(list: seq<u8>) returns (e: B.KeyShareEntry)
    requires |list| >= 4 && 4 + U16At(list, 2) <= |list|
    ensures e.group == U16At(list, 0) && B.EncodeEntry(e) == list[..4 + U16At(list, 2)]
  {
    Be16OfWord(list, 0);
    Be16OfWord(list, 2);
    hide U16At, Be16;
    var end := 4 + U16At(list, 2);
    e := B.NewKeyShareEntry(U16At(list, 0), list[4..end]);
    assert list[..end] == list[0..2] + list[2..4] + list[4..end];
  }

  lemma {:induction false} SharesSplit(found: seq<u16>, list: seq<u8>)
    returns (entries: seq<B.KeyShareEntry>, rest: seq<u8>)
    requires KeyShares(found, list).Ok?
    ensures |rest| < 4 && list == B.EncodeEntries(entries) + rest
    ensures KeyShares(found, list).value == found + EntryGroups(entries)
    decreases |list|
  {
    KeySharesEnd(found, list);
    if |list| < 4 {
      entries, rest := [], list;
      assert [] + list == list && found + [] == found;
    } else {
      KeySharesStep(found, list);
      hide KeyShares, U16At, B.EncodeEntry;
      var end := 4 + U16At(list, 2);
      var e := FirstEntry(list);
      var later;
      later, rest := SharesSplit(found + [e.group], list[end..]);
      entries := [e] + later;
      assert entries[1..] == later && list == list[..end] + list[end..];
      assert list == B.EncodeEntry(e) + (B.EncodeEntries(later) + rest);
      assert (found + [e.group]) + EntryGroups(later) == found + ([e.group] + EntryGroups(later));
    }
  }

  // ----- one extension -----

  lemma ItemIsRead(found: seq<u16>, i: Item)
    requires IsItem(i)
    ensures OneExtension(found, TypeIn(i), BodyOf(i)) == Ok(found + ItemGroups(i))
  {
    hide KeyShares;
    match i {
      case Share(listLength, entries, rest) =>
        assert BodyOf(i)[2..] == B.EncodeEntries(entries) + rest;
        SharesAreRead(found, entries, rest);
      case Other(_, _) =>
        assert found + [] == found;
    }
  }

  lemma ItemSplit(found: seq<u16>, extType: u16, body: seq<u8>) returns (i: Item)
    requires OneExtension(found, extType, body).Ok? && |body| < B.U16_SPACE
    ensures IsItem(i) && TypeIn(i) == extType && BodyOf(i) == body
    ensures OneExtension(found, extType, body).value == found + ItemGroups(i)
  {
    hide KeyShares;
    if extType == KEY_SHARE {
      var entries, rest := SharesSplit(found, body[2..]);
      i := Share(U16At(body, 0), entries, rest);
      Be16OfWord(body, 0);
      hide U16At, B.EncodeEntries;
      assert body == body[0..2] + body[2..];
    } else {
      i := Other(extType, body);
      assert found + [] == found;
    }
  }

  /** The head of an encoded item. */
  lemma ItemHead(i: Item, tail: seq<u8>)
    requires IsItem(i)
    ensures var block := EncodeItem(i) + tail;
            var end := 4 + |BodyOf(i)|;
            && end <= |block| && U16At(block, 0) == TypeIn(i) && U16At(block, 2) == |BodyOf(i)|
            && block[4..end] == BodyOf(i) && block[end..] == tail
  {
    hide Be16, U16At, BodyOf, TypeIn;
    var block := EncodeItem(i) + tail;
    assert block[0..2] == Be16(TypeIn(i)) && block[2..4] == Be16(|BodyOf(i)|);
    WordInside(block, 0, TypeIn(i));
    WordInside(block, 2, |BodyOf(i)|);
  }

  lemma ItemIsFirst(block: seq<u8>, i: Item)
    requires |block| >= 4 && 4 + U16At(block, 2) <= |block|
    requires TypeIn(i) == U16At(block, 0) && BodyOf(i) == block[4..4 + U16At(block, 2)]
    ensures block == EncodeItem(i) + block[4 + U16At(block, 2)..]
  {
    hide U16At, Be16, TypeIn, BodyOf, EncodeItem;
    var end := 4 + U16At(block, 2);
    Be16OfWord(block, 0);
    Be16OfWord(block, 2);
    ItemParts(i, block[0..2], block[2..4], block[4..end]);
    FourParts(block, end);
  }

  lemma ItemParts(i: Item, extType: seq<u8>, length: seq<u8>, body: seq<u8>)
    requires |body| < B.U16_SPACE && extType == Be16(TypeIn(i)) && length == Be16(|body|) && body == BodyOf(i)
    ensures EncodeItem(i) == extType + length + body
  {
    hide Be16, TypeIn, BodyOf;
  }

  lemma FourParts(block: seq<u8>, end: nat)
    requires 4 <= end <= |block|
    ensures block == block[0..2] + block[2..4] + block[4..end] + block[end..]
  {
  }

  // ----- a block -----

  /** Whole extensions and at most three bytes. */
  predicate IsBlock(block: seq<u8>, items: seq<Item>, tail: seq<u8>) {
    AreItems(items) && |tail| < 4 && block == EncodeItems(items) + tail
  }

  lemma {:induction false} ItemsAreRead(found: seq<u16>, items: seq<Item>, tail: seq<u8>)
    requires AreItems(items) && |tail| < 4
    ensures Extensions(found, EncodeItems(items) + tail) == Ok(found + GroupsAmong(items))
    decreases |items|
  {
    hide Extensions, OneExtension, EncodeItem, ItemGroups;
    if items == [] {
      assert EncodeItems(items) + tail == tail && found + [] == found;
      ExtensionsEnd(found, tail);
    } else {
      var i, rest := items[0], EncodeItems(items[1..]) + tail;
      var block := EncodeItem(i) + rest;
      assert EncodeItems(items) + tail == block;
      ItemHead(i, rest);
      ItemIsRead(found, i);
      ExtensionsStep(found, block);
      ItemsAreRead(found + ItemGroups(i), items[1..], tail);
      hide IsItem, BodyOf, TypeIn, U16At;
      assert (found + ItemGroups(i)) + GroupsAmong(items[1..]) == found + (ItemGroups(i) + GroupsAmong(items[1..]));
    }
  }

  lemma {:induction false} BlockSplit(found: seq<u16>, block: seq<u8>) returns (items: seq<Item>, tail: seq<u8>)
    requires Extensions(found, block).Ok?
    ensures IsBlock(block, items, tail)
    ensures Extensions(found, block).value == found + GroupsAmong(items)
    decreases |block|
  {
    hide Extensions, OneExtension, EncodeItem, ItemGroups, IsItem, BodyOf, TypeIn, U16At;
    ExtensionsEnd(found, block);
    if |block| < 4 {
      items, tail := [], block;
      assert [] + block == block && found + [] == found;
    } else {
      var end := 4 + U16At(block, 2);
      ExtensionsStep(found, block);
      var i := ItemSplit(found, U16At(block, 0), block[4..end]);
      ItemIsFirst(block, i);
      var later;
      later, tail := BlockSplit(found + ItemGroups(i), block[end..]);
      items := [i] + later;
      assert items[1..] == later;
      assert block == EncodeItem(i) + (EncodeItems(later) + tail);
      assert (found + ItemGroups(i)) + GroupsAmong(later) == found + (ItemGroups(i) + GroupsAmong(later));
    }
  }

  /** A block is accepted, with these groups, exactly when it is whole extensions and at most three bytes. */
  lemma BlockAcceptedExactly(block: seq<u8>, groups: seq<u16>)
    ensures Extensions([], block) == Ok(groups) <==>
            exists items, tail :: IsBlock(block, items, tail) && groups == GroupsAmong(items)
  {
    hide Extensions;
    if Extensions([], block) == Ok(groups) {
      var items, tail := BlockSplit([], block);
      assert [] + GroupsAmong(items) == GroupsAmong(items);
    }
    if items, tail :| IsBlock(block, items, tail) && groups == GroupsAmong(items) {
      ItemsAreRead([], items, tail);
      assert [] + GroupsAmong(items) == GroupsAmong(items);
    }
  }

  /**
   What a successful parse means, for arbitrary bytes: the fields up to the extension block are all
   there, the suites are its words, and the block is whole extensions and at most three bytes, of whose
   key_shares the groups are.
   */
  lemma AcceptedExactly(data: seq<u8>, config: CryptoConfig, end: nat)
    ensures Parsed(data) == Ok((config, end)) <==>
            && CipherSpan(data).Ok?
            && var (start, length) := CipherSpan(data).value;
            var next := start + PairedLength(length);
            && next <= |data| && ExtensionSpan(data, next).Ok? && ExtensionSpan(data, next).value.1 == end
            && config.ciphers == U16s(data[start..next])
            && exists items, tail ::
                 && IsBlock(data[ExtensionSpan(data, next).value.0..end], items, tail)
                 && config.keyshareGroups == GroupsAmong(items)
  {
    hide CipherSpan, ExtensionSpan, Extensions, U16s, IsBlock, GroupsAmong;
    if CipherSpan(data).Ok? {
      var (start, length) := CipherSpan(data).value;
      var next := start + PairedLength(length);
      if next <= |data| && ExtensionSpan(data, next).Ok? {
        var (from, to) := ExtensionSpan(data, next).value;
        BlockAcceptedExactly(data[from..to], config.keyshareGroups);
      }
    }
  }
}
