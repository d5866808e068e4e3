/** What the lenient KEXINIT parser of pqcdump accepts, whoever wrote it (pqcdump/src/ssh.rs). */
module SshKexLanguage {
  import opened Common
  import opened NameLists
  import opened SshKexInit

  /** Texts, each behind its 32-bit length. */
  predicate AreTexts(texts: seq<seq<u8>>) {
    texts == [] || (|texts[0]| < 0x1_0000_0000 && IsUtf8(texts[0]) && AreTexts(texts[1..]))
  }

  function EncodeTexts(texts: seq<seq<u8>>): seq<u8>
    requires AreTexts(texts)
  {
    if texts == [] then [] else Be32(|texts[0]|) + texts[0] + EncodeTexts(texts[1..])
  }

  function SplitAll(texts: seq<seq<u8>>): (lists: seq<seq<Name>>)
    ensures |lists| == |texts|
    ensures forall i | 0 <= i < |texts| :: lists[i] == Split(texts[i])
  {
    if texts == [] then [] else [Split(texts[0])] + SplitAll(texts[1..])
  }

  lemma TextIsTaken(text: seq<u8>, tail: seq<u8>)
    requires |text| < 0x1_0000_0000 && IsUtf8(text)
    ensures TakeList(Be32(|text|) + text + tail) == Some((Split(text), tail))
  {
    hide Split, IsUtf8;
    var data := Be32(|text|) + text + tail;
    assert U32At(data, 0) == U32At(Be32(|text|), 0);
    assert data[4..4 + |text|] == text && data[4 + |text|..] == tail;
  }

  lemma TextsCons(texts: seq<seq<u8>>, rest: seq<u8>)
    requires AreTexts(texts) && texts != []
    ensures EncodeTexts(texts) + rest == Be32(|texts[0]|) + texts[0] + (EncodeTexts(texts[1..]) + rest)
  {
    hide Be32;
    var first, later := Be32(|texts[0]|) + texts[0], EncodeTexts(texts[1..]);
    assert EncodeTexts(texts) == first + later;
    hide EncodeTexts;
    assert (first + later) + rest == first + (later + rest);
  }

  lemma {:induction false} TextsAreTaken(texts: seq<seq<u8>>, taken: seq<seq<Name>>, rest: seq<u8>)
    requires AreTexts(texts) && |taken| + |texts| == LISTS
    ensures TakeLists(EncodeTexts(texts) + rest, taken) == Some((taken + SplitAll(texts), rest))
    decreases |texts|
  {
    hide Split, IsUtf8, TakeList, TakeLists, Be32, EncodeTexts;
    if texts == [] {
      assert EncodeTexts(texts) == [] by { NoTexts(); }
      assert [] + rest == rest && taken + SplitAll(texts) == taken;
      TakeListsEnd(rest, taken);
    } else {
      var text, later := texts[0], texts[1..];
      var tail := EncodeTexts(later) + rest;
      TextIsTaken(text, tail);
      TakeListsStep(Be32(|text|) + text + tail, taken);
      TextsCons(texts, rest);
      TextsAreTaken(later, taken + [Split(text)], rest);
      assert (taken + [Split(text)]) + SplitAll(later) == taken + ([Split(text)] + SplitAll(later));
    }
  }

  lemma NoTexts()
    ensures EncodeTexts([]) == []
  {
  }

  lemma Be32OfWord(data: seq<u8>)
    requires |data| >= 4
    ensures Be32(U32At(data, 0)) == data[..4]
  {
    Be16OfWord(data, 0);
    Be16OfWord(data, 2);
    var high: int, low: int := U16At(data, 0), U16At(data, 2);
    assert (high * 0x1_0000 + low) / 0x1_0000 == high && (high * 0x1_0000 + low) % 0x1_0000 == low;
  }

  /** What a list taken off the data was. */
  lemma TakenText(data: seq<u8>) returns (text: seq<u8>)
    requires TakeList(data).Some?
    ensures |text| < 0x1_0000_0000 && IsUtf8(text)
    ensures TakeList(data).value.0 == Split(text) && data == Be32(|text|) + text + TakeList(data).value.1
  {
    hide Split, IsUtf8;
    Be32OfWord(data);
    hide Be32;
    var end := 4 + U32At(data, 0);
    text := data[4..end];
    assert data == data[..4] + text + data[end..];
  }

  /** These texts and this rest are what the data was, for lists behind those taken. */
  predicate AreTaken(data: seq<u8>, taken: seq<seq<Name>>, texts: seq<seq<u8>>, rest: seq<u8>) {
    && AreTexts(texts) && |taken| + |texts| == LISTS && data == EncodeTexts(texts) + rest
    && TakeLists(data, taken) == Some((taken + SplitAll(texts), rest))
  }

  lemma NoneTaken(data: seq<u8>, taken: seq<seq<Name>>)
    requires |taken| == LISTS
    ensures AreTaken(data, taken, [], data)
  {
    TakeListsEnd(data, taken);
    assert taken + SplitAll([]) == taken && [] + data == data;
  }

  lemma OneMoreTaken(data: seq<u8>, taken: seq<seq<Name>>, text: seq<u8>, tail: seq<u8>,
                     later: seq<seq<u8>>, rest: seq<u8>)
    requires |taken| < LISTS && |text| < 0x1_0000_0000 && IsUtf8(text)
    requires TakeList(data) == Some((Split(text), tail)) && data == Be32(|text|) + text + tail
    requires AreTaken(tail, taken + [Split(text)], later, rest)
    ensures AreTaken(data, taken, [text] + later, rest)
  {
    hide *;
    var names, lists := Split(text), SplitAll(later);
    TakenTells(tail, taken + [names], later, rest);
    TextsPrepend(text, later, rest);
    SplitPrepend(text, later);
    TakeListsStep(data, taken);
    Regroup(taken, names, lists);
    TakenIs(data, taken, [text] + later, rest);
  }

  lemma Regroup(taken: seq<seq<Name>>, names: seq<Name>, lists: seq<seq<Name>>)
    ensures taken + [names] + lists == taken + ([names] + lists)
  {
  }

  lemma TakenTells(data: seq<u8>, taken: seq<seq<Name>>, texts: seq<seq<u8>>, rest: seq<u8>)
    requires AreTaken(data, taken, texts, rest)
    ensures AreTexts(texts) && |taken| + |texts| == LISTS && data == EncodeTexts(texts) + rest
    ensures TakeLists(data, taken) == Some((taken + SplitAll(texts), rest))
  {
  }

  lemma TakenIs(data: seq<u8>, taken: seq<seq<Name>>, texts: seq<seq<u8>>, rest: seq<u8>)
    requires AreTexts(texts) && |taken| + |texts| == LISTS && data == EncodeTexts(texts) + rest
    requires TakeLists(data, taken) == Some((taken + SplitAll(texts), rest))
    ensures AreTaken(data, taken, texts, rest)
  {
  }

  lemma TextsPrepend(text: seq<u8>, later: seq<seq<u8>>, rest: seq<u8>)
    requires |text| < 0x1_0000_0000 && IsUtf8(text) && AreTexts(later)
    ensures AreTexts([text] + later)
    ensures EncodeTexts([text] + later) + rest == Be32(|text|) + text + (EncodeTexts(later) + rest)
  {
    hide IsUtf8, EncodeTexts;
    assert ([text] + later)[1..] == later;
    TextsCons([text] + later, rest);
  }

  lemma SplitPrepend(text: seq<u8>, later: seq<seq<u8>>)
    ensures SplitAll([text] + later) == [Split(text)] + SplitAll(later)
  {
    hide Split;
    assert ([text] + later)[1..] == later;
  }

  lemma {:induction false} TakenTexts(data: seq<u8>, taken: seq<seq<Name>>) returns (texts: seq<seq<u8>>)
    requires |taken| <= LISTS && TakeLists(data, taken).Some?
    ensures AreTaken(data, taken, texts, TakeLists(data, taken).value.1)
    decreases LISTS - |taken|
  {
    hide Split, IsUtf8, TakeList, TakeLists, Be32, EncodeTexts, AreTaken;
    if |taken| == LISTS {
      texts := [];
      NoneTaken(data, taken);
      TakeListsEnd(data, taken);
    } else {
      TakeListsStep(data, taken);
      var text := TakenText(data);
      var tail := TakeList(data).value.1;
      var later := TakenTexts(tail, taken + [Split(text)]);
      texts := [text] + later;
      OneMoreTaken(data, taken, text, tail, later, TakeLists(data, taken).value.1);
    }
  }

  predicate IsKexInit(payload: seq<u8>, texts: seq<seq<u8>>, rest: seq<u8>) {
    && |payload| >= 22 && payload[5] == 20
    && |texts| == 10 && AreTexts(texts) && payload[22..] == EncodeTexts(texts) + rest
  }

  /**
   For every payload, the lenient parser returns these names exactly when byte 5 is 20 and behind the
   first 22 bytes stand ten UTF-8 texts with their lengths, of which the first splits into the names.
   */
  lemma AcceptedExactly(payload: seq<u8>, kex: seq<Name>)
    ensures LenientKex(payload) == Some(kex) <==>
            exists texts, rest :: IsKexInit(payload, texts, rest) && kex == Split(texts[0])
  {
    hide Split, TakeLists, AreTexts, EncodeTexts;
    if LenientKex(payload) == Some(kex) {
      var texts := TakenTexts(payload[22..], []);
      var rest := LenientLists(payload).value.1;
      assert [] + SplitAll(texts) == SplitAll(texts);
      assert IsKexInit(payload, texts, rest);
    }
    if texts, rest :| IsKexInit(payload, texts, rest) && kex == Split(texts[0]) {
      TextsAreTaken(texts, [], rest);
      assert [] + SplitAll(texts) == SplitAll(texts);
    }
  }
}
