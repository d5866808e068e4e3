/**
 The two SSH_MSG_KEXINIT parsers: the lenient one of pqcdump (pqcdump/src/ssh.rs), which shrinks a
 slice, and the strict one of pqcscan (pqcscan/src/ssh.rs), which moves a cursor. The format is
 section 7.1 of RFC 4253 inside the binary packet of its section 6.
 */
module SshKexInit {
  import opened Common
  import opened NameLists

  const SSH_MSG_KEXINIT: u8 := 20
  const COOKIE_LEN := 16
  const LISTS := 10

  // ----- pqcdump: the shrinking slice -----

  /** One name-list and what follows it. */
  function TakeList(data: seq<u8>): Option<(seq<Name>, seq<u8>)> {
    if |data| < 4 || |data| - 4 < U32At(data, 0) then None
    else
      var end := 4 + U32At(data, 0);
      if IsUtf8(data[4..end]) then Some((Split(data[4..end]), data[end..])) else None
  }

  /** The name-lists missing to ten, behind those already taken, and what follows them. */
  function TakeLists(data: seq<u8>, taken: seq<seq<Name>>): (r: Option<(seq<seq<Name>>, seq<u8>)>)
    ensures r.Some? && |taken| <= LISTS ==> |r.value.0| == LISTS && taken <= r.value.0
    ensures r.Some? ==> |r.value.1| <= |data|
    decreases LISTS - |taken|
  {
    if |taken| >= LISTS then Some((taken, data))
    else
      match TakeList(data)
      case Some((names, rest)) => TakeLists(rest, taken + [names])
      case None => None
  }

  /** The ten lists of a payload that the lenient parser takes for a KEXINIT, and what follows them. */
  function LenientLists(payload: seq<u8>): (r: Option<(seq<seq<Name>>, seq<u8>)>)
    ensures r.Some? ==> |r.value.0| == LISTS && |payload| >= 6 + COOKIE_LEN + |r.value.1|
  {
    if |payload| < 6 || payload[5] != SSH_MSG_KEXINIT || |payload| - 6 < COOKIE_LEN then None
    else TakeLists(payload[6 + COOKIE_LEN..], [])
  }

  function LenientKex(payload: seq<u8>): Option<seq<Name>> {
    match LenientLists(payload)
    case Some((lists, _)) => Some(lists[0])
    case None => None
  }

  method ReadU32(data: seq<u8>) returns (val: Option<u32>, rest: seq<u8>)
    ensures |data| < 4 ==> val == None && rest == data
    ensures |data| >= 4 ==> val == Some(U32At(data, 0)) && rest == data[4..]
  {
    if |data| < 4 {
      return None, data;
    }
    val := Some(U32At(data, 0));
    rest := data[4..];
  }

  method ReadNameListOwned(data: seq<u8>) returns (names: Option<seq<Name>>, rest: seq<u8>)
    ensures TakeList(data) == if names.Some? then Some((names.value, rest)) else None
  {
    var len;
    len, rest := ReadU32(data);
    if len == None || |rest| < len.value {
      return None, rest;
    }
    var listBytes := rest[..len.value];
    rest := rest[len.value..];
    assert listBytes == data[4..4 + len.value] && rest == data[4 + len.value..];
    if !IsUtf8(listBytes) {
      return None, rest;
    }
    names := Some(Split(listBytes));
  }

  method ParseSshKexinit(payload: seq<u8>) returns (kex: Option<seq<Name>>)
    ensures kex == LenientKex(payload)
  {
    if |payload| < 6 || payload[5] != SSH_MSG_KEXINIT {
      return None;
    }
    var data := payload[6..];
    if |data| < COOKIE_LEN {
      return None;
    }
    data := data[COOKIE_LEN..];
    assert data == payload[6 + COOKIE_LEN..];
    var first;
    first, data := ReadNameListOwned(data);
    if first == None {
      return None;
    }
    ghost var taken := [first.value];
    assert [] + [first.value] == taken;
    for i := 0 to LISTS - 1
      invariant LenientLists(payload) == TakeLists(data, taken)
      invariant |taken| == 1 + i && taken[0] == first.value
    {
      var skipped;
      skipped, data := ReadNameListOwned(data);
      if skipped == None {
        return None;
      }
      taken := taken + [skipped.value];
    }
    return first;
  }

  // ----- pqcscan: the cursor -----

  datatype KexError = TooShort | BadPacketLength | UnexpectedEof | BadMessageType | InvalidUtf8 | BadPacketEnd

  datatype KexInitMsg = KexInitMsg(kexAlgos: seq<Name>, hostKeyAlgos: seq<Name>)

  /** One name-list at a position, and the position after it. A missing length word is unwrapped: a panic. */
  function ListAt(buf: seq<u8>, pos: nat): Outcome<(seq<Name>, nat), KexError> {
    if pos + 4 > |buf| then Panic
    else
      var end := pos + 4 + U32At(buf, pos);
      if end > |buf| then Err(UnexpectedEof)
      else if !IsUtf8(buf[pos + 4..end]) then Err(InvalidUtf8)
      else Ok((Split(buf[pos + 4..end]), end))
  }

  function ListsAt(buf: seq<u8>, pos: nat, taken: seq<seq<Name>>): (r: Outcome<(seq<seq<Name>>, nat), KexError>)
    ensures r.Ok? && |taken| <= LISTS ==> |r.value.0| == LISTS && taken <= r.value.0
    decreases LISTS - |taken|
  {
    if |taken| >= LISTS then Ok((taken, pos))
    else
      var (names, next) :- ListAt(buf, pos);
      ListsAt(buf, next, taken + [names])
  }

  function StrictKexInit(buf: seq<u8>): Outcome<KexInitMsg, KexError> {
    var bufLen := |buf| % 0x1_0000_0000;
    if bufLen < 4 then Err(TooShort)
    else if bufLen - 4 < U32At(buf, 0) then Err(BadPacketLength)
    else if |buf| < 6 then Err(UnexpectedEof)
    else if buf[5] != SSH_MSG_KEXINIT then Err(BadMessageType)
    else
      var (lists, pos) :- ListsAt(buf, 6 + COOKIE_LEN, []);
      if bufLen != pos + buf[4] + 5 then Err(BadPacketEnd)
      else Ok(KexInitMsg(lists[0], lists[1]))
  }

  class Cursor {
    const buf: seq<u8>
    var position: nat

    constructor (buf: seq<u8>)
      ensures this.buf == buf && position == 0
    {
      this.buf := buf;
      position := 0;
    }

    method ReadU32() returns (r: Outcome<u32, KexError>)
      modifies this
      ensures if old(position) + 4 <= |buf| then r == Ok(U32At(buf, old(position))) && position == old(position) + 4
              else r == Err(UnexpectedEof)
    {
      if position + 4 > |buf| {
        return Err(UnexpectedEof);
      }
      r := Ok(U32At(buf, position));
      position := position + 4;
    }

    method ReadU8() returns (r: Outcome<u8, KexError>)
      modifies this
      ensures if old(position) < |buf| then r == Ok(buf[old(position)]) && position == old(position) + 1
              else r == Err(UnexpectedEof)
    {
      if position >= |buf| {
        return Err(UnexpectedEof);
      }
      r := Ok(buf[position]);
      position := position + 1;
    }

    method ReadExact(n: nat) returns (r: Outcome<seq<u8>, KexError>)
      modifies this
      ensures if old(position) + n <= |buf|
              then r == Ok(buf[old(position)..old(position) + n]) && position == old(position) + n
              else r == Err(UnexpectedEof)
    {
      if position + n > |buf| {
        return Err(UnexpectedEof);
      }
      r := Ok(buf[position..position + n]);
      position := position + n;
    }

    /** Seeking past the end is not an error. */
    method Skip(n: nat)
      modifies this
      ensures position == old(position) + n
    {
      position := position + n;
    }

    /** The next name-list. */
    method ParseSshNameList() returns (r: Outcome<seq<Name>, KexError>)
      modifies this
      ensures var list := ListAt(buf, old(position));
              && (list.Ok? ==> r == Ok(list.value.0) && position == list.value.1)
              && (list.Err? ==> r == Err(list.error))
              && (list.Panic? ==> r == Panic)
    {
      var size := ReadU32();
      if !size.Ok? {
        return Panic;
      }
      var text :- ReadExact(size.value);
      if !IsUtf8(text) {
        return Err(InvalidUtf8);
      }
      var pieces := Split(text);
      var algos: seq<Name> := [];
      for i := 0 to |pieces|
        invariant algos == pieces[..i]
      {
        algos := algos + [pieces[i]];
      }
      assert algos == pieces;
      r := Ok(algos);
    }
  }

  lemma ListsStep(buf: seq<u8>, pos: nat, taken: seq<seq<Name>>)
    requires |taken| < LISTS
    ensures var list, lists := ListAt(buf, pos), ListsAt(buf, pos, taken);
            && (list.Ok? ==> lists == ListsAt(buf, list.value.1, taken + [list.value.0]))
            && (list.Err? ==> lists == Err(list.error))
            && (list.Panic? ==> lists == Panic)
  {
    hide ListAt;
  }

  method ParseSshMsgKexinit(buf: seq<u8>) returns (r: Outcome<KexInitMsg, KexError>)
    ensures r == StrictKexInit(buf)
  {
    var bufLen: u32 := |buf| % 0x1_0000_0000;
    if bufLen < 4 {
      return Err(TooShort);
    }
    var c := new Cursor(buf);
    var packetSize := c.ReadU32();  // cannot fail: there are four bytes
    if bufLen - 4 < packetSize.value {
      return Err(BadPacketLength);
    }
    var paddingLen :- c.ReadU8();
    var msgType :- c.ReadU8();
    if msgType != SSH_MSG_KEXINIT {
      return Err(BadMessageType);
    }
    c.Skip(16);
    var lists :- TenLists(c);
    var kexAlgos, hostKeyAlgos := lists.0, lists.1;
    var endOfPacket := c.position + paddingLen + 5;
    if bufLen != endOfPacket {
      return Err(BadPacketEnd);
    }
    r := Ok(KexInitMsg(kexAlgos, hostKeyAlgos));
  }

  /** The ten lists in a row, of which the first two are kept. */
  method TenLists(c: Cursor) returns (r: Outcome<(seq<Name>, seq<Name>), KexError>)
    modifies c
    ensures var lists := ListsAt(c.buf, old(c.position), []);
            && (lists.Ok? ==> r == Ok((lists.value.0[0], lists.value.0[1])) && c.position == lists.value.1)
            && (lists.Err? ==> r == Err(lists.error))
            && (lists.Panic? ==> r == Panic)
  {
    hide ListAt, ListsAt;
    ListsStep(c.buf, c.position, []);
    var kexAlgos :- c.ParseSshNameList();
    assert [] + [kexAlgos] == [kexAlgos];
    ListsStep(c.buf, c.position, [kexAlgos]);
    var srvHostKeyAlgos :- c.ParseSshNameList();
    assert [kexAlgos] + [srvHostKeyAlgos] == [kexAlgos, srvHostKeyAlgos];
    var _ :- EncryptionLists(c, [kexAlgos, srvHostKeyAlgos]);
    r := Ok((kexAlgos, srvHostKeyAlgos));
  }

  /** The lists of ciphers and codes, and all behind them. The ghost argument says which have been taken. */
  method EncryptionLists(c: Cursor, ghost taken0: seq<seq<Name>>) returns (r: Outcome<(), KexError>)
    requires |taken0| == 2
    modifies c
    ensures var lists := ListsAt(c.buf, old(c.position), taken0);
            && (lists.Ok? ==> r == Ok(()) && c.position == lists.value.1)
            && (lists.Err? ==> r == Err(lists.error))
            && (lists.Panic? ==> r == Panic)
  {
    hide ListAt, ListsAt;
    ghost var taken := taken0;
    ListsStep(c.buf, c.position, taken);
    var encAlgosC2s :- c.ParseSshNameList();
    taken := taken + [encAlgosC2s];
    ListsStep(c.buf, c.position, taken);
    var encAlgosS2c :- c.ParseSshNameList();
    taken := taken + [encAlgosS2c];
    ListsStep(c.buf, c.position, taken);
    var macAlgosC2s :- c.ParseSshNameList();
    taken := taken + [macAlgosC2s];
    ListsStep(c.buf, c.position, taken);
    var macAlgosS2c :- c.ParseSshNameList();
    taken := taken + [macAlgosS2c];
    r := LastLists(c, taken);
  }

  /** The lists of compression methods and languages. */
  method LastLists(c: Cursor, ghost taken0: seq<seq<Name>>) returns (r: Outcome<(), KexError>)
    requires |taken0| == 6
    modifies c
    ensures var lists := ListsAt(c.buf, old(c.position), taken0);
            && (lists.Ok? ==> r == Ok(()) && c.position == lists.value.1)
            && (lists.Err? ==> r == Err(lists.error))
            && (lists.Panic? ==> r == Panic)
  {
    hide ListAt, ListsAt;
    ghost var taken := taken0;
    ListsStep(c.buf, c.position, taken);
    var compressAlgosC2s :- c.ParseSshNameList();
    taken := taken + [compressAlgosC2s];
    ListsStep(c.buf, c.position, taken);
    var compressAlgosS2c :- c.ParseSshNameList();
    taken := taken + [compressAlgosS2c];
    ListsStep(c.buf, c.position, taken);
    var langC2s :- c.ParseSshNameList();
    taken := taken + [langC2s];
    ListsStep(c.buf, c.position, taken);
    var langS2c :- c.ParseSshNameList();
    taken := taken + [langS2c];
    ListsEnd(c.buf, c.position, taken);
    r := Ok(());
  }

  lemma ListsEnd(buf: seq<u8>, pos: nat, taken: seq<seq<Name>>)
    requires |taken| >= LISTS
    ensures ListsAt(buf, pos, taken) == Ok((taken, pos))
  {
  }

  // ----- the two agree -----

  lemma ListAgrees(buf: seq<u8>, pos: nat)
    requires pos <= |buf|
    ensures match ListAt(buf, pos)
            case Ok((names, end)) => end <= |buf| && TakeList(buf[pos..]) == Some((names, buf[end..]))
            case _ => TakeList(buf[pos..]) == None
  {
    var data := buf[pos..];
    if pos + 4 <= |buf| {
      assert U32At(data, 0) == U32At(buf, pos);
      var end := pos + 4 + U32At(buf, pos);
      if end <= |buf| {
        assert data[4..end - pos] == buf[pos + 4..end] && data[end - pos..] == buf[end..];
      }
    }
  }

  lemma {:induction false} ListsAgree(buf: seq<u8>, pos: nat, taken: seq<seq<Name>>)
    requires pos <= |buf|
    ensures match ListsAt(buf, pos, taken)
            case Ok((lists, end)) => end <= |buf| && TakeLists(buf[pos..], taken) == Some((lists, buf[end..]))
            case _ => TakeLists(buf[pos..], taken) == None
    decreases LISTS - |taken|
  {
    if |taken| < LISTS {
      ListAgrees(buf, pos);
      match ListAt(buf, pos) {
        case Ok((names, next)) => ListsAgree(buf, next, taken + [names]);
        case _ =>
      }
    }
  }

  /**
   The strict parser accepts exactly what the lenient one accepts inside a packet whose lengths add
   up: the packet length fits the buffer, and padding, flag and reserved word are all that follows.
   Then both read the same key exchange names.
   */
  lemma StrictIsFramedLenient(buf: seq<u8>)
    ensures var bufLen := |buf| % 0x1_0000_0000;
            StrictKexInit(buf).Ok? <==>
            && LenientLists(buf).Some?
            && bufLen >= 4 && U32At(buf, 0) <= bufLen - 4
            && |buf| - |LenientLists(buf).value.1| + buf[4] + 5 == bufLen
    ensures StrictKexInit(buf).Ok? ==> LenientKex(buf) == Some(StrictKexInit(buf).value.kexAlgos)
    ensures StrictKexInit(buf).Ok? ==> StrictKexInit(buf).value.hostKeyAlgos == LenientLists(buf).value.0[1]
  {
    if 6 + COOKIE_LEN <= |buf| {
      ListsAgree(buf, 6 + COOKIE_LEN, []);
    }
  }

  /** What follows the first k lists, if they are whole and UTF-8. */
  function AfterLists(data: seq<u8>, k: nat): Option<seq<u8>> {
    if k == 0 then Some(data)
    else
      match TakeList(data)
      case Some((_, rest)) => AfterLists(rest, k - 1)
      case None => None
  }

  /** The data ends inside the length word of the list behind the first k. */
  predicate StopsAfter(data: seq<u8>, k: nat) {
    AfterLists(data, k).Some? && |AfterLists(data, k).value| < 4
  }

  lemma StopsFirst(data: seq<u8>, k: nat)
    ensures StopsAfter(data, 0) <==> |data| < 4
    ensures k > 0 ==> (StopsAfter(data, k) <==> TakeList(data).Some? && StopsAfter(TakeList(data).value.1, k - 1))
  {
  }

  /** The data ends inside the length word of one of its first n lists. */
  predicate StopsWithin(data: seq<u8>, n: nat) {
    exists k | 0 <= k < n :: StopsAfter(data, k)
  }

  lemma StopsWithinStep(data: seq<u8>, n: nat)
    requires n > 0
    ensures StopsWithin(data, n) <==> |data| < 4 || (TakeList(data).Some? && StopsWithin(TakeList(data).value.1, n - 1))
  {
    StopsFirst(data, 0);
    if k :| 0 <= k < n && StopsAfter(data, k) {
      StopsFirst(data, k);
    }
    if |data| >= 4 && TakeList(data).Some? {
      var rest := TakeList(data).value.1;
      if k :| 0 <= k < n - 1 && StopsAfter(rest, k) {
        StopsFirst(data, k + 1);
        assert StopsAfter(data, k + 1);
      }
    }
  }

  lemma {:induction false} ListsPanic(buf: seq<u8>, pos: nat, taken: seq<seq<Name>>)
    requires pos <= |buf| && |taken| <= LISTS
    ensures ListsAt(buf, pos, taken) == Panic <==> StopsWithin(buf[pos..], LISTS - |taken|)
    decreases LISTS - |taken|
  {
    if |taken| < LISTS {
      StopsWithinStep(buf[pos..], LISTS - |taken|);
      ListAgrees(buf, pos);
      ListsStep(buf, pos, taken);
      if ListAt(buf, pos).Ok? {
        var (names, next) := ListAt(buf, pos).value;
        ListsPanic(buf, next, taken + [names]);
      }
    }
  }

  predicate HeaderPasses(buf: seq<u8>) {
    var bufLen := |buf| % 0x1_0000_0000;
    bufLen >= 4 && U32At(buf, 0) <= bufLen - 4 && |buf| >= 6 && buf[5] == 20
  }

  /**
   When the strict parser panics: the header is accepted, and the data ends before the lists or inside
   the length word of one of the ten. The lenient parser returns nothing then.
   */
  lemma StrictPanicsExactly(buf: seq<u8>)
    ensures StrictKexInit(buf) == Panic <==>
            && HeaderPasses(buf)
            && (|buf| < 22 || StopsWithin(buf[22..], 10))
    ensures StrictKexInit(buf) == Panic ==> LenientKex(buf) == None
  {
    hide StopsWithin;
    if 6 + COOKIE_LEN <= |buf| {
      ListsPanic(buf, 6 + COOKIE_LEN, []);
      ListsAgree(buf, 6 + COOKIE_LEN, []);
    } else {
      ListsStep(buf, 6 + COOKIE_LEN, []);
    }
  }

  /** Six bytes are enough: a packet of length 2 with type 20 and nothing else. */
  lemma SixBytesPanic()
    ensures StrictKexInit([0, 0, 0, 2, 0, 20]) == Panic
  {
    StrictPanicsExactly([0, 0, 0, 2, 0, 20]);
  }

  // ----- the encoder -----

  predicate Fits(list: seq<Name>) {
    |Join(list)| < 0x1_0000_0000 && forall name | name in list :: IsUtf8(name)
  }

  function EncodeList(list: seq<Name>): seq<u8>
    requires Fits(list)
  {
    Be32(|Join(list)|) + Join(list)
  }

  predicate AllFit(lists: seq<seq<Name>>) {
    lists == [] || (Fits(lists[0]) && AllFit(lists[1..]))
  }

  function EncodeLists(lists: seq<seq<Name>>): seq<u8>
    requires AllFit(lists)
  {
    if lists == [] then [] else EncodeList(lists[0]) + EncodeLists(lists[1..])
  }

  function Reread(lists: seq<seq<Name>>): (r: seq<seq<Name>>)
    ensures |r| == |lists|
    ensures forall i | 0 <= i < |lists| :: r[i] == Split(Join(lists[i]))
  {
    if lists == [] then [] else [Split(Join(lists[0]))] + Reread(lists[1..])
  }

  lemma TakeListsStep(data: seq<u8>, taken: seq<seq<Name>>)
    requires |taken| < LISTS
    ensures TakeList(data) == None ==> TakeLists(data, taken) == None
    ensures TakeList(data).Some? ==>
              var (names, rest) := TakeList(data).value;
              TakeLists(data, taken) == TakeLists(rest, taken + [names])
  {
    hide TakeList;
  }

  lemma TakeListsEnd(data: seq<u8>, taken: seq<seq<Name>>)
    requires |taken| >= LISTS
    ensures TakeLists(data, taken) == Some((taken, data))
  {
  }

  lemma TakeEncodedList(list: seq<Name>, tail: seq<u8>)
    requires Fits(list)
    ensures TakeList(EncodeList(list) + tail) == Some((Split(Join(list)), tail))
  {
    var text := Join(list);
    var data := EncodeList(list) + tail;
    Utf8Join(list);
    assert U32At(data, 0) == U32At(Be32(|text|), 0);
    assert data[4..4 + |text|] == text && data[4 + |text|..] == tail;
  }

  lemma {:induction false} TakeEncodedLists(lists: seq<seq<Name>>, taken: seq<seq<Name>>, rest: seq<u8>)
    requires AllFit(lists) && |taken| + |lists| == LISTS
    ensures TakeLists(EncodeLists(lists) + rest, taken) == Some((taken + Reread(lists), rest))
    decreases |lists|
  {
    hide Split, Join, Fits, TakeList, TakeLists, EncodeList, EncodeLists;
    if lists == [] {
      assert EncodeLists(lists) == [] by { NoLists(); }
      assert [] + rest == rest && taken + Reread(lists) == taken;
      TakeListsEnd(rest, taken);
    } else {
      var names, tail := Split(Join(lists[0])), EncodeLists(lists[1..]) + rest;
      ListsCons(lists, rest);
      TakeEncodedList(lists[0], tail);
      TakeListsStep(EncodeList(lists[0]) + tail, taken);
      TakeEncodedLists(lists[1..], taken + [names], rest);
      assert (taken + [names]) + Reread(lists[1..]) == taken + ([names] + Reread(lists[1..]));
    }
  }

  lemma NoLists()
    ensures EncodeLists([]) == []
  {
  }

  lemma ListsCons(lists: seq<seq<Name>>, rest: seq<u8>)
    requires AllFit(lists) && lists != []
    ensures EncodeLists(lists) + rest == EncodeList(lists[0]) + (EncodeLists(lists[1..]) + rest)
  {
    hide EncodeList, Fits;
    var first, later := EncodeList(lists[0]), EncodeLists(lists[1..]);
    assert EncodeLists(lists) == first + later;
    hide EncodeLists;
    assert (first + later) + rest == first + (later + rest);
  }

  /** What a KEXINIT carries besides its ten lists. */
  datatype Frame = Frame(cookie: seq<u8>, follows: u8, reserved: u32, padding: seq<u8>)

  predicate CanEncode(f: Frame, lists: seq<seq<Name>>) {
    && |f.cookie| == 16 && |f.padding| < 0x100
    && |lists| == 10 && AllFit(lists)
    && |EncodeLists(lists)| + |f.padding| + 27 < 0x1_0000_0000
  }

  function EncodeTail(f: Frame): seq<u8> {
    [f.follows] + Be32(f.reserved) + f.padding
  }

  /** A packet: its length, the padding length, the message (type, cookie, lists, flag, reserved word), the padding. */
  function EncodeKexInit(f: Frame, lists: seq<seq<Name>>): seq<u8>
    requires CanEncode(f, lists)
  {
    var length := 2 + 16 + |EncodeLists(lists)| + 5 + |f.padding|;
    (Be32(length) + [|f.padding|, 20] + f.cookie) + (EncodeLists(lists) + EncodeTail(f))
  }

  lemma EncodedShape(f: Frame, lists: seq<seq<Name>>, rest: seq<u8>)
    requires CanEncode(f, lists)
    ensures var p := EncodeKexInit(f, lists);
            && |p| == 22 + |EncodeLists(lists)| + 5 + |f.padding|
            && U32At(p, 0) == |p| - 4 && p[4] == |f.padding| && p[5] == 20
            && (p + rest)[22..] == EncodeLists(lists) + (EncodeTail(f) + rest)
  {
    var p := EncodeKexInit(f, lists);
    var head := Be32(|p| - 4) + [|f.padding|, 20] + f.cookie;
    assert p == head + (EncodeLists(lists) + EncodeTail(f));
    assert p[..4] == Be32(|p| - 4);
    assert U32At(p, 0) == U32At(p[..4], 0);
    assert p[4] == head[4] && p[5] == head[5];
    assert p + rest == head + (EncodeLists(lists) + (EncodeTail(f) + rest));
  }

  lemma LenientDecodes(f: Frame, lists: seq<seq<Name>>, rest: seq<u8>)
    requires CanEncode(f, lists)
    ensures LenientLists(EncodeKexInit(f, lists) + rest) == Some((Reread(lists), EncodeTail(f) + rest))
  {
    EncodedShape(f, lists, rest);
    TakeEncodedLists(lists, [], EncodeTail(f) + rest);
    assert [] + Reread(lists) == Reread(lists);
  }

  /** Both parsers read back what an RFC 4253 packet carries, whatever follows it for the lenient one. */
  lemma DecodesEncoded(f: Frame, lists: seq<seq<Name>>, rest: seq<u8>)
    requires CanEncode(f, lists)
    ensures LenientKex(EncodeKexInit(f, lists) + rest) == Some(Split(Join(lists[0])))
    ensures StrictKexInit(EncodeKexInit(f, lists)).Ok?
    ensures StrictKexInit(EncodeKexInit(f, lists)).value == KexInitMsg(Split(Join(lists[0])), Split(Join(lists[1])))
  {
    hide Split, Join, TakeLists, EncodeLists, EncodeKexInit, EncodeTail;
    var p := EncodeKexInit(f, lists);
    LenientDecodes(f, lists, rest);
    LenientDecodes(f, lists, []);
    EncodedShape(f, lists, []);
    assert p + [] == p && EncodeTail(f) + [] == EncodeTail(f);
    StrictIsFramedLenient(p);
  }

  /** The key exchange names come back unchanged exactly when there is one and none holds a comma. */
  lemma KexInitRoundTrip(f: Frame, lists: seq<seq<Name>>, rest: seq<u8>)
    requires CanEncode(f, lists)
    ensures var plain := lists[0] != [] && forall name | name in lists[0] :: CommaFree(name);
            && (LenientKex(EncodeKexInit(f, lists) + rest) == Some(lists[0]) <==> plain)
            && StrictKexInit(EncodeKexInit(f, lists)).Ok?
            && (StrictKexInit(EncodeKexInit(f, lists)).value.kexAlgos == lists[0] <==> plain)
  {
    DecodesEncoded(f, lists, rest);
    SurvivesJoin(lists[0]);
  }
}
