/** Name-lists (section 5 of RFC 4251): comma-separated names, as `str::split(',')` and UTF-8 validation see them. */
module NameLists {
  import opened Common

  /** A name, as the bytes of its UTF-8 text. */
  type Name = seq<u8>

  const COMMA: u8 := 44

  /** `split(',')`: one more piece than there are commas, so the empty text has one empty piece. */
  function Split(text: seq<u8>): (names: seq<Name>)
    ensures names != []
  {
    if text == [] then [[]]
    else
      var rest := Split(text[1..]);
      if text[0] == COMMA then [[]] + rest else [[text[0]] + rest[0]] + rest[1..]
  }

  function Join(names: seq<Name>): seq<u8> {
    if names == [] then []
    else if |names| == 1 then names[0]
    else names[0] + [44] + Join(names[1..])
  }

  predicate CommaFree(name: Name) {
    44 !in name
  }

  lemma {:induction false} JoinOfSplit(text: seq<u8>)
    ensures Join(Split(text)) == text
  {
    if text == [] {
    } else {
      var rest := Split(text[1..]);
      JoinOfSplit(text[1..]);
      if text[0] == COMMA {
        assert ([[]] + rest)[1..] == rest;
        assert [] + [COMMA] + Join(rest) == text;
      } else {
        var names := Split(text);
        assert names[1..] == rest[1..];
        if |rest| > 1 {
          assert [text[0]] + rest[0] + [COMMA] + Join(rest[1..]) == [text[0]] + (rest[0] + [COMMA] + Join(rest[1..]));
        }
      }
    }
  }

  lemma {:induction false} SplitIsCommaFree(text: seq<u8>)
    ensures forall name | name in Split(text) :: CommaFree(name)
  {
    if text == [] {
    } else {
      SplitIsCommaFree(text[1..]);
      var rest := Split(text[1..]);
      assert rest[0] in rest;
      assert forall name | name in rest[1..] :: name in rest;
    }
  }

  lemma {:induction false} SplitAfterName(name: Name, tail: seq<u8>)
    requires CommaFree(name)
    ensures Split(name + [COMMA] + tail) == [name] + Split(tail)
    ensures Split(name) == [name]
  {
    if name == [] {
      assert ([] + [COMMA] + tail)[1..] == tail;
    } else {
      SplitAfterName(name[1..], tail);
      assert (name + [COMMA] + tail)[1..] == name[1..] + [COMMA] + tail;
      assert ([name[1..]] + Split(tail))[1..] == Split(tail);
      assert [name[0]] + name[1..] == name;
    }
  }

  lemma {:induction false} SplitOfJoin(names: seq<Name>)
    requires names != [] && forall name | name in names :: CommaFree(name)
    ensures Split(Join(names)) == names
  {
    assert names[0] in names;
    if |names| == 1 {
      SplitAfterName(names[0], []);
      assert names == [names[0]];
    } else {
      assert forall name | name in names[1..] :: name in names;
      SplitOfJoin(names[1..]);
      SplitAfterName(names[0], Join(names[1..]));
      assert names == [names[0]] + names[1..];
    }
  }

  /** A list survives encoding exactly when it is not empty and no name holds a comma. */
  lemma SurvivesJoin(names: seq<Name>)
    ensures Split(Join(names)) == names <==> names != [] && forall name | name in names :: CommaFree(name)
  {
    if names != [] && forall name | name in names :: CommaFree(name) {
      SplitOfJoin(names);
    }
    SplitIsCommaFree(Join(names));
  }

  // ----- UTF-8 (section 4 of RFC 3629) -----

  predicate Tail(b: u8) {
    0x80 <= b <= 0xBF
  }

  /** The length of the well-formed character the bytes start with, or 0. */
  function CharLength(b: seq<u8>): (n: nat)
    ensures n <= |b|
  {
    if b == [] then 0
    else if b[0] <= 0x7F then 1
    else if |b| >= 2 && 0xC2 <= b[0] <= 0xDF && Tail(b[1]) then 2
    else if |b| >= 3 && 0xE0 <= b[0] <= 0xEF && Tail(b[1]) && Tail(b[2])
            && (b[0] == 0xE0 ==> 0xA0 <= b[1]) && (b[0] == 0xED ==> b[1] <= 0x9F) then 3
    else if |b| >= 4 && 0xF0 <= b[0] <= 0xF4 && Tail(b[1]) && Tail(b[2]) && Tail(b[3])
            && (b[0] == 0xF0 ==> 0x90 <= b[1]) && (b[0] == 0xF4 ==> b[1] <= 0x8F) then 4
    else 0
  }

  predicate IsUtf8(b: seq<u8>) {
    b == [] || (CharLength(b) > 0 && IsUtf8(b[CharLength(b)..]))
  }

  /** Only the bytes of the character itself decide its length. */
  lemma CharLengthIsLocal(a: seq<u8>, b: seq<u8>)
    requires CharLength(a) > 0 && |a| <= |b| && forall i | 0 <= i < |a| :: b[i] == a[i]
    ensures CharLength(b) == CharLength(a)
  {
  }

  lemma {:induction false} Utf8Append(a: seq<u8>, b: seq<u8>)
    requires IsUtf8(a) && IsUtf8(b)
    ensures IsUtf8(a + b)
  {
    if a == [] {
      assert a + b == b;
    } else {
      var n := CharLength(a);
      Utf8Append(a[n..], b);
      CharLengthIsLocal(a, a + b);
      assert (a + b)[n..] == a[n..] + b;
    }
  }

  lemma {:induction false} Utf8Join(names: seq<Name>)
    requires forall name | name in names :: IsUtf8(name)
    ensures IsUtf8(Join(names))
  {
    if names == [] {
    } else {
      assert names[0] in names;
      if |names| > 1 {
        assert forall name | name in names[1..] :: name in names;
        Utf8Join(names[1..]);
        assert IsUtf8([COMMA]) by { assert [COMMA][1..] == []; }
        Utf8Append(names[0], [COMMA]);
        Utf8Append(names[0] + [COMMA], Join(names[1..]));
      }
    }
  }
}
