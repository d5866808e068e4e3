/** Fixed-width integers, big-endian words and the result types every module shares. */
module Common {

  type u8 = x: int | 0 <= x < 0x100
  type u16 = x: int | 0 <= x < 0x1_0000
  type u32 = x: int | 0 <= x < 0x1_0000_0000
  type i64 = x: int | -0x8000_0000_0000_0000 <= x < 0x8000_0000_0000_0000

  datatype Option<+T> = None | Some(value: T)

  /** How a call ends: a value, a reported error, or a panic, which ends the thread or task it happens in. */
  datatype Outcome<+T, +E> = Ok(value: T) | Err(error: E) | Panic {

    predicate IsFailure() {
      !Ok?
    }

    function PropagateFailure<U>(): Outcome<U, E>
      requires IsFailure()
    {
      match this
      case Err(e) => Err(e)
      case Panic => Panic
    }

    function Extract(): T
      requires Ok?
    {
      value
    }
  }

  /** A slice of a slice is a slice. */
  lemma SliceOfSlice<T>(s: seq<T>, a: nat, b: nat, i: nat, j: nat)
    requires i <= j && a + j <= b <= |s|
    ensures s[a..b][i..j] == s[a + i..a + j]
  {
    var part := s[a..b];
    assert forall k | i <= k < j :: part[k] == s[a + k];
    assert forall k | 0 <= k < j - i :: part[i..j][k] == part[i + k];
  }

  /** The big-endian word at an offset. */
  function U16At(data: seq<u8>, offset: nat): u16
    requires offset + 2 <= |data|
  {
    var high: int, low: int := data[offset], data[offset + 1];
    high * 0x100 + low
  }

  lemma WordOfSlice(data: seq<u8>, a: nat, b: nat, i: nat)
    requires a + i + 2 <= b <= |data|
    ensures U16At(data[a..b], i) == U16At(data, a + i)
  {
  }

  function U32At(data: seq<u8>, offset: nat): u32
    requires offset + 4 <= |data|
  {
    var high: int, low: int := U16At(data, offset), U16At(data, offset + 2);
    high * 0x1_0000 + low
  }

  /** The two bytes `write_u16::<NetworkEndian>` appends. */
  function Be16(x: u16): (bytes: seq<u8>)
    ensures |bytes| == 2 && U16At(bytes, 0) == x
  {
    [x / 0x100, x % 0x100]
  }

  function Be32(x: u32): (bytes: seq<u8>)
    ensures |bytes| == 4 && U32At(bytes, 0) == x
  {
    Be16(x / 0x1_0000) + Be16(x % 0x1_0000)
  }

  lemma Be16OfWord(data: seq<u8>, at: nat)
    requires at + 2 <= |data|
    ensures Be16(U16At(data, at)) == data[at..at + 2]
  {
  }

  lemma WordInside(data: seq<u8>, at: nat, x: u16)
    requires at + 2 <= |data| && data[at..at + 2] == Be16(x)
    ensures U16At(data, at) == x
  {
    WordOfSlice(data, at, at + 2, 0);
  }

  /** A run of big-endian words, and its reader (a trailing odd byte is not a word). */
  function Be16s(xs: seq<u16>): (bytes: seq<u8>)
    ensures |bytes| == 2 * |xs|
  {
    if xs == [] then [] else Be16(xs[0]) + Be16s(xs[1..])
  }

  function U16s(bytes: seq<u8>): (xs: seq<u16>)
    ensures |xs| == |bytes| / 2
  {
    if |bytes| < 2 then [] else [U16At(bytes, 0)] + U16s(bytes[2..])
  }

  lemma {:induction false} U16sOfBe16s(xs: seq<u16>)
    ensures U16s(Be16s(xs)) == xs
  {
    if xs == [] {
    } else {
      U16sOfBe16s(xs[1..]);
      assert Be16s(xs)[2..] == Be16s(xs[1..]);
    }
  }

  lemma {:induction false} Be16sAppend(xs: seq<u16>, x: u16)
    ensures Be16s(xs + [x]) == Be16s(xs) + Be16(x)
  {
    if xs == [] {
      assert [x][1..] == [];
    } else {
      Be16sAppend(xs[1..], x);
      assert (xs + [x])[1..] == xs[1..] + [x];
    }
  }

  lemma {:induction false} U16sAppend(bytes: seq<u8>, more: seq<u8>)
    requires |bytes| % 2 == 0
    ensures U16s(bytes + more) == U16s(bytes) + U16s(more)
  {
    if bytes == [] {
      assert bytes + more == more;
    } else {
      U16sAppend(bytes[2..], more);
      var all, first := bytes + more, U16At(bytes, 0);
      assert all[2..] == bytes[2..] + more && U16At(all, 0) == first;
      hide U16At;
      assert U16s(all) == [first] + (U16s(bytes[2..]) + U16s(more));
    }
  }
}
