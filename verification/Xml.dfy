/** `xml_escape` (pqcscan/src/main.rs): five replacements one after the other. */
module Xml {
  import opened Common

  /** `replace` with a character pattern. */
  function Replace(s: string, c: char, to: string): string {
    if s == "" then "" else Swapped(s[0], c, to) + Replace(s[1..], c, to)
  }

  function Swapped(x: char, c: char, to: string): string {
    if x == c then to else [x]
  }

  function XmlEscape(value: string): string {
    var noAmp := Replace(value, '&', "&amp;");
    var noLt := Replace(noAmp, '<', "&lt;");
    var noGt := Replace(noLt, '>', "&gt;");
    var noQuot := Replace(noGt, '"', "&quot;");
    Replace(noQuot, '\'', "&apos;")
  }

  // ----- one pass, one character at a time -----

  function Escaped(c: char): string {
    if c == '&' then "&amp;"
    else if c == '<' then "&lt;"
    else if c == '>' then "&gt;"
    else if c == '"' then "&quot;"
    else if c == '\'' then "&apos;"
    else [c]
  }

  function EscapeEach(value: string): string {
    if value == "" then "" else Escaped(value[0]) + EscapeEach(value[1..])
  }

  lemma ReplaceCons(s: string, c: char, to: string)
    requires s != ""
    ensures Replace(s, c, to) == Swapped(s[0], c, to) + Replace(s[1..], c, to)
  {
  }

  lemma {:induction false} ReplaceAppend(a: string, b: string, c: char, to: string)
    ensures Replace(a + b, c, to) == Replace(a, c, to) + Replace(b, c, to)
  {
    if a == "" {
      assert a + b == b;
    } else {
      hide Replace, Swapped;
      var all := a + b;
      assert all[0] == a[0] && all[1..] == a[1..] + b;
      ReplaceCons(all, c, to);
      ReplaceCons(a, c, to);
      ReplaceAppend(a[1..], b, c, to);
      var first, middle, last := Swapped(a[0], c, to), Replace(a[1..], c, to), Replace(b, c, to);
      assert Replace(all, c, to) == first + (middle + last);
    }
  }

  /** A pattern that does not occur is replaced nowhere. */
  lemma {:induction false} ReplaceNothing(s: string, c: char, to: string)
    requires c !in s
    ensures Replace(s, c, to) == s
  {
    if s != "" {
      ReplaceNothing(s[1..], c, to);
    }
  }

  lemma ReplaceOne(x: char, c: char, to: string)
    ensures Replace([x], c, to) == if x == c then to else [x]
  {
    assert [x][1..] == "";
  }

  /** No entity holds a character that a later pass replaces. */
  lemma EscapedIsFinal(c: char, q: char, to: string)
    requires q in "<>\"'"
    ensures Replace(Escaped(c), q, to) == Escaped(c)
  {
    hide Replace;
    var e := Escaped(c);
    assert q !in e;
    ReplaceNothing(e, q, to);
  }

  /** What the five replacements make of one character: the later ones leave the earlier entities alone. */
  lemma EscapeOne(c: char)
    ensures XmlEscape([c]) == Escaped(c)
  {
    hide Replace;
    ReplaceOne(c, '&', "&amp;");
    ReplaceOne(c, '<', "&lt;");
    ReplaceOne(c, '>', "&gt;");
    ReplaceOne(c, '"', "&quot;");
    ReplaceOne(c, '\'', "&apos;");
    EscapedIsFinal(c, '<', "&lt;");
    EscapedIsFinal(c, '>', "&gt;");
    EscapedIsFinal(c, '"', "&quot;");
    EscapedIsFinal(c, '\'', "&apos;");
  }

  lemma EscapeAppend(a: string, b: string)
    ensures XmlEscape(a + b) == XmlEscape(a) + XmlEscape(b)
  {
    hide Replace;
    ReplaceAppend(a, b, '&', "&amp;");
    var a1, b1 := Replace(a, '&', "&amp;"), Replace(b, '&', "&amp;");
    ReplaceAppend(a1, b1, '<', "&lt;");
    var a2, b2 := Replace(a1, '<', "&lt;"), Replace(b1, '<', "&lt;");
    ReplaceAppend(a2, b2, '>', "&gt;");
    var a3, b3 := Replace(a2, '>', "&gt;"), Replace(b2, '>', "&gt;");
    ReplaceAppend(a3, b3, '"', "&quot;");
    ReplaceAppend(Replace(a3, '"', "&quot;"), Replace(b3, '"', "&quot;"), '\'', "&apos;");
  }

  /** The five passes are one substitution. */
  lemma {:induction false} EscapeIsOnePass(value: string)
    ensures XmlEscape(value) == EscapeEach(value)
  {
    if value == "" {
    } else {
      EscapeIsOnePass(value[1..]);
      assert value == [value[0]] + value[1..];
      EscapeAppend([value[0]], value[1..]);
      EscapeOne(value[0]);
    }
  }

  // ----- what an XML reader sees -----

  predicate IsPrefix(p: string, s: string) {
    |p| <= |s| && s[..|p|] == p
  }

  /** The entity a text starts with: its character and its length. */
  function EntityAt(s: string): Option<(char, nat)> {
    if IsPrefix("&amp;", s) then Some(('&', 5))
    else if IsPrefix("&lt;", s) then Some(('<', 4))
    else if IsPrefix("&gt;", s) then Some(('>', 4))
    else if IsPrefix("&quot;", s) then Some(('"', 6))
    else if IsPrefix("&apos;", s) then Some(('\'', 6))
    else None
  }

  /** One pass from the left; a character that may not stand by itself makes the text unreadable. */
  function Unescape(s: string): Option<string> {
    if s == "" then Some("")
    else if s[0] in "<>\"'" then None
    else if s[0] != '&' then
      match Unescape(s[1..]) case Some(t) => Some([s[0]] + t) case None => None
    else
      match EntityAt(s)
      case None => None
      case Some((c, n)) =>
        if n <= |s| then match Unescape(s[n..]) case Some(t) => Some([c] + t) case None => None
        else None
  }

  lemma UnescapeOne(c: char, rest: string)
    requires Unescape(rest).Some?
    ensures Unescape(Escaped(c) + rest) == Some([c] + Unescape(rest).value)
  {
    var s := Escaped(c) + rest;
    var n := |Escaped(c)|;
    assert s[n..] == rest;
    if c in "&<>\"'" {
      assert s[..n] == Escaped(c);
      assert EntityAt(s) == Some((c, n)) by { EntityIsFound(c, s); }
    }
  }

  lemma EntityIsFound(c: char, s: string)
    requires c in "&<>\"'" && IsPrefix(Escaped(c), s)
    ensures EntityAt(s) == Some((c, |Escaped(c)|))
  {
    assert s[1] == Escaped(c)[1] && s[2] == Escaped(c)[2];
    assert IsPrefix("&amp;", s) ==> s[1] == 'a' && s[2] == 'm';
    assert IsPrefix("&lt;", s) ==> s[1] == 'l';
    assert IsPrefix("&gt;", s) ==> s[1] == 'g';
    assert IsPrefix("&quot;", s) ==> s[1] == 'q';
    assert IsPrefix("&apos;", s) ==> s[1] == 'a' && s[2] == 'p';
  }

  /** Escaping is undone by one reading, for every text. */
  lemma {:induction false} XmlRoundTrip(value: string)
    ensures Unescape(XmlEscape(value)) == Some(value)
  {
    EscapeIsOnePass(value);
    if value == "" {
    } else {
      EscapeIsOnePass(value[1..]);
      XmlRoundTrip(value[1..]);
      UnescapeOne(value[0], EscapeEach(value[1..]));
      assert [value[0]] + value[1..] == value;
    }
  }

  /** An entity starts with its only `&`. */
  lemma EntityChars(c: char)
    ensures forall i | 0 <= i < |Escaped(c)| ::
              Escaped(c)[i] !in "<>\"'" && (Escaped(c)[i] == '&' ==> i == 0 && c in "&<>\"'")
  {
  }

  /** The result holds none of the four characters that may not appear, and every `&` in it starts an entity. */
  lemma {:induction false} EscapedIsClean(value: string, i: nat)
    requires i < |XmlEscape(value)|
    ensures XmlEscape(value)[i] !in "<>\"'"
    ensures XmlEscape(value)[i] == '&' ==> EntityAt(XmlEscape(value)[i..]).Some?
  {
    EscapeIsOnePass(value);
    EscapeIsOnePass(value[1..]);
    var first, rest := Escaped(value[0]), EscapeEach(value[1..]);
    var s := XmlEscape(value);
    assert s == first + rest;
    EntityChars(value[0]);
    hide EscapeEach, XmlEscape, EntityAt;
    if i < |first| {
      assert s[i] == first[i];
      if s[i] == '&' {
        assert i == 0 && s[0..] == s;
        assert s[..|first|] == first;
        assert IsPrefix(first, s);
        EntityIsFound(value[0], s);
      }
    } else {
      EscapedIsClean(value[1..], i - |first|);
      assert s[i..] == rest[i - |first|..];
    }
  }
}
