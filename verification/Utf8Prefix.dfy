/**
  A byte-prefix cut of UTF-8 text can only split its final character.
  `CompleteUtf8Prefix` drops that fragment and nothing else.
  Well-formedness is section 4 of RFC 3629.
 */
module Utf8Prefix {
  newtype byte = x: int | 0 <= x < 256

  predicate Tail(b: byte) { 0x80 <= b <= 0xBF }

  /** `utf8.RuneStart`: anything but a continuation byte. */
  predicate RuneStart(b: byte) { !Tail(b) }

  /** Bytes a leading byte announces; 0 when no character starts with it. */
  function Announced(b: byte): nat {
    if b <= 0x7F then 1
    else if 0xC2 <= b <= 0xDF then 2
    else if 0xE0 <= b <= 0xEF then 3
    else if 0xF0 <= b <= 0xF4 then 4
    else 0
  }

  /** The second byte's range depends on the first one. */
  predicate Second(lead: byte, b: byte) {
    if lead == 0xE0 then 0xA0 <= b <= 0xBF
    else if lead == 0xED then 0x80 <= b <= 0x9F
    else if lead == 0xF0 then 0x90 <= b <= 0xBF
    else if lead == 0xF4 then 0x80 <= b <= 0x8F
    else Tail(b)
  }

  /** One encoded character. */
  predicate Character(s: seq<byte>) {
    && s != [] && |s| == Announced(s[0])
    && (1 < |s| ==> Second(s[0], s[1]))
    && forall i | 2 <= i < |s| :: Tail(s[i])
  }

  /** A concatenation of encoded characters. */
  ghost predicate WellFormed(s: seq<byte>)
    decreases |s|
  {
    s == [] || exists n :: 0 < n <= |s| && Character(s[..n]) && WellFormed(s[n..])
  }

  /** A Unicode scalar value. */
  predicate Scalar(v: int) { 0 <= v < 0xD800 || 0xE000 <= v < 0x110000 }

  /** The bytes of a character number, by the table of section 3 of RFC 3629. */
  function Encoded(v: int): seq<byte>
    requires Scalar(v)
  {
    if v < 0x80 then [v as byte]
    else if v < 0x800 then [(192 + v / 64) as byte, (128 + v % 64) as byte]
    else if v < 0x10000 then [(224 + v / 4096) as byte, (128 + v / 64 % 64) as byte, (128 + v % 64) as byte]
    else
      [(240 + v / 262144) as byte, (128 + v / 4096 % 64) as byte, (128 + v / 64 % 64) as byte, (128 + v % 64) as byte]
  }

  lemma EncodedIsCharacter(v: int)
    requires Scalar(v)
    ensures Character(Encoded(v))
  {}

  lemma Digit(a: int, b: int)
    requires 0 <= b < 64
    ensures (a * 64 + b) / 64 == a && (a * 64 + b) % 64 == b
  {}

  /** The number three bytes carry after the lead's own bits. */
  lemma Digits(a: int, b: int, c: int, d: int)
    requires 0 <= b < 64 && 0 <= c < 64 && 0 <= d < 64
    ensures var v := ((a * 64 + b) * 64 + c) * 64 + d;
            && v / 64 == (a * 64 + b) * 64 + c && v % 64 == d
            && v / 4096 == a * 64 + b && v / 64 % 64 == c
            && v / 262144 == a && v / 4096 % 64 == b
  {
    Digit(a, b);
    Digit(a * 64 + b, c);
    Digit((a * 64 + b) * 64 + c, d);
  }

  /** The number a character's bytes stand for. */
  function Decoded(s: seq<byte>): int
    requires Character(s)
  {
    if |s| == 1 then s[0] as int
    else if |s| == 2 then (s[0] as int - 192) * 64 + (s[1] as int - 128)
    else if |s| == 3 then ((s[0] as int - 224) * 64 + (s[1] as int - 128)) * 64 + (s[2] as int - 128)
    else (((s[0] as int - 240) * 64 + (s[1] as int - 128)) * 64 + (s[2] as int - 128)) * 64 + (s[3] as int - 128)
  }

  lemma DecodedIsEncoded(s: seq<byte>)
    requires Character(s)
    ensures Scalar(Decoded(s)) && Encoded(Decoded(s)) == s
  {
    if |s| == 2 {
      Digit(s[0] as int - 192, s[1] as int - 128);
    } else if |s| == 3 {
      Digits(0, s[0] as int - 224, s[1] as int - 128, s[2] as int - 128);
    } else if |s| == 4 {
      Digits(s[0] as int - 240, s[1] as int - 128, s[2] as int - 128, s[3] as int - 128);
    }
  }

  /** The byte sequences of one character are exactly the encodings of the scalar values. */
  lemma CharacterIsEncoded(s: seq<byte>)
    ensures Character(s) <==> exists v :: Scalar(v) && s == Encoded(v)
  {
    if Character(s) {
      DecodedIsEncoded(s);
    }
    hide Character, Encoded;
    forall v | Scalar(v) && s == Encoded(v) ensures Character(s) {
      EncodedIsCharacter(v);
    }
  }

  /** `utf8.FullRuneInString`: the bytes start with a whole character or can never become one. */
  predicate FullRune(s: seq<byte>) {
    if s == [] then false
    else
      var n := Announced(s[0]);
      || n == 0 || n <= |s|
      || (1 < |s| && !Second(s[0], s[1]))
      || (2 < |s| && !Tail(s[2]))
  }

  /** The least second byte a leading byte allows. */
  function LeastSecond(lead: byte): byte { if lead == 0xE0 then 0xA0 else if lead == 0xF0 then 0x90 else 0x80 }

  /** The bytes are not full exactly if they are the beginning of a longer character. */
  lemma NotFullExactly(s: seq<byte>)
    requires s != []
    ensures !FullRune(s) <==> exists c :: Character(c) && s < c
  {
    if !FullRune(s) {
      var n := Announced(s[0]);
      var second := if 1 < |s| then s[1] else LeastSecond(s[0]);
      var c := if n == 2 then [s[0], second]
               else if n == 3 then [s[0], second, 0x80]
               else [s[0], second, if 2 < |s| then s[2] else 0x80, 0x80];
      assert Character(c) && s < c;
    }
  }

  method CompleteUtf8Prefix(value: seq<byte>) returns (r: seq<byte>)
    ensures r <= value && r == Completed(value)
  {
    var start := |value| - 1;
    while 0 < start && !RuneStart(value[start])
      invariant -1 <= start < |value|
      invariant value != [] ==> 0 <= start
      invariant forall i | start < i < |value| :: !RuneStart(value[i])
      decreases start
    {
      start := start - 1;
    }
    if value != [] {
      LastStartIs(value, start);
    }
    if 0 <= start && !FullRune(value[start..]) {
      return value[..start];
    }
    return value;
  }

  /** Index of the last byte that can start a character, 0 if there is none. */
  function LastStart(s: seq<byte>): (r: nat)
    requires s != []
    ensures r < |s|
  {
    if |s| == 1 || RuneStart(s[|s| - 1]) then |s| - 1 else LastStart(s[..|s| - 1])
  }

  lemma {:induction false} LastStartIs(s: seq<byte>, start: int)
    requires s != [] && 0 <= start < |s|
    requires start == 0 || RuneStart(s[start])
    requires forall i | start < i < |s| :: !RuneStart(s[i])
    ensures LastStart(s) == start
    decreases |s|
  {
    if start < |s| - 1 {
      LastStartIs(s[..|s| - 1], start);
    }
  }

  function Completed(s: seq<byte>): seq<byte> {
    if s == [] then s
    else
      var start := LastStart(s);
      if FullRune(s[start..]) then s else s[..start]
  }

  // ----- Characters and boundaries -----

  lemma CharacterStarts(c: seq<byte>)
    requires Character(c)
    ensures RuneStart(c[0]) && forall i | 0 < i < |c| :: Tail(c[i])
    ensures 1 <= |c| <= 4
  {
  }

  lemma {:induction false} AppendCharacter(s: seq<byte>, c: seq<byte>)
    requires WellFormed(s) && Character(c)
    ensures WellFormed(s + c)
    decreases |s|
  {
    hide Character;
    if s == [] {
      assert s + c == c && c[..|c|] == c && c[|c|..] == [];
    } else {
      var n :| 0 < n <= |s| && Character(s[..n]) && WellFormed(s[n..]);
      AppendCharacter(s[n..], c);
      SplitConcat(s, c, n);
    }
  }

  /** Every cut of well-formed text lies inside (or at the end of) one character after a whole prefix. */
  lemma {:induction false} CutInsideCharacter(text: seq<byte>, cut: nat) returns (whole: nat, c: seq<byte>)
    requires WellFormed(text) && 0 < cut <= |text|
    ensures whole < cut <= whole + |c| <= |text|
    ensures Character(c) && text[whole..whole + |c|] == c
    ensures WellFormed(text[..whole])
    decreases |text|
  {
    hide Character;
    var n :| 0 < n <= |text| && Character(text[..n]) && WellFormed(text[n..]);
    if cut <= n {
      whole, c := 0, text[..n];
      assert text[..0] == [];
    } else {
      var w, d := CutInsideCharacter(text[n..], cut - n);
      whole, c := w + n, d;
      DropThenSlice(text, n, w, w + |d|);
      TakeThenTake(text, n, w);
      PrependCharacter(text[..n], text[n..][..w]);
    }
  }

  lemma DropThenSlice<T>(s: seq<T>, n: nat, from: nat, to: nat)
    requires n <= |s| && from <= to <= |s| - n
    ensures s[n..][from..to] == s[n + from..n + to]
  {
  }

  lemma TakeThenTake<T>(s: seq<T>, n: nat, m: nat)
    requires n + m <= |s|
    ensures s[..n + m] == s[..n] + s[n..][..m]
  {
  }

  lemma PrependCharacter(c: seq<byte>, s: seq<byte>)
    requires Character(c) && WellFormed(s)
    ensures WellFormed(c + s)
  {
    SplitConcat(c, s, |c|);
    assert c[..|c|] == c && c[|c|..] + s == s;
  }

  lemma SplitConcat<T>(a: seq<T>, b: seq<T>, n: nat)
    requires n <= |a|
    ensures (a + b)[..n] == a[..n] && (a + b)[n..] == a[n..] + b
  {
  }

  /** Well-formed text ends with a whole character. */
  lemma {:induction false} LastCharacter(s: seq<byte>) returns (init: nat)
    requires WellFormed(s) && s != []
    ensures init < |s| && Character(s[init..]) && WellFormed(s[..init])
  {
    var whole, c := CutInsideCharacter(s, |s|);
    init := whole;
    assert s[init..] == c;
  }

  lemma CutLastStart(value: seq<byte>, whole: nat, c: seq<byte>)
    requires Character(c) && whole < |value| <= whole + |c|
    requires value[whole..] == c[..|value| - whole]
    ensures LastStart(value) == whole
    ensures FullRune(value[whole..]) <==> |value| == whole + |c|
  {
    CharacterStarts(c);
    assert value[whole] == c[0];
    assert forall i | whole < i < |value| :: value[i] == c[i - whole];
    LastStartIs(value, whole);
  }

  /** The last character of well-formed text fills the space after its start. */
  lemma WellFormedEnds(s: seq<byte>)
    requires WellFormed(s) && s != []
    ensures Announced(s[LastStart(s)]) == |s| - LastStart(s)
  {
    var init := LastCharacter(s);
    CutLastStart(s, init, s[init..]);
    assert s[init] == s[init..][0];
  }

  /** Text that ends with a strict prefix of a character is ill-formed. */
  lemma FragmentIsIllFormed(s: seq<byte>, whole: nat, c: seq<byte>, n: nat)
    requires Character(c) && 0 < n < |c| && whole + n == |s|
    requires s[whole..] == c[..n]
    ensures !WellFormed(s)
  {
    CutLastStart(s, whole, c);
    assert s[whole] == s[whole..][0] == c[0];
    if WellFormed(s) {
      WellFormedEnds(s);
      assert false;
    }
  }

  /**
    For every well-formed text and every byte cut, the result is the longest
    well-formed prefix of the cut, and at most three bytes shorter than it.
   */
  lemma CompletedIsLongestPrefix(text: seq<byte>, cut: nat)
    requires WellFormed(text) && cut <= |text|
    ensures var r := Completed(text[..cut]);
      && r <= text[..cut] && WellFormed(r) && cut - 3 <= |r|
      && (forall n | |r| < n <= cut :: !WellFormed(text[..n]))
      && (r == text[..cut] <==> WellFormed(text[..cut]))
  {
    var value := text[..cut];
    if cut != 0 {
      var whole, c := CutInsideCharacter(text, cut);
      assert value[whole..] == c[..cut - whole];
      CharacterStarts(c);
      CutLastStart(value, whole, c);
      assert value[..whole] == text[..whole];
      if cut == whole + |c| {
        assert value == text[..whole] + c;
        AppendCharacter(text[..whole], c);
      } else {
        forall n | whole < n <= cut ensures !WellFormed(text[..n]) {
          assert text[..n][whole..] == c[..n - whole];
          FragmentIsIllFormed(text[..n], whole, c, n - whole);
        }
        assert value == text[..cut];
      }
    }
  }
}
