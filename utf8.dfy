/**
 * UTF-8 (RFC 3629) for Dafny characters, which are Unicode scalar values.
 * `Encode` is what `str.encode('utf-8')` produces; `Decode` is the strict
 * decoder that serves as its reference inverse.
 */
module Utf8 {
  import opened Wrappers

  type byte = b: int | 0 <= b < 0x100

  /** Encoding of one scalar value: 1 to 4 bytes, by the size of the code point. */
  function EncodeChar(c: char): (b: seq<byte>)
    ensures 1 <= |b| <= 4
    ensures |b| == 1 <==> c as int < 0x80
    ensures |b| == 1 ==> b[0] == c as int
  {
    var n := c as int;
    if n < 0x80 then [n]
    else if n < 0x800 then [0xC0 + n / 0x40, 0x80 + n % 0x40]
    else if n < 0x1_0000 then [0xE0 + n / 0x1000, 0x80 + (n / 0x40) % 0x40, 0x80 + n % 0x40]
    else [0xF0 + n / 0x4_0000, 0x80 + (n / 0x1000) % 0x40, 0x80 + (n / 0x40) % 0x40, 0x80 + n % 0x40]
  }

  /** Encoding of a string: the encodings of its characters, in order. */
  function Encode(s: string): seq<byte>
  {
    if s == [] then [] else EncodeChar(s[0]) + Encode(s[1..])
  }

  predicate IsContinuation(b: byte) { 0x80 <= b < 0xC0 }

  predicate IsScalar(n: int) { 0 <= n < 0xD800 || 0xE000 <= n < 0x11_0000 }

  /** The first character of `b` and the number of bytes it occupies, or None if `b` does not start with a well-formed encoding. */
  function DecodeFirst(b: seq<byte>): (r: Option<(char, nat)>)
    ensures r.Some? ==> 1 <= r.value.1 <= |b|
  {
    if |b| == 0 then None
    else if b[0] < 0x80 then Some((b[0] as char, 1))
    else if 0xC2 <= b[0] < 0xE0 then
      if |b| >= 2 && IsContinuation(b[1])
      then Some((((b[0] as int - 0xC0) * 0x40 + (b[1] as int - 0x80)) as char, 2))
      else None
    else if 0xE0 <= b[0] < 0xF0 then
      if |b| >= 3 && IsContinuation(b[1]) && IsContinuation(b[2]) then
        var n := (b[0] as int - 0xE0) * 0x1000 + (b[1] as int - 0x80) * 0x40 + (b[2] as int - 0x80);
        if 0x800 <= n && IsScalar(n) then Some((n as char, 3)) else None
      else None
    else if 0xF0 <= b[0] < 0xF5 then
      if |b| >= 4 && IsContinuation(b[1]) && IsContinuation(b[2]) && IsContinuation(b[3]) then
        var n := (b[0] as int - 0xF0) * 0x4_0000 + (b[1] as int - 0x80) * 0x1000 + (b[2] as int - 0x80) * 0x40 + (b[3] as int - 0x80);
        if 0x1_0000 <= n < 0x11_0000 then Some((n as char, 4)) else None
      else None
    else None
  }

  /** Strict decoding of a whole byte string. */
  function Decode(b: seq<byte>): Option<string>
    decreases |b|
  {
    if |b| == 0 then Some([])
    else match DecodeFirst(b)
      case None => None
      case Some((c, k)) =>
        match Decode(b[k..])
        case None => None
        case Some(s) => Some([c] + s)
  }

  /** Splitting a code point into 6-bit groups and joining them again gives it back. */
  lemma SplitJoin(n: int)
    requires 0 <= n
    ensures n == (n / 0x40) * 0x40 + n % 0x40
    ensures n / 0x40 == ((n / 0x40) / 0x40) * 0x40 + (n / 0x40) % 0x40
    ensures n / 0x1000 == (n / 0x40) / 0x40
    ensures n / 0x4_0000 == (n / 0x1000) / 0x40
  {
  }

  /** Joining 6-bit groups and splitting the result again gives back the groups. */
  lemma JoinSplit(hi: int, lo: int)
    requires 0 <= hi && 0 <= lo < 0x40
    ensures (hi * 0x40 + lo) / 0x40 == hi && (hi * 0x40 + lo) % 0x40 == lo
  {
  }

  /** Decoding the encoding of `c` recovers `c` and consumes exactly its bytes, whatever follows. */
  lemma DecodeFirstOfEncodeChar(c: char, rest: seq<byte>)
    ensures DecodeFirst(EncodeChar(c) + rest) == Some((c, |EncodeChar(c)|))
  {
    var n := c as int;
    var e := EncodeChar(c);
    var b := e + rest;
    assert b[..|e|] == e;
    SplitJoin(n);
    if n < 0x80 {
    } else if n < 0x800 {
      assert b[0] as int - 0xC0 == n / 0x40 && b[1] as int - 0x80 == n % 0x40;
    } else if n < 0x1_0000 {
      assert b[0] as int - 0xE0 == n / 0x1000;
      assert b[1] as int - 0x80 == (n / 0x40) % 0x40 && b[2] as int - 0x80 == n % 0x40;
    } else {
      assert b[0] as int - 0xF0 == n / 0x4_0000;
      assert b[1] as int - 0x80 == (n / 0x1000) % 0x40;
      SplitJoin(n / 0x40);
      assert b[2] as int - 0x80 == (n / 0x40) % 0x40 && b[3] as int - 0x80 == n % 0x40;
    }
  }

  /** A well-formed leading sequence is exactly the encoding of the character it decodes to. */
  lemma EncodeCharOfDecodeFirst(b: seq<byte>)
    requires DecodeFirst(b).Some?
    ensures EncodeChar(DecodeFirst(b).value.0) == b[..DecodeFirst(b).value.1]
  {
    var (c, k) := DecodeFirst(b).value;
    var n := c as int;
    if b[0] < 0x80 {
    } else if b[0] < 0xE0 {
      JoinSplit(b[0] as int - 0xC0, b[1] as int - 0x80);
    } else if b[0] < 0xF0 {
      var n1 := (b[0] as int - 0xE0) * 0x40 + (b[1] as int - 0x80);
      JoinSplit(n1, b[2] as int - 0x80);
      JoinSplit(b[0] as int - 0xE0, b[1] as int - 0x80);
      SplitJoin(n);
    } else {
      var n1 := (b[0] as int - 0xF0) * 0x40 + (b[1] as int - 0x80);
      var n2 := n1 * 0x40 + (b[2] as int - 0x80);
      JoinSplit(n2, b[3] as int - 0x80);
      JoinSplit(n1, b[2] as int - 0x80);
      JoinSplit(b[0] as int - 0xF0, b[1] as int - 0x80);
      SplitJoin(n);
      SplitJoin(n / 0x40);
    }
  }

  /** Encoding distributes over concatenation. */
  lemma {:induction false} EncodeAppend(s: string, t: string)
    ensures Encode(s + t) == Encode(s) + Encode(t)
  {
    if s == [] {
      assert s + t == t;
    } else {
      assert (s + t)[1..] == s[1..] + t;
      EncodeAppend(s[1..], t);
    }
  }

  /** Decoding inverts encoding. */
  lemma {:induction false} DecodeEncode(s: string)
    ensures Decode(Encode(s)) == Some(s)
  {
    if s != [] {
      var head := EncodeChar(s[0]);
      var b := Encode(s);
      assert b == head + Encode(s[1..]);
      DecodeFirstOfEncodeChar(s[0], Encode(s[1..]));
      assert b[|head|..] == Encode(s[1..]);
      DecodeEncode(s[1..]);
      assert [s[0]] + s[1..] == s;
    }
  }

  /** Encoding inverts decoding: a byte string that decodes is the encoding of its decoding. */
  lemma {:induction false} EncodeDecode(b: seq<byte>)
    requires Decode(b).Some?
    ensures Encode(Decode(b).value) == b
    decreases |b|
  {
    if |b| != 0 {
      var (c, k) := DecodeFirst(b).value;
      EncodeCharOfDecodeFirst(b);
      EncodeDecode(b[k..]);
      var s := Decode(b[k..]).value;
      assert Decode(b).value == [c] + s;
      assert ([c] + s)[1..] == s;
      assert b == b[..k] + b[k..];
    }
  }

  /** Text made of code points below 0x80 encodes to one byte per character, each the character's code point. */
  lemma {:induction false} EncodeAscii(s: string)
    requires forall i :: 0 <= i < |s| ==> s[i] as int < 0x80
    ensures |Encode(s)| == |s|
    ensures forall i :: 0 <= i < |s| ==> Encode(s)[i] == s[i] as int
  {
    if s != [] {
      EncodeAscii(s[1..]);
      assert Encode(s) == [s[0] as int] + Encode(s[1..]);
    }
  }
}
