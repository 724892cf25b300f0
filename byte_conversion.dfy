/**
 * `SerialSingleton.to_bytes`: the payload-to-bytes rule applied by `write`.
 * Python's runtime type dispatch becomes a closed tagged union.
 */
module ByteConversion {
  import opened Wrappers
  import opened Utf8

  /** The payload forms `to_bytes` handles without a foreign library. */
  datatype Payload =
    | Int(v: int)                 // a Python int
    | Text(s: string)             // a Python str
    | List(items: seq<Payload>)   // a Python list
    | Raw(data: seq<byte>)        // bytes, handed to pyserial's own conversion unchanged

  /** `int.to_bytes(1, 'little')` raises OverflowError outside 0..255. */
  datatype ConversionError = IntOutOfRange(v: int)

  /** Conversion of one payload; the first failing integer, in input order, is the error. */
  function ToBytes(p: Payload): Result<seq<byte>, ConversionError>
    decreases p, 1
  {
    match p
    case Int(v) => if 0 <= v < 0x100 then Success([v]) else Failure(IntOutOfRange(v))
    case Text(s) => Success(Encode(s))
    case List(items) => ListToBytes(items)
    case Raw(data) => Success(data)
  }

  /** `b''.join([to_bytes(item) for item in items])`: items are converted left to right. */
  function ListToBytes(items: seq<Payload>): Result<seq<byte>, ConversionError>
    decreases items, 0
  {
    if items == [] then Success([])
    else Then(ToBytes(items[0]), ListToBytes(items[1..]))
  }

  /** Sequencing of two conversions: the first failure wins, otherwise the outputs are joined. */
  function Then(a: Result<seq<byte>, ConversionError>, b: Result<seq<byte>, ConversionError>): Result<seq<byte>, ConversionError>
  {
    match a
    case Failure(e) => Failure(e)
    case Success(x) =>
      match b
      case Failure(e) => Failure(e)
      case Success(y) => Success(x + y)
  }

  /** Every integer in the payload fits in one byte. */
  predicate IntsFit(p: Payload)
    decreases p, 1
  {
    match p
    case Int(v) => 0 <= v < 0x100
    case Text(_) => true
    case List(items) => AllIntsFit(items)
    case Raw(_) => true
  }

  predicate AllIntsFit(items: seq<Payload>)
    decreases items, 0
  {
    forall i :: 0 <= i < |items| ==> IntsFit(items[i])
  }

  /** A small integer becomes exactly that one byte; any other integer is refused. */
  lemma IntToByte(v: int)
    ensures 0 <= v < 0x100 ==> ToBytes(Int(v)) == Success([v])
    ensures !(0 <= v < 0x100) ==> ToBytes(Int(v)) == Failure(IntOutOfRange(v))
  {
  }

  /** Text becomes its UTF-8 encoding, which decodes back to the text. */
  lemma TextToUtf8(s: string)
    ensures ToBytes(Text(s)).Success?
    ensures Decode(ToBytes(Text(s)).value) == Some(s)
    ensures (forall i :: 0 <= i < |s| ==> s[i] as int < 0x80) ==>
              |ToBytes(Text(s)).value| == |s| &&
              forall i :: 0 <= i < |s| ==> ToBytes(Text(s)).value[i] == s[i] as int
  {
    DecodeEncode(s);
    if forall i :: 0 <= i < |s| ==> s[i] as int < 0x80 {
      EncodeAscii(s);
    }
  }

  /** The empty list becomes the empty byte string. */
  lemma EmptyList()
    ensures ToBytes(List([])) == Success([])
  {
  }

  /** Conversion of a list is a homomorphism from list concatenation to byte concatenation. */
  lemma {:induction false} ListAppend(a: seq<Payload>, b: seq<Payload>)
    ensures ToBytes(List(a + b)) == Then(ToBytes(List(a)), ToBytes(List(b)))
  {
    if a == [] {
      assert a + b == b;
      match ToBytes(List(b))
      case Failure(_) =>
      case Success(y) => assert [] + y == y;
    } else {
      assert (a + b)[0] == a[0];
      assert (a + b)[1..] == a[1..] + b;
      ListAppend(a[1..], b);
      match ToBytes(a[0])
      case Failure(_) =>
      case Success(x) =>
        match ListToBytes(a[1..])
        case Failure(_) =>
        case Success(y) =>
          match ListToBytes(b)
          case Failure(_) =>
          case Success(z) => assert x + (y + z) == (x + y) + z;
    }
  }

  /** Wrapping a payload in a one-element list does not change its bytes. */
  lemma Singleton(p: Payload)
    ensures ToBytes(List([p])) == ToBytes(p)
  {
    assert [p][1..] == [];
    assert ListToBytes([p]) == Then(ToBytes(p), ListToBytes([]));
    match ToBytes(p)
    case Failure(_) =>
    case Success(x) => assert x + [] == x;
  }

  /** Conversion fails exactly when some integer in the payload does not fit in a byte (totality on supported payloads). */
  lemma {:induction false} SucceedsIffIntsFit(p: Payload)
    ensures ToBytes(p).Success? <==> IntsFit(p)
    decreases p, 1
  {
    match p
    case Int(_) =>
    case Text(_) =>
    case Raw(_) =>
    case List(items) => ListSucceedsIffIntsFit(items);
  }

  lemma {:induction false} ListSucceedsIffIntsFit(items: seq<Payload>)
    ensures ListToBytes(items).Success? <==> AllIntsFit(items)
    decreases items, 0
  {
    if items != [] {
      SucceedsIffIntsFit(items[0]);
      ListSucceedsIffIntsFit(items[1..]);
      assert AllIntsFit(items) <==> IntsFit(items[0]) && AllIntsFit(items[1..]) by {
        assert forall i :: 1 <= i < |items| ==> items[i] == items[1..][i - 1];
      }
    }
  }
}
