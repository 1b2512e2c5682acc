/**
 The OSC 1.0 wire codec as functions on byte strings: what an encoder writes and what a decoder reads back. The loops
 of the program are in `OscLoops`, where each is proved to compute the function of the same name here.
 */
module OscCodec {
  import opened Bytes

  /** An OSC string or address: its bytes. */
  type Text = seq<byte>

  /** An argument as a caller may pass it. float32 values are their bit patterns. */
  datatype Arg =
    | Int32(v: int32)
    | Int(n: int)                     // Go int and int64, the two wider integer kinds
    | Int64(n: int)
    | Float32(bits: uint32)
    | Float64(narrowed: uint32)       // the bits of the float32 nearest to it
    | Str(s: Text)
    | Blob(b: seq<byte>)
    | Bool(on: bool)
    | Nil
    | Unsupported                     // a value of any other type

  datatype Msg = Msg(addr: Text, args: seq<Arg>)

  datatype Error =
    | BadAddress
    | OutOfRange(index: nat)
    | UnsupportedArg(index: nat)
    | TruncatedAddress
    | MissingTags
    | TruncatedArg
    | BlobTooLong(size: nat)
    | BundleTooShort
    | ElementTooLong(size: nat, remaining: nat)

  datatype Result<+T> = Ok(value: T) | Err(error: Error)

  const SLASH: byte := '/' as int
  const COMMA: byte := ',' as int
  const TAG_I: byte := 'i' as int
  const TAG_F: byte := 'f' as int
  const TAG_S: byte := 's' as int
  const TAG_B: byte := 'b' as int
  const TAG_TRUE: byte := 'T' as int
  const TAG_FALSE: byte := 'F' as int
  const TAG_NIL: byte := 'N' as int
  const TAG_IMPULSE: byte := 'I' as int
  const INFINITY_BITS: uint32 := 0x7F80_0000

  /** "#bundle" and its terminator. */
  const BUNDLE: seq<byte> := ['#' as int, 'b' as int, 'u' as int, 'n' as int, 'd' as int, 'l' as int, 'e' as int, 0]

  // ---------------------------------------------------------------- atomic types

  function Pad4(n: nat): (m: nat)
    ensures n <= m < n + 4 && m % 4 == 0
  {
    (n + 3) / 4 * 4
  }

  function Zeros(n: nat): (z: seq<byte>)
    ensures |z| == n && forall k :: 0 <= k < n ==> z[k] == 0
  {
    seq(n, _ => 0)
  }

  /** Big-endian 32 bits; any integer is first cut to its low 32 bits, as the program's conversions do. */
  function EncodeU32(v: int): (b: seq<byte>)
    ensures |b| == 4
  {
    var u := v % 0x1_0000_0000;
    [u / 0x100_0000, u / 0x1_0000 % 0x100, u / 0x100 % 0x100, u % 0x100]
  }

  function DecodeU32(b: seq<byte>): uint32
    requires |b| >= 4
  {
    b[0] as int * 0x100_0000 + b[1] as int * 0x1_0000 + b[2] as int * 0x100 + b[3]
  }

  function ToInt32(u: uint32): int32 {
    if u < 0x8000_0000 then u else u - 0x1_0000_0000
  }

  function EncodeString(s: Text): (b: seq<byte>)
    ensures |b| == Pad4(|s| + 1)
  {
    s + Zeros(Pad4(|s| + 1) - |s|)
  }

  function EncodeBlob(blob: seq<byte>): seq<byte> {
    EncodeU32(|blob|) + (blob + Zeros(Pad4(|blob|) - |blob|))
  }

  function IndexOfNul(b: seq<byte>): (i: nat)
    ensures i <= |b| && (i < |b| ==> b[i] == 0) && forall k :: 0 <= k < i ==> b[k] != 0
  {
    if b == [] || b[0] == 0 then 0 else 1 + IndexOfNul(b[1..])
  }

  datatype StringRead = NoTerminator | Read(s: Text, rest: seq<byte>)

  /** The string up to the first NUL, and what follows its padding, of which there may be too little at the end. */
  function ReadString(b: seq<byte>): (r: StringRead)
    ensures r.Read? ==> |r.s| + |r.rest| < |b|
  {
    var i := IndexOfNul(b);
    if i == |b| then NoTerminator else Read(b[..i], b[Min(Pad4(i + 1), |b|)..])
  }

  // ---------------------------------------------------------------- encoding

  predicate InRange(n: int) {
    -0x8000_0000 <= n < 0x8000_0000
  }

  predicate Encodable(a: Arg) {
    match a
    case Int(n) => InRange(n)
    case Int64(n) => InRange(n)
    case Unsupported => false
    case _ => true
  }

  predicate AllEncodable(args: seq<Arg>) {
    forall k :: 0 <= k < |args| ==> Encodable(args[k])
  }

  function TagOf(a: Arg): byte
    requires Encodable(a)
  {
    match a
    case Int32(_) => TAG_I
    case Int(_) => TAG_I
    case Int64(_) => TAG_I
    case Float32(_) => TAG_F
    case Float64(_) => TAG_F
    case Str(_) => TAG_S
    case Blob(_) => TAG_B
    case Bool(on) => if on then TAG_TRUE else TAG_FALSE
    case Nil => TAG_NIL
  }

  function PayloadOf(a: Arg): seq<byte>
    requires Encodable(a)
  {
    match a
    case Int32(v) => EncodeU32(v)
    case Int(n) => EncodeU32(n)
    case Int64(n) => EncodeU32(n)
    case Float32(bits) => EncodeU32(bits)
    case Float64(narrowed) => EncodeU32(narrowed)
    case Str(s) => EncodeString(s)
    case Blob(b) => EncodeBlob(b)
    case Bool(_) => []
    case Nil => []
  }

  function Tags(args: seq<Arg>): (tags: seq<byte>)
    requires AllEncodable(args)
    ensures |tags| == |args|
  {
    if args == [] then [] else [TagOf(args[0])] + Tags(args[1..])
  }

  function Body(args: seq<Arg>): seq<byte>
    requires AllEncodable(args)
  {
    if args == [] then [] else PayloadOf(args[0]) + Body(args[1..])
  }

  predicate GoodAddress(addr: Text) {
    addr != [] && addr[0] == SLASH
  }

  /** The error for the first argument that cannot be encoded. */
  function EncodeError(args: seq<Arg>, index: nat): Error
    requires index <= |args| && !AllEncodable(args[index..])
    decreases |args| - index
  {
    if index == |args| then assert false; BadAddress
    else if Encodable(args[index]) then
      assert forall k :: 0 <= k < |args[index..]| && k > 0 ==> args[index..][k] == args[index + 1..][k - 1];
      EncodeError(args, index + 1)
    else if args[index].Unsupported? then UnsupportedArg(index)
    else OutOfRange(index)
  }

  /** The error names the first argument that cannot be encoded. */
  lemma {:induction false} FirstBad(args: seq<Arg>, from: nat) returns (k: nat)
    requires from <= |args| && AllEncodable(args[..from]) && !AllEncodable(args[from..])
    ensures k < |args| && !Encodable(args[k]) && AllEncodable(args[..k])
    ensures EncodeError(args, from) == if args[k].Unsupported? then UnsupportedArg(k) else OutOfRange(k)
    decreases |args| - from
  {
    k := from;
    assert args[from..] != [];
    if Encodable(args[from]) {
      assert args[..from + 1] == args[..from] + [args[from]];
      assert args[from..] == [args[from]] + args[from + 1..];
      k := FirstBad(args, from + 1);
    }
  }

  function EncodeMessage(addr: Text, args: seq<Arg>): Result<seq<byte>> {
    if !GoodAddress(addr) then Err(BadAddress)
    else if !AllEncodable(args) then Err(EncodeError(args, 0))
    else Ok(Encoding(addr, args))
  }

  function Encoding(addr: Text, args: seq<Arg>): seq<byte>
    requires AllEncodable(args)
  {
    EncodeString(addr) + (EncodeString([COMMA] + Tags(args)) + Body(args))
  }

  // ---------------------------------------------------------------- decoding

  /** What one type tag makes of the bytes at hand. */
  datatype ArgRead = Got(arg: Arg, rest: seq<byte>) | Stop | Fail(error: Error)

  function ReadArg(tag: byte, rest: seq<byte>): (r: ArgRead)
    ensures r.Got? ==> |r.rest| <= |rest|
  {
    if tag == TAG_I then
      if |rest| < 4 then Fail(TruncatedArg) else Got(Int32(ToInt32(DecodeU32(rest))), rest[4..])
    else if tag == TAG_F then
      if |rest| < 4 then Fail(TruncatedArg) else Got(Float32(DecodeU32(rest)), rest[4..])
    else if tag == TAG_S then
      match ReadString(rest)
      case NoTerminator => Fail(TruncatedArg)
      case Read(s, after) => Got(Str(s), after)
    else if tag == TAG_B then
      if |rest| < 4 then Fail(TruncatedArg)
      else
        var n := DecodeU32(rest);
        var data := rest[4..];
        if n > |data| then Fail(BlobTooLong(n))
        else Got(Blob(data[..n]), data[Min(Pad4(n), |data|)..])
    else if tag == TAG_TRUE then Got(Bool(true), rest)
    else if tag == TAG_FALSE then Got(Bool(false), rest)
    else if tag == TAG_NIL then Got(Nil, rest)
    else if tag == TAG_IMPULSE then Got(Float32(INFINITY_BITS), rest)
    else Stop
  }

  /** Arguments put in front of a result. */
  function Prepend(args: seq<Arg>, r: Result<seq<Arg>>): Result<seq<Arg>> {
    match r
    case Ok(more) => Ok(args + more)
    case Err(e) => Err(e)
  }

  function DecodeArgs(tags: seq<byte>, rest: seq<byte>): Result<seq<Arg>>
    decreases |tags|
  {
    if tags == [] then Ok([])
    else
      match ReadArg(tags[0], rest)
      case Got(arg, after) => Prepend([arg], DecodeArgs(tags[1..], after))
      case Stop => Ok([])
      case Fail(e) => Err(e)
  }

  function DecodeMessage(b: seq<byte>): Result<Msg> {
    match ReadString(b)
    case NoTerminator => Err(TruncatedAddress)
    case Read(addr, rest) =>
      if rest == [] then Ok(Msg(addr, []))
      else
        match ReadString(rest)
        case NoTerminator => Err(MissingTags)
        case Read(tags, body) =>
          if tags == [] || tags[0] != COMMA then Err(MissingTags)
          else
            match DecodeArgs(tags[1..], body)
            case Ok(args) => Ok(Msg(addr, args))
            case Err(e) => Err(e)
  }

  predicate IsBundle(b: seq<byte>) {
    |b| >= 8 && b[..8] == BUNDLE
  }

  function DecodePacket(b: seq<byte>): Result<seq<Msg>>
    decreases |b|, 1
  {
    if IsBundle(b) then
      if |b| < 16 then Err(BundleTooShort) else DecodeElements(b[16..])
    else
      match DecodeMessage(b)
      case Ok(m) => Ok([m])
      case Err(e) => Err(e)
  }

  /** Two results in sequence: all the messages, or the first error. */
  function Both(a: Result<seq<Msg>>, b: Result<seq<Msg>>): Result<seq<Msg>> {
    if a.Err? then a else if b.Err? then b else Ok(a.value + b.value)
  }

  /** Length-prefixed elements, each a packet; fewer than four bytes at the end are ignored. */
  function DecodeElements(rest: seq<byte>): Result<seq<Msg>>
    decreases |rest|, 0
  {
    if |rest| < 4 then Ok([])
    else
      var size := DecodeU32(rest);
      var data := rest[4..];
      if size > |data| then Err(ElementTooLong(size, |data|))
      else
        var first := DecodePacket(data[..size]);
        if first.Err? then first else Both(first, DecodeElements(data[size..]))
  }
}
