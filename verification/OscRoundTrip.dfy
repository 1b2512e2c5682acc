/** Decoding what was encoded, and encoding what was decoded. */
module OscRoundTrip {
  import opened Bytes
  import opened OscCodec

  predicate NulFree(s: Text) {
    forall k :: 0 <= k < |s| ==> s[k] != 0
  }

  // ---------------------------------------------------------------- atomic types

  lemma U32RoundTrip(v: int, rest: seq<byte>)
    ensures DecodeU32(EncodeU32(v) + rest) == v % 0x1_0000_0000
    ensures InRange(v) ==> ToInt32(v % 0x1_0000_0000) == v
    ensures (EncodeU32(v) + rest)[4..] == rest
  {
    var u := v % 0x1_0000_0000;
    U32Digits(u);
  }

  lemma U32Digits(u: uint32)
    ensures u / 0x100_0000 * 0x100_0000 + u / 0x1_0000 % 0x100 * 0x1_0000 + u / 0x100 % 0x100 * 0x100 + u % 0x100 == u
  {
    var high := u / 0x1_0000;
    assert high / 0x100 == u / 0x100_0000;
    assert u / 0x100 == high * 0x100 + u / 0x100 % 0x100;
  }

  lemma {:induction false} NulAt(b: seq<byte>, i: nat)
    requires i < |b| && b[i] == 0 && forall k :: 0 <= k < i ==> b[k] != 0
    ensures IndexOfNul(b) == i
  {
    if i > 0 {
      NulAt(b[1..], i - 1);
    }
  }

  lemma ReadEncodedString(s: Text, rest: seq<byte>)
    requires NulFree(s)
    ensures ReadString(EncodeString(s) + rest) == Read(s, rest)
  {
    var b := EncodeString(s) + rest;
    NulAt(b, |s|);
    assert b[..|s|] == s;
    assert b[Pad4(|s| + 1)..] == rest;
  }

  lemma ReadEncodedBlob(blob: seq<byte>, rest: seq<byte>)
    requires |blob| < 0x1_0000_0000
    ensures ReadArg(TAG_B, EncodeBlob(blob) + rest) == Got(Blob(blob), rest)
  {
    var padded := blob + Zeros(Pad4(|blob|) - |blob|);
    Assoc(EncodeU32(|blob|), padded, rest);
    U32RoundTrip(|blob|, padded + rest);
    assert (padded + rest)[..|blob|] == blob;
    assert (padded + rest)[Pad4(|blob|)..] == rest;
  }

  // ---------------------------------------------------------------- arguments

  /** The argument as it comes back: every kind of integer as an int32, every float as a float32. */
  function Normal(a: Arg): Arg
    requires Encodable(a)
  {
    match a
    case Int(n) => Int32(n)
    case Int64(n) => Int32(n)
    case Float64(narrowed) => Float32(narrowed)
    case _ => a
  }

  function Normals(args: seq<Arg>): (r: seq<Arg>)
    requires AllEncodable(args)
    ensures |r| == |args| && forall k :: 0 <= k < |args| ==> r[k] == Normal(args[k])
  {
    if args == [] then [] else [Normal(args[0])] + Normals(args[1..])
  }

  /** The wire format can represent the argument: no NUL in a string, a blob length that fits its 32-bit prefix. */
  predicate Representable(a: Arg) {
    match a
    case Str(s) => NulFree(s)
    case Blob(b) => |b| < 0x1_0000_0000
    case _ => true
  }

  predicate AllRepresentable(args: seq<Arg>) {
    forall k :: 0 <= k < |args| ==> Representable(args[k])
  }

  lemma ReadOne(a: Arg, rest: seq<byte>)
    requires Encodable(a) && Representable(a)
    ensures ReadArg(TagOf(a), PayloadOf(a) + rest) == Got(Normal(a), rest)
  {
    match a
    case Int32(v) => U32RoundTrip(v, rest);
    case Int(n) => U32RoundTrip(n, rest);
    case Int64(n) => U32RoundTrip(n, rest);
    case Float32(bits) => U32RoundTrip(bits, rest);
    case Float64(narrowed) => U32RoundTrip(narrowed, rest);
    case Str(s) => ReadEncodedString(s, rest);
    case Blob(b) => ReadEncodedBlob(b, rest);
    case Bool(_) => assert [] + rest == rest;
    case Nil => assert [] + rest == rest;
  }

  /**
   Encoded arguments in front of any further tags and any further bytes decode to themselves, and the decoder is then
   exactly at those tags and bytes.
   */
  lemma {:induction false} DecodeInFront(args: seq<Arg>, tags: seq<byte>, rest: seq<byte>)
    requires AllEncodable(args) && AllRepresentable(args)
    ensures DecodeArgs(Tags(args) + tags, Body(args) + rest) == Prepend(Normals(args), DecodeArgs(tags, rest))
  {
    var later := DecodeArgs(tags, rest);
    if args == [] {
      assert [] + tags == tags && [] + rest == rest;
      assert later.Ok? ==> [] + later.value == later.value;
    } else {
      var a, more := args[0], args[1..];
      DecodeInFront(more, tags, rest);
      Assoc([TagOf(a)], Tags(more), tags);
      Assoc(PayloadOf(a), Body(more), rest);
      ReadOne(a, Body(more) + rest);
      DecodeStep(TagOf(a), Tags(more) + tags, PayloadOf(a) + (Body(more) + rest), Normal(a), Body(more) + rest);
      if later.Ok? {
        Assoc([Normal(a)], Normals(more), later.value);
      }
    }
  }

  lemma DecodeStep(tag: byte, tags: seq<byte>, bytes: seq<byte>, arg: Arg, after: seq<byte>)
    requires ReadArg(tag, bytes) == Got(arg, after)
    ensures DecodeArgs([tag] + tags, bytes) == Prepend([arg], DecodeArgs(tags, after))
  {
    assert ([tag] + tags)[1..] == tags;
  }

  // ---------------------------------------------------------------- messages

  lemma {:induction false} TagsAreText(args: seq<Arg>)
    requires AllEncodable(args)
    ensures NulFree(Tags(args)) && NulFree([COMMA] + Tags(args))
  {
    if args != [] {
      TagsAreText(args[1..]);
      assert TagOf(args[0]) != 0;
    }
  }

  /** A message packet with any tag string and any argument bytes. */
  function Assemble(addr: Text, tags: seq<byte>, body: seq<byte>): seq<byte> {
    EncodeString(addr) + (EncodeString([COMMA] + tags) + body)
  }

  lemma DecodeAssembled(addr: Text, tags: seq<byte>, body: seq<byte>)
    requires NulFree(addr) && NulFree([COMMA] + tags)
    ensures DecodeMessage(Assemble(addr, tags, body)) ==
            match DecodeArgs(tags, body) case Ok(args) => Ok(Msg(addr, args)) case Err(e) => Err(e)
  {
    ReadEncodedString(addr, EncodeString([COMMA] + tags) + body);
    ReadEncodedString([COMMA] + tags, body);
    assert ([COMMA] + tags)[1..] == tags;
  }

  lemma MessageRoundTrip(addr: Text, args: seq<Arg>)
    requires NulFree(addr) && AllEncodable(args) && AllRepresentable(args)
    ensures DecodeMessage(Encoding(addr, args)) == Ok(Msg(addr, Normals(args)))
  {
    TagsAreText(args);
    DecodeAssembled(addr, Tags(args), Body(args));
    DecodeInFront(args, [], []);
    assert Tags(args) + [] == Tags(args) && Body(args) + [] == Body(args) && Normals(args) + [] == Normals(args);
  }

  /** The number of 32-bit words a string with its terminator, an argument, or a list of arguments takes. */
  function TextWords(n: nat): nat {
    (n + 4) / 4
  }

  function ArgWords(a: Arg): nat {
    match a
    case Str(s) => TextWords(|s|)
    case Blob(b) => 1 + (|b| + 3) / 4
    case Bool(_) => 0
    case Nil => 0
    case _ => 1
  }

  function BodyWords(args: seq<Arg>): nat {
    if args == [] then 0 else ArgWords(args[0]) + BodyWords(args[1..])
  }

  lemma PayloadLength(a: Arg)
    requires Encodable(a)
    ensures |PayloadOf(a)| == 4 * ArgWords(a)
  {
    match a
    case Blob(b) => assert |EncodeBlob(b)| == 4 + Pad4(|b|);
    case Str(s) => assert |EncodeString(s)| == Pad4(|s| + 1);
    case _ =>
  }

  lemma {:induction false} BodyLength(args: seq<Arg>)
    requires AllEncodable(args)
    ensures |Body(args)| == 4 * BodyWords(args)
  {
    if args != [] {
      BodyLength(args[1..]);
      PayloadLength(args[0]);
    }
  }

  /** Encoded packets are whole 32-bit words, as the standard demands of every packet, and exactly this many. */
  lemma EncodingLength(addr: Text, args: seq<Arg>)
    requires AllEncodable(args)
    ensures |Encoding(addr, args)| == 4 * (TextWords(|addr|) + TextWords(1 + |args|) + BodyWords(args))
  {
    BodyLength(args);
    assert |EncodeString(addr)| == 4 * TextWords(|addr|);
    assert |EncodeString([COMMA] + Tags(args))| == 4 * TextWords(1 + |args|);
  }

  /** A packet that starts with an address is not taken for a bundle. */
  lemma NotABundle(addr: Text, rest: seq<byte>)
    requires GoodAddress(addr)
    ensures !IsBundle(EncodeString(addr) + rest)
  {
    var b := EncodeString(addr) + rest;
    assert b[0] == SLASH;
    assert |b| >= 8 ==> b[..8][0] == SLASH != BUNDLE[0];
  }

  // ---------------------------------------------------------------- what a decoder can return

  predicate Canonical(a: Arg) {
    (a.Int32? || a.Float32? || a.Str? || a.Blob? || a.Bool? || a.Nil?) && Representable(a)
  }

  predicate AllCanonical(args: seq<Arg>) {
    forall k :: 0 <= k < |args| ==> Canonical(args[k])
  }

  lemma ReadArgCanonical(tag: byte, rest: seq<byte>)
    ensures ReadArg(tag, rest).Got? ==> Canonical(ReadArg(tag, rest).arg)
  {
  }

  lemma {:induction false} DecodeArgsCanonical(tags: seq<byte>, rest: seq<byte>)
    ensures DecodeArgs(tags, rest).Ok? ==> AllCanonical(DecodeArgs(tags, rest).value)
    ensures DecodeArgs(tags, rest).Ok? ==> |DecodeArgs(tags, rest).value| <= |tags|
    decreases |tags|
  {
    if tags != [] {
      var r := ReadArg(tags[0], rest);
      ReadArgCanonical(tags[0], rest);
      if r.Got? {
        DecodeArgsCanonical(tags[1..], r.rest);
      }
    }
  }

  /** Whatever the bytes, a decoded message has a NUL-free address and canonical arguments. */
  lemma DecodeMessageCanonical(b: seq<byte>)
    ensures DecodeMessage(b).Ok? ==> NulFree(DecodeMessage(b).value.addr) && AllCanonical(DecodeMessage(b).value.args)
  {
    var first := ReadString(b);
    if first.Read? && first.rest != [] {
      var second := ReadString(first.rest);
      if second.Read? && second.s != [] {
        DecodeArgsCanonical(second.s[1..], second.rest);
      }
    }
  }

  lemma {:induction false} CanonicalIsNormal(args: seq<Arg>)
    requires AllCanonical(args)
    ensures AllEncodable(args) && AllRepresentable(args) && Normals(args) == args
  {
    if args != [] {
      CanonicalIsNormal(args[1..]);
    }
  }

  // ---------------------------------------------------------------- main results

  /**
   A call of the encoder that succeeds is decoded to the same address and the normalised arguments exactly when the
   strings are free of NULs and every blob length fits in 32 bits.
   */
  lemma RoundTripExactly(addr: Text, args: seq<Arg>)
    requires EncodeMessage(addr, args).Ok?
    ensures DecodePacket(EncodeMessage(addr, args).value) == Ok([Msg(addr, Normals(args))])
       <==> NulFree(addr) && AllRepresentable(args)
  {
    var packet := Encoding(addr, args);
    NotABundle(addr, EncodeString([COMMA] + Tags(args)) + Body(args));
    if NulFree(addr) && AllRepresentable(args) {
      MessageRoundTrip(addr, args);
    }
    DecodeMessageCanonical(packet);
    CanonicalNormals(args);
    assert DecodeMessage(packet).Ok? ==> [DecodeMessage(packet).value][0] == DecodeMessage(packet).value;
    assert [Msg(addr, Normals(args))][0] == Msg(addr, Normals(args));
  }

  lemma CanonicalNormals(args: seq<Arg>)
    requires AllEncodable(args)
    ensures AllCanonical(Normals(args)) ==> AllRepresentable(args)
  {
    assert forall k :: 0 <= k < |args| && Canonical(Normals(args)[k]) ==> Representable(args[k]);
  }

  predicate ComesBack(addr: Text, args: seq<Arg>)
    requires AllEncodable(args)
  {
    EncodeMessage(addr, args).Ok?
    && DecodePacket(EncodeMessage(addr, args).value) == Ok([Msg(addr, Normals(args))])
  }

  /** The encoder accepts a NUL in an argument or in the address, and a blob of 2^32 bytes; none comes back. */
  lemma LostInTransit()
    ensures EncodeMessage([SLASH], [Str([0])]).Ok? && !ComesBack([SLASH], [Str([0])])
    ensures EncodeMessage([SLASH, 0], []).Ok? && !ComesBack([SLASH, 0], [])
    ensures var big := [Blob(Zeros(0x1_0000_0000))]; EncodeMessage([SLASH], big).Ok? && !ComesBack([SLASH], big)
  {
    var text: Text, blob := [0], Zeros(0x1_0000_0000);
    assert text[0] == 0 && !NulFree(text) && [SLASH, 0][1] == 0;
    var nul, big := [Str(text)], [Blob(blob)];
    assert nul[0] == Str(text) && big[0] == Blob(blob);
    RoundTripExactly([SLASH], nul);
    RoundTripExactly([SLASH, 0], []);
    RoundTripExactly([SLASH], big);
  }

  /** The encoder fails exactly on a bad address, an integer out of range, or a value of an unsupported type. */
  lemma EncoderAccepts(addr: Text, args: seq<Arg>)
    ensures EncodeMessage(addr, args).Ok? <==> GoodAddress(addr) && AllEncodable(args)
    ensures GoodAddress(addr) && !AllEncodable(args) ==>
              exists k :: 0 <= k < |args| && !Encodable(args[k]) && AllEncodable(args[..k])
                       && EncodeMessage(addr, args)
                          == Err(if args[k].Unsupported? then UnsupportedArg(k) else OutOfRange(k))
  {
    if GoodAddress(addr) && !AllEncodable(args) {
      var k := FirstBad(args, 0);
    }
  }

  /**
   Canonicalisation: whatever bytes were accepted, with padding missing, tags unknown or absent, an impulse, the decoded
   message can be encoded and decodes to itself.
   */
  lemma Canonicalisation(b: seq<byte>)
    requires DecodeMessage(b).Ok? && GoodAddress(DecodeMessage(b).value.addr)
    ensures var m := DecodeMessage(b).value;
            && EncodeMessage(m.addr, m.args).Ok?
            && DecodePacket(EncodeMessage(m.addr, m.args).value) == Ok([m])
  {
    var m := DecodeMessage(b).value;
    DecodeMessageCanonical(b);
    CanonicalIsNormal(m.args);
    RoundTripExactly(m.addr, m.args);
  }

  predicate Supported(tag: byte) {
    tag in {TAG_I, TAG_F, TAG_S, TAG_B, TAG_TRUE, TAG_FALSE, TAG_NIL, TAG_IMPULSE}
  }

  /** An unknown tag ends the arguments without an error, whatever tags and bytes come with it. */
  lemma UnknownTagEndsArguments(addr: Text, args: seq<Arg>, tag: byte, tags: seq<byte>, bytes: seq<byte>)
    requires NulFree(addr) && AllEncodable(args) && AllRepresentable(args)
    requires !Supported(tag) && tag != 0 && NulFree(tags)
    ensures DecodeMessage(Assemble(addr, Tags(args) + ([tag] + tags), Body(args) + bytes))
         == Ok(Msg(addr, Normals(args)))
  {
    TagsAreText(args);
    Assoc([COMMA], Tags(args), [tag] + tags);
    DecodeAssembled(addr, Tags(args) + ([tag] + tags), Body(args) + bytes);
    DecodeInFront(args, [tag] + tags, bytes);
    assert ReadArg(([tag] + tags)[0], bytes) == Stop;
    assert Normals(args) + [] == Normals(args);
  }
}
