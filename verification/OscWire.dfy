/** The bytes on the wire, in numbers: what OSC 1.0 prescribes for every tag and value, and when decoding is refused. */
module OscWire {
  import opened Bytes
  import opened OscCodec
  import opened OscRoundTrip

  // ---------------------------------------------------------------- values

  /** The first four bytes, the most significant one first, as an unsigned number. */
  function BigEndian(b: seq<byte>): int
    requires |b| >= 4
  {
    b[0] as int * 16777216 + b[1] as int * 65536 + b[2] as int * 256 + b[3]
  }

  /** Four bytes, most significant first, that are the value modulo 2^32: two's complement for a negative one. */
  predicate IsWord(b: seq<byte>, v: int) {
    |b| == 4 && (BigEndian(b) - v) % 4294967296 == 0
  }

  /** At least `least` and at most `least + 3` zeros. */
  predicate IsPadding(b: seq<byte>, least: nat) {
    least <= |b| <= least + 3 && forall k :: 0 <= k < |b| ==> b[k] == 0
  }

  /** The text with one to four zeros, or the data with none to three, in whole words. */
  predicate IsPadded(b: seq<byte>, data: seq<byte>, least: nat) {
    |b| % 4 == 0 && data <= b && IsPadding(b[|data|..], least)
  }

  /** What the standard prescribes for the argument bytes. */
  predicate IsPayload(a: Arg, b: seq<byte>) {
    match a
    case Int32(v) => IsWord(b, v)
    case Int(n) => IsWord(b, n)
    case Int64(n) => IsWord(b, n)
    case Float32(bits) => IsWord(b, bits)
    case Float64(narrowed) => IsWord(b, narrowed)
    case Str(s) => IsPadded(b, s, 1)
    case Blob(data) => |b| >= 4 && IsWord(b[..4], |data|) && IsPadded(b[4..], data, 0)
    case _ => b == []
  }

  /** And for the type tag; 0 for what cannot be sent. */
  function WireTag(a: Arg): nat {
    match a
    case Int32(_) => 105
    case Int(n) => if -2147483648 <= n <= 2147483647 then 105 else 0
    case Int64(n) => if -2147483648 <= n <= 2147483647 then 105 else 0
    case Float32(_) => 102
    case Float64(_) => 102
    case Str(_) => 115
    case Blob(_) => 98
    case Bool(on) => if on then 84 else 70
    case Nil => 78
    case Unsupported => 0
  }

  lemma EncodedWord(v: int)
    ensures IsWord(EncodeU32(v), v)
  {
    U32RoundTrip(v, []);
    assert EncodeU32(v) + [] == EncodeU32(v);
    assert v == v / 4294967296 * 4294967296 + v % 4294967296;
  }

  lemma EncodedText(s: Text)
    ensures IsPadded(EncodeString(s), s, 1)
  {
    assert EncodeString(s)[|s|..] == Zeros(Pad4(|s| + 1) - |s|);
  }

  lemma EncodedBlob(data: seq<byte>)
    ensures IsPayload(Blob(data), EncodeBlob(data))
  {
    EncodedWord(|data|);
    var b, padded := EncodeBlob(data), data + Zeros(Pad4(|data|) - |data|);
    assert b[..4] == EncodeU32(|data|) && b[4..] == padded;
    assert padded[|data|..] == Zeros(Pad4(|data|) - |data|);
  }

  /** Every argument that can be sent goes out with its tag and its bytes, and the others are refused. */
  lemma EncodedArg(a: Arg)
    ensures Encodable(a) <==> WireTag(a) != 0
    ensures Encodable(a) ==> TagOf(a) == WireTag(a) && IsPayload(a, PayloadOf(a))
  {
    match a
    case Int32(v) => EncodedWord(v);
    case Int(n) => EncodedWord(n);
    case Int64(n) => EncodedWord(n);
    case Float32(bits) => EncodedWord(bits);
    case Float64(narrowed) => EncodedWord(narrowed);
    case Str(s) => EncodedText(s);
    case Blob(data) => EncodedBlob(data);
    case _ =>
  }

  /** The parts of the body, one after another, each the bytes of its argument. */
  predicate ArePayloads(args: seq<Arg>, parts: seq<seq<byte>>) {
    |parts| == |args| && forall k :: 0 <= k < |args| ==> IsPayload(args[k], parts[k])
  }

  lemma {:induction false} EncodedArgs(args: seq<Arg>) returns (parts: seq<seq<byte>>)
    requires AllEncodable(args)
    ensures ArePayloads(args, parts) && Body(args) == Flatten(parts)
    ensures forall k :: 0 <= k < |args| ==> Tags(args)[k] == WireTag(args[k])
  {
    if args == [] {
      parts := [];
    } else {
      var more := EncodedArgs(args[1..]);
      EncodedArg(args[0]);
      parts := [PayloadOf(args[0])] + more;
      assert parts[1..] == more;
    }
  }

  /** The padded address, the padded tag string, which is a comma and the tags in order, and the arguments in order. */
  predicate IsMessage(addr: Text, args: seq<Arg>, head: seq<byte>, tags: seq<byte>, text: seq<byte>,
                      parts: seq<seq<byte>>)
  {
    && IsPadded(head, addr, 1) && IsPadded(text, tags, 1) && ArePayloads(args, parts)
    && |tags| == 1 + |args| && tags[0] == 44
    && forall k :: 0 <= k < |args| ==> tags[1 + k] == WireTag(args[k])
  }

  /** The encoder accepts exactly the addresses that start with a slash and the arguments that have a tag. */
  lemma AcceptedExactly(addr: Text, args: seq<Arg>)
    ensures EncodeMessage(addr, args).Ok?
       <==> addr != [] && addr[0] == 47 && forall k :: 0 <= k < |args| ==> WireTag(args[k]) != 0
    ensures addr == [] || addr[0] != 47 ==> EncodeMessage(addr, args) == Err(BadAddress)
  {
    assert SLASH == 47;
    forall k | 0 <= k < |args| ensures Encodable(args[k]) <==> WireTag(args[k]) != 0 {
      EncodedArg(args[k]);
    }
  }

  /** And what it writes is laid out as the standard prescribes. */
  lemma EncodedMessage(addr: Text, args: seq<Arg>)
      returns (head: seq<byte>, tags: seq<byte>, text: seq<byte>, parts: seq<seq<byte>>)
    requires EncodeMessage(addr, args).Ok?
    ensures IsMessage(addr, args, head, tags, text, parts)
    ensures EncodeMessage(addr, args).value == head + (text + Flatten(parts))
  {
    parts := EncodedArgs(args);
    head, tags := EncodeString(addr), [COMMA] + Tags(args);
    text := EncodeString(tags);
    EncodedText(addr);
    EncodedText(tags);
    assert COMMA == 44;
    assert forall k :: 0 <= k < |args| ==> tags[1 + k] == Tags(args)[k];
  }

  // ---------------------------------------------------------------- reading

  /** What the standard says of a tag and the bytes at hand; +infinity for an impulse is the program's choice. */
  predicate IsReading(tag: nat, rest: seq<byte>, r: ArgRead) {
    if tag == 105 then
      if |rest| < 4 then r == Fail(TruncatedArg)
      else r.Got? && r.rest == rest[4..] && r.arg.Int32? && IsWord(rest[..4], r.arg.v)
    else if tag == 102 then
      if |rest| < 4 then r == Fail(TruncatedArg)
      else r.Got? && r.rest == rest[4..] && r.arg.Float32? && IsWord(rest[..4], r.arg.bits)
    else if tag == 115 then
      if 0 !in rest then r == Fail(TruncatedArg)
      else r.Got? && r.arg.Str? && IsText(rest, r.arg.s, r.rest)
    else if tag == 98 then
      if |rest| < 4 then r == Fail(TruncatedArg)
      else if BigEndian(rest) > |rest| - 4 then r.Fail? && r.error == BlobTooLong(BigEndian(rest))
      else
        && r.Got? && r.arg.Blob? && |r.arg.b| == BigEndian(rest) && r.arg.b == rest[4..4 + BigEndian(rest)]
        && IsAfter(rest, 4 + |r.arg.b|, r.rest)
    else if tag == 84 then r == Got(Bool(true), rest)
    else if tag == 70 then r == Got(Bool(false), rest)
    else if tag == 78 then r == Got(Nil, rest)
    else if tag == 73 then r == Got(Float32(2139095040), rest)
    else r == Stop
  }

  /** The string is what stands before the first zero, and its padding is skipped, whatever bytes that consists of. */
  predicate IsText(b: seq<byte>, s: Text, after: seq<byte>) {
    0 !in s && s + [0] <= b && IsAfter(b, |s| + 1, after)
  }

  /** What is left after n bytes and the rest of their last word, or nothing if the word is not complete. */
  predicate IsAfter(b: seq<byte>, n: nat, after: seq<byte>)
    requires n <= |b|
  {
    var skipped := |b| - |after|;
    && n <= skipped < n + 4 && after == b[skipped..]
    && (skipped % 4 == 0 || (after == [] && n % 4 != 0 && n / 4 == |b| / 4))
  }

  lemma SkipsPadding(b: seq<byte>, n: nat)
    requires n <= |b|
    ensures IsAfter(b, n, b[Min(Pad4(n), |b|)..])
  {
    assert n <= Pad4(n) < n + 4 && Pad4(n) % 4 == 0;
    assert b[|b|..] == [];
  }

  lemma ReadWord(rest: seq<byte>)
    requires |rest| >= 4
    ensures DecodeU32(rest) == BigEndian(rest) && IsWord(rest[..4], DecodeU32(rest))
    ensures IsWord(rest[..4], ToInt32(DecodeU32(rest)))
  {
    var b := rest[..4];
    assert b[0] == rest[0] && b[1] == rest[1] && b[2] == rest[2] && b[3] == rest[3];
    assert BigEndian(b) == DecodeU32(rest);
  }

  /** A string is read up to its first zero; without one there is none. */
  lemma ReadText(b: seq<byte>)
    ensures if 0 in b then ReadString(b).Read? && IsText(b, ReadString(b).s, ReadString(b).rest)
            else ReadString(b) == NoTerminator
  {
    var i := IndexOfNul(b);
    if i < |b| {
      assert b[i] in b && b[..i] + [0] == b[..i + 1];
      SkipsPadding(b, i + 1);
    }
  }

  /** Every tag, against any bytes at all. */
  lemma ReadArgTable(tag: byte, rest: seq<byte>)
    ensures IsReading(tag, rest, ReadArg(tag, rest))
  {
    assert TAG_I == 105 && TAG_F == 102 && TAG_S == 115 && TAG_B == 98;
    assert TAG_TRUE == 84 && TAG_FALSE == 70 && TAG_NIL == 78 && TAG_IMPULSE == 73;
    if |rest| >= 4 {
      ReadWord(rest);
    }
    if tag == 115 {
      ReadText(rest);
    } else if tag == 98 && |rest| >= 4 && BigEndian(rest) <= |rest| - 4 {
      ReadBlob(rest, BigEndian(rest));
    }
  }

  lemma ReadBlob(rest: seq<byte>, n: nat)
    requires |rest| >= 4 && n == DecodeU32(rest) <= |rest| - 4
    ensures var r := ReadArg(98, rest); r.Got? && r.arg == Blob(rest[4..4 + n]) && IsAfter(rest, 4 + n, r.rest)
  {
    assert TAG_B == 98;
    var data, end := rest[4..], Min(Pad4(n), |rest| - 4);
    assert data[..n] == rest[4..4 + n] && data[end..] == rest[4 + end..];
    assert Pad4(4 + n) == 4 + Pad4(n);
    SkipsPadding(rest, 4 + n);
  }

  /** A packet is a bundle exactly if it starts with these eight bytes: "#bundle" and a zero. */
  lemma BundleMark(b: seq<byte>)
    ensures IsBundle(b) <==> [35, 98, 117, 110, 100, 108, 101, 0] <= b
  {
    assert BUNDLE == [35, 98, 117, 110, 100, 108, 101, 0];
    assert BUNDLE <= b ==> b[..8] == BUNDLE;
  }

  // ---------------------------------------------------------------- messages that are refused

  lemma TextBytes(b: seq<byte>, s: Text)
    requires s + [0] <= b
    ensures b[..|s|] == s && b[|s|] == 0 && forall k :: 0 <= k < |s| ==> b[k] == s[k]
  {
    assert b[..|s| + 1] == s + [0];
  }

  lemma AfterExactly(b: seq<byte>, n: nat, after: seq<byte>)
    requires n <= |b| && IsAfter(b, n, after)
    ensures after == b[Min(Pad4(n), |b|)..]
  {
  }

  lemma TextIsRead(b: seq<byte>, s: Text, after: seq<byte>)
    requires IsText(b, s, after)
    ensures ReadString(b) == Read(s, after)
  {
    TextBytes(b, s);
    NulAt(b, |s|);
    AfterExactly(b, |s| + 1, after);
  }

  /** An address without terminator is an error; an address with nothing behind it has no arguments. */
  lemma BareAddress(b: seq<byte>, addr: Text)
    ensures 0 !in b ==> DecodeMessage(b) == Err(TruncatedAddress)
    ensures IsText(b, addr, []) ==> DecodeMessage(b) == Ok(Msg(addr, []))
  {
    ReadText(b);
    if IsText(b, addr, []) {
      TextIsRead(b, addr, []);
    }
  }

  /** Whatever follows an address must be a terminated string that starts with a comma. */
  lemma TagsRequired(b: seq<byte>, addr: Text, rest: seq<byte>, tags: Text, body: seq<byte>)
    requires IsText(b, addr, rest) && rest != []
    ensures 0 !in rest ==> DecodeMessage(b) == Err(MissingTags)
    ensures IsText(rest, tags, body) && (tags == [] || tags[0] != 44) ==> DecodeMessage(b) == Err(MissingTags)
  {
    assert COMMA == 44;
    TextIsRead(b, addr, rest);
    ReadText(rest);
    if IsText(rest, tags, body) {
      TextIsRead(rest, tags, body);
    }
  }

  /** A tag that is short of bytes makes the whole message an error, whatever arguments came before it. */
  lemma ShortArgumentRefused(addr: Text, args: seq<Arg>, tag: byte, tags: seq<byte>, rest: seq<byte>)
    requires NulFree(addr) && AllEncodable(args) && AllRepresentable(args) && tag != 0 && NulFree(tags)
    requires ReadArg(tag, rest).Fail?
    ensures DecodeMessage(Assemble(addr, Tags(args) + ([tag] + tags), Body(args) + rest))
         == Err(ReadArg(tag, rest).error)
  {
    TagsAreText(args);
    Assoc([COMMA], Tags(args), [tag] + tags);
    DecodeAssembled(addr, Tags(args) + ([tag] + tags), Body(args) + rest);
    DecodeInFront(args, [tag] + tags, rest);
  }
}
