/** The loops of the OSC codec, as the program runs them, each proved to compute its function in `OscCodec`. */
module OscLoops {
  import opened Bytes
  import opened OscCodec

  method ReadStringLoop(b: seq<byte>) returns (r: StringRead)
    ensures r == ReadString(b)
  {
    var i := 0;
    while i < |b|
      invariant 0 <= i <= |b| && forall k :: 0 <= k < i ==> b[k] != 0
    {
      if b[i] == 0 {
        var end := Pad4(i + 1);
        if end > |b| {
          end := |b|;
        }
        assert IndexOfNul(b) == i;
        return Read(b[..i], b[end..]);
      }
      i := i + 1;
    }
    return NoTerminator;
  }

  method AppendBlob(b: seq<byte>, blob: seq<byte>) returns (r: seq<byte>)
    ensures r == b + EncodeBlob(blob)
  {
    r := b + EncodeU32(|blob|);
    r := r + blob;
    var i := |blob|;
    ghost var start := r;
    while i < Pad4(|blob|)
      invariant |blob| <= i <= Pad4(|blob|)
      invariant r == start + Zeros(i - |blob|)
    {
      r := r + [0];
      i := i + 1;
    }
  }

  method EncodeMessageLoop(addr: Text, args: seq<Arg>) returns (r: Result<seq<byte>>)
    ensures r == EncodeMessage(addr, args)
  {
    if addr == [] || addr[0] != SLASH {
      return Err(BadAddress);
    }
    var out := EncodeString(addr);
    var tags := [COMMA];
    var body: seq<byte> := [];
    var i := 0;
    while i < |args|
      invariant 0 <= i <= |args|
      invariant AllEncodable(args[..i])
      invariant tags == [COMMA] + Tags(args[..i]) && body == Body(args[..i])
    {
      var a := args[i];
      if !Encodable(a) {
        StopsAt(args, i);
        return Err(if a.Unsupported? then UnsupportedArg(i) else OutOfRange(i));
      }
      OneMore(args, i);
      ghost var tags0, body0 := tags, body;
      match a {
        case Int32(v) => tags := tags + [TAG_I]; body := body + EncodeU32(v);
        case Int(n) => tags := tags + [TAG_I]; body := body + EncodeU32(n);
        case Int64(n) => tags := tags + [TAG_I]; body := body + EncodeU32(n);
        case Float32(bits) => tags := tags + [TAG_F]; body := body + EncodeU32(bits);
        case Float64(narrowed) => tags := tags + [TAG_F]; body := body + EncodeU32(narrowed);
        case Str(s) => tags := tags + [TAG_S]; body := body + EncodeString(s);
        case Blob(b) => tags := tags + [TAG_B]; body := AppendBlob(body, b);
        case Bool(on) => tags := tags + [if on then TAG_TRUE else TAG_FALSE];
        case Nil => tags := tags + [TAG_NIL];
      }
      assert tags == tags0 + [TagOf(a)] && body == body0 + PayloadOf(a);
      Assoc([COMMA], Tags(args[..i]), [TagOf(a)]);
      i := i + 1;
    }
    assert args[..i] == args;
    Assoc(out, EncodeString(tags), body);
    out := out + EncodeString(tags);
    out := out + body;
    return Ok(out);
  }

  lemma {:induction false} Snoc(args: seq<Arg>, a: Arg)
    requires AllEncodable(args) && Encodable(a)
    ensures Tags(args + [a]) == Tags(args) + [TagOf(a)]
    ensures Body(args + [a]) == Body(args) + PayloadOf(a)
  {
    if args == [] {
      assert args + [a] == [a];
    } else {
      assert (args + [a])[1..] == args[1..] + [a];
      Snoc(args[1..], a);
      Assoc([TagOf(args[0])], Tags(args[1..]), [TagOf(a)]);
      Assoc(PayloadOf(args[0]), Body(args[1..]), PayloadOf(a));
    }
  }

  lemma OneMore(args: seq<Arg>, i: nat)
    requires i < |args| && AllEncodable(args[..i]) && Encodable(args[i])
    ensures AllEncodable(args[..i + 1])
    ensures Tags(args[..i + 1]) == Tags(args[..i]) + [TagOf(args[i])]
    ensures Body(args[..i + 1]) == Body(args[..i]) + PayloadOf(args[i])
  {
    assert args[..i + 1] == args[..i] + [args[i]];
    Snoc(args[..i], args[i]);
  }

  /** The loop stops at the argument the error names. */
  lemma StopsAt(args: seq<Arg>, i: nat)
    requires i < |args| && AllEncodable(args[..i]) && !Encodable(args[i])
    ensures !AllEncodable(args)
    ensures EncodeError(args, 0) == if args[i].Unsupported? then UnsupportedArg(i) else OutOfRange(i)
  {
    assert args[0..] == args;
    var k := FirstBad(args, 0);
    assert k == i;
  }

  method DecodeMessageLoop(b: seq<byte>) returns (r: Result<Msg>)
    ensures r == DecodeMessage(b)
  {
    var first := ReadStringLoop(b);
    if first.NoTerminator? {
      return Err(TruncatedAddress);
    }
    var addr, rest := first.s, first.rest;
    if |rest| == 0 {
      return Ok(Msg(addr, []));
    }
    var second := ReadStringLoop(rest);
    if second.NoTerminator? || |second.s| == 0 || second.s[0] != COMMA {
      return Err(MissingTags);
    }
    var tags, args := second.s[1..], [];
    rest := second.rest;
    ghost var all := DecodeArgs(tags, rest);
    var k := 0;
    PrependNone(all);
    assert tags[0..] == tags;
    while k < |tags|
      invariant 0 <= k <= |tags|
      invariant all == Prepend(args, DecodeArgs(tags[k..], rest))
    {
      assert tags[k..][0] == tags[k] && tags[k..][1..] == tags[k + 1..];
      var read := ReadArgCase(tags[k], rest);
      match read {
        case Fail(e) => return Err(e);
        case Stop =>
          assert args + [] == args;
          return Ok(Msg(addr, args));
        case Got(arg, after) =>
          PrependTwice(args, arg, DecodeArgs(tags[k + 1..], after));
          args := args + [arg];
          rest := after;
      }
      k := k + 1;
    }
    assert args + [] == args;
    return Ok(Msg(addr, args));
  }

  lemma PrependNone(r: Result<seq<Arg>>)
    ensures Prepend([], r) == r
  {
    assert r.Ok? ==> [] + r.value == r.value;
  }

  lemma PrependTwice(args: seq<Arg>, arg: Arg, r: Result<seq<Arg>>)
    ensures Prepend(args, Prepend([arg], r)) == Prepend(args + [arg], r)
  {
    if r.Ok? {
      Assoc(args, [arg], r.value);
    }
  }

  /** The switch of the decoding loop: one tag against the bytes that are left. */
  method ReadArgCase(tag: byte, rest: seq<byte>) returns (r: ArgRead)
    ensures r == ReadArg(tag, rest)
  {
    if tag == TAG_I {
      if |rest| < 4 {
        return Fail(TruncatedArg);
      }
      return Got(Int32(ToInt32(DecodeU32(rest))), rest[4..]);
    } else if tag == TAG_F {
      if |rest| < 4 {
        return Fail(TruncatedArg);
      }
      return Got(Float32(DecodeU32(rest)), rest[4..]);
    } else if tag == TAG_S {
      var read := ReadStringLoop(rest);
      if read.NoTerminator? {
        return Fail(TruncatedArg);
      }
      return Got(Str(read.s), read.rest);
    } else if tag == TAG_B {
      if |rest| < 4 {
        return Fail(TruncatedArg);
      }
      var n := DecodeU32(rest);
      var data := rest[4..];
      if n > |data| {
        return Fail(BlobTooLong(n));
      }
      var adv := Pad4(n);
      if adv > |data| {
        adv := |data|;
      }
      return Got(Blob(data[..n]), data[adv..]);
    } else if tag == TAG_TRUE {
      return Got(Bool(true), rest);
    } else if tag == TAG_FALSE {
      return Got(Bool(false), rest);
    } else if tag == TAG_NIL {
      return Got(Nil, rest);
    } else if tag == TAG_IMPULSE {
      return Got(Float32(INFINITY_BITS), rest);
    }
    return Stop;
  }

  method DecodePacketLoop(b: seq<byte>) returns (r: Result<seq<Msg>>)
    ensures r == DecodePacket(b)
    decreases |b|, 1
  {
    if |b| >= 8 && b[..8] == BUNDLE {
      r := DecodeBundleLoop(b);
      return;
    }
    var m := DecodeMessageLoop(b);
    return match m case Ok(v) => Ok([v]) case Err(e) => Err(e);
  }

  method DecodeBundleLoop(b: seq<byte>) returns (r: Result<seq<Msg>>)
    requires IsBundle(b)
    ensures r == DecodePacket(b)
    decreases |b|, 0
  {
    if |b| < 16 {
      return Err(BundleTooShort);
    }
    var rest, out := b[16..], [];
    ghost var all := DecodeElements(rest);
    assert all.Ok? ==> [] + all.value == all.value;
    while |rest| >= 4
      invariant |rest| < |b|
      invariant all == Both(Ok(out), DecodeElements(rest))
      decreases |rest|
    {
      var size := DecodeU32(rest);
      ghost var before := rest;
      rest := rest[4..];
      if size > |rest| {
        return Err(ElementTooLong(size, |rest|));
      }
      var elems := DecodePacketLoop(rest[..size]);
      if elems.Err? {
        return Err(elems.error);
      }
      BothTwice(out, elems.value, DecodeElements(rest[size..]));
      out := out + elems.value;
      rest := rest[size..];
    }
    assert out + [] == out;
    return Ok(out);
  }

  lemma BothTwice(a: seq<Msg>, b: seq<Msg>, r: Result<seq<Msg>>)
    ensures Both(Ok(a), Both(Ok(b), r)) == Both(Ok(a + b), r)
  {
    if r.Ok? {
      Assoc(a, b, r.value);
    }
  }
}
