/** Packets whose end is missing: exactly which truncations of an encoded message still decode to it. */
module OscTolerance {
  import opened Bytes
  import opened OscCodec
  import opened OscRoundTrip

  /** The padding at the end of an argument's bytes; the terminator of a string is not padding. */
  function PadOf(a: Arg): nat {
    match a
    case Str(s) => Pad4(|s| + 1) - (|s| + 1)
    case Blob(b) => Pad4(|b|) - |b|
    case _ => 0
  }

  predicate HasPayload(args: seq<Arg>) {
    args != [] && (!(args[0].Bool? || args[0].Nil?) || HasPayload(args[1..]))
  }

  /** The padding of the last argument that has bytes at all. */
  function Slack(args: seq<Arg>): nat {
    if args == [] then 0 else if HasPayload(args[1..]) then Slack(args[1..]) else PadOf(args[0])
  }

  lemma {:induction false} SlackBound(args: seq<Arg>)
    requires AllEncodable(args)
    ensures HasPayload(args) ==> Slack(args) < |Body(args)|
    ensures !HasPayload(args) ==> Slack(args) == 0 && Body(args) == []
  {
    if args != [] {
      SlackBound(args[1..]);
      assert Body(args) == PayloadOf(args[0]) + Body(args[1..]);
      if args[0].Blob? {
        assert |EncodeBlob(args[0].b)| == 4 + Pad4(|args[0].b|);
      }
    }
  }

  lemma CutString(s: Text, k: nat)
    requires NulFree(s) && k < |EncodeString(s)|
    ensures ReadString(EncodeString(s)[..k]) == if k > |s| then Read(s, []) else NoTerminator
  {
    var b := EncodeString(s)[..k];
    if k > |s| {
      NulAt(b, |s|);
      assert b[..|s|] == s && b[k..] == [];
    } else {
      assert forall j :: 0 <= j < k ==> b[j] == s[j];
    }
  }

  /** An argument whose bytes stop before their end is read if only padding is missing, and is an error otherwise. */
  lemma CutArg(a: Arg, k: nat)
    requires Encodable(a) && Representable(a) && k < |PayloadOf(a)|
    ensures ReadArg(TagOf(a), PayloadOf(a)[..k]).Got? || ReadArg(TagOf(a), PayloadOf(a)[..k]).Fail?
    ensures if k >= |PayloadOf(a)| - PadOf(a) then ReadArg(TagOf(a), PayloadOf(a)[..k]) == Got(Normal(a), [])
            else ReadArg(TagOf(a), PayloadOf(a)[..k]).Fail?
  {
    match a
    case Str(s) => CutString(s, k);
    case Blob(b) => CutBlob(b, k);
    case _ =>
  }

  lemma CutBlob(blob: seq<byte>, k: nat)
    requires |blob| < 0x1_0000_0000 && k < |EncodeBlob(blob)|
    ensures if k >= 4 + |blob| then ReadArg(TAG_B, EncodeBlob(blob)[..k]) == Got(Blob(blob), [])
            else ReadArg(TAG_B, EncodeBlob(blob)[..k]).Fail?
  {
    if k >= 4 {
      var padded := blob + Zeros(Pad4(|blob|) - |blob|);
      assert EncodeBlob(blob)[..k] == EncodeU32(|blob|) + padded[..k - 4];
      U32RoundTrip(|blob|, padded[..k - 4]);
      if k >= 4 + |blob| {
        assert padded[..k - 4][..|blob|] == blob;
      }
      BlobRead(EncodeBlob(blob)[..k], |blob|, padded[..k - 4]);
    }
  }

  lemma BlobRead(b: seq<byte>, n: uint32, data: seq<byte>)
    requires |b| >= 4 && DecodeU32(b) == n && b[4..] == data && |data| <= Pad4(n)
    ensures if |data| >= n then ReadArg(TAG_B, b) == Got(Blob(data[..n]), []) else ReadArg(TAG_B, b).Fail?
  {
  }

  /** Argument bytes cut at k decode as before if only the last padding is missing, and are an error otherwise. */
  lemma {:induction false} CutBody(args: seq<Arg>, k: nat)
    requires AllEncodable(args) && AllRepresentable(args) && k <= |Body(args)|
    ensures if k >= |Body(args)| - Slack(args) then DecodeArgs(Tags(args), Body(args)[..k]) == Ok(Normals(args))
            else DecodeArgs(Tags(args), Body(args)[..k]).Err?
    decreases |args|
  {
    if args != [] {
      var a, more := args[0], args[1..];
      var tags, bytes := Tags(args), Body(args)[..k];
      SlackBound(args);
      SlackBound(more);
      if k >= |PayloadOf(a)| {
        CutBody(more, k - |PayloadOf(a)|);
        CutLater(a, more, tags, bytes, k);
      } else {
        CutBody(more, 0);
        assert Body(more)[..0] == [];
        CutHere(a, more, tags, bytes, k);
      }
    }
  }

  /** The cut falls after the bytes of the first argument. */
  lemma CutLater(a: Arg, more: seq<Arg>, tags: seq<byte>, bytes: seq<byte>, k: nat)
    requires Encodable(a) && Representable(a) && AllEncodable(more)
    requires 0 <= k - |PayloadOf(a)| <= |Body(more)|
    requires tags == [TagOf(a)] + Tags(more) && bytes == (PayloadOf(a) + Body(more))[..k]
    ensures DecodeArgs(tags, bytes)
         == Prepend([Normal(a)], DecodeArgs(Tags(more), Body(more)[..k - |PayloadOf(a)|]))
  {
    var p, rest := PayloadOf(a), Body(more)[..k - |PayloadOf(a)|];
    TakeBoth(p, Body(more), k);
    ReadOne(a, rest);
    DecodeStep(TagOf(a), Tags(more), p + rest, Normal(a), rest);
  }

  /** The cut falls within the bytes of the first argument, so none are left for the others. */
  lemma CutHere(a: Arg, more: seq<Arg>, tags: seq<byte>, bytes: seq<byte>, k: nat)
    requires Encodable(a) && Representable(a) && AllEncodable(more) && k < |PayloadOf(a)|
    requires tags == [TagOf(a)] + Tags(more) && bytes == (PayloadOf(a) + Body(more))[..k]
    ensures if k >= |PayloadOf(a)| - PadOf(a)
            then DecodeArgs(tags, bytes) == Prepend([Normal(a)], DecodeArgs(Tags(more), []))
            else DecodeArgs(tags, bytes).Err?
  {
    TakeFirst(PayloadOf(a), Body(more), k);
    CutArg(a, k);
    if k >= |PayloadOf(a)| - PadOf(a) {
      DecodeStep(TagOf(a), Tags(more), bytes, Normal(a), []);
    } else {
      DecodeFails(TagOf(a), Tags(more), bytes);
    }
  }

  lemma DecodeFails(tag: byte, tags: seq<byte>, bytes: seq<byte>)
    requires ReadArg(tag, bytes).Fail?
    ensures DecodeArgs([tag] + tags, bytes).Err?
  {
  }

  lemma TakeBoth<T>(a: seq<T>, b: seq<T>, n: nat)
    requires |a| <= n <= |a| + |b|
    ensures (a + b)[..n] == a + b[..n - |a|]
  {
  }

  lemma TakeFirst<T>(a: seq<T>, b: seq<T>, n: nat)
    requires n <= |a|
    ensures (a + b)[..n] == a[..n] && b[..0] == []
  {
  }

  /** The number of bytes that may be missing from the end of a message with arguments. */
  function PacketSlack(args: seq<Arg>): nat {
    if HasPayload(args) then Slack(args) else Pad4(|args| + 2) - (|args| + 2)
  }

  /**
   The first n bytes of an encoded message decode to that message exactly when nothing but padding is missing: the
   padding of the last argument with bytes, or of the tag string when there is none. A message without arguments also
   survives without its tag string, which is then missing altogether, and without the padding of its address.
   */
  lemma TruncationExactly(addr: Text, args: seq<Arg>, n: nat)
    requires GoodAddress(addr) && NulFree(addr) && AllEncodable(args) && AllRepresentable(args)
    requires n <= |Encoding(addr, args)|
    ensures DecodePacket(Encoding(addr, args)[..n]) == Ok([Msg(addr, Normals(args))]) <==>
            if args == [] then n > |addr| && n != Pad4(|addr| + 1) + 1
            else n >= |Encoding(addr, args)| - PacketSlack(args)
  {
    var b := Encoding(addr, args)[..n];
    NotYetABundle(addr, args, n);
    SlackBound(args);
    var toTags := |EncodeString(addr)|;
    var toBody := toTags + |EncodeString([COMMA] + Tags(args))|;
    if n < toTags {
      CutInAddress(addr, args, n);
    } else if n < toBody {
      CutInTags(addr, args, n);
    } else {
      CutInBody(addr, args, n);
    }
    assert forall m: Msg, m': Msg :: [m] == [m'] ==> [m][0] == [m'][0];
  }

  lemma NotYetABundle(addr: Text, args: seq<Arg>, n: nat)
    requires GoodAddress(addr) && AllEncodable(args) && n <= |Encoding(addr, args)|
    ensures !IsBundle(Encoding(addr, args)[..n])
  {
    var b := Encoding(addr, args)[..n];
    assert n >= 8 ==> b[..8][0] == SLASH != BUNDLE[0];
  }

  lemma TakeOfThree<T>(a: seq<T>, b: seq<T>, c: seq<T>, n: nat)
    requires n <= |a| + |b| + |c|
    ensures (a + (b + c))[..n] ==
            if n < |a| then a[..n]
            else if n < |a| + |b| then a + b[..n - |a|]
            else a + (b + c[..n - |a| - |b|])
  {
  }

  // What each truncation decodes to, by where it falls: in the address, in the tag string, or in the arguments.

  lemma CutInAddress(addr: Text, args: seq<Arg>, n: nat)
    requires NulFree(addr) && AllEncodable(args) && n < |EncodeString(addr)|
    ensures var r := DecodeMessage(Encoding(addr, args)[..n]); if n > |addr| then r == Ok(Msg(addr, [])) else r.Err?
  {
    TakeOfThree(EncodeString(addr), EncodeString([COMMA] + Tags(args)), Body(args), n);
    CutString(addr, n);
  }

  lemma CutInTags(addr: Text, args: seq<Arg>, n: nat)
    requires NulFree(addr) && AllEncodable(args) && AllRepresentable(args)
    requires 0 <= n - |EncodeString(addr)| < |EncodeString([COMMA] + Tags(args))|
    ensures var r, k := DecodeMessage(Encoding(addr, args)[..n]), n - |EncodeString(addr)|;
            if k == 0 then r == Ok(Msg(addr, []))
            else if k >= |args| + 2 && !HasPayload(args) then r == Ok(Msg(addr, Normals(args)))
            else r.Err?
  {
    TakeOfThree(EncodeString(addr), EncodeString([COMMA] + Tags(args)), Body(args), n);
    TruncatedTags(addr, args, Encoding(addr, args)[..n], n - |EncodeString(addr)|);
  }

  lemma CutInBody(addr: Text, args: seq<Arg>, n: nat)
    requires NulFree(addr) && AllEncodable(args) && AllRepresentable(args)
    requires |EncodeString(addr)| + |EncodeString([COMMA] + Tags(args))| <= n <= |Encoding(addr, args)|
    ensures var r := DecodeMessage(Encoding(addr, args)[..n]);
            if n >= |Encoding(addr, args)| - Slack(args) then r == Ok(Msg(addr, Normals(args))) else r.Err?
  {
    var head, tags := EncodeString(addr), EncodeString([COMMA] + Tags(args));
    TakeOfThree(head, tags, Body(args), n);
    TruncatedBody(addr, args, Encoding(addr, args)[..n], n - |head| - |tags|);
  }

  lemma TruncatedBody(addr: Text, args: seq<Arg>, b: seq<byte>, k: nat)
    requires NulFree(addr) && AllEncodable(args) && AllRepresentable(args)
    requires k <= |Body(args)|
    requires b == EncodeString(addr) + (EncodeString([COMMA] + Tags(args)) + Body(args)[..k])
    ensures var r := DecodeMessage(b);
            if k >= |Body(args)| - Slack(args) then r == Ok(Msg(addr, Normals(args))) else r.Err?
  {
    TagsAreText(args);
    DecodeAssembled(addr, Tags(args), Body(args)[..k]);
    CutBody(args, k);
  }

  lemma TruncatedTags(addr: Text, args: seq<Arg>, b: seq<byte>, k: nat)
    requires NulFree(addr) && AllEncodable(args) && AllRepresentable(args)
    requires k < |EncodeString([COMMA] + Tags(args))|
    requires b == EncodeString(addr) + EncodeString([COMMA] + Tags(args))[..k]
    ensures var r := DecodeMessage(b);
            if k == 0 then r == Ok(Msg(addr, []))
            else if k >= |args| + 2 && !HasPayload(args) then r == Ok(Msg(addr, Normals(args)))
            else r.Err?
  {
    var tags := EncodeString([COMMA] + Tags(args));
    ReadEncodedString(addr, tags[..k]);
    TagsAreText(args);
    CutString([COMMA] + Tags(args), k);
    SlackBound(args);
    CutBody(args, 0);
    assert Body(args)[..0] == [] && ([COMMA] + Tags(args))[1..] == Tags(args);
  }
}
