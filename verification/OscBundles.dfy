/** Bundles within bundles: every finite tree of messages comes back as its leaves, and no packet yields too many. */
module OscBundles {
  import opened Bytes
  import opened OscCodec
  import opened OscRoundTrip
  import opened OscWire

  datatype Tree = Leaf(addr: Text, args: seq<Arg>) | Node(timetag: seq<byte>, elems: seq<Tree>)

  /** The encoder accepts every leaf, and every time tag has its eight bytes. */
  predicate Sendable(t: Tree) {
    match t
    case Leaf(addr, args) => GoodAddress(addr) && AllEncodable(args)
    case Node(timetag, elems) => |timetag| == 8 && forall e <- elems :: Sendable(e)
  }

  /** Every leaf is a message the wire format can represent. */
  predicate Faithful(t: Tree) {
    match t
    case Leaf(addr, args) => NulFree(addr) && AllRepresentable(args)
    case Node(_, elems) => forall e <- elems :: Faithful(e)
  }

  /** The standard's layout: a bundle is its mark, its time tag, and its elements, each behind its length. */
  function Wire(t: Tree): seq<byte>
    requires Sendable(t)
    decreases t, 1
  {
    match t
    case Leaf(addr, args) => Encoding(addr, args)
    case Node(timetag, elems) => BUNDLE + timetag + ElementsWire(elems)
  }

  function ElementsWire(elems: seq<Tree>): seq<byte>
    requires forall e <- elems :: Sendable(e)
    decreases elems, 0
  {
    if elems == [] then []
    else EncodeU32(|Wire(elems[0])|) + (Wire(elems[0]) + ElementsWire(elems[1..]))
  }

  /** Every element is short enough for its 32-bit length. */
  predicate Fits(t: Tree)
    requires Sendable(t)
  {
    t.Node? ==> forall e <- t.elems :: |Wire(e)| < 0x1_0000_0000 && Fits(e)
  }

  /** The messages of a tree from left to right. */
  function Leaves(t: Tree): seq<Msg>
    requires Sendable(t)
    decreases t, 1
  {
    match t
    case Leaf(addr, args) => [Msg(addr, Normals(args))]
    case Node(_, elems) => AllLeaves(elems)
  }

  function AllLeaves(elems: seq<Tree>): seq<Msg>
    requires forall e <- elems :: Sendable(e)
    decreases elems, 0
  {
    if elems == [] then [] else Leaves(elems[0]) + AllLeaves(elems[1..])
  }

  /** At any depth, decoding the packet of a faithful tree gives exactly its messages in order. */
  lemma {:induction false} BundleRoundTrip(t: Tree)
    requires Sendable(t) && Fits(t) && Faithful(t)
    ensures DecodePacket(Wire(t)) == Ok(Leaves(t))
    decreases t, 1
  {
    match t
    case Leaf(addr, args) =>
      NotABundle(addr, EncodeString([COMMA] + Tags(args)) + Body(args));
      MessageRoundTrip(addr, args);
    case Node(timetag, elems) =>
      var b := Wire(t);
      assert b[..8] == BUNDLE && b[16..] == ElementsWire(elems);
      ElementsRoundTrip(elems);
  }

  lemma {:induction false} ElementsRoundTrip(elems: seq<Tree>)
    requires forall e <- elems :: Sendable(e) && Fits(e) && Faithful(e) && |Wire(e)| < 0x1_0000_0000
    ensures DecodeElements(ElementsWire(elems)) == Ok(AllLeaves(elems))
    decreases elems, 0
  {
    if elems != [] {
      var first, more := elems[0], elems[1..];
      BundleRoundTrip(first);
      ElementsRoundTrip(more);
      OneElement(Wire(first), ElementsWire(more));
    }
  }

  lemma OneElement(element: seq<byte>, rest: seq<byte>)
    requires |element| < 0x1_0000_0000
    ensures DecodeElements(EncodeU32(|element|) + (element + rest)) == Both(DecodePacket(element), DecodeElements(rest))
  {
    U32RoundTrip(|element|, element + rest);
    Split(element, rest);
    ElementStep(EncodeU32(|element|) + (element + rest), |element|, element + rest);
  }

  lemma ElementStep(b: seq<byte>, size: uint32, data: seq<byte>)
    requires |b| >= 4 && DecodeU32(b) == size <= |data| && b[4..] == data
    ensures DecodeElements(b) == Both(DecodePacket(data[..size]), DecodeElements(data[size..]))
  {
  }

  lemma Split<T>(a: seq<T>, b: seq<T>)
    ensures (a + b)[..|a|] == a && (a + b)[|a|..] == b
  {
  }

  // ---------------------------------------------------------------- exactly the faithful trees

  predicate CanonicalMsg(m: Msg) {
    NulFree(m.addr) && AllCanonical(m.args)
  }

  predicate CanonicalMsgs(ms: seq<Msg>) {
    forall k :: 0 <= k < |ms| ==> CanonicalMsg(ms[k])
  }

  lemma CanonicalParts(a: seq<Msg>, b: seq<Msg>)
    requires CanonicalMsgs(a + b)
    ensures CanonicalMsgs(a) && CanonicalMsgs(b)
  {
    assert forall k :: 0 <= k < |a| ==> a[k] == (a + b)[k];
    assert forall k :: 0 <= k < |b| ==> b[k] == (a + b)[|a| + k];
  }

  /** Whatever the bytes, every message decoded from a packet, at any depth, is canonical. */
  lemma {:induction false} PacketCanonical(b: seq<byte>)
    ensures DecodePacket(b).Ok? ==> CanonicalMsgs(DecodePacket(b).value)
    decreases |b|, 1
  {
    if !IsBundle(b) {
      DecodeMessageCanonical(b);
    } else if |b| >= 16 {
      ElementsCanonical(b[16..]);
    }
  }

  lemma {:induction false} ElementsCanonical(rest: seq<byte>)
    ensures DecodeElements(rest).Ok? ==> CanonicalMsgs(DecodeElements(rest).value)
    decreases |rest|, 0
  {
    if |rest| >= 4 {
      var size, data := DecodeU32(rest), rest[4..];
      if size <= |data| {
        PacketCanonical(data[..size]);
        ElementsCanonical(data[size..]);
      }
    }
  }

  lemma {:induction false} FaithfulLeaves(t: Tree)
    requires Sendable(t) && CanonicalMsgs(Leaves(t))
    ensures Faithful(t)
    decreases t, 1
  {
    match t
    case Leaf(addr, args) =>
      assert Leaves(t)[0] == Msg(addr, Normals(args));
      CanonicalNormals(args);
    case Node(_, elems) =>
      assert Leaves(t) == AllLeaves(elems);
      FaithfulElements(elems);
  }

  lemma {:induction false} FaithfulElements(elems: seq<Tree>)
    requires forall e <- elems :: Sendable(e)
    requires CanonicalMsgs(AllLeaves(elems))
    ensures forall e <- elems :: Faithful(e)
    decreases elems, 0
  {
    if elems != [] {
      CanonicalParts(Leaves(elems[0]), AllLeaves(elems[1..]));
      FaithfulLeaves(elems[0]);
      FaithfulElements(elems[1..]);
    }
  }

  /** A tree of messages the encoder accepts comes back in full if and only if the wire can represent them all. */
  lemma BundleRoundTripExactly(t: Tree)
    requires Sendable(t) && Fits(t)
    ensures DecodePacket(Wire(t)) == Ok(Leaves(t)) <==> Faithful(t)
  {
    if Faithful(t) {
      BundleRoundTrip(t);
    }
    if DecodePacket(Wire(t)) == Ok(Leaves(t)) {
      PacketCanonical(Wire(t));
      FaithfulLeaves(t);
    }
  }

  // ---------------------------------------------------------------- counting

  /** A message takes at least one byte, and inside a bundle at least five. */
  lemma {:induction false} MessageCount(b: seq<byte>)
    ensures DecodePacket(b).Ok? ==> 5 * |DecodePacket(b).value| <= |b| + 4
    decreases |b|, 1
  {
    if IsBundle(b) && |b| >= 16 {
      ElementCount(b[16..]);
    } else if !IsBundle(b) && b == [] {
      assert ReadString(b) == NoTerminator;
    }
  }

  lemma {:induction false} ElementCount(rest: seq<byte>)
    ensures DecodeElements(rest).Ok? ==> 5 * |DecodeElements(rest).value| <= |rest|
    decreases |rest|, 0
  {
    if |rest| >= 4 {
      var size, data := DecodeU32(rest), rest[4..];
      if size <= |data| {
        MessageCount(data[..size]);
        ElementCount(data[size..]);
      }
    }
  }

  /**
   A bundle is decoded in full or not at all: putting an element in front of the others gives its messages followed by
   theirs, or the first error.
   */
  lemma NeverPartial(timetag: seq<byte>, element: seq<byte>, others: seq<byte>)
    requires |timetag| == 8 && |element| < 0x1_0000_0000
    ensures DecodePacket(BUNDLE + timetag + (EncodeU32(|element|) + (element + others)))
         == Both(DecodePacket(element), DecodePacket(BUNDLE + timetag + others))
  {
    OneElement(element, others);
    BundleBody(timetag, others);
    BundleBody(timetag, EncodeU32(|element|) + (element + others));
  }

  lemma BundleBody(timetag: seq<byte>, rest: seq<byte>)
    requires |timetag| == 8
    ensures DecodePacket(BUNDLE + timetag + rest) == DecodeElements(rest)
  {
    var b := BUNDLE + timetag + rest;
    assert b[..8] == BUNDLE && b[16..] == rest;
  }

  // ---------------------------------------------------------------- broken bundles

  /** Fewer than sixteen bytes cannot hold the mark and the time tag. */
  lemma ShortBundle(b: seq<byte>)
    requires [35, 98, 117, 110, 100, 108, 101, 0] <= b && |b| < 16
    ensures DecodePacket(b) == Err(BundleTooShort)
  {
    BundleMark(b);
  }

  /** Elements, each behind its length. */
  function Packed(elements: seq<seq<byte>>): seq<byte> {
    if elements == [] then [] else EncodeU32(|elements[0]|) + (elements[0] + Packed(elements[1..]))
  }

  predicate ShortEnough(elements: seq<seq<byte>>) {
    forall k :: 0 <= k < |elements| ==> |elements[k]| < 0x1_0000_0000
  }

  /** The messages of elements that can all be decoded. */
  predicate AllDecode(elements: seq<seq<byte>>, parts: seq<seq<Msg>>) {
    |parts| == |elements| && forall k :: 0 <= k < |elements| ==> DecodePacket(elements[k]) == Ok(parts[k])
  }

  /** Elements in front that can all be decoded put their messages in front, if the rest of the bundle is no error. */
  lemma {:induction false} PackedFront(elements: seq<seq<byte>>, parts: seq<seq<Msg>>, rest: seq<byte>)
    requires ShortEnough(elements) && AllDecode(elements, parts)
    ensures DecodeElements(rest).Ok? ==>
              DecodeElements(Packed(elements) + rest) == Ok(Flatten(parts) + DecodeElements(rest).value)
    ensures DecodeElements(rest).Err? ==> DecodeElements(Packed(elements) + rest) == DecodeElements(rest)
    decreases |elements|
  {
    var later := DecodeElements(rest);
    if elements == [] {
      assert [] + rest == rest;
      assert later.Ok? ==> [] + later.value == later.value;
    } else {
      var first, more := elements[0], Packed(elements[1..]);
      PackedFront(elements[1..], parts[1..], rest);
      OneElement(first, more + rest);
      Regroup(EncodeU32(|first|), first, more, rest);
      if later.Ok? {
        Assoc(parts[0], Flatten(parts[1..]), later.value);
      }
    }
  }

  lemma Regroup<T>(a: seq<T>, b: seq<T>, c: seq<T>, d: seq<T>)
    ensures (a + (b + c)) + d == a + (b + (c + d))
  {
  }

  lemma TooLong(size: uint32, tail: seq<byte>)
    requires |tail| < size
    ensures DecodeElements(EncodeU32(size) + tail) == Err(ElementTooLong(size, |tail|))
  {
    U32RoundTrip(size, tail);
    SmallMod(size);
    RunsPast(EncodeU32(size) + tail, size, tail);
  }

  lemma SmallMod(v: uint32)
    ensures v % 0x1_0000_0000 == v
  {
  }

  lemma RunsPast(b: seq<byte>, size: uint32, data: seq<byte>)
    requires |b| >= 4 && DecodeU32(b) == size > |data| && b[4..] == data
    ensures DecodeElements(b) == Err(ElementTooLong(size, |data|))
  {
  }

  /**
   A bundle is an error as a whole if a length runs past its end, or an element cannot be decoded, however many elements
   before that can be; the first error is reported. Otherwise it holds the messages of all its elements in order, and up
   to three bytes behind them are ignored.
   */
  lemma BundleExactly(timetag: seq<byte>, elements: seq<seq<byte>>, parts: seq<seq<Msg>>, tail: seq<byte>)
    requires |timetag| == 8 && ShortEnough(elements) && AllDecode(elements, parts)
    ensures |tail| < 4 ==> DecodePacket(BUNDLE + timetag + (Packed(elements) + tail)) == Ok(Flatten(parts))
    ensures forall size: uint32 :: |tail| < size ==>
              DecodePacket(BUNDLE + timetag + (Packed(elements) + (EncodeU32(size) + tail)))
              == Err(ElementTooLong(size, |tail|))
    ensures forall bad: seq<byte> :: |bad| < 0x1_0000_0000 && DecodePacket(bad).Err? ==>
              DecodePacket(BUNDLE + timetag + (Packed(elements) + (EncodeU32(|bad|) + (bad + tail))))
              == DecodePacket(bad)
  {
    BundleBody(timetag, Packed(elements) + tail);
    PackedFront(elements, parts, tail);
    assert Flatten(parts) + [] == Flatten(parts);
    forall size: uint32 | |tail| < size
      ensures DecodePacket(BUNDLE + timetag + (Packed(elements) + (EncodeU32(size) + tail)))
           == Err(ElementTooLong(size, |tail|))
    {
      TooLong(size, tail);
      BundleBody(timetag, Packed(elements) + (EncodeU32(size) + tail));
      PackedFront(elements, parts, EncodeU32(size) + tail);
    }
    forall bad: seq<byte> | |bad| < 0x1_0000_0000 && DecodePacket(bad).Err?
      ensures DecodePacket(BUNDLE + timetag + (Packed(elements) + (EncodeU32(|bad|) + (bad + tail))))
           == DecodePacket(bad)
    {
      OneElement(bad, tail);
      BundleBody(timetag, Packed(elements) + (EncodeU32(|bad|) + (bad + tail)));
      PackedFront(elements, parts, EncodeU32(|bad|) + (bad + tail));
    }
  }

  // ---------------------------------------------------------------- truncated bundles

  /** The first n bytes of these elements are the first k of them, and at most three bytes of the next length. */
  predicate CutAt(elems: seq<Tree>, n: nat, k: int)
    requires forall e <- elems :: Sendable(e)
  {
    0 <= k <= |elems| && |ElementsWire(elems[..k])| <= n < |ElementsWire(elems[..k])| + 4
  }

  lemma CutLater(elems: seq<Tree>, n: nat, k: nat)
    requires elems != [] && forall e <- elems :: Sendable(e)
    requires n >= 4 + |Wire(elems[0])|
    ensures CutAt(elems, n, k + 1) <==> CutAt(elems[1..], n - 4 - |Wire(elems[0])|, k)
  {
    if k < |elems| {
      assert elems[..k + 1][0] == elems[0] && elems[..k + 1][1..] == elems[1..][..k];
    }
  }

  lemma CutFirst(elems: seq<Tree>, n: nat, k: nat)
    requires elems != [] && forall e <- elems :: Sendable(e)
    requires 0 < k <= |elems|
    ensures |ElementsWire(elems[..k])| >= 4 + |Wire(elems[0])|
  {
    assert elems[..k][0] == elems[0];
  }

  lemma WireSomething(t: Tree)
    requires Sendable(t)
    ensures |Wire(t)| > 0
  {
  }

  lemma TakeElement(a: seq<byte>, b: seq<byte>, c: seq<byte>, n: nat)
    requires |a| <= n <= |a| + |b| + |c|
    ensures (a + (b + c))[..n] == if n < |a| + |b| then a + b[..n - |a|] else a + (b + c[..n - |a| - |b|])
  {
  }

  /** The first n bytes of some elements: an error, unless they end at an element's end or within the next length. */
  lemma {:induction false} ElementsCut(elems: seq<Tree>, n: nat)
    requires forall e <- elems :: Sendable(e) && Fits(e) && Faithful(e) && |Wire(e)| < 0x1_0000_0000
    requires n <= |ElementsWire(elems)|
    ensures DecodeElements(ElementsWire(elems)[..n]).Ok? <==> exists k :: CutAt(elems, n, k)
    ensures forall k :: CutAt(elems, n, k) ==> DecodeElements(ElementsWire(elems)[..n]) == Ok(AllLeaves(elems[..k]))
    decreases |elems|
  {
    if n < 4 {
      CutAtStart(elems, n);
    } else {
      var first, more := elems[0], elems[1..];
      var w := Wire(first);
      TakeElement(EncodeU32(|w|), w, ElementsWire(more), n);
      if n < 4 + |w| {
        TooLong(|w|, w[..n - 4]);
        CutNowhere(elems, n);
      } else {
        var n' := n - 4 - |w|;
        ElementsCut(more, n');
        ElementFirst(first, ElementsWire(more)[..n'], ElementsWire(elems)[..n]);
        ResultRest(elems, n, n', DecodeElements(ElementsWire(more)[..n']));
      }
    }
  }

  lemma ElementFirst(t: Tree, rest: seq<byte>, b: seq<byte>)
    requires Sendable(t) && Fits(t) && Faithful(t) && |Wire(t)| < 0x1_0000_0000
    requires b == EncodeU32(|Wire(t)|) + (Wire(t) + rest)
    ensures DecodeElements(b) == Both(Ok(Leaves(t)), DecodeElements(rest))
  {
    BundleRoundTrip(t);
    OneElement(Wire(t), rest);
  }

  /** From the result for the later elements to the result for all of them. */
  lemma ResultRest(elems: seq<Tree>, n: nat, n': nat, later: Result<seq<Msg>>)
    requires elems != [] && forall e <- elems :: Sendable(e)
    requires n == n' + 4 + |Wire(elems[0])|
    requires later.Ok? <==> exists k :: CutAt(elems[1..], n', k)
    requires forall k :: CutAt(elems[1..], n', k) ==> later == Ok(AllLeaves(elems[1..][..k]))
    ensures var all := Both(Ok(Leaves(elems[0])), later);
            && (all.Ok? <==> exists k :: CutAt(elems, n, k))
            && (forall k :: CutAt(elems, n, k) ==> all == Ok(AllLeaves(elems[..k])))
  {
    CutRest(elems, n, n');
  }

  lemma CutNowhere(elems: seq<Tree>, n: nat)
    requires elems != [] && forall e <- elems :: Sendable(e)
    requires 4 <= n < 4 + |Wire(elems[0])|
    ensures forall k :: !CutAt(elems, n, k)
  {
    forall k ensures !CutAt(elems, n, k) {
      if 0 < k <= |elems| {
        CutFirst(elems, n, k);
      }
    }
  }

  lemma CutAtStart(elems: seq<Tree>, n: nat)
    requires forall e <- elems :: Sendable(e)
    requires n < 4
    ensures CutAt(elems, n, 0)
    ensures forall k :: CutAt(elems, n, k) ==> k == 0 && AllLeaves(elems[..k]) == []
  {
    assert elems[..0] == [];
    forall k | CutAt(elems, n, k) ensures k == 0 {
      if k > 0 {
        CutFirst(elems, n, k);
      }
    }
  }

  lemma CutRest(elems: seq<Tree>, n: nat, n': nat)
    requires elems != [] && forall e <- elems :: Sendable(e)
    requires n == n' + 4 + |Wire(elems[0])|
    ensures (exists k :: CutAt(elems, n, k)) <==> (exists k :: CutAt(elems[1..], n', k))
    ensures forall k :: CutAt(elems, n, k) ==>
              k > 0 && CutAt(elems[1..], n', k - 1)
              && AllLeaves(elems[..k]) == Leaves(elems[0]) + AllLeaves(elems[1..][..k - 1])
  {
    WireSomething(elems[0]);
    forall k | CutAt(elems, n, k)
      ensures k > 0 && CutAt(elems[1..], n', k - 1)
      ensures AllLeaves(elems[..k]) == Leaves(elems[0]) + AllLeaves(elems[1..][..k - 1])
    {
      assert elems[..0] == [];
      CutLater(elems, n, k - 1);
      assert elems[..k][0] == elems[0] && elems[..k][1..] == elems[1..][..k - 1];
    }
    forall k | CutAt(elems[1..], n', k) ensures CutAt(elems, n, k + 1) {
      CutLater(elems, n, k);
    }
  }

  /** The same for a whole bundle, with its mark and time tag in front. */
  predicate BundleCutAt(t: Tree, n: nat, k: int)
    requires t.Node? && Sendable(t)
  {
    n >= 16 && CutAt(t.elems, n - 16, k)
  }

  lemma CutInHead(t: Tree, n: nat)
    requires t.Node? && Sendable(t) && n <= |Wire(t)| && n < 16
    ensures DecodePacket(Wire(t)[..n]).Err?
  {
    var b := Wire(t)[..n];
    if n >= 8 {
      assert b[..8] == BUNDLE;
    } else {
      assert b == BUNDLE[..n];
      assert 0 !in b;
      BareAddress(b, []);
    }
  }

  lemma CutInElements(t: Tree, n: nat)
    requires t.Node? && Sendable(t) && 16 <= n <= |Wire(t)|
    ensures n - 16 <= |ElementsWire(t.elems)|
    ensures DecodePacket(Wire(t)[..n]) == DecodeElements(ElementsWire(t.elems)[..n - 16])
  {
    assert Wire(t)[..n] == BUNDLE + t.timetag + ElementsWire(t.elems)[..n - 16];
    BundleBody(t.timetag, ElementsWire(t.elems)[..n - 16]);
  }

  /**
   The first n bytes of a bundle decode exactly if they hold its mark and time tag and end where an element does, or
   fewer than four bytes later; and then to the messages of the elements they hold, never to part of an element's.
   */
  lemma BundleCut(t: Tree, n: nat)
    requires t.Node? && Sendable(t) && Fits(t) && Faithful(t) && n <= |Wire(t)|
    ensures DecodePacket(Wire(t)[..n]).Ok? <==> exists k :: BundleCutAt(t, n, k)
    ensures forall k :: BundleCutAt(t, n, k) ==> DecodePacket(Wire(t)[..n]) == Ok(AllLeaves(t.elems[..k]))
  {
    if n < 16 {
      CutInHead(t, n);
    } else {
      CutInElements(t, n);
      var m := n - 16;
      ElementsCut(t.elems, m);
      if k :| CutAt(t.elems, m, k) {
        assert BundleCutAt(t, n, k);
      }
    }
  }
}
