/** IPv4 defragmentation: fragments of a datagram in any order. */
module Defragment {
  import opened Common
  import opened Flow

  /** The header fields that fragments use. */
  datatype IPv4Header = IPv4Header(
    ihl: nat, totalLength: u16, identification: u16, moreFragments: bool, fragmentOffset: u16, protocol: byte,
    srcIp: Bytes4, dstIp: Bytes4)

  /** A captured fragment, its header, and the memory behind the captured bytes. */
  datatype Packet = Packet(header: IPv4Header, fragment: seq<byte>, behind: nat -> byte)

  datatype FragmentGroup = FragmentGroup(identification: u16, srcIp: Bytes4, dstIp: Bytes4)

  datatype FragmentBuffer = FragmentBuffer(
    fragments: map<u16, seq<byte>>, lastFragmentReceived: bool, totalExpectedSize: nat)

  const NEW_BUFFER := FragmentBuffer(map[], false, 0)

  function GroupOf(header: IPv4Header): FragmentGroup {
    FragmentGroup(header.identification, header.srcIp, header.dstIp)
  }

  predicate IsFragment(header: IPv4Header) {
    header.fragmentOffset != 0 || header.moreFragments
  }

  /** The header has the identification and the addresses that the key names. */
  predicate Names(key: FragmentGroup, header: IPv4Header) {
    header.identification == key.identification && header.srcIp == key.srcIp && header.dstIp == key.dstIp
  }

  predicate FragmentOf(header: IPv4Header, key: FragmentGroup) {
    Names(key, header) && (header.fragmentOffset != 0 || header.moreFragments)
  }

  /** Two headers share a group if and only if identification, source and destination agree. */
  lemma SameGroupIff(h: IPv4Header, k: IPv4Header)
    ensures GroupOf(h) == GroupOf(k)
            <==> h.identification == k.identification && h.srcIp == k.srcIp && h.dstIp == k.dstIp
    ensures Names(GroupOf(h), k) <==> GroupOf(k) == GroupOf(h)
  {
  }

  function HeaderLength(header: IPv4Header): nat {
    header.ihl * 4
  }

  /** uint16_t multiplication. */
  function OffsetOf(header: IPv4Header): u16 {
    header.fragmentOffset * 8 % 0x1_0000
  }

  /** If the header is there at all, so is everything up to `totalLength`. */
  predicate Readable(header: IPv4Header, fragment: seq<byte>) {
    |fragment| >= HeaderLength(header) ==> HeaderLength(header) <= header.totalLength <= |fragment|
  }

  /** The bytes from which the payload is copied, in size_t arithmetic. */
  function CopiedRange(header: IPv4Header, size: nat): Option<(nat, nat)> {
    if size < HeaderLength(header) then None
    else Some((HeaderLength(header), HeaderLength(header) + (header.totalLength - HeaderLength(header)) % TWO64))
  }

  /** The copy stays inside the fragment's bytes if and only if the fragment is readable: `totalLength` is compared
      with nothing. */
  lemma CopyStaysInsideIff(header: IPv4Header, fragment: seq<byte>)
    requires |fragment| < TWO64
    ensures
      var range := CopiedRange(header, |fragment|);
      (range.Some? ==> range.value.1 <= |fragment|) <==> Readable(header, fragment)
  {
    var size := header.totalLength - HeaderLength(header);
    if -TWO64 < size < 0 {
      assert size % TWO64 == size + TWO64;
    }
  }

  /** A byte of the fragment, or of whatever memory lies behind it. */
  function ByteAt(fragment: seq<byte>, behind: nat -> byte, i: nat): byte {
    if i < |fragment| then fragment[i] else behind(i - |fragment|)
  }

  /** A range of that memory, as the vector's constructor copies it. */
  function Copied(fragment: seq<byte>, behind: nat -> byte, from: nat, to: nat): (r: seq<byte>)
    requires from <= to
    ensures |r| == to - from && forall i :: 0 <= i < |r| ==> r[i] == ByteAt(fragment, behind, from + i)
  {
    seq<byte>(to - from, i requires 0 <= i => ByteAt(fragment, behind, from + i))
  }

  /** What is copied; None where the copy ends before it begins, for which std::vector throws. */
  function Payload(header: IPv4Header, fragment: seq<byte>, behind: nat -> byte): Option<seq<byte>> {
    if header.totalLength < HeaderLength(header) then None
    else Some(Copied(fragment, behind, HeaderLength(header), header.totalLength))
  }

  /** The payload of a readable fragment is a part of it. */
  lemma ReadablePayload(header: IPv4Header, fragment: seq<byte>, behind: nat -> byte)
    requires |fragment| >= HeaderLength(header) && Readable(header, fragment)
    ensures Payload(header, fragment, behind) == Some(fragment[HeaderLength(header)..header.totalLength])
  {
    assert Copied(fragment, behind, HeaderLength(header), header.totalLength)
        == fragment[HeaderLength(header)..header.totalLength];
  }

  function BufferOf(groups: map<FragmentGroup, FragmentBuffer>, key: FragmentGroup): FragmentBuffer {
    if key in groups then groups[key] else NEW_BUFFER
  }

  /** Store the payload, if there is one; a last fragment fixes the expected size, in size_t arithmetic. */
  function Insert(buf: FragmentBuffer, header: IPv4Header, payload: Option<seq<byte>>): FragmentBuffer {
    var stored :=
      if payload.Some? then buf.(fragments := buf.fragments[OffsetOf(header) := payload.value]) else buf;
    if !header.moreFragments && header.fragmentOffset > 0
    then stored.(lastFragmentReceived := true,
                 totalExpectedSize := (OffsetOf(header) + header.totalLength - HeaderLength(header)) % TWO64)
    else stored
  }

  /** The next key of an ordered map. */
  function NextKey(m: map<u16, seq<byte>>, from: nat): (r: Option<nat>)
    ensures r.Some? ==> from <= r.value < 0x1_0000 && r.value in m
    ensures forall k :: k in m && k >= from ==> r.Some? && r.value <= k
    decreases 0x1_0000 - from
  {
    if from >= 0x1_0000 then None
    else if from in m then Some(from)
    else NextKey(m, from + 1)
  }

  /** The fragments with keys from `from` on, joined, if they leave no gap after `at`. */
  function Assembled(m: map<u16, seq<byte>>, from: nat, at: nat): Option<seq<byte>>
    decreases 0x1_0000 - from
  {
    match NextKey(m, from)
    case None => Some([])
    case Some(off) =>
      if off != at then None
      else
        match Assembled(m, off + 1, at + |m[off]|)
        case None => None
        case Some(rest) => Some(m[off] + rest)
  }

  /** The datagram a buffer amounts to, if it is complete. */
  function Datagram(buf: FragmentBuffer): Option<seq<byte>> {
    if !buf.lastFragmentReceived then None
    else
      match Assembled(buf.fragments, 0, 0)
      case None => None
      case Some(bytes) => if |bytes| == buf.totalExpectedSize then Some(bytes) else None
  }

  /** The buffer with the packet in it; None where the copy throws. A packet shorter than its header has no payload. */
  function Filled(held: FragmentBuffer, p: Packet): Option<FragmentBuffer> {
    if |p.fragment| < HeaderLength(p.header) then Some(Insert(held, p.header, None))
    else
      match Payload(p.header, p.fragment, p.behind)
      case None => None
      case Some(data) => Some(Insert(held, p.header, Some(data)))
  }

  datatype Outcome = Returns(value: Option<seq<byte>>) | Throws

  /** What one packet does to the groups, and what the call comes to. A call that throws leaves its group behind. */
  function Receive(groups: map<FragmentGroup, FragmentBuffer>, p: Packet)
    : (map<FragmentGroup, FragmentBuffer>, Outcome)
  {
    if !IsFragment(p.header) then (groups, Returns(None))
    else
      var key := GroupOf(p.header);
      match Filled(BufferOf(groups, key), p)
      case None => (groups[key := BufferOf(groups, key)], Throws)
      case Some(buf) =>
        match Datagram(buf)
        case None => (groups[key := buf], Returns(None))
        case Some(bytes) => (groups - {key}, Returns(Some(bytes)))
  }

  /** Copying the payload and noting the last fragment. */
  method Fill(held: FragmentBuffer, fragment: seq<byte>, header: IPv4Header, behind: nat -> byte)
    returns (r: Option<FragmentBuffer>)
    ensures r == Filled(held, Packet(header, fragment, behind))
  {
    hide Copied;
    var buf := held;
    var headerLen := header.ihl * 4;
    var fragOffset: u16 := header.fragmentOffset * 8 % 0x1_0000;
    if |fragment| >= headerLen {
      if header.totalLength < headerLen {
        return None;
      }
      buf := buf.(fragments := buf.fragments[fragOffset := Copied(fragment, behind, headerLen, header.totalLength)]);
    }
    if !header.moreFragments && header.fragmentOffset > 0 {
      buf := buf.(lastFragmentReceived := true,
                  totalExpectedSize := (fragOffset + header.totalLength - headerLen) % TWO64);
    }
    return Some(buf);
  }

  class IpDefragmenter {
    var groups: map<FragmentGroup, FragmentBuffer>

    constructor ()
      ensures groups == map[]
    {
      groups := map[];
    }

    method Process(fragment: seq<byte>, header: IPv4Header, behind: nat -> byte) returns (r: Outcome)
      modifies this
      ensures (groups, r) == Receive(old(groups), Packet(header, fragment, behind))
    {
      hide Filled, Datagram, Extent, Joined;
      if header.fragmentOffset == 0 && !header.moreFragments {
        return Returns(None);
      }
      var key := GroupOf(header);
      var buf := if key in groups then groups[key] else NEW_BUFFER;
      groups := groups[key := buf];
      var filled := Fill(buf, fragment, header, behind);
      if filled.None? {
        return Throws;
      }
      buf := filled.value;
      groups := groups[key := buf];
      assert groups == old(groups)[key := buf];
      DatagramByLoops(buf);
      if !buf.lastFragmentReceived {
        return Returns(None);
      }
      var assembled := Contiguous(buf.fragments);
      if assembled.None? || assembled.value != buf.totalExpectedSize {
        return Returns(None);
      }
      var result := Join(buf.fragments);
      groups := groups - {key};
      assert groups == old(groups) - {key};
      return Returns(Some(result));
    }
  }

  function Joined(m: map<u16, seq<byte>>, from: nat): seq<byte>
    decreases 0x1_0000 - from
  {
    match NextKey(m, from)
    case None => []
    case Some(off) => m[off] + Joined(m, off + 1)
  }

  lemma {:induction false} AssembledIsJoined(m: map<u16, seq<byte>>, from: nat, at: nat)
    requires Assembled(m, from, at).Some?
    ensures Assembled(m, from, at).value == Joined(m, from)
    decreases 0x1_0000 - from
  {
    if NextKey(m, from).Some? {
      AssembledIsJoined(m, NextKey(m, from).value + 1, at + |m[NextKey(m, from).value]|);
    }
  }

  /** Where the fragments end, if they leave no gap after `at`. */
  function Extent(m: map<u16, seq<byte>>, from: nat, at: nat): Option<nat> {
    match Assembled(m, from, at)
    case None => None
    case Some(bytes) => Some(at + |bytes|)
  }

  lemma ExtentStep(m: map<u16, seq<byte>>, from: nat, at: nat)
    ensures
      Extent(m, from, at) ==
      match NextKey(m, from)
      case None => Some(at)
      case Some(off) => if off == at then Extent(m, off + 1, at + |m[off]|) else None
  {
    hide NextKey;
  }

  /** The two loops together find the datagram. */
  lemma DatagramByLoops(buf: FragmentBuffer)
    ensures
      Datagram(buf) ==
      if buf.lastFragmentReceived && Extent(buf.fragments, 0, 0) == Some(buf.totalExpectedSize)
      then Some(Joined(buf.fragments, 0)) else None
  {
    if Assembled(buf.fragments, 0, 0).Some? {
      AssembledIsJoined(buf.fragments, 0, 0);
    }
  }

  /** The loop that looks for a gap: the size of the fragments if there is none. */
  method Contiguous(m: map<u16, seq<byte>>) returns (assembled: Option<nat>)
    ensures assembled == Extent(m, 0, 0)
  {
    hide NextKey, Extent;
    var size: nat, from: nat, it := 0, 0, NextKey(m, 0);
    while it.Some?
      invariant it == NextKey(m, from)
      invariant from <= 0x1_0000
      invariant Extent(m, 0, 0) == Extent(m, from, size)
      decreases 0x1_0000 - from
    {
      var off := it.value;
      ExtentStep(m, from, size);
      if off != size {
        return None;
      }
      size := size + |m[off]|;
      from := off + 1;
      it := NextKey(m, from);
    }
    ExtentStep(m, from, size);
    return Some(size);
  }

  lemma JoinedStep(m: map<u16, seq<byte>>, from: nat)
    ensures Joined(m, from) == match NextKey(m, from) case None => [] case Some(off) => m[off] + Joined(m, off + 1)
  {
    hide NextKey;
  }

  /** The loop that joins the fragments. */
  method Join(m: map<u16, seq<byte>>) returns (result: seq<byte>)
    ensures result == Joined(m, 0)
  {
    hide NextKey, Joined;
    result := [];
    var from, it := 0, NextKey(m, 0);
    while it.Some?
      invariant it == NextKey(m, from)
      invariant from <= 0x1_0000
      invariant Joined(m, 0) == result + Joined(m, from)
      decreases 0x1_0000 - from
    {
      var off := it.value;
      JoinedStep(m, from);
      ConcatAssociates(result, m[off], Joined(m, off + 1));
      result := result + m[off];
      from := off + 1;
      it := NextKey(m, from);
    }
    JoinedStep(m, from);
    assert result + [] == result;
  }

  /** Independent reading of `Assembled`: every fragment lies at its own offset, and nothing else is there. */
  lemma {:induction false} AssembledPlacesFragments(m: map<u16, seq<byte>>, from: nat, at: nat, off: u16)
    requires Assembled(m, from, at).Some? && off in m && off >= from
    ensures
      var bytes := Assembled(m, from, at).value;
      && at <= off && off + |m[off]| <= at + |bytes|
      && bytes[off - at..off - at + |m[off]|] == m[off]
    decreases 0x1_0000 - from
  {
    var first := NextKey(m, from).value;
    if off != first {
      AssembledPlacesFragments(m, first + 1, at + |m[first]|, off);
    }
  }

  // ----- Soundness -----

  /** The payload is a piece of the datagram at the fragment's offset, and a last fragment ends where it ends. */
  predicate IsSlice(datagram: seq<byte>, header: IPv4Header, fragment: seq<byte>) {
    var headerLen, off := header.ihl * 4, header.fragmentOffset * 8;
    && off < 0x1_0000
    && headerLen <= header.totalLength <= |fragment|
    && off + (header.totalLength - headerLen) <= |datagram|
    && fragment[headerLen..header.totalLength] == datagram[off..off + (header.totalLength - headerLen)]
    && (!header.moreFragments ==> off + (header.totalLength - headerLen) == |datagram|)
  }

  /** Only pieces of the datagram are buffered. */
  ghost predicate HoldsSlices(datagram: seq<byte>, buf: FragmentBuffer) {
    && (forall off :: off in buf.fragments ==>
          off + |buf.fragments[off]| <= |datagram|
          && buf.fragments[off] == datagram[off..off + |buf.fragments[off]|])
    && (buf.lastFragmentReceived ==> buf.totalExpectedSize == |datagram|)
  }

  lemma HeldSlice(datagram: seq<byte>, buf: FragmentBuffer, off: u16)
    requires HoldsSlices(datagram, buf) && off in buf.fragments
    ensures off + |buf.fragments[off]| <= |datagram|
    ensures buf.fragments[off] == datagram[off..off + |buf.fragments[off]|]
  {
  }

  lemma {:induction false} AssembledSlices(datagram: seq<byte>, buf: FragmentBuffer, from: nat, at: nat)
    requires HoldsSlices(datagram, buf) && at <= |datagram|
    requires Assembled(buf.fragments, from, at).Some?
    ensures
      var bytes := Assembled(buf.fragments, from, at).value;
      at + |bytes| <= |datagram| && bytes == datagram[at..at + |bytes|]
    decreases 0x1_0000 - from
  {
    hide HoldsSlices, NextKey;
    if NextKey(buf.fragments, from).Some? {
      HeldSlice(datagram, buf, at);
      var n := |buf.fragments[at]|;
      AssembledSlices(datagram, buf, at + 1, at + n);
      SliceJoin(datagram, at, at + n, at + |Assembled(buf.fragments, from, at).value|);
    }
  }

  ghost function After(history: seq<Packet>): map<FragmentGroup, FragmentBuffer> {
    if history == [] then map[] else Receive(After(Init(history)), Last(history)).0
  }

  /** What the last packet of a history came to. */
  ghost function Answer(history: seq<Packet>): Outcome
    requires history != []
  {
    Receive(After(Init(history)), Last(history)).1
  }

  /** Fragments of group `key` are slices of `datagram`; other groups are arbitrary. */
  ghost predicate GroupSlices(key: FragmentGroup, datagram: seq<byte>, history: seq<Packet>) {
    forall i :: 0 <= i < |history| && FragmentOf(history[i].header, key) ==>
      IsSlice(datagram, history[i].header, history[i].fragment)
  }

  lemma InsertSlice(datagram: seq<byte>, buf: FragmentBuffer, header: IPv4Header, fragment: seq<byte>)
    requires |datagram| < TWO64
    requires HoldsSlices(datagram, buf) && IsSlice(datagram, header, fragment)
    ensures HoldsSlices(datagram, Insert(buf, header, Some(fragment[HeaderLength(header)..header.totalLength])))
  {
    var off, size := header.fragmentOffset * 8, header.totalLength - HeaderLength(header);
    assert OffsetOf(header) == off && off + size < TWO64;
    assert |fragment[HeaderLength(header)..header.totalLength]| == size;
  }

  /** One packet for the group keeps its buffer a set of slices, and only the datagram can come out. */
  lemma ReceiveSlice(key: FragmentGroup, datagram: seq<byte>, groups: map<FragmentGroup, FragmentBuffer>, p: Packet)
    requires |datagram| < TWO64 && HoldsSlices(datagram, BufferOf(groups, key))
    requires FragmentOf(p.header, key) ==> IsSlice(datagram, p.header, p.fragment)
    ensures
      var (groups', r) := Receive(groups, p);
      && HoldsSlices(datagram, BufferOf(groups', key))
      && (Names(key, p.header) ==> r.Returns? && (r.value.Some? ==> r.value.value == datagram))
  {
    if FragmentOf(p.header, key) {
      ReadablePayload(p.header, p.fragment, p.behind);
      var payload := Some(p.fragment[HeaderLength(p.header)..p.header.totalLength]);
      InsertSlice(datagram, BufferOf(groups, key), p.header, p.fragment);
      var buf := Insert(BufferOf(groups, key), p.header, payload);
      hide Insert, HoldsSlices;
      if Datagram(buf).Some? {
        AssembledIsDatagram(datagram, buf);
      } else {
        NewBufferHoldsNothing(datagram);
      }
      NewBufferHoldsNothing(datagram);
    }
  }

  lemma AssembledIsDatagram(datagram: seq<byte>, buf: FragmentBuffer)
    requires HoldsSlices(datagram, buf) && Datagram(buf).Some?
    ensures Datagram(buf).value == datagram
  {
    AssembledSlices(datagram, buf, 0, 0);
    assert datagram[0..|datagram|] == datagram;
  }

  /** Soundness over every run: if all fragments of a group are slices of one datagram, in any order, overlapping or
      repeated, and whatever arrives for other groups, malformed or cut short, then only that datagram is ever returned
      for the group. */
  lemma {:induction false} NeverAnythingElse(key: FragmentGroup, datagram: seq<byte>, history: seq<Packet>)
    requires |datagram| < TWO64 && GroupSlices(key, datagram, history)
    ensures HoldsSlices(datagram, BufferOf(After(history), key))
    ensures history != [] && Names(key, Last(history).header) ==>
              && Answer(history).Returns?
              && (Answer(history).value.Some? ==> Answer(history).value.value == datagram)
  {
    hide HoldsSlices, Receive, IsSlice;
    if history == [] {
      NewBufferHoldsNothing(datagram);
    } else {
      assert Last(history) == history[|history| - 1];
      NeverAnythingElse(key, datagram, Init(history));
      ReceiveSlice(key, datagram, After(Init(history)), Last(history));
    }
  }

  lemma NewBufferHoldsNothing(datagram: seq<byte>)
    ensures HoldsSlices(datagram, NEW_BUFFER)
  {
  }

  // ----- Fragments that are not readable -----

  /** A fragment cut short by the capture is filled up with whatever lies behind it: of a packet of 1500 bytes captured
      up to byte 60, 1440 bytes of the stored payload were never captured. */
  lemma ForeignBytesAreStored(header: IPv4Header, fragment: seq<byte>, behind: nat -> byte)
    requires HeaderLength(header) <= |fragment| < header.totalLength && header.moreFragments
    ensures
      BufferOf(After([Packet(header, fragment, behind)]), GroupOf(header)).fragments
      == map[header.fragmentOffset * 8 % 0x1_0000 :=
               fragment[HeaderLength(header)..] + Copied([], behind, 0, header.totalLength - |fragment|)]
  {
    var p := Packet(header, fragment, behind);
    var tail := Copied([], behind, 0, header.totalLength - |fragment|);
    assert Payload(header, fragment, behind).value == fragment[HeaderLength(header)..] + tail;
    assert Init([p]) == [] && After([]) == map[];
  }

  lemma CutShortByTheCapture(fragment: seq<byte>, behind: nat -> byte, ip: Bytes4)
    requires |fragment| == 60
    ensures
      var header := IPv4Header(5, 1500, 7, true, 0, 17, ip, ip);
      && !Readable(header, fragment)
      && BufferOf(After([Packet(header, fragment, behind)]), GroupOf(header)).fragments
         == map[0 := fragment[20..] + Copied([], behind, 0, 1440)]
  {
    ForeignBytesAreStored(IPv4Header(5, 1500, 7, true, 0, 17, ip, ip), fragment, behind);
  }

  /** The call throws if and only if the header is there and `totalLength` is less than its length; the group is left
      with what it held. */
  lemma ThrowsIff(groups: map<FragmentGroup, FragmentBuffer>, p: Packet)
    ensures Receive(groups, p).1.Throws?
            <==> (p.header.fragmentOffset != 0 || p.header.moreFragments)
                 && p.header.totalLength < p.header.ihl * 4 <= |p.fragment|
    ensures Receive(groups, p).1.Throws? ==>
              Receive(groups, p).0 == groups[GroupOf(p.header) := BufferOf(groups, GroupOf(p.header))]
  {
  }

  // ----- Offsets and headers beyond the usual -----

  /** The offset in bytes is taken in 16 bits: where `fragmentOffset` needs more than 13 bits, the packet is treated as
      the one with the upper three bits cleared. */
  lemma UpperOffsetBitsAreLost(groups: map<FragmentGroup, FragmentBuffer>, p: Packet)
    requires p.header.fragmentOffset % 8192 != 0
    ensures
      Receive(groups, p) == Receive(groups, p.(header := p.header.(fragmentOffset := p.header.fragmentOffset % 8192)))
  {
    hide BufferOf, Datagram, Copied, OffsetOf;
    SameOffset(p.header);
  }

  lemma SameOffset(header: IPv4Header)
    ensures OffsetOf(header.(fragmentOffset := header.fragmentOffset % 8192)) == OffsetOf(header)
  {
    var n: int := header.fragmentOffset;
    assert n == n / 8192 * 8192 + n % 8192;
  }

  /** A last fragment that is cut off inside its own header brings no bytes, yet it ends the datagram: what the group
      holds without a gap is returned at once if it reaches exactly to the end that the header names. */
  lemma CutHeaderEndsDatagram(
    groups: map<FragmentGroup, FragmentBuffer>, key: FragmentGroup, p: Packet, bytes: seq<byte>)
    requires key in groups && Assembled(groups[key].fragments, 0, 0) == Some(bytes) && |bytes| < TWO64
    requires Names(key, p.header) && !p.header.moreFragments && 0 < p.header.fragmentOffset < 8192
    requires |p.fragment| < p.header.ihl * 4 <= p.header.totalLength
    ensures
      var ends := |bytes| == p.header.fragmentOffset * 8 + p.header.totalLength - p.header.ihl * 4;
      && Receive(groups, p).1 == Returns(if ends then Some(bytes) else None)
      && (ends ==> key !in Receive(groups, p).0)
  {
    SameGroupIff(p.header, p.header);
    assert GroupOf(p.header) == key;
    assert Filled(groups[key], p).value.fragments == groups[key].fragments;
  }
}
