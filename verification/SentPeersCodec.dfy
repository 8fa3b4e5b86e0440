/** `sentry.SentPeers`: a repeated bytes field. */
module SentPeersCodec {
  import opened Options
  import opened WireFormat
  import opened WireTheory
  import opened Decoding

  datatype SentPeers = SentPeers(peers: seq<Bytes>, unknown: seq<Field>)

  const EMPTY: SentPeers := SentPeers([], [])

  predicate IsKnown(f: Field) {
    f.Len? && f.num == 1
  }

  function Apply(depth: nat, m: SentPeers, f: Field): Option<SentPeers> {
    if IsKnown(f) then Some(m.(peers := m.peers + [f.data]))
    else Some(m.(unknown := m.unknown + [f]))
  }

  function Parse(depth: nat, s: Bytes): Outcome<SentPeers> {
    Decode(Apply, depth, EMPTY, s)
  }

  /** One record per peer; an empty peer is written too. */
  function PeerRecords(ps: seq<Bytes>): seq<Field> {
    if ps == [] then [] else [Len(1, ps[0])] + PeerRecords(ps[1..])
  }

  function Serialize(m: SentPeers): Bytes {
    EncodeFields(PeerRecords(m.peers) + m.unknown)
  }

  function Merge(a: SentPeers, b: SentPeers): SentPeers {
    SentPeers(a.peers + b.peers, a.unknown + b.unknown)
  }

  predicate WellFormed(depth: nat, m: SentPeers) {
    && (forall p | p in m.peers :: |p| < TWO31)
    && ValidFields(m.unknown, depth)
    && forall f | f in m.unknown :: !IsKnown(f)
  }

  // ---- Lemmas ----

  lemma {:induction false} FoldPeers(depth: nat, m: SentPeers, ps: seq<Bytes>)
    ensures Fold(Apply, depth, m, PeerRecords(ps)) == Some(m.(peers := m.peers + ps))
    decreases |ps|
  {
    if ps == [] {
      assert m.peers + ps == m.peers;
    } else {
      var m' := m.(peers := m.peers + [ps[0]]);
      FoldCons(Apply, depth, m, Len(1, ps[0]), PeerRecords(ps[1..]));
      FoldPeers(depth, m', ps[1..]);
      assert m'.peers + ps[1..] == m.peers + ps;
    }
  }

  lemma FoldUnknown(depth: nat, m: SentPeers, us: seq<Field>)
    requires forall f | f in us :: !IsKnown(f)
    ensures Fold(Apply, depth, m, us) == Some(m.(unknown := m.unknown + us))
  {
    FoldStored(Apply, depth, m, us, (m: SentPeers) => m.unknown, (m: SentPeers, a: seq<Field>) => m.(unknown := a));
  }

  lemma {:induction false} PeerRecordsAreValid(depth: nat, ps: seq<Bytes>)
    requires forall p | p in ps :: |p| < TWO31
    ensures ValidFields(PeerRecords(ps), depth)
  {
    if ps != [] {
      assert ps[0] in ps;
      PeerRecordsAreValid(depth, ps[1..]);
    }
  }

  lemma DecodeSerialized(depth: nat, a: SentPeers, b: SentPeers)
    requires WellFormed(depth, b)
    ensures Decode(Apply, depth, a, Serialize(b)) == Done(Merge(a, b))
  {
    PeerRecordsAreValid(depth, b.peers);
    DecodeWritten(Apply, depth, a, PeerRecords(b.peers) + b.unknown, []);
    assert Serialize(b) + [] == Serialize(b);
    FoldConcat(Apply, depth, a, PeerRecords(b.peers), b.unknown);
    FoldPeers(depth, a, b.peers);
    FoldUnknown(depth, a.(peers := a.peers + b.peers), b.unknown);
  }

  lemma ParsedIsWellFormed(depth: nat, s: Bytes)
    requires Parse(depth, s).Done?
    ensures WellFormed(depth, Parse(depth, s).msg)
  {
    DecodeKeeps(Apply, WellFormed, depth, EMPTY, s);
  }

  lemma MergeMonoid(a: SentPeers, b: SentPeers, c: SentPeers)
    ensures Merge(EMPTY, a) == a && Merge(a, EMPTY) == a
    ensures Merge(Merge(a, b), c) == Merge(a, Merge(b, c))
  {
    assert [] + a.peers == a.peers && [] + a.unknown == a.unknown;
    assert a.peers + b.peers + c.peers == a.peers + (b.peers + c.peers);
    assert a.unknown + b.unknown + c.unknown == a.unknown + (b.unknown + c.unknown);
  }

  lemma RoundTrip(depth: nat, m: SentPeers)
    ensures Parse(depth, Serialize(m)) == Done(m) <==> WellFormed(depth, m)
  {
    if WellFormed(depth, m) {
      DecodeSerialized(depth, EMPTY, m);
      MergeMonoid(m, m, m);
    }
    if Parse(depth, Serialize(m)) == Done(m) {
      ParsedIsWellFormed(depth, Serialize(m));
    }
  }

  lemma Canonical(depth: nat, s: Bytes)
    requires Parse(depth, s).Done?
    ensures Parse(depth, Serialize(Parse(depth, s).msg)) == Parse(depth, s)
  {
    ParsedIsWellFormed(depth, s);
    RoundTrip(depth, Parse(depth, s).msg);
  }

  lemma ConcatIsMerge(depth: nat, s: Bytes, b: SentPeers)
    requires Parse(depth, s).Done? && WellFormed(depth, b)
    ensures Parse(depth, s + Serialize(b)) == Done(Merge(Parse(depth, s).msg, b))
  {
    DecodeConcat(Apply, depth, EMPTY, s, Serialize(b));
    DecodeSerialized(depth, Parse(depth, s).msg, b);
  }

  function PeersSize(ps: seq<Bytes>): nat {
    if ps == [] then 0 else 1 + LenSize(|ps[0]|) + PeersSize(ps[1..])
  }

  lemma {:induction false} PeersSizeIsLength(ps: seq<Bytes>)
    ensures FieldsSize(PeerRecords(ps)) == PeersSize(ps)
  {
    if ps != [] {
      PeersSizeIsLength(ps[1..]);
      assert PeerRecords(ps)[1..] == PeerRecords(ps[1..]);
      assert FieldSize(Len(1, ps[0])) == 1 + LenSize(|ps[0]|);
    }
  }

  lemma SizeIsLength(m: SentPeers)
    ensures |Serialize(m)| == PeersSize(m.peers) + FieldsSize(m.unknown)
  {
    PeersSizeIsLength(m.peers);
    FieldsSizeConcat(PeerRecords(m.peers), m.unknown);
    EncodedFieldsLength(PeerRecords(m.peers) + m.unknown);
  }

  lemma {:induction false} PeersSizeLast(ps: seq<Bytes>, p: Bytes)
    ensures PeersSize(ps + [p]) == PeersSize(ps) + 1 + LenSize(|p|)
    ensures PeerRecords(ps + [p]) == PeerRecords(ps) + [Len(1, p)]
  {
    if ps == [] {
      assert ps + [p] == [p];
    } else {
      assert (ps + [p])[1..] == ps[1..] + [p];
      PeersSizeLast(ps[1..], p);
    }
  }

  /** The tag of a peer read the short way, as one byte, is the tag the general reader sees. */
  lemma ExpectTag(ptr: Bytes)
    requires ptr != [] && ptr[0] == 10
    ensures ReadTag(ptr) == Ok(10, 1)
  {
  }

  /** One turn of the parse loop over a peer, and over anything else. */
  lemma DecodePeer(depth: nat, m: SentPeers, ptr: Bytes)
    requires ReadTag(ptr).Ok? && ReadTag(ptr).value == 10
    ensures var s := ptr[ReadTag(ptr).size..];
            Decode(Apply, depth, m, ptr) ==
            if ReadLen(s).Fail? then Failed
            else Decode(Apply, depth, m.(peers := m.peers + [ReadLen(s).value]), s[ReadLen(s).size..])
  {
    var n := ReadTag(ptr).size;
    var s := ptr[n..];
    assert ReadPayload(depth, 10, s) ==
           if ReadLen(s).Fail? then Fail else Ok(Len(1, ReadLen(s).value), ReadLen(s).size);
    if ReadLen(s).Ok? {
      assert ptr[n + ReadLen(s).size..] == s[ReadLen(s).size..];
    }
  }

  lemma DecodeOther(depth: nat, m: SentPeers, ptr: Bytes)
    requires ReadTag(ptr).Ok? && ReadTag(ptr).value != 10
    ensures var tag := ReadTag(ptr).value;
            var s := ptr[ReadTag(ptr).size..];
            Decode(Apply, depth, m, ptr) ==
            if tag == 0 || tag % 8 == 4 then Stopped(m, tag)
            else if ReadPayload(depth, tag, s).Fail? then Failed
            else Decode(Apply, depth, m.(unknown := m.unknown + [ReadPayload(depth, tag, s).value]),
                        s[ReadPayload(depth, tag, s).size..])
  {
    var n, tag := ReadTag(ptr).size, ReadTag(ptr).value;
    var s := ptr[n..];
    if ReadPayload(depth, tag, s).Ok? {
      PayloadKind(depth, tag, s);
      assert ptr[n + ReadPayload(depth, tag, s).size..] == s[ReadPayload(depth, tag, s).size..];
    }
  }

  // ---- The message object ----

  class SentPeersMessage {
    var peers: seq<Bytes>
    var unknown: seq<Field>
    var cachedSize: I32

    function Value(): SentPeers
      reads this
    {
      SentPeers(peers, unknown)
    }

    constructor ()
      ensures Value() == EMPTY
    {
      peers, unknown, cachedSize := [], [], 0;
    }

    method Clear()
      modifies this
      ensures Value() == EMPTY && cachedSize == old(cachedSize)
    {
      peers := [];
      unknown := [];
    }

    method InternalParse(s: Bytes, depth: nat) returns (end: ParseEnd)
      modifies this
      ensures Ends(Decode(Apply, depth, old(Value()), s), end, Value())
    {
      var ptr := s;
      while ptr != []
        invariant Decode(Apply, depth, Value(), ptr) == Decode(Apply, depth, old(Value()), s)
        decreases |ptr|
      {
        var tag := ReadTag(ptr);
        if tag.Fail? { return NullPtr; }
        assert tag.value / 8 == 1 && tag.value % 256 == 10 <==> tag.value == 10;
        if tag.value == 10 { DecodePeer(depth, Value(), ptr); } else { DecodeOther(depth, Value(), ptr); }
        ptr := ptr[tag.size..];
        if tag.value / 8 == 1 && tag.value % 256 == 10 {
          var next := ParsePeers(ptr, depth);
          if next.Return? { return next.end; }
          ptr := next.ptr;
        } else {
          if tag.value % 8 == 4 || tag.value == 0 { return AtTag(tag.value); }
          var field := ReadPayload(depth, tag.value, ptr);
          if field.Fail? { return NullPtr; }
          unknown, ptr := unknown + [field.value], ptr[field.size..];
        }
      }
      end := AtLimit;
    }

    /**
     A run of peers: the do-while loop, which tests for the next peer's tag byte by itself and does not go
     back to the switch.  It has the effect of reading the first peer and decoding on.
     */
    method ParsePeers(s: Bytes, depth: nat) returns (next: Next)
      modifies this
      ensures ReadLen(s).Fail? ==> next == Return(NullPtr)
      ensures ReadLen(s).Ok? ==>
                var first := old(Value()).(peers := old(peers) + [ReadLen(s).value]);
                var rest := Decode(Apply, depth, first, s[ReadLen(s).size..]);
                match next
                case Return(end) => end == NullPtr && rest == Failed
                case Continue(ptr) => |ptr| < |s| && Decode(Apply, depth, Value(), ptr) == rest
    {
      var str := ReadLen(s);
      if str.Fail? { return Return(NullPtr); }
      peers := peers + [str.value];
      var ptr := s[str.size..];
      ghost var rest := Decode(Apply, depth, Value(), ptr);
      while ptr != [] && ptr[0] == 10
        invariant |ptr| < |s| && Decode(Apply, depth, Value(), ptr) == rest
        decreases |ptr|
      {
        ExpectTag(ptr);
        DecodePeer(depth, Value(), ptr);
        ptr := ptr[1..];
        str := ReadLen(ptr);
        if str.Fail? { return Return(NullPtr); }
        peers := peers + [str.value];
        ptr := ptr[str.size..];
      }
      next := Continue(ptr);
    }

    method InternalSerialize(target: Bytes) returns (out: Bytes)
      ensures out == target + Serialize(Value())
    {
      out := target;
      for i := 0 to |peers|
        invariant out == target + EncodeFields(PeerRecords(peers[..i]))
      {
        PeersSizeLast(peers[..i], peers[i]);
        assert peers[..i + 1] == peers[..i] + [peers[i]];
        EncodeFieldsConcat(PeerRecords(peers[..i]), [Len(1, peers[i])]);
        EncodeOneField(Len(1, peers[i]));
        out := out + EncodeTag(1, 2) + EncodeLen(peers[i]);
      }
      assert peers[..|peers|] == peers;
      PutUnknownAppends(target, PeerRecords(peers), unknown);
      if unknown != [] {
        out := out + EncodeFields(unknown);
      } else {
        assert PeerRecords(peers) + unknown == PeerRecords(peers);
      }
    }

    method ByteSizeLong() returns (totalSize: nat)
      modifies this`cachedSize
      ensures totalSize == |Serialize(Value())|
      ensures cachedSize == ToI32(totalSize)
    {
      totalSize := |peers|;
      for i := 0 to |peers|
        invariant totalSize == |peers| - i + PeersSize(peers[..i])
      {
        PeersSizeLast(peers[..i], peers[i]);
        assert peers[..i + 1] == peers[..i] + [peers[i]];
        totalSize := totalSize + LenSize(|peers[i]|);
      }
      assert peers[..|peers|] == peers;
      SizeIsLength(Value());
      if unknown != [] {
        totalSize := totalSize + FieldsSize(unknown);
        cachedSize := ToI32(totalSize);
        return;
      }
      cachedSize := ToI32(totalSize);
    }

    method MergeFrom(from: SentPeersMessage)
      requires from != this
      modifies this
      ensures Value() == Merge(old(Value()), from.Value())
    {
      unknown := unknown + from.unknown;
      peers := peers + from.peers;
    }

    method CopyFrom(from: SentPeersMessage)
      modifies this
      ensures Value() == old(from.Value())
    {
      if from == this { return; }
      Clear();
      MergeMonoid(from.Value(), from.Value(), from.Value());
      MergeFrom(from);
    }
  }
}
