/**
 What the serializers put on the wire, said of the bytes: read back record by record they are the known fields,
 once each, in ascending order and without defaults, and then the unknown fields in order.
 */
module WrittenBytes {
  import opened Options
  import opened WireFormat
  import opened WireTheory
  import opened Decoding
  import opened CodecMeaning
  import C = CursorCodec
  import P = PairCodec
  import S = SentPeersCodec
  import F = ForksCodec
  import D = StatusDataCodec

  /** The records are known ones, varints and length-delimited with these numbers, followed by `unknown`. */
  predicate UnknownLast(fs: seq<Field>, unknown: seq<Field>, varints: set<nat>, lens: set<nat>) {
    var n := |fs| - |unknown|;
    && n >= 0 && fs[n..] == unknown && Ascending(fs[..n])
    && forall i | 0 <= i < n :: (fs[i].Varint? && fs[i].num in varints) || (fs[i].Len? && fs[i].num in lens)
  }

  /** None of the known records is at its default. */
  predicate NoDefaults(fs: seq<Field>, unknown: seq<Field>) {
    forall i | 0 <= i < |fs| - |unknown| :: NotDefault(fs[i])
  }

  /** Known records of an ordered list, then the unknown ones. */
  lemma OrderedThenUnknown(known: seq<Field>, unknown: seq<Field>, varints: set<nat>, lens: set<nat>)
    requires Ascending(known)
    requires forall f | f in known :: (f.Varint? && f.num in varints) || (f.Len? && f.num in lens)
    ensures UnknownLast(known + unknown, unknown, varints, lens)
    ensures (forall f | f in known :: NotDefault(f)) ==> NoDefaults(known + unknown, unknown)
  {
    var fs := known + unknown;
    assert fs[..|known|] == known && fs[|known|..] == unknown;
    assert |fs| - |unknown| == |known|;
  }

  lemma CursorBytes(depth: nat, m: C.Cursor)
    requires |m.bucketName| < 0x8000_0000 && |m.k| < 0x8000_0000 && |m.v| < 0x8000_0000
    requires ValidFields(m.unknown, depth)
    ensures var r := Records(depth, C.Serialize(m));
            r.Some? && UnknownLast(r.value, m.unknown, {1, 3}, {2, 4, 5}) && NoDefaults(r.value, m.unknown)
  {
    hide Records, EncodeFields, UnknownLast, NoDefaults;
    RecordsWritten(depth, C.KnownRecords(m) + m.unknown);
    CursorWrittenInOrder(m);
    OrderedThenUnknown(C.KnownRecords(m), m.unknown, {1, 3}, {2, 4, 5});
  }

  lemma PairBytes(depth: nat, m: P.Pair)
    requires |m.k| < 0x8000_0000 && |m.v| < 0x8000_0000 && ValidFields(m.unknown, depth)
    ensures var r := Records(depth, P.Serialize(m));
            r.Some? && UnknownLast(r.value, m.unknown, {3}, {1, 2}) && NoDefaults(r.value, m.unknown)
  {
    hide Records, EncodeFields, UnknownLast, NoDefaults;
    RecordsWritten(depth, P.KnownRecords(m) + m.unknown);
    PairWrittenInOrder(m);
    OrderedThenUnknown(P.KnownRecords(m), m.unknown, {3}, {1, 2});
  }

  lemma {:induction false} PeerAt(ps: seq<Bytes>)
    ensures |S.PeerRecords(ps)| == |ps| && forall i | 0 <= i < |ps| :: S.PeerRecords(ps)[i] == Len(1, ps[i])
    decreases |ps|
  {
    if ps != [] { PeerAt(ps[1..]); }
  }

  /** One record for each peer, in order, also for empty ones, and then the unknown fields. */
  lemma SentPeersBytes(depth: nat, m: S.SentPeers)
    requires (forall p | p in m.peers :: |p| < 0x8000_0000) && ValidFields(m.unknown, depth)
    ensures var r := Records(depth, S.Serialize(m));
            && r.Some? && |r.value| == |m.peers| + |m.unknown|
            && (forall i | 0 <= i < |m.peers| :: r.value[i] == Len(1, m.peers[i]))
            && r.value[|m.peers|..] == m.unknown
  {
    hide Records, EncodeFields;
    S.PeerRecordsAreValid(depth, m.peers);
    RecordsWritten(depth, S.PeerRecords(m.peers) + m.unknown);
    PeerAt(m.peers);
    assert (S.PeerRecords(m.peers) + m.unknown)[|m.peers|..] == m.unknown;
  }

  /** The forks are always written packed. */
  lemma ForksBytes(depth: nat, m: F.Forks)
    requires |m.genesis| < 0x8000_0000 && |EncodePacked(m.forks)| < 0x8000_0000 && ValidFields(m.unknown, depth)
    ensures var r := Records(depth, F.Serialize(m));
            r.Some? && UnknownLast(r.value, m.unknown, {}, {1, 2}) && NoDefaults(r.value, m.unknown)
  {
    hide Records, EncodeFields, UnknownLast, NoDefaults, EncodePacked;
    RecordsWritten(depth, F.KnownRecords(m) + m.unknown);
    ForksWrittenInOrder(m);
    OrderedThenUnknown(F.KnownRecords(m), m.unknown, {}, {1, 2});
  }

  lemma StatusDataKnown(m: D.StatusData)
    ensures forall f | f in D.KnownRecords(m) ::
              && ((f.Varint? && f.num == 1) || (f.Len? && 2 <= f.num <= 4))
              && (f.num == 4 || NotDefault(f))
              && (f.Len? ==> f.data == m.totalDifficulty || f.data == m.bestHash
                             || (m.forkData.Some? && f.data == F.Serialize(m.forkData.value)))
  {
    hide F.Serialize;
  }

  /** The submessage is the last known record, and the only one that may be empty. */
  lemma StatusDataBytes(depth: nat, m: D.StatusData)
    requires |m.totalDifficulty| < 0x8000_0000 && |m.bestHash| < 0x8000_0000 && ValidFields(m.unknown, depth)
    requires m.forkData.Some? ==> |F.Serialize(m.forkData.value)| < 0x8000_0000
    ensures var r := Records(depth, D.Serialize(m));
            && r.Some? && UnknownLast(r.value, m.unknown, {1}, {2, 3, 4})
            && (forall i | 0 <= i < |r.value| - |m.unknown| :: r.value[i].num == 4 || NotDefault(r.value[i]))
  {
    hide Records, EncodeFields, UnknownLast, F.Serialize, D.KnownRecords, Ascending, NotDefault;
    var known := D.KnownRecords(m);
    StatusDataKnown(m);
    StatusDataWrittenInOrder(m);
    RecordsWritten(depth, known + m.unknown);
    OrderedThenUnknown(known, m.unknown, {1}, {2, 3, 4});
    assert forall i | 0 <= i < |known| :: (known + m.unknown)[i] in known;
  }

  // ---- How deep a submessage may nest ----

  lemma NotEmpty(f: Field)
    ensures EncodeField(f) != []
  {
    TagLength(f.num, WireType(f));
  }

  /** An input that is one group, or no record at all. */
  lemma OneRecord(depth: nat, data: Bytes)
    requires data != []
    ensures var r := ReadField(depth, data);
            && (r.Malformed? ==> Records(depth, data).None?)
            && (r.Record? && r.field.Group? && r.size == |data| ==>
                  Records(depth, data) == Some([r.field]) && AllForks([r.field]) == Some([]))
  {
    hide ReadField;
    var r := ReadField(depth, data);
    if r.Record? && r.size == |data| {
      assert data[r.size..] == [] && [r.field] + [] == [r.field];
      assert [r.field][..0] == [];
    }
  }

  lemma LenIsValid(depth: nat, f: Field)
    requires f.Len? && |f.data| < 0x8000_0000
    ensures ValidFields([f], depth)
  {
  }

  lemma OnePayload(f: Field)
    requires f.Len? && f.num == 4
    ensures Payloads([f], 4) == [f.data] && f.data in Payloads([f], 4)
  {
    assert [f][..0] == [];
  }

  lemma NestedIsGroup(k: nat)
    ensures Nested(k).Group?
  {
  }

  /** A submessage takes one level of the depth that its groups take the rest of. */
  lemma SubmessageDepth(depth: nat, k: nat)
    requires |EncodeField(Nested(k))| < 0x8000_0000
    ensures D.Parse(depth, EncodeField(Len(4, EncodeField(Nested(k))))).Done? <==> k + 1 < depth
  {
    hide Records, EncodeField, EncodeFields, F.Parse, D.Parse, StatusDataOf, AllForks, Nested, ReadField, ValidField;
    var data := EncodeField(Nested(k));
    var f := Len(4, data);
    EncodeOneField(f);
    LenIsValid(depth, f);
    RecordsWritten(depth, [f]);
    StatusDataMeaning(depth, EncodeField(f));
    OnePayload(f);
    if depth > 0 {
      ForksMeaning(depth - 1, data);
      DepthLimit(depth - 1, k, []);
      assert data + [] == data;
      NotEmpty(Nested(k));
      NestedIsGroup(k);
      OneRecord(depth - 1, data);
    }
  }
}
