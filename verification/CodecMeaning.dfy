/**
 What parsing means, said of the list of records in the input and not of the loop that reads it: of a singular
 field the last record counts, a repeated field collects all, a submessage parses all its payloads as one, and
 every other record is kept in order.
 */
module CodecMeaning {
  import opened Options
  import opened WireFormat
  import opened WireTheory
  import opened Decoding
  import opened Utf8
  import C = CursorCodec
  import P = PairCodec
  import S = SentPeersCodec
  import F = ForksCodec
  import D = StatusDataCodec

  /** All records of `s`, if they fill it. */
  function Records(depth: nat, s: Bytes): Option<seq<Field>>
    decreases |s|
  {
    if s == [] then Some([])
    else match ReadField(depth, s)
      case Malformed => None
      case Stop(_, _) => None
      case Record(f, n) =>
        match Records(depth, s[n..])
        case None => None
        case Some(fs) => Some([f] + fs)
  }

  function LastVarint(fs: seq<Field>, num: nat): U64 {
    if fs == [] then 0
    else if fs[|fs| - 1].Varint? && fs[|fs| - 1].num == num then fs[|fs| - 1].value
    else LastVarint(fs[..|fs| - 1], num)
  }

  function LastLen(fs: seq<Field>, num: nat): Bytes {
    if fs == [] then []
    else if fs[|fs| - 1].Len? && fs[|fs| - 1].num == num then fs[|fs| - 1].data
    else LastLen(fs[..|fs| - 1], num)
  }

  function Payloads(fs: seq<Field>, num: nat): seq<Bytes> {
    if fs == [] then []
    else if fs[|fs| - 1].Len? && fs[|fs| - 1].num == num then Payloads(fs[..|fs| - 1], num) + [fs[|fs| - 1].data]
    else Payloads(fs[..|fs| - 1], num)
  }

  /** All records but the varints and the length-delimited ones with these numbers. */
  function Others(fs: seq<Field>, varints: set<nat>, lens: set<nat>): seq<Field> {
    if fs == [] then []
    else
      var front, f := Others(fs[..|fs| - 1], varints, lens), fs[|fs| - 1];
      if (f.Varint? && f.num in varints) || (f.Len? && f.num in lens) then front else front + [f]
  }

  function Joined(parts: seq<Bytes>): Bytes {
    if parts == [] then [] else Joined(parts[..|parts| - 1]) + parts[|parts| - 1]
  }

  /** Decoding is folding over the records, if there is nothing else in the input. */
  lemma {:induction false} DecodeIsFold<M>(apply: Handler<M>, depth: nat, m: M, s: Bytes)
    ensures Decode(apply, depth, m, s).Done? <==>
              Records(depth, s).Some? && Fold(apply, depth, m, Records(depth, s).value).Some?
    ensures Decode(apply, depth, m, s).Done? ==>
              Fold(apply, depth, m, Records(depth, s).value) == Some(Decode(apply, depth, m, s).msg)
    decreases |s|
  {
    hide ReadField;
    if s != [] && ReadField(depth, s).Record? {
      var r := ReadField(depth, s);
      var m' := apply(depth, m, r.field);
      if m'.Some? { DecodeIsFold(apply, depth, m'.value, s[r.size..]); }
      if Records(depth, s).Some? { assert Records(depth, s).value[1..] == Records(depth, s[r.size..]).value; }
    }
  }

  lemma FoldLast<M>(apply: Handler<M>, depth: nat, m: M, fs: seq<Field>)
    requires fs != []
    ensures var front := Fold(apply, depth, m, fs[..|fs| - 1]);
            Fold(apply, depth, m, fs) == if front.None? then None else apply(depth, front.value, fs[|fs| - 1])
  {
    var n := |fs| - 1;
    assert fs == fs[..n] + [fs[n]];
    FoldConcat(apply, depth, m, fs[..n], [fs[n]]);
  }

  /** Written records are read back one by one. */
  lemma {:induction false} RecordsWritten(depth: nat, fs: seq<Field>)
    requires ValidFields(fs, depth)
    ensures Records(depth, EncodeFields(fs)) == Some(fs)
    decreases |fs|
  {
    hide ReadField, EncodeField;
    if fs != [] {
      var first, rest := EncodeField(fs[0]), EncodeFields(fs[1..]);
      FieldRoundTrip(fs[0], depth, rest);
      RecordsWritten(depth, fs[1..]);
      assert (first + rest)[|first|..] == rest;
      assert [fs[0]] + fs[1..] == fs;
      assert |first + rest| > 0;
    }
  }

  /** The bytes end with a tag that stops the reader, after the records `fs`. */
  ghost predicate StopsAfter(depth: nat, s: Bytes, n: nat, fs: seq<Field>, tag: U32) {
    && n <= |s| && Records(depth, s[..n]) == Some(fs)
    && ReadTag(s[n..]).Ok? && ReadTag(s[n..]).value == tag && (tag == 0 || tag % 8 == 4)
  }

  /** Parsing stops where a tag of value zero or an end-group tag comes after complete records, and only there. */
  lemma {:induction false} DecodeStops<M(!new)>(apply: Handler<M>, depth: nat, m: M, s: Bytes, m': M, tag: U32)
    ensures Decode(apply, depth, m, s) == Stopped(m', tag) <==>
              exists n, fs :: StopsAfter(depth, s, n, fs, tag) && Fold(apply, depth, m, fs) == Some(m')
    decreases |s|
  {
    if Decode(apply, depth, m, s) == Stopped(m', tag) {
      var n, fs := StopFound(apply, depth, m, s, m', tag);
    }
    forall n: nat, fs | StopsAfter(depth, s, n, fs, tag) && Fold(apply, depth, m, fs) == Some(m')
      ensures Decode(apply, depth, m, s) == Stopped(m', tag)
    {
      DecodeIsFold(apply, depth, m, s[..n]);
      DecodeConcat(apply, depth, m, s[..n], s[n..]);
      assert s[..n] + s[n..] == s;
      StopHere(apply, depth, m', s[n..]);
    }
  }

  lemma StopHere<M>(apply: Handler<M>, depth: nat, m: M, s: Bytes)
    requires ReadTag(s).Ok? && (ReadTag(s).value == 0 || ReadTag(s).value % 8 == 4)
    ensures Decode(apply, depth, m, s) == Stopped(m, ReadTag(s).value)
  {
    hide ReadField, ReadTag, Decode;
    TagSize(s);
    ReadFieldParts(depth, s);
    DecodeOne(apply, depth, m, s);
  }

  lemma {:induction false} StopFound<M>(
    apply: Handler<M>, depth: nat, m: M, s: Bytes, m': M, tag: U32) returns (n: nat, fs: seq<Field>)
    requires Decode(apply, depth, m, s) == Stopped(m', tag)
    ensures StopsAfter(depth, s, n, fs, tag) && Fold(apply, depth, m, fs) == Some(m')
    decreases |s|
  {
    hide ReadField, ReadTag;
    var r := ReadField(depth, s);
    if r.Stop? {
      StopIsTag(depth, s);
      n, fs := 0, [];
      assert s[..0] == [] && s[0..] == s;
    } else {
      var next := apply(depth, m, r.field).value;
      var k, rest := StopFound(apply, depth, next, s[r.size..], m', tag);
      n, fs := r.size + k, [r.field] + rest;
      assert s[n..] == s[r.size..][k..];
      ReadFieldLocal(depth, s);
      assert s[..n] == s[..r.size] + s[r.size..n];
      ReadFieldPrefix(depth, s[..r.size], s[r.size..n]);
      assert s[..n][r.size..] == s[r.size..][..k];
      FoldCons(apply, depth, m, r.field, rest);
    }
  }

  lemma StopIsTag(depth: nat, s: Bytes)
    requires ReadField(depth, s).Stop?
    ensures ReadTag(s).Ok? && ReadTag(s).value == ReadField(depth, s).tag
    ensures ReadTag(s).value == 0 || ReadTag(s).value % 8 == 4
  {
  }

  // ---- Cursor ----

  /** All bucket names, also the ones that a later one overrides, encode text. */
  ghost predicate NamesAreUtf8(fs: seq<Field>) {
    forall f | f in fs && f.Len? && f.num == 2 :: EncodesText(f.data)
  }

  function CursorOf(fs: seq<Field>): C.Cursor {
    C.Cursor(ToI32(LastVarint(fs, 1)), LastLen(fs, 2), ToU32(LastVarint(fs, 3)), LastLen(fs, 4), LastLen(fs, 5),
             Others(fs, {1, 3}, {2, 4, 5}))
  }

  lemma {:induction false} CursorFold(depth: nat, fs: seq<Field>)
    ensures Fold(C.Apply, depth, C.EMPTY, fs) == if NamesAreUtf8(fs) then Some(CursorOf(fs)) else None
    decreases |fs|
  {
    hide IsUtf8, EncodesText;
    if fs != [] {
      CursorFold(depth, fs[..|fs| - 1]);
      FoldLast(C.Apply, depth, C.EMPTY, fs);
      if fs[|fs| - 1].Len? { Utf8Meaning(fs[|fs| - 1].data); }
      assert fs == fs[..|fs| - 1] + [fs[|fs| - 1]];
    }
  }

  /**
   The Cursor parser accepts exactly the inputs of records whose bucket names are all UTF-8, and the last of
   each field counts.
   */
  lemma CursorMeaning(depth: nat, s: Bytes)
    ensures C.Parse(depth, s).Done? <==> Records(depth, s).Some? && NamesAreUtf8(Records(depth, s).value)
    ensures C.Parse(depth, s).Done? ==> C.Parse(depth, s).msg == CursorOf(Records(depth, s).value)
  {
    DecodeIsFold(C.Apply, depth, C.EMPTY, s);
    if Records(depth, s).Some? { CursorFold(depth, Records(depth, s).value); }
  }

  // ---- Pair ----

  function PairOf(fs: seq<Field>): P.Pair {
    P.Pair(LastLen(fs, 1), LastLen(fs, 2), ToU32(LastVarint(fs, 3)), Others(fs, {3}, {1, 2}))
  }

  lemma {:induction false} PairFold(depth: nat, fs: seq<Field>)
    ensures Fold(P.Apply, depth, P.EMPTY, fs) == Some(PairOf(fs))
    decreases |fs|
  {
    if fs != [] {
      PairFold(depth, fs[..|fs| - 1]);
      FoldLast(P.Apply, depth, P.EMPTY, fs);
    }
  }

  lemma PairMeaning(depth: nat, s: Bytes)
    ensures P.Parse(depth, s).Done? <==> Records(depth, s).Some?
    ensures P.Parse(depth, s).Done? ==> P.Parse(depth, s).msg == PairOf(Records(depth, s).value)
  {
    DecodeIsFold(P.Apply, depth, P.EMPTY, s);
    if Records(depth, s).Some? { PairFold(depth, Records(depth, s).value); }
  }

  // ---- SentPeers ----

  function SentPeersOf(fs: seq<Field>): S.SentPeers {
    S.SentPeers(Payloads(fs, 1), Others(fs, {}, {1}))
  }

  lemma {:induction false} SentPeersFold(depth: nat, fs: seq<Field>)
    ensures Fold(S.Apply, depth, S.EMPTY, fs) == Some(SentPeersOf(fs))
    decreases |fs|
  {
    if fs != [] {
      SentPeersFold(depth, fs[..|fs| - 1]);
      FoldLast(S.Apply, depth, S.EMPTY, fs);
    }
  }

  lemma SentPeersMeaning(depth: nat, s: Bytes)
    ensures S.Parse(depth, s).Done? <==> Records(depth, s).Some?
    ensures S.Parse(depth, s).Done? ==> S.Parse(depth, s).msg == SentPeersOf(Records(depth, s).value)
  {
    DecodeIsFold(S.Apply, depth, S.EMPTY, s);
    if Records(depth, s).Some? { SentPeersFold(depth, Records(depth, s).value); }
  }

  // ---- Forks ----

  /** The values of the fork records, packed or not, in order; `None` if a packed one is malformed. */
  function AllForks(fs: seq<Field>): Option<seq<U64>> {
    if fs == [] then Some([])
    else
      var front, f := AllForks(fs[..|fs| - 1]), fs[|fs| - 1];
      if front.None? then None
      else if f.Varint? && f.num == 2 then Some(front.value + [f.value])
      else if f.Len? && f.num == 2 then
        (match ReadPacked(f.data) case Fail => None case Ok(vs, _) => Some(front.value + vs))
      else front
  }

  lemma {:induction false} ForksFold(depth: nat, fs: seq<Field>)
    ensures Fold(F.Apply, depth, F.EMPTY, fs) ==
            if AllForks(fs).None? then None
            else Some(F.Forks(LastLen(fs, 1), AllForks(fs).value, Others(fs, {2}, {1, 2})))
    decreases |fs|
  {
    if fs != [] {
      ForksFold(depth, fs[..|fs| - 1]);
      FoldLast(F.Apply, depth, F.EMPTY, fs);
    }
  }

  lemma ForksMeaning(depth: nat, s: Bytes)
    ensures F.Parse(depth, s).Done? <==> Records(depth, s).Some? && AllForks(Records(depth, s).value).Some?
    ensures F.Parse(depth, s).Done? ==>
              var fs := Records(depth, s).value;
              F.Parse(depth, s).msg == F.Forks(LastLen(fs, 1), AllForks(fs).value, Others(fs, {2}, {1, 2}))
  {
    DecodeIsFold(F.Apply, depth, F.EMPTY, s);
    if Records(depth, s).Some? { ForksFold(depth, Records(depth, s).value); }
  }

  // ---- StatusData ----

  /** `m` is what the records `fs` say. */
  ghost predicate StatusDataOf(depth: nat, fs: seq<Field>, m: D.StatusData) {
    && m.networkId == LastVarint(fs, 1) && m.totalDifficulty == LastLen(fs, 2) && m.bestHash == LastLen(fs, 3)
    && m.unknown == Others(fs, {1}, {2, 3, 4})
    && (m.forkData.None? <==> Payloads(fs, 4) == [])
    && (m.forkData.Some? ==> depth > 0 && F.Parse(depth - 1, Joined(Payloads(fs, 4))) == Done(m.forkData.value))
  }

  lemma JoinedLast(parts: seq<Bytes>, p: Bytes)
    ensures Joined(parts + [p]) == Joined(parts) + p
  {
    assert (parts + [p])[..|parts|] == parts;
  }

  lemma {:induction false} StatusDataFold(depth: nat, fs: seq<Field>)
    requires Fold(D.Apply, depth, D.EMPTY, fs).Some?
    ensures StatusDataOf(depth, fs, Fold(D.Apply, depth, D.EMPTY, fs).value)
    decreases |fs|
  {
    if fs != [] {
      FoldLast(D.Apply, depth, D.EMPTY, fs);
      var front, f := fs[..|fs| - 1], fs[|fs| - 1];
      StatusDataFold(depth, front);
      if f.Len? && f.num == 4 {
        var prior := Fold(D.Apply, depth, D.EMPTY, front).value.forkData;
        JoinedLast(Payloads(front, 4), f.data);
        if prior.Some? {
          DecodeConcat(F.Apply, depth - 1, F.EMPTY, Joined(Payloads(front, 4)), f.data);
        } else {
          assert Joined([]) + f.data == f.data;
        }
      }
    }
  }

  /** Whether records are accepted does not depend on the message they are parsed into. */
  lemma {:induction false} ForksFoldAnywhere(depth: nat, m: F.Forks, m': F.Forks, fs: seq<Field>)
    ensures Fold(F.Apply, depth, m, fs).Some? <==> Fold(F.Apply, depth, m', fs).Some?
    decreases |fs|
  {
    if fs != [] && F.Apply(depth, m, fs[0]).Some? {
      ForksFoldAnywhere(depth, F.Apply(depth, m, fs[0]).value, F.Apply(depth, m', fs[0]).value, fs[1..]);
    }
  }

  lemma ForkDataAccepted(depth: nat, prior: Option<F.Forks>, data: Bytes)
    ensures D.ParseForks(depth, prior, data).Some? <==> depth > 0 && F.Parse(depth - 1, data).Done?
  {
    if depth > 0 {
      DecodeIsFold(F.Apply, depth - 1, prior.GetOr(F.EMPTY), data);
      DecodeIsFold(F.Apply, depth - 1, F.EMPTY, data);
      if Records(depth - 1, data).Some? {
        ForksFoldAnywhere(depth - 1, prior.GetOr(F.EMPTY), F.EMPTY, Records(depth - 1, data).value);
      }
    }
  }

  /** Each submessage parses by itself. */
  ghost predicate SubmessagesParse(depth: nat, parts: seq<Bytes>) {
    forall p | p in parts :: depth > 0 && F.Parse(depth - 1, p).Done?
  }

  lemma OneMorePart(depth: nat, parts: seq<Bytes>, p: Bytes)
    ensures SubmessagesParse(depth, parts + [p]) <==>
              SubmessagesParse(depth, parts) && depth > 0 && F.Parse(depth - 1, p).Done?
  {
    assert p in parts + [p] && forall q | q in parts :: q in parts + [p];
  }

  lemma {:induction false} StatusDataAccepted(depth: nat, fs: seq<Field>)
    ensures Fold(D.Apply, depth, D.EMPTY, fs).Some? <==> SubmessagesParse(depth, Payloads(fs, 4))
    decreases |fs|
  {
    if fs != [] {
      var front, f := fs[..|fs| - 1], fs[|fs| - 1];
      FoldLast(D.Apply, depth, D.EMPTY, fs);
      StatusDataAccepted(depth, front);
      if f.Len? && f.num == 4 {
        OneMorePart(depth, Payloads(front, 4), f.data);
        if Fold(D.Apply, depth, D.EMPTY, front).Some? {
          ForkDataAccepted(depth, Fold(D.Apply, depth, D.EMPTY, front).value.forkData, f.data);
        }
      }
    }
  }

  /**
   The StatusData parser accepts exactly the inputs of records whose submessages each parse by themselves;
   repeated `fork_data` records parse to what their payloads, put together, parse to.
   */
  lemma StatusDataMeaning(depth: nat, s: Bytes)
    ensures D.Parse(depth, s).Done? <==>
              Records(depth, s).Some? && SubmessagesParse(depth, Payloads(Records(depth, s).value, 4))
    ensures D.Parse(depth, s).Done? ==> StatusDataOf(depth, Records(depth, s).value, D.Parse(depth, s).msg)
  {
    hide StatusDataOf, SubmessagesParse, Records, Payloads;
    DecodeIsFold(D.Apply, depth, D.EMPTY, s);
    if Records(depth, s).Some? {
      StatusDataAccepted(depth, Records(depth, s).value);
      if D.Parse(depth, s).Done? { StatusDataFold(depth, Records(depth, s).value); }
    }
  }

  // ---- What is written ----

  /** Field numbers go up, so each field is written at most once. */
  predicate Ascending(fs: seq<Field>) {
    forall i, j | 0 <= i < j < |fs| :: fs[i].num < fs[j].num
  }

  /** The field's value is not its default. */
  predicate NotDefault(f: Field) {
    (f.Varint? ==> f.value != 0) && (f.Len? ==> |f.data| > 0)
  }

  predicate WellOrdered(fs: seq<Field>) {
    Ascending(fs) && forall r | r in fs :: NotDefault(r)
  }

  /** One more optional field with a higher number. */
  lemma OneMoreField(fs: seq<Field>, r: seq<Field>)
    requires WellOrdered(fs) && |r| <= 1 && forall f, g | f in fs && g in r :: f.num < g.num
    requires forall g | g in r :: NotDefault(g)
    ensures WellOrdered(fs + r)
  {
  }

  /** Known fields are written in the order of their numbers and skipped at their defaults. */
  lemma CursorWrittenInOrder(m: C.Cursor)
    ensures WellOrdered(C.KnownRecords(m))
  {
    hide WellOrdered;
    var r1, r2, r3 := OptVarint(1, SignExtend(m.op)), OptLen(2, m.bucketName), OptVarint(3, m.cursor);
    var r4, r5 := OptLen(4, m.k), OptLen(5, m.v);
    NoneOrdered();
    OneMoreField([], r1);
    assert [] + r1 == r1;
    OneMoreField(r1, r2);
    OneMoreField(r1 + r2, r3);
    OneMoreField(r1 + r2 + r3, r4);
    OneMoreField(r1 + r2 + r3 + r4, r5);
  }

  lemma PairWrittenInOrder(m: P.Pair)
    ensures WellOrdered(P.KnownRecords(m))
  {
  }

  lemma ForksWrittenInOrder(m: F.Forks)
    ensures WellOrdered(F.KnownRecords(m))
  {
  }

  lemma ScalarsWrittenInOrder(m: D.StatusData)
    ensures WellOrdered(D.ScalarRecords(m)) && forall r | r in D.ScalarRecords(m) :: r.num < 4
  {
    hide WellOrdered;
    var r1, r2, r3 := OptVarint(1, m.networkId), OptLen(2, m.totalDifficulty), OptLen(3, m.bestHash);
    NoneOrdered();
    OneMoreField([], r1);
    assert [] + r1 == r1;
    OneMoreField(r1, r2);
    OneMoreField(r1 + r2, r3);
  }

  /** The submessage comes last, and is written even when it is empty. */
  lemma StatusDataWrittenInOrder(m: D.StatusData)
    ensures WellOrdered(D.ScalarRecords(m)) && Ascending(D.KnownRecords(m))
    ensures m.forkData.Some? <==> exists r :: r in D.KnownRecords(m) && r.num == 4
  {
    ScalarsWrittenInOrder(m);
    hide D.ScalarRecords, F.Serialize;
    if m.forkData.Some? { assert Len(4, F.Serialize(m.forkData.value)) in D.KnownRecords(m); }
  }

  lemma NoneOrdered()
    ensures WellOrdered([])
  {
  }
}
