/**
 When parsing two inputs in a row is merging what each of them parses to.  The parser lets a later record override
 an earlier one whatever its value; merging skips values at their default.  So the two agree exactly if each
 singular field that the second input mentions, and yet leaves at its default, is at its default in the first.
 */
module Concatenation {
  import opened Options
  import opened WireFormat
  import opened WireTheory
  import opened Decoding
  import opened CodecMeaning
  import C = CursorCodec
  import P = PairCodec
  import S = SentPeersCodec
  import F = ForksCodec
  import D = StatusDataCodec

  // ---- Records of two inputs in a row ----

  lemma {:induction false} RecordsConcat(depth: nat, s: Bytes, t: Bytes)
    requires Records(depth, s).Some? && Records(depth, t).Some?
    ensures Records(depth, s + t) == Some(Records(depth, s).value + Records(depth, t).value)
    decreases |s|
  {
    hide ReadField;
    if s == [] {
      assert s + t == t && [] + Records(depth, t).value == Records(depth, t).value;
    } else {
      var r := ReadField(depth, s);
      ReadFieldPrefix(depth, s, t);
      assert (s + t)[r.size..] == s[r.size..] + t;
      RecordsConcat(depth, s[r.size..], t);
      assert [r.field] + Records(depth, s[r.size..]).value + Records(depth, t).value ==
             [r.field] + (Records(depth, s[r.size..]).value + Records(depth, t).value);
    }
  }

  /** Some record is a varint with number `num`. */
  predicate HasVarint(fs: seq<Field>, num: nat) {
    exists f :: f in fs && f.Varint? && f.num == num
  }

  predicate HasLen(fs: seq<Field>, num: nat) {
    exists f :: f in fs && f.Len? && f.num == num
  }

  lemma Shorter(fs: seq<Field>, gs: seq<Field>)
    requires gs != []
    ensures (fs + gs)[..|fs + gs| - 1] == fs + gs[..|gs| - 1] && (fs + gs)[|fs + gs| - 1] == gs[|gs| - 1]
    ensures forall f :: f in gs <==> f in gs[..|gs| - 1] || f == gs[|gs| - 1]
  {
    assert gs == gs[..|gs| - 1] + [gs[|gs| - 1]];
  }

  lemma {:induction false} LastVarintConcat(fs: seq<Field>, gs: seq<Field>, num: nat)
    ensures LastVarint(fs + gs, num) == if HasVarint(gs, num) then LastVarint(gs, num) else LastVarint(fs, num)
    ensures !HasVarint(gs, num) ==> LastVarint(gs, num) == 0
    decreases |gs|
  {
    if gs == [] {
      assert fs + gs == fs;
    } else {
      Shorter(fs, gs);
      LastVarintConcat(fs, gs[..|gs| - 1], num);
    }
  }

  lemma {:induction false} LastLenConcat(fs: seq<Field>, gs: seq<Field>, num: nat)
    ensures LastLen(fs + gs, num) == if HasLen(gs, num) then LastLen(gs, num) else LastLen(fs, num)
    ensures !HasLen(gs, num) ==> LastLen(gs, num) == []
    decreases |gs|
  {
    if gs == [] {
      assert fs + gs == fs;
    } else {
      Shorter(fs, gs);
      LastLenConcat(fs, gs[..|gs| - 1], num);
    }
  }

  lemma {:induction false} PayloadsConcat(fs: seq<Field>, gs: seq<Field>, num: nat)
    ensures Payloads(fs + gs, num) == Payloads(fs, num) + Payloads(gs, num)
    decreases |gs|
  {
    if gs == [] {
      assert fs + gs == fs && Payloads(fs, num) + [] == Payloads(fs, num);
    } else {
      Shorter(fs, gs);
      PayloadsConcat(fs, gs[..|gs| - 1], num);
    }
  }

  lemma {:induction false} OthersConcat(fs: seq<Field>, gs: seq<Field>, varints: set<nat>, lens: set<nat>)
    ensures Others(fs + gs, varints, lens) == Others(fs, varints, lens) + Others(gs, varints, lens)
    decreases |gs|
  {
    if gs == [] {
      assert fs + gs == fs && Others(fs, varints, lens) + [] == Others(fs, varints, lens);
    } else {
      Shorter(fs, gs);
      OthersConcat(fs, gs[..|gs| - 1], varints, lens);
    }
  }

  lemma {:induction false} AllForksConcat(fs: seq<Field>, gs: seq<Field>)
    requires AllForks(fs).Some? && AllForks(gs).Some?
    ensures AllForks(fs + gs) == Some(AllForks(fs).value + AllForks(gs).value)
    decreases |gs|
  {
    if gs == [] {
      assert fs + gs == fs && AllForks(fs).value + [] == AllForks(fs).value;
    } else {
      Shorter(fs, gs);
      var front, g := gs[..|gs| - 1], gs[|gs| - 1];
      AllForksConcat(fs, front);
      assert forall vs: seq<U64> ::
          AllForks(fs).value + AllForks(front).value + vs == AllForks(fs).value + (AllForks(front).value + vs);
    }
  }

  lemma {:induction false} JoinedConcat(ps: seq<Bytes>, qs: seq<Bytes>)
    ensures Joined(ps + qs) == Joined(ps) + Joined(qs)
    decreases |qs|
  {
    if qs == [] {
      assert ps + qs == ps && Joined(ps) + [] == Joined(ps);
    } else {
      var n := |qs| - 1;
      assert qs == qs[..n] + [qs[n]] && ps + qs == ps + qs[..n] + [qs[n]];
      JoinedLast(ps + qs[..n], qs[n]);
      JoinedLast(qs[..n], qs[n]);
      JoinedConcat(ps, qs[..n]);
    }
  }

  // ---- Cursor ----

  /** Each field that the records `r` mention and that `b` has at its default is at its default in `a`. */
  predicate CursorMergeable(a: C.Cursor, b: C.Cursor, r: seq<Field>) {
    && (HasVarint(r, 1) && b.op == 0 ==> a.op == 0)
    && (HasLen(r, 2) && b.bucketName == [] ==> a.bucketName == [])
    && (HasVarint(r, 3) && b.cursor == 0 ==> a.cursor == 0)
    && (HasLen(r, 4) && b.k == [] ==> a.k == [])
    && (HasLen(r, 5) && b.v == [] ==> a.v == [])
  }

  lemma CursorRecordsConcat(fs: seq<Field>, gs: seq<Field>)
    ensures var a, b := CursorOf(fs), CursorOf(gs);
            CursorOf(fs + gs) == C.Merge(a, b) <==> CursorMergeable(a, b, gs)
  {
    hide LastVarint, LastLen, Others, HasVarint, HasLen;
    LastVarintConcat(fs, gs, 1);
    LastLenConcat(fs, gs, 2);
    LastVarintConcat(fs, gs, 3);
    LastLenConcat(fs, gs, 4);
    LastLenConcat(fs, gs, 5);
    OthersConcat(fs, gs, {1, 3}, {2, 4, 5});
  }

  /** Two accepted inputs in a row are accepted, and are the merge of both if and only if nothing is overridden. */
  lemma CursorConcatenation(depth: nat, s: Bytes, t: Bytes)
    requires C.Parse(depth, s).Done? && C.Parse(depth, t).Done?
    ensures var a, b := C.Parse(depth, s).msg, C.Parse(depth, t).msg;
            && C.Parse(depth, s + t).Done? && Records(depth, t).Some?
            && (C.Parse(depth, s + t) == Done(C.Merge(a, b)) <==> CursorMergeable(a, b, Records(depth, t).value))
  {
    hide C.Parse, Records, C.Merge, CursorOf, CursorMergeable;
    CursorMeaning(depth, s);
    CursorMeaning(depth, t);
    CursorMeaning(depth, s + t);
    RecordsConcat(depth, s, t);
    CursorRecordsConcat(Records(depth, s).value, Records(depth, t).value);
  }

  // ---- Pair ----

  predicate PairMergeable(a: P.Pair, b: P.Pair, r: seq<Field>) {
    && (HasLen(r, 1) && b.k == [] ==> a.k == [])
    && (HasLen(r, 2) && b.v == [] ==> a.v == [])
    && (HasVarint(r, 3) && b.cursorId == 0 ==> a.cursorId == 0)
  }

  lemma PairConcatenation(depth: nat, s: Bytes, t: Bytes)
    requires P.Parse(depth, s).Done? && P.Parse(depth, t).Done?
    ensures var a, b := P.Parse(depth, s).msg, P.Parse(depth, t).msg;
            && P.Parse(depth, s + t).Done? && Records(depth, t).Some?
            && (P.Parse(depth, s + t) == Done(P.Merge(a, b)) <==> PairMergeable(a, b, Records(depth, t).value))
  {
    hide P.Parse, Records, LastVarint, LastLen, Others, HasVarint, HasLen;
    PairMeaning(depth, s);
    PairMeaning(depth, t);
    PairMeaning(depth, s + t);
    RecordsConcat(depth, s, t);
    var fs, gs := Records(depth, s).value, Records(depth, t).value;
    LastLenConcat(fs, gs, 1);
    LastLenConcat(fs, gs, 2);
    LastVarintConcat(fs, gs, 3);
    OthersConcat(fs, gs, {3}, {1, 2});
  }

  // ---- SentPeers ----

  /** With no singular field there is nothing to override: concatenation is always merging. */
  lemma SentPeersConcatenation(depth: nat, s: Bytes, t: Bytes)
    requires S.Parse(depth, s).Done? && S.Parse(depth, t).Done?
    ensures S.Parse(depth, s + t) == Done(S.Merge(S.Parse(depth, s).msg, S.Parse(depth, t).msg))
  {
    hide S.Parse, Records, Payloads, Others;
    SentPeersMeaning(depth, s);
    SentPeersMeaning(depth, t);
    SentPeersMeaning(depth, s + t);
    RecordsConcat(depth, s, t);
    PayloadsConcat(Records(depth, s).value, Records(depth, t).value, 1);
    OthersConcat(Records(depth, s).value, Records(depth, t).value, {}, {1});
  }

  // ---- Forks ----

  predicate ForksMergeable(a: F.Forks, b: F.Forks, r: seq<Field>) {
    HasLen(r, 1) && b.genesis == [] ==> a.genesis == []
  }

  lemma ForksConcatenation(depth: nat, s: Bytes, t: Bytes)
    requires F.Parse(depth, s).Done? && F.Parse(depth, t).Done?
    ensures var a, b := F.Parse(depth, s).msg, F.Parse(depth, t).msg;
            && F.Parse(depth, s + t).Done? && Records(depth, t).Some?
            && (F.Parse(depth, s + t) == Done(F.Merge(a, b)) <==> ForksMergeable(a, b, Records(depth, t).value))
  {
    hide F.Parse, Records, LastLen, AllForks, Others, HasLen;
    ForksMeaning(depth, s);
    ForksMeaning(depth, t);
    ForksMeaning(depth, s + t);
    RecordsConcat(depth, s, t);
    var fs, gs := Records(depth, s).value, Records(depth, t).value;
    LastLenConcat(fs, gs, 1);
    AllForksConcat(fs, gs);
    OthersConcat(fs, gs, {2}, {1, 2});
  }

  // ---- StatusData ----

  /** The records of the submessage, all its payloads put together. */
  function ForkRecords(depth: nat, r: seq<Field>): seq<Field> {
    if depth == 0 then [] else Records(depth - 1, Joined(Payloads(r, 4))).GetOr([])
  }

  predicate StatusDataMergeable(depth: nat, a: D.StatusData, b: D.StatusData, r: seq<Field>) {
    && (HasVarint(r, 1) && b.networkId == 0 ==> a.networkId == 0)
    && (HasLen(r, 2) && b.totalDifficulty == [] ==> a.totalDifficulty == [])
    && (HasLen(r, 3) && b.bestHash == [] ==> a.bestHash == [])
    && (a.forkData.Some? && b.forkData.Some? ==>
          ForksMergeable(a.forkData.value, b.forkData.value, ForkRecords(depth, r)))
  }

  /** The submessage of two inputs in a row. */
  lemma ForkDataConcat(depth: nat, fs: seq<Field>, gs: seq<Field>, a: D.StatusData, b: D.StatusData, ab: D.StatusData)
    requires StatusDataOf(depth, fs, a) && StatusDataOf(depth, gs, b) && StatusDataOf(depth, fs + gs, ab)
    ensures ab.forkData == D.MergeForks(a.forkData, b.forkData) <==>
              (a.forkData.Some? && b.forkData.Some? ==>
                 ForksMergeable(a.forkData.value, b.forkData.value, ForkRecords(depth, gs)))
  {
    hide LastVarint, LastLen, Others, Payloads, Joined, F.Parse, Records, F.Merge, ForksMergeable;
    PayloadsConcat(fs, gs, 4);
    JoinedConcat(Payloads(fs, 4), Payloads(gs, 4));
    if a.forkData.Some? && b.forkData.Some? {
      ForksConcatenation(depth - 1, Joined(Payloads(fs, 4)), Joined(Payloads(gs, 4)));
    } else if a.forkData.Some? {
      assert Payloads(fs, 4) + [] == Payloads(fs, 4);
    } else if b.forkData.Some? {
      assert [] + Payloads(gs, 4) == Payloads(gs, 4);
      F.MergeMonoid(b.forkData.value, b.forkData.value, b.forkData.value);
    }
  }

  lemma StatusDataConcatenation(depth: nat, s: Bytes, t: Bytes)
    requires D.Parse(depth, s).Done? && D.Parse(depth, t).Done?
    ensures var a, b := D.Parse(depth, s).msg, D.Parse(depth, t).msg;
            && D.Parse(depth, s + t).Done? && Records(depth, t).Some?
            && (D.Parse(depth, s + t) == Done(D.Merge(a, b)) <==>
                  StatusDataMergeable(depth, a, b, Records(depth, t).value))
  {
    hide D.Parse, Records, LastVarint, LastLen, Others, Payloads, HasVarint, HasLen, SubmessagesParse, D.MergeForks,
         ForksMergeable, ForkRecords;
    StatusDataMeaning(depth, s);
    StatusDataMeaning(depth, t);
    StatusDataMeaning(depth, s + t);
    RecordsConcat(depth, s, t);
    var fs, gs := Records(depth, s).value, Records(depth, t).value;
    PayloadsConcat(fs, gs, 4);
    BothParse(depth, Payloads(fs, 4), Payloads(gs, 4));
    ForkDataConcat(depth, fs, gs, D.Parse(depth, s).msg, D.Parse(depth, t).msg, D.Parse(depth, s + t).msg);
    LastVarintConcat(fs, gs, 1);
    LastLenConcat(fs, gs, 2);
    LastLenConcat(fs, gs, 3);
    OthersConcat(fs, gs, {1}, {2, 3, 4});
  }

  lemma BothParse(depth: nat, ps: seq<Bytes>, qs: seq<Bytes>)
    requires SubmessagesParse(depth, ps) && SubmessagesParse(depth, qs)
    ensures SubmessagesParse(depth, ps + qs)
  {
  }

  // ---- An input for which it is not ----

  lemma ReadZero(depth: nat)
    ensures ReadField(depth, [24, 0]) == Record(Varint(3, 0), 2)
  {
    FieldRoundTrip(Varint(3, 0), depth, []);
    assert EncodeField(Varint(3, 0)) + [] == [24, 0];
  }

  /** The bytes 24 and 0 spell out a zero cursor, which overrides what came before; a merge never does that. */
  lemma ExplicitDefaultOverrides(depth: nat, s: Bytes)
    requires C.Parse(depth, s).Done?
    ensures var m, zero := C.Parse(depth, s).msg, [24, 0];
            && C.Parse(depth, zero) == Done(C.EMPTY)
            && C.Parse(depth, s + zero) == Done(m.(cursor := 0))
            && (C.Parse(depth, s + zero) == Done(C.Merge(m, C.EMPTY)) <==> m.cursor == 0)
  {
    var m, zero := C.Parse(depth, s).msg, [24, 0];
    assert ReadField(depth, zero) == Record(Varint(3, 0), 2) by { ReadZero(depth); }
    assert zero[2..] == [];
    DecodeConcat(C.Apply, depth, C.EMPTY, s, zero);
    C.MergeIdentity(m);
  }
}
