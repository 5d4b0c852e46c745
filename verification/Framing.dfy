/** Length-prefixed digests of canonical tables (`_update_digests` and its callers in
    benchmark_streaming_ingestion.py). A hash object is the byte string fed to it so far;
    SHA-256 and the JSON text of a record are unknown functions. */
module Framing {
  import opened Options
  import opened Lists

  type Byte = x: int | 0 <= x < 256
  type Bytes = seq<Byte>

  const LIMIT := 0x1_0000_0000_0000_0000

  datatype Table = Tasks | Infrastructure | Vehicles | Traffic | Trips | Incidents
  const TABLES := [Tasks, Infrastructure, Vehicles, Traffic, Trips, Incidents]

  // ----- the frame of one record -----

  function BigEndian(n: nat, width: nat): (s: Bytes)
    ensures |s| == width
  {
    if width == 0 then [] else BigEndian(n / 256, width - 1) + [n % 256]
  }

  function Number(s: Bytes): nat {
    if s == [] then 0 else 256 * Number(s[..|s| - 1]) + s[|s| - 1]
  }

  function Power256(k: nat): nat { if k == 0 then 1 else 256 * Power256(k - 1) }

  lemma {:induction false} NumberOfBigEndian(n: nat, width: nat)
    requires n < Power256(width)
    ensures Number(BigEndian(n, width)) == n
  {
    if width > 0 {
      NumberOfBigEndian(n / 256, width - 1);
      var s := BigEndian(n, width);
      assert s[..|s| - 1] == BigEndian(n / 256, width - 1);
    }
  }

  lemma {:induction false} BigEndianOfNumber(s: Bytes)
    ensures Number(s) < Power256(|s|)
    ensures BigEndian(Number(s), |s|) == s
  {
    if s != [] {
      BigEndianOfNumber(s[..|s| - 1]);
      assert Number(s) / 256 == Number(s[..|s| - 1]) && Number(s) % 256 == s[|s| - 1];
    }
  }

  /** Byte `k` from the left is the digit of weight 256 to the width - 1 - k. */
  lemma {:induction false} BigEndianDigit(n: nat, width: nat, k: nat)
    requires k < width
    ensures BigEndian(n, width)[k] == Quotient256(n, width - 1 - k) % 256
  {
    if k < width - 1 {
      BigEndianDigit(n / 256, width - 1, k);
    }
  }

  /** `n` without its last `k` base-256 digits. */
  function Quotient256(n: nat, k: nat): nat { if k == 0 then n else Quotient256(n / 256, k - 1) }

  lemma EightBytes()
    ensures Power256(8) == LIMIT
  {
    assert Power256(3) == 0x100_0000;
    assert Power256(6) == 0x1_0000_0000_0000;
  }

  function Frame(payload: Bytes): Bytes { BigEndian(|payload|, 8) + payload }

  /** Everything one hash object absorbs for a list of records. */
  function Encode(payloads: seq<Bytes>): Bytes {
    if payloads == [] then [] else Frame(payloads[0]) + Encode(payloads[1..])
  }

  function Decode(s: Bytes): (r: Option<seq<Bytes>>)
    decreases |s|
  {
    if s == [] then Some([])
    else if |s| < 8 || |s| - 8 < Number(s[..8]) then None
    else
      var stop := 8 + Number(s[..8]);
      var rest := Decode(s[stop..]);
      if rest.None? then None else Some([s[8..stop]] + rest.value)
  }

  ghost predicate Framable(payloads: seq<Bytes>) {
    forall i :: 0 <= i < |payloads| ==> |payloads[i]| < LIMIT
  }

  lemma {:induction false} EncodeAppend(a: seq<Bytes>, b: seq<Bytes>)
    ensures Encode(a + b) == Encode(a) + Encode(b)
  {
    if a == [] {
      assert a + b == b;
    } else {
      assert (a + b)[0] == a[0] && (a + b)[1..] == a[1..] + b;
      EncodeAppend(a[1..], b);
    }
  }

  /** The record sequence can be read back from the absorbed bytes. */
  lemma {:induction false} DecodeEncode(payloads: seq<Bytes>)
    requires Framable(payloads)
    ensures Decode(Encode(payloads)) == Some(payloads)
  {
    if payloads != [] {
      var p, s := payloads[0], Encode(payloads);
      EightBytes();
      NumberOfBigEndian(|p|, 8);
      assert s[..8] == BigEndian(|p|, 8);
      assert s[8..8 + |p|] == p && s[8 + |p|..] == Encode(payloads[1..]);
      DecodeEncode(payloads[1..]);
      assert payloads == [p] + payloads[1..];
    }
  }

  lemma EncodeFirst(p: Bytes, rest: seq<Bytes>)
    ensures Encode([p] + rest) == BigEndian(|p|, 8) + p + Encode(rest)
    ensures Framable(rest) && |p| < LIMIT ==> Framable([p] + rest)
  {
    assert ([p] + rest)[1..] == rest;
  }

  lemma ThreeParts(s: Bytes, stop: nat)
    requires 8 <= stop <= |s|
    ensures s == s[..8] + s[8..stop] + s[stop..]
  {
  }

  lemma LengthField(s: Bytes)
    requires |s| == 8
    ensures Number(s) < LIMIT && BigEndian(Number(s), 8) == s
  {
    EightBytes();
    BigEndianOfNumber(s);
  }

  /** And only a genuine stream of frames decodes. */
  lemma {:induction false} EncodeDecode(s: Bytes)
    requires Decode(s).Some?
    ensures Framable(Decode(s).value) && Encode(Decode(s).value) == s
    decreases |s|
  {
    if s != [] {
      var stop := 8 + Number(s[..8]);
      LengthField(s[..8]);
      EncodeDecode(s[stop..]);
      EncodeFirst(s[8..stop], Decode(s[stop..]).value);
      ThreeParts(s, stop);
    }
  }

  lemma EncodeInjective(a: seq<Bytes>, b: seq<Bytes>)
    requires Framable(a) && Framable(b) && Encode(a) == Encode(b)
    ensures a == b
  {
    DecodeEncode(a);
    DecodeEncode(b);
  }

  // ----- whole tables, chunks and digests -----

  type Tables<R> = Table -> seq<R>

  function Payloads<R>(records: seq<R>, dump: R -> Bytes): seq<Bytes> {
    seq(|records|, i requires 0 <= i < |records| => dump(records[i]))
  }

  /** All records of one table, over the chunks in the order they were consumed. */
  function Gathered<R>(chunks: seq<Tables<R>>, t: Table): seq<R> {
    if chunks == [] then [] else Gathered(chunks[..|chunks| - 1], t) + chunks[|chunks| - 1](t)
  }

  lemma PayloadsAppend<R>(a: seq<R>, b: seq<R>, dump: R -> Bytes)
    ensures Payloads(a + b, dump) == Payloads(a, dump) + Payloads(b, dump)
  {
  }

  ghost predicate AllFramable<R>(records: Tables<R>, dump: R -> Bytes) {
    forall t :: Framable(Payloads(records(t), dump))
  }

  lemma EncodeOneMore<R>(start: Bytes, records: seq<R>, r: R, dump: R -> Bytes)
    ensures (start + Encode(Payloads(records, dump))) + Frame(dump(r)) == start + Encode(Payloads(records + [r], dump))
    ensures Framable(Payloads(records + [r], dump)) <==> Framable(Payloads(records, dump)) && |dump(r)| < LIMIT
  {
    var a, b := Payloads(records, dump), Payloads(records + [r], dump);
    assert b == a + [dump(r)];
    EncodeAppend(a, [dump(r)]);
    assert Encode([dump(r)]) == Frame(dump(r)) + Encode([]);
    assert forall i :: 0 <= i < |a| ==> a[i] == b[i];
    assert b[|a|] == dump(r);
  }

  lemma GatherNext<R>(start: map<Table, Bytes>, before: map<Table, Bytes>, after: map<Table, Bytes>,
    chunks: seq<Tables<R>>, c: Tables<R>, dump: R -> Bytes)
    requires forall t: Table :: t in start && t in before && t in after
    requires forall t :: before[t] == start[t] + Encode(Payloads(Gathered(chunks, t), dump))
    requires forall t :: after[t] == before[t] + Encode(Payloads(c(t), dump))
    ensures forall t :: after[t] == start[t] + Encode(Payloads(Gathered(chunks + [c], t), dump))
  {
    forall t: Table ensures after[t] == start[t] + Encode(Payloads(Gathered(chunks + [c], t), dump)) {
      assert (chunks + [c])[..|chunks|] == chunks;
      PayloadsAppend(Gathered(chunks, t), c(t), dump);
      EncodeAppend(Payloads(Gathered(chunks, t), dump), Payloads(c(t), dump));
    }
  }

  lemma EveryTable()
    ensures forall t: Table :: t in TABLES
  {
    forall t: Table ensures t in TABLES {
      assert t == TABLES[0] || t == TABLES[1] || t == TABLES[2] || t == TABLES[3] || t == TABLES[4] || t == TABLES[5];
    }
  }

  /** The first `i` tables are absorbed, the others as they were. */
  ghost predicate TablesAbsorbed<R>(start: map<Table, Bytes>, now: map<Table, Bytes>, tables: Tables<R>,
    dump: R -> Bytes, i: nat)
    requires i <= |TABLES| && (forall t: Table :: t in start) && (forall t: Table :: t in now)
  {
    && (forall t :: t in TABLES[..i] ==> Framable(Payloads(tables(t), dump)))
    && (forall t :: now[t] == if t in TABLES[..i] then start[t] + Encode(Payloads(tables(t), dump)) else start[t])
  }

  lemma TablesNext<R>(start: map<Table, Bytes>, now: map<Table, Bytes>, tables: Tables<R>, dump: R -> Bytes, i: nat)
    requires i < |TABLES| && (forall t: Table :: t in start) && (forall t: Table :: t in now)
    requires TablesAbsorbed(start, now, tables, dump, i)
    ensures Framable(Payloads(tables(TABLES[i]), dump)) ==>
      var t := TABLES[i];
      TablesAbsorbed(start, now[t := now[t] + Encode(Payloads(tables(t), dump))], tables, dump, i + 1)
  {
    TakeNext(TABLES, i);
    assert TABLES[i] !in TABLES[..i];
  }

  lemma AllTables<R>(start: map<Table, Bytes>, now: map<Table, Bytes>, tables: Tables<R>, dump: R -> Bytes)
    requires (forall t: Table :: t in start) && (forall t: Table :: t in now)
    requires TablesAbsorbed(start, now, tables, dump, |TABLES|)
    ensures AllFramable(tables, dump)
    ensures forall t :: now[t] == start[t] + Encode(Payloads(tables(t), dump))
  {
    EveryTable();
    TakeAll(TABLES);
  }

  /** The first `k` chunks are absorbed. */
  ghost predicate ChunksAbsorbed<R>(start: map<Table, Bytes>, now: map<Table, Bytes>, chunks: seq<Tables<R>>,
    dump: R -> Bytes, k: nat)
    requires k <= |chunks| && (forall t: Table :: t in start) && (forall t: Table :: t in now)
  {
    && (forall j :: 0 <= j < k ==> AllFramable(chunks[j], dump))
    && (forall t :: now[t] == start[t] + Encode(Payloads(Gathered(chunks[..k], t), dump)))
  }

  lemma ChunksNext<R>(start: map<Table, Bytes>, before: map<Table, Bytes>, after: map<Table, Bytes>,
    chunks: seq<Tables<R>>, dump: R -> Bytes, k: nat)
    requires k < |chunks| && (forall t: Table :: t in start && t in before && t in after)
    requires ChunksAbsorbed(start, before, chunks, dump, k) && AllFramable(chunks[k], dump)
    requires forall t :: after[t] == before[t] + Encode(Payloads(chunks[k](t), dump))
    ensures ChunksAbsorbed(start, after, chunks, dump, k + 1)
  {
    TakeNext(chunks, k);
    GatherNext(start, before, after, chunks[..k], chunks[k], dump);
  }

  class Digests {
    var absorbed: map<Table, Bytes>

    ghost predicate Valid()
      reads this
    {
      forall t :: t in absorbed
    }

    /** `_new_digests` */
    constructor ()
      ensures Valid() && forall t :: absorbed[t] == []
    {
      absorbed := map t: Table | t in TABLES :: [];
      new;
      EveryTable();
    }

    /** The two `update` calls of one record; `to_bytes(8)` overflows on a longer payload. */
    method Absorb(t: Table, payload: Bytes) returns (ok: bool)
      requires Valid()
      modifies this
      ensures Valid() && (ok <==> |payload| < LIMIT)
      ensures absorbed == if ok then old(absorbed)[t := old(absorbed)[t] + Frame(payload)] else old(absorbed)
    {
      ok := |payload| < LIMIT;
      if ok {
        absorbed := absorbed[t := absorbed[t] + BigEndian(|payload|, 8)];
        absorbed := absorbed[t := absorbed[t] + payload];
        assert absorbed[t] == old(absorbed)[t] + Frame(payload);
      }
    }

    /** The inner loop of `_update_digests`. */
    method AbsorbTable<R>(t: Table, records: seq<R>, dump: R -> Bytes) returns (ok: bool)
      requires Valid()
      modifies this
      ensures Valid() && (ok <==> Framable(Payloads(records, dump)))
      ensures ok ==> absorbed == old(absorbed)[t := old(absorbed)[t] + Encode(Payloads(records, dump))]
    {
      ok := true;
      assert records[..0] == [] && absorbed[t] + [] == absorbed[t];
      assert absorbed == absorbed[t := absorbed[t]];
      for i := 0 to |records|
        invariant Valid() && Framable(Payloads(records[..i], dump))
        invariant absorbed == old(absorbed)[t := old(absorbed)[t] + Encode(Payloads(records[..i], dump))]
      {
        TakeNext(records, i);
        EncodeOneMore(old(absorbed)[t], records[..i], records[i], dump);
        var payload := dump(records[i]);
        ok := Absorb(t, payload);
        if !ok {
          assert Payloads(records, dump)[i] == payload;
          return;
        }
      }
      TakeAll(records);
    }

    /** `_update_digests` */
    method Update<R>(tables: Tables<R>, dump: R -> Bytes) returns (ok: bool)
      requires Valid()
      modifies this
      ensures Valid() && (ok <==> AllFramable(tables, dump))
      ensures ok ==> forall t :: absorbed[t] == old(absorbed)[t] + Encode(Payloads(tables(t), dump))
    {
      ok := true;
      for i := 0 to |TABLES|
        invariant Valid() && TablesAbsorbed(old(absorbed), absorbed, tables, dump, i)
      {
        TablesNext(old(absorbed), absorbed, tables, dump, i);
        ok := AbsorbTable(TABLES[i], tables(TABLES[i]), dump);
        if !ok {
          return;
        }
      }
      AllTables(old(absorbed), absorbed, tables, dump);
    }

    /** The streaming consumer, called once per chunk. */
    method Consume<R>(chunks: seq<Tables<R>>, dump: R -> Bytes) returns (ok: bool)
      requires Valid()
      modifies this
      ensures Valid() && (ok <==> forall k :: 0 <= k < |chunks| ==> AllFramable(chunks[k], dump))
      ensures ok ==> forall t :: absorbed[t] == old(absorbed)[t] + Encode(Payloads(Gathered(chunks, t), dump))
    {
      ok := true;
      for k := 0 to |chunks|
        invariant Valid() && ChunksAbsorbed(old(absorbed), absorbed, chunks, dump, k)
      {
        ghost var before := absorbed;
        ok := Update(chunks[k], dump);
        if !ok {
          return;
        }
        ChunksNext(old(absorbed), before, absorbed, chunks, dump, k);
      }
      TakeAll(chunks);
    }
  }

  // ----- streamed against whole -----

  /** The chunks carry the JSON texts of the table's records, in order. */
  ghost predicate SameRecords<R>(chunks: seq<Tables<R>>, whole: Tables<R>, t: Table, dump: R -> Bytes) {
    Payloads(Gathered(chunks, t), dump) == Payloads(whole(t), dump)
  }

  /** Two fresh sets of digests, one fed chunk by chunk and one with the whole tables: a table's
      digest inputs agree exactly when the chunks carry its records, whatever the chunk sizes and
      however the tables are interleaved. */
  method AgreeingTables<R>(chunks: seq<Tables<R>>, whole: Tables<R>, dump: R -> Bytes)
      returns (ok: bool, agreeing: set<Table>)
    ensures ok <==> AllFramable(whole, dump) && forall k :: 0 <= k < |chunks| ==> AllFramable(chunks[k], dump)
    ensures ok ==> forall t :: t in agreeing <==> SameRecords(chunks, whole, t, dump)
  {
    var streamed := new Digests();
    var ordinary := new Digests();
    agreeing := {};
    var consumed := streamed.Consume(chunks, dump);
    var updated := ordinary.Update(whole, dump);
    ok := consumed && updated;
    if ok {
      EveryTable();
      agreeing := set t | t in TABLES && streamed.absorbed[t] == ordinary.absorbed[t];
      forall t: Table ensures t in agreeing <==> SameRecords(chunks, whole, t, dump) {
        TableAgrees(streamed.absorbed[t], ordinary.absorbed[t], chunks, whole, t, dump);
      }
    }
  }

  lemma TableAgrees<R>(x: Bytes, y: Bytes, chunks: seq<Tables<R>>, whole: Tables<R>, t: Table, dump: R -> Bytes)
    requires x == [] + Encode(Payloads(Gathered(chunks, t), dump)) && y == [] + Encode(Payloads(whole(t), dump))
    requires AllFramable(whole, dump) && forall k :: 0 <= k < |chunks| ==> AllFramable(chunks[k], dump)
    ensures x == y <==> SameRecords(chunks, whole, t, dump)
  {
    GatheredFramable(chunks, t, dump);
    AgreeIff(x, y, Payloads(Gathered(chunks, t), dump), Payloads(whole(t), dump));
  }

  lemma AgreeIff(x: Bytes, y: Bytes, a: seq<Bytes>, b: seq<Bytes>)
    requires Framable(a) && Framable(b) && x == [] + Encode(a) && y == [] + Encode(b)
    ensures x == y <==> a == b
  {
    assert x == Encode(a) && y == Encode(b);
    if x == y { EncodeInjective(a, b); }
  }

  lemma FramableAppend(a: seq<Bytes>, b: seq<Bytes>)
    requires Framable(a) && Framable(b)
    ensures Framable(a + b)
  {
  }

  lemma {:induction false} GatheredFramable<R>(chunks: seq<Tables<R>>, t: Table, dump: R -> Bytes)
    requires forall k :: 0 <= k < |chunks| ==> AllFramable(chunks[k], dump)
    ensures Framable(Payloads(Gathered(chunks, t), dump))
  {
    if chunks != [] {
      var init, last := chunks[..|chunks| - 1], chunks[|chunks| - 1];
      assert forall k :: 0 <= k < |init| ==> init[k] == chunks[k];
      GatheredFramable(init, t, dump);
      PayloadsAppend(Gathered(init, t), last(t), dump);
      FramableAppend(Payloads(Gathered(init, t), dump), Payloads(last(t), dump));
    }
  }

  /** When no two records have the same JSON text, agreement is equality of the records. */
  lemma PayloadsIdentifyRecords<R>(a: seq<R>, b: seq<R>, dump: R -> Bytes)
    requires forall x, y :: dump(x) == dump(y) ==> x == y
    ensures Payloads(a, dump) == Payloads(b, dump) <==> a == b
  {
    if Payloads(a, dump) == Payloads(b, dump) {
      assert |Payloads(a, dump)| == |a| && |Payloads(b, dump)| == |b|;
      forall i | 0 <= i < |a| ensures a[i] == b[i] {
        assert Payloads(a, dump)[i] == dump(a[i]) && Payloads(b, dump)[i] == dump(b[i]);
      }
    }
  }
}
