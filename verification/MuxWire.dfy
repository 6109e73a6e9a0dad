/** The frames of the multiplexer as bytes (src/protomux.cpp:204-289, 490-579, 687-729): what each one that
    arrives leads to, and what a batch looks like on the wire. */
module MuxWire {
  import opened Bytes
  import opened Varints
  import opened Protomux

  /** A control message by itself: 1 opens, 2 rejects, 3 closes; every other type is ignored, except 0. */
  lemma ControlFrames(kind: u64, rest: bytes)
    ensures kind == 1 ==> OnData([0] + (Varint(kind) + rest)) == [Open(rest)]
    ensures kind == 2 ==> OnData([0] + (Varint(kind) + rest)) == [Reject(rest)]
    ensures kind == 3 ==> OnData([0] + (Varint(kind) + rest)) == [Close(rest)]
    ensures kind >= 4 ==> OnData([0] + (Varint(kind) + rest)) == []
  {
    hide Varint;
    SmallDecode(0, Varint(kind) + rest);
    DecodeInverts(kind, rest);
  }

  /** The same, byte for byte. */
  lemma ControlBytes(rest: bytes)
    ensures OnData([0, 1] + rest) == [Open(rest)]
    ensures OnData([0, 2] + rest) == [Reject(rest)]
    ensures OnData([0, 3] + rest) == [Close(rest)]
  {
    forall kind: u64 | 1 <= kind <= 3 ensures [0, kind] + rest == [0] + (Varint(kind) + rest) {
      VarintBytes(kind);
    }
    ControlFrames(1, rest);
    ControlFrames(2, rest);
    ControlFrames(3, rest);
  }

  /** Anything else is data for the channel of its id, if that fits 32 bits and anything follows it. */
  lemma DataFrames(id: u64, payload: bytes)
    requires id != 0
    ensures OnData(Varint(id) + payload) ==
            if payload == [] || id > 0xFFFF_FFFF then [] else [Data(id, payload)]
    ensures OnData([]) == []
  {
    hide Varint;
    DecodeInverts(id, payload);
    assert Varint(id) + payload != [];
  }

  /** What Channel::send hands to write_frame reaches the channel with its type and data. */
  lemma SentFrames(id: u32, kind: u64, data: bytes)
    requires id != 0
    ensures OnData(Varint(id) + (Varint(kind) + data)) == [Data(id, Varint(kind) + data)]
  {
    hide Varint;
    DataFrames(id, Varint(kind) + data);
  }

  /** A batch with a single message for one channel leads to what the message leads to by itself, control
      messages among them; a batch within a batch is ignored. */
  lemma OneInABatch(id: u32, kind: u64, rest: bytes)
    requires |Varint(kind) + rest| <= 0xFFFF_FFFF_FFFF_FFFF
    ensures var m := Varint(kind) + rest;
            OnData([0, 0] + (Varint(id) + (Varint(|m|) + m))) ==
              if id != 0 then [Data(id, m)]
              else if kind == 1 then [Open(rest)]
              else if kind == 2 then [Reject(rest)]
              else if kind == 3 then [Close(rest)]
              else []
  {
    hide Varint;
    var m := Varint(kind) + rest;
    BatchOf(id, Varint(|m|) + m);
    assert Varint(|m|) + m + [] == Varint(|m|) + m;
    EntryDelivers(Entry(id, m), [], 0);
    NothingLeft(id, 1);
    DecodeInverts(kind, rest);
  }

  /** Messages of one channel follow each other. */
  lemma TwoInABatch(id: u32, a: bytes, b: bytes)
    requires 0 < |a| <= 0xFFFF_FFFF_FFFF_FFFF && 0 < |b| <= 0xFFFF_FFFF_FFFF_FFFF && id != 0
    ensures OnData([0, 0] + (Varint(id) + (Varint(|a|) + a + (Varint(|b|) + b)))) == [Data(id, a), Data(id, b)]
  {
    hide Varint, Messages, OnData;
    var last := Varint(|b|) + b;
    assert last + [] == last;
    BatchOf(id, Varint(|a|) + a + last);
    EntryDelivers(Entry(id, a), last, 0);
    EntryDelivers(Entry(id, b), [], 1);
    NothingLeft(id, 2);
  }

  /** A zero byte and an id change the channel. */
  lemma SwitchInABatch(id: u32, a: bytes, other: u32, b: bytes)
    requires 0 < |a| <= 0xFFFF_FFFF_FFFF_FFFF && 0 < |b| <= 0xFFFF_FFFF_FFFF_FFFF && id != 0 && other != 0
    ensures OnData([0, 0] + (Varint(id) + (Varint(|a|) + a + ([0] + Varint(other) + (Varint(|b|) + b))))) ==
            [Data(id, a), Data(other, b)]
  {
    hide Varint, Messages, OnData;
    var last := Varint(|b|) + b;
    assert last + [] == last;
    var switch := [0] + Varint(other) + last;
    BatchOf(id, Varint(|a|) + a + switch);
    EntryDelivers(Entry(id, a), switch, 0);
    SwitchDelivers(id, other, last, 1);
    EntryDelivers(Entry(other, b), [], 2);
    NothingLeft(other, 3);
  }

  /** What uncork writes for a single frame. */
  lemma BatchOfOneBytes(e: Entry)
    ensures BatchFrame([e]) == [0, 0] + Varint(e.id) + Varint(|e.payload|) + e.payload
  {
    hide Varint, Entries;
    EntriesNone(e.id);
    assert [e][..1] == [e] && [e][..0] == [];
    EntriesStep([e], 0);
    assert [0, 0] + Varint(e.id) + (Varint(|e.payload|) + e.payload) ==
           [0, 0] + Varint(e.id) + Varint(|e.payload|) + e.payload;
  }

  /** What each further frame adds to it. */
  lemma BatchBytes(es: seq<Entry>, e: Entry)
    requires es != []
    ensures BatchFrame(es + [e]) ==
            BatchFrame(es) + ((if e.id == es[|es| - 1].id then [] else [0] + Varint(e.id)) + Varint(|e.payload|)
                              + e.payload)
  {
    hide Varint, Entries;
    var all := es + [e];
    assert all[..|es|] == es && all[..|es| + 1] == all && all[0] == es[0];
    EntriesStep(all, |es|);
  }

  /** The channel in front of position i. */
  function Before(prev: u32, es: seq<Entry>, i: nat): u32
    requires i <= |es|
  {
    if i == 0 then prev else es[i - 1].id
  }

  /** The positions at which the channel changes. */
  function Switches(prev: u32, es: seq<Entry>): set<int> {
    set i | 0 <= i < |es| && es[i].id != Before(prev, es, i)
  }

  lemma SwitchesLast(prev: u32, es: seq<Entry>, e: Entry)
    ensures |Switches(prev, es + [e])| ==
            |Switches(prev, es)| + (if e.id == Before(prev, es, |es|) then 0 else 1)
  {
    var all := es + [e];
    assert forall i :: 0 <= i <= |es| ==> Before(prev, all, i) == Before(prev, es, i);
    assert Switches(prev, all) == Switches(prev, es) + (if e.id == Before(prev, es, |es|) then {} else {|es|});
  }

  lemma {:induction false} WeightLast(prev: u32, es: seq<Entry>, e: Entry)
    ensures Weight(prev, es + [e]) ==
            Weight(prev, es) + (if e.id == Before(prev, es, |es|) then 1 else 2)
    decreases es
  {
    assert (es + [e])[1..] == if es == [] then [] else es[1..] + [e];
    if es != [] {
      WeightLast(es[0].id, es[1..], e);
    }
  }

  /** The limit of a batch counts its messages and its channel switches. */
  lemma {:induction false} WeightCounts(prev: u32, es: seq<Entry>)
    ensures Weight(prev, es) == |es| + |Switches(prev, es)|
    decreases |es|
  {
    hide Weight, Switches, Before;
    if es == [] {
      NoWeight(prev);
    } else {
      var n := |es| - 1;
      WeightCounts(prev, es[..n]);
      WeightLast(prev, es[..n], es[n]);
      assert es == es[..n] + [es[n]];
      SwitchesLast(prev, es[..n], es[n]);
    }
  }

  lemma NoWeight(prev: u32)
    ensures Weight(prev, []) == 0 && Switches(prev, []) == {}
  {
  }

  /** A batch delivers just as many entries as stay within 1024 messages and switches. */
  lemma {:induction false} RoomExactly(prev: u32, es: seq<Entry>, entries: nat, j: nat)
    requires entries <= 1024 && j <= |es|
    ensures j <= Room(prev, es, entries) <==> entries + Weight(prev, es[..j]) <= 1024
    decreases es
  {
    if j > 0 {
      var rest, n := es[1..], entries + Cost(prev, es[0]);
      assert es[..j][1..] == rest[..j - 1];
      if n <= 1024 {
        RoomExactly(es[0].id, rest, n, j - 1);
      }
    }
  }
}
