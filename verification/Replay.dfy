/** The handshake replay cache: a ring of 128 (timestamp, key prefix) pairs. */
module Replay {
  import opened Bytes

  const SLOTS: nat := 128

  /** prefix is the first eight bytes of the initiator's ephemeral public key. */
  datatype Entry = Entry(ts: int, prefix: bytes)

  const ZERO_ENTRY := Entry(0, Zeros(8))

  // ---- The reference: a queue of the last 128 recorded pairs ----

  function Record(fifo: seq<Entry>, e: Entry): (r: seq<Entry>)
    requires |fifo| == SLOTS
    ensures |r| == SLOTS
  {
    if e in fifo then fifo else fifo[1..] + [e]
  }

  function RecordAll(fifo: seq<Entry>, calls: seq<Entry>): (r: seq<Entry>)
    requires |fifo| == SLOTS
    ensures |r| == SLOTS
    decreases |calls|
  {
    if calls == [] then fifo else Record(RecordAll(fifo, calls[..|calls| - 1]), calls[|calls| - 1])
  }

  /** How many of the calls were new and so were recorded. */
  function Recorded(fifo: seq<Entry>, calls: seq<Entry>): nat
    requires |fifo| == SLOTS
    decreases |calls|
  {
    if calls == [] then 0
    else
      var before := calls[..|calls| - 1];
      Recorded(fifo, before) + (if calls[|calls| - 1] in RecordAll(fifo, before) then 0 else 1)
  }

  /** e sits at position i and nowhere else. */
  ghost predicate OnlyAt(fifo: seq<Entry>, e: Entry, i: nat) {
    i < |fifo| && fifo[i] == e && forall j :: 0 <= j < |fifo| && j != i ==> fifo[j] != e
  }

  /** A recorded pair moves one place towards the exit for each newer pair. */
  lemma {:induction false} RecordedPairAges(fifo: seq<Entry>, e: Entry, calls: seq<Entry>)
    requires |fifo| == SLOTS && e !in fifo
    requires Recorded(Record(fifo, e), calls) < SLOTS
    ensures OnlyAt(RecordAll(Record(fifo, e), calls), e, SLOTS - 1 - Recorded(Record(fifo, e), calls))
    decreases |calls|
  {
    if calls != [] {
      RecordedPairAges(fifo, e, calls[..|calls| - 1]);
    }
  }

  /** It is rejected as long as fewer than 128 newer pairs have been recorded, and the
      128th newer pair evicts it. */
  lemma RejectedUntilEvicted(fifo: seq<Entry>, e: Entry, calls: seq<Entry>)
    requires |fifo| == SLOTS && e !in fifo
    ensures Recorded(Record(fifo, e), calls) < SLOTS ==> e in RecordAll(Record(fifo, e), calls)
    ensures (calls != [] && Recorded(Record(fifo, e), calls[..|calls| - 1]) == SLOTS - 1 &&
             Recorded(Record(fifo, e), calls) == SLOTS) ==> e !in RecordAll(Record(fifo, e), calls)
  {
    if Recorded(Record(fifo, e), calls) < SLOTS {
      RecordedPairAges(fifo, e, calls);
    }
    if calls != [] && Recorded(Record(fifo, e), calls[..|calls| - 1]) == SLOTS - 1 {
      RecordedPairAges(fifo, e, calls[..|calls| - 1]);
    }
  }

  // ---- The ring ----

  /** Overwriting the oldest slot and stepping on drops the oldest pair and appends the new one. */
  lemma Rotates(all: seq<Entry>, i: nat, e: Entry)
    requires |all| == SLOTS && i < SLOTS
    ensures var next, j := all[i := e], (i + 1) % SLOTS;
            next[j..] + next[..j] == (all[i..] + all[..i])[1..] + [e]
  {
    var next := all[i := e];
    var fifo := all[i..] + all[..i];
    assert fifo[1..] == all[i + 1..] + all[..i];
    if i + 1 == SLOTS {
      assert next[0..] + next[..0] == all[..i] + [e];
    } else {
      assert next[i + 1..] == all[i + 1..] && next[..i + 1] == all[..i] + [e];
    }
  }

  class Cache {
    const slots: array<Entry>
    var idx: nat

    ghost predicate Valid()
      reads this
    {
      slots.Length == SLOTS && idx < SLOTS
    }

    /** Oldest pair first. */
    ghost function Fifo(): (f: seq<Entry>)
      requires Valid()
      reads this, slots
      ensures |f| == SLOTS
    {
      slots[idx..] + slots[..idx]
    }

    constructor ()
      ensures Valid() && fresh(slots) && Fifo() == seq(SLOTS, _ => ZERO_ENTRY)
    {
      slots := new Entry[SLOTS](_ => ZERO_ENTRY);
      idx := 0;
    }

    constructor Copy(other: Cache)
      requires other.Valid()
      ensures Valid() && fresh(slots) && Fifo() == other.Fifo()
    {
      slots := new Entry[SLOTS](i requires 0 <= i < SLOTS reads other.slots => other.slots[i]);
      idx := other.idx;
      new;
      assert slots[..] == other.slots[..];
      assert slots[idx..] == slots[..][idx..] && slots[..idx] == slots[..][..idx];
    }

    /** True exactly when the pair is among the last 128 recorded; otherwise records it. */
    method IsReplay(ts: int, ephPub: bytes) returns (replay: bool)
      requires Valid() && |ephPub| == 32
      modifies this, slots
      ensures Valid() && Fifo() == Record(old(Fifo()), Entry(ts, ephPub[..8]))
      ensures replay <==> Entry(ts, ephPub[..8]) in old(Fifo())
    {
      var e := Entry(ts, ephPub[..8]);
      ghost var was := Fifo();
      for i := 0 to SLOTS
        invariant Valid() && Fifo() == was && idx == old(idx)
        invariant forall k :: 0 <= k < i ==> slots[k] != e
      {
        if slots[i] == e {
          assert was[if i >= idx then i - idx else SLOTS - idx + i] == e;
          return true;
        }
      }
      Put(e);
      replay := false;
    }

    method Put(e: Entry)
      requires Valid() && forall k :: 0 <= k < SLOTS ==> slots[k] != e
      modifies this, slots
      ensures Valid() && Fifo() == Record(old(Fifo()), e) && e !in old(Fifo())
    {
      ghost var i, all := idx, slots[..];
      Rotates(all, i, e);
      assert Fifo() == all[i..] + all[..i];
      slots[idx] := e;
      idx := (idx + 1) % SLOTS;
      assert slots[..] == all[i := e];
      assert Fifo() == slots[..][idx..] + slots[..][..idx];
    }
  }
}
