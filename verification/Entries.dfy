/** Section data that is a table of records of one size, appended one by one. */
module Entries {
  import opened Bytes
  import Arith

  function RecordAt(table: seq<byte>, size: nat, i: nat): seq<byte>
    requires i * size + size <= |table|
  {
    table[i * size..i * size + size]
  }

  /** The number of whole records. */
  predicate Holds(table: seq<byte>, size: nat, n: nat) {
    |table| == n * size
  }

  /** Record i of a table of n lies inside it. */
  lemma InTable(size: nat, i: nat, n: nat)
    requires i < n
    ensures i * size + size <= n * size && 0 <= i * size
  {
    Arith.MulMonotone(0, i, size);
    Arith.MulSucc(i, size);
    Arith.MulMonotone(i + 1, n, size);
  }

  lemma CountOfSize(size: nat, n: nat)
    requires size > 0
    ensures (n * size) / size == n && (n * size) % size == 0
  {
    Arith.DivModUnique(n * size, size, n, 0);
  }

  /** A table with one more record: the new one is the last, the others are where they were. */
  lemma Appended(table: seq<byte>, size: nat, n: nat, record: seq<byte>)
    requires Holds(table, size, n) && |record| == size
    ensures Holds(table + record, size, n + 1)
    ensures n * size + size <= |table + record| && RecordAt(table + record, size, n) == record
    ensures forall i :: 0 <= i < n ==>
              i * size + size <= |table| && RecordAt(table + record, size, i) == RecordAt(table, size, i)
  {
    Arith.MulSucc(n, size);
    forall i | 0 <= i < n
      ensures i * size + size <= |table| && RecordAt(table + record, size, i) == RecordAt(table, size, i)
    {
      InTable(size, i, n);
    }
  }

  function AppendAll(table: seq<byte>, records: seq<seq<byte>>): seq<byte> {
    if records == [] then table
    else AppendAll(table, records[..|records| - 1]) + records[|records| - 1]
  }

  /** After any run of appends, every record reads back, old or new. */
  lemma {:induction false} AllReadBack(table: seq<byte>, size: nat, n: nat, records: seq<seq<byte>>)
    requires Holds(table, size, n) && forall i :: 0 <= i < |records| ==> |records[i]| == size
    ensures Holds(AppendAll(table, records), size, n + |records|)
    ensures forall i :: 0 <= i < |records| ==>
              && (n + i) * size + size <= |AppendAll(table, records)|
              && RecordAt(AppendAll(table, records), size, n + i) == records[i]
    ensures forall i :: 0 <= i < n ==>
              && i * size + size <= |table| && i * size + size <= |AppendAll(table, records)|
              && RecordAt(AppendAll(table, records), size, i) == RecordAt(table, size, i)
  {
    if records == [] {
      forall i | 0 <= i < n
        ensures i * size + size <= |table|
      {
        InTable(size, i, n);
      }
    } else {
      var init := records[..|records| - 1];
      AllReadBack(table, size, n, init);
      Appended(AppendAll(table, init), size, n + |init|, records[|init|]);
      assert forall i :: 0 <= i < |init| ==> init[i] == records[i];
    }
  }
}
