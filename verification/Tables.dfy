/** Tables of little-endian numbers, and the parts of a byte string. */
module Tables {
  import opened Bytes
  import opened Numbers

  lemma Section(data: bytes, at: nat, part: bytes, i: nat, j: nat)
    requires at + |part| <= |data| && data[at..at + |part|] == part && i <= j <= |part|
    ensures data[at + i..at + j] == part[i..j]
    ensures j < |part| ==> data[at + j] == part[j]
  {
    forall k | 0 <= k < j - i ensures data[at + i..at + j][k] == part[i..j][k] {
      assert data[at + i + k] == data[at..at + |part|][i + k];
    }
  }

  lemma EntryEnds(count: nat, size: nat, i: nat)
    requires i < count
    ensures i * size + size <= count * size
  {
    assert i * size + size == (i + 1) * size;
    assert (i + 1) * size <= count * size;
  }

  predicate Small(values: seq<nat>, size: nat)
  {
    forall i :: 0 <= i < |values| ==> values[i] < Pow256(size)
  }

  /** Little-endian numbers of `size` bytes, one after another. */
  function PrintTable(values: seq<nat>, size: nat): (r: bytes)
    ensures |r| == |values| * size
  {
    if values == [] then [] else
      assert |values| * size == (|values| - 1) * size + size;
      PrintTable(values[..|values| - 1], size) + ToLe(values[|values| - 1], size)
  }

  lemma {:induction false} TableEntry(values: seq<nat>, size: nat, i: nat)
    requires Small(values, size) && i < |values|
    ensures i * size + size <= |values| * size
    ensures Le(PrintTable(values, size)[i * size..i * size + size]) == values[i]
  {
    hide Le, ToLe;
    EntryEnds(|values|, size, i);
    var front, last := values[..|values| - 1], values[|values| - 1];
    var table, rest, at := PrintTable(values, size), PrintTable(front, size), i * size;
    assert |values| * size == |front| * size + size && table == rest + ToLe(last, size);
    hide PrintTable;
    if i < |front| {
      EntryEnds(|front|, size, i);
      TableEntry(front, size, i);
      assert table[at..at + size] == rest[at..at + size];
    } else {
      LeToLe(last, size);
      assert table[at..at + size] == ToLe(last, size);
    }
  }

  /** Whatever fills a table is the print of the numbers read from it. */
  lemma {:induction false} TableRead(s: bytes, count: nat, size: nat) returns (values: seq<nat>)
    requires |s| == count * size
    ensures |values| == count && Small(values, size) && PrintTable(values, size) == s
  {
    hide Le, ToLe;
    values := [];
    if count > 0 {
      assert count * size == (count - 1) * size + size;
      var cut := (count - 1) * size;
      var front := TableRead(s[..cut], count - 1, size);
      LeRange(s[cut..]);
      ToLeLe(s[cut..]);
      values := front + [Le(s[cut..])];
      assert values[..|values| - 1] == front;
      assert s == s[..cut] + s[cut..];
    } else {
      assert s == [];
    }
  }
}
