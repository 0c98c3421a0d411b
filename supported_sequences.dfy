/**
 * SupportedSequences of src/vtbackend/Functions.h: the function table kept in
 * one fixed-size array, partitioned into an active prefix sorted by compare
 * and a disabled suffix. reset, disableSequence and enableSequence reorder
 * the array in place and move the boundary.
 */
module SupportedSequences {
  import opened Functions

  /** Ascending by compare. */
  ghost predicate SortedByCompare(s: seq<FunctionDefinition>) {
    forall i, j :: 0 <= i < j < |s| ==> Compare(s[i], s[j]) <= 0
  }

  // ---------------------------------------------------------------------------
  // crispy::sort, specified as a sort by compare
  // ---------------------------------------------------------------------------

  /** `x` put before the first element it does not compare above. */
  function Insert(x: FunctionDefinition, s: seq<FunctionDefinition>): (r: seq<FunctionDefinition>)
    ensures |r| == |s| + 1
    ensures multiset(r) == multiset(s) + multiset{x}
  {
    if s == [] then [x]
    else if Compare(x, s[0]) <= 0 then [x] + s
    else
      assert s == [s[0]] + s[1..];
      [s[0]] + Insert(x, s[1..])
  }

  /** The sorted arrangement crispy::sort produces. */
  function Sort(s: seq<FunctionDefinition>): (r: seq<FunctionDefinition>)
    ensures |r| == |s|
    ensures multiset(r) == multiset(s)
  {
    if s == [] then []
    else
      assert s == [s[0]] + s[1..];
      Insert(s[0], Sort(s[1..]))
  }

  lemma {:induction false} InsertSorted(x: FunctionDefinition, s: seq<FunctionDefinition>)
    requires SortedByCompare(s)
    ensures SortedByCompare(Insert(x, s))
  {
    if s == [] {
    } else if Compare(x, s[0]) <= 0 {
      forall k | 0 <= k < |s| ensures Compare(x, s[k]) <= 0 {
        if k > 0 {
          CompareTransitive(x, s[0], s[k]);
        }
      }
      ConsSorted(x, s);
    } else {
      var tail := s[1..];
      InsertSorted(x, tail);
      CompareAntisymmetric(x, s[0]);
      forall k | 0 <= k < |tail| ensures Compare(s[0], tail[k]) <= 0 {
        assert tail[k] == s[k + 1];
      }
      InsertLowerBound(s[0], x, tail);
      ConsSorted(s[0], Insert(x, tail));
    }
  }

  /** A sorted sequence stays sorted behind an element that compares below all of it. */
  lemma ConsSorted(h: FunctionDefinition, t: seq<FunctionDefinition>)
    requires SortedByCompare(t)
    requires forall k :: 0 <= k < |t| ==> Compare(h, t[k]) <= 0
    ensures SortedByCompare([h] + t)
  {
    var r := [h] + t;
    forall i, j | 0 <= i < j < |r| ensures Compare(r[i], r[j]) <= 0 {
      assert r[j] == t[j - 1];
      if i > 0 {
        assert r[i] == t[i - 1];
      }
    }
  }

  /** A lower bound of `x` and of every element of `s` bounds every element of Insert(x, s). */
  lemma {:induction false} InsertLowerBound(b: FunctionDefinition, x: FunctionDefinition, s: seq<FunctionDefinition>)
    requires Compare(b, x) <= 0
    requires forall k :: 0 <= k < |s| ==> Compare(b, s[k]) <= 0
    ensures forall k :: 0 <= k < |Insert(x, s)| ==> Compare(b, Insert(x, s)[k]) <= 0
  {
    var r := Insert(x, s);
    if s == [] {
      assert r == [x];
    } else if Compare(x, s[0]) <= 0 {
      assert r == [x] + s;
      forall k | 0 <= k < |r| ensures Compare(b, r[k]) <= 0 {
        if k > 0 {
          assert r[k] == s[k - 1];
        }
      }
    } else {
      var tail := s[1..];
      forall k | 0 <= k < |tail| ensures Compare(b, tail[k]) <= 0 {
        assert tail[k] == s[k + 1];
      }
      InsertLowerBound(b, x, tail);
      var t := Insert(x, tail);
      assert r == [s[0]] + t;
      forall k | 0 <= k < |r| ensures Compare(b, r[k]) <= 0 {
        if k > 0 {
          assert r[k] == t[k - 1];
        }
      }
    }
  }

  /** crispy::sort leaves its range sorted by compare. */
  lemma {:induction false} SortSorted(s: seq<FunctionDefinition>)
    ensures SortedByCompare(Sort(s))
  {
    if s != [] {
      SortSorted(s[1..]);
      InsertSorted(s[0], Sort(s[1..]));
    }
  }

  // ---------------------------------------------------------------------------
  // std::find with operator==
  // ---------------------------------------------------------------------------

  /** The position of the first element equal to `x` under operator==, or |s|. */
  function FirstMatch(s: seq<FunctionDefinition>, x: FunctionDefinition): (r: nat)
    ensures r <= |s|
    ensures forall k :: 0 <= k < r ==> !Equal(s[k], x)
    ensures r < |s| ==> Equal(s[r], x)
  {
    if s == [] then 0
    else if Equal(s[0], x) then 0
    else 1 + FirstMatch(s[1..], x)
  }

  /** A prefix of a sorted sequence with one element removed is still sorted. */
  lemma SortedWithout(s: seq<FunctionDefinition>, i: nat)
    requires SortedByCompare(s) && i < |s|
    ensures SortedByCompare(s[..i] + s[i + 1..])
  {
    var r := s[..i] + s[i + 1..];
    forall p, q | 0 <= p < q < |r| ensures Compare(r[p], r[q]) <= 0 {
      var p' := if p < i then p else p + 1;
      var q' := if q < i then q else q + 1;
      assert r[p] == s[p'] && r[q] == s[q'];
    }
  }

  /** reset's partition predicate: the conformance level is at most `vt`. */
  predicate Active(d: FunctionDefinition, vt: VTType) {
    d.conformanceLevel.Level() <= vt.Level()
  }

  // ---------------------------------------------------------------------------
  // The class
  // ---------------------------------------------------------------------------

  class SupportedSequences {
    /** `_supportedSequences`: every definition of the table, active ones first. */
    const table: array<FunctionDefinition>
    /** `_lastIndex`: the number of active definitions. */
    var lastIndex: nat

    ghost predicate Valid()
      reads this, table
    {
      lastIndex <= table.Length && SortedByCompare(table[..lastIndex])
    }

    /** The member initialisers: the whole table, sorted, with every definition active. */
    constructor (definitions: seq<FunctionDefinition>)
      ensures Valid()
      ensures table[..] == Sort(definitions) && lastIndex == |definitions|
      ensures multiset(table[..]) == multiset(definitions)
    {
      var sorted := Sort(definitions);
      table := new FunctionDefinition[|sorted|](i requires 0 <= i < |sorted| => sorted[i]);
      lastIndex := |sorted|;
      new;
      assert table[..] == sorted;
      SortSorted(definitions);
    }

    /** allSequences: the whole array, active and disabled. */
    function AllSequences(): (r: seq<FunctionDefinition>)
      reads this, table
      ensures |r| == table.Length
      ensures forall i :: 0 <= i < |r| ==> r[i] == table[i]
    {
      table[..]
    }

    /** activeSequences: the sorted active prefix of the array. */
    function ActiveSequences(): (r: seq<FunctionDefinition>)
      requires Valid()
      reads this, table
      ensures |r| == lastIndex && r == AllSequences()[..lastIndex]
      ensures SortedByCompare(r)
    {
      table[..lastIndex]
    }

    /** Exchanges two entries (std::iter_swap and the swaps inside std::partition). */
    method Swap(i: nat, j: nat)
      requires i < table.Length && j < table.Length
      modifies table
      ensures table[..] == old(table[..])[i := old(table[j])][j := old(table[i])]
      ensures multiset(table[..]) == multiset(old(table[..]))
    {
      table[i], table[j] := table[j], table[i];
    }

    /** crispy::sort over the first `n` entries; the rest of the array is untouched. */
    method SortPrefix(n: nat)
      requires n <= table.Length
      modifies table
      ensures table[..] == Sort(old(table[..n])) + old(table[n..])
      ensures SortedByCompare(table[..n])
      ensures multiset(table[..n]) == multiset(old(table[..n]))
      ensures multiset(table[..]) == multiset(old(table[..]))
    {
      ghost var before := table[..];
      var sorted := Sort(table[..n]);
      SortSorted(table[..n]);
      forall k | 0 <= k < n {
        table[k] := sorted[k];
      }
      PrefixReplaced(before, sorted, table[..], n);
    }

    /** std::find over [lo, hi): the first position holding a definition equal to `x`, or hi. */
    method Find(lo: nat, hi: nat, x: FunctionDefinition) returns (i: nat)
      requires lo <= hi <= table.Length
      ensures i == lo + FirstMatch(table[lo..hi], x)
    {
      i := lo;
      while i < hi && !Equal(table[i], x)
        invariant lo <= i <= hi
        invariant forall k :: lo <= k < i ==> !Equal(table[k], x)
      {
        i := i + 1;
      }
      FirstMatchIsFirst(table[lo..hi], x, i - lo);
    }

    /**
     * reset: partition the array so that the definitions whose conformance
     * level is at most `vt` come first, make that prefix the active part and
     * sort it.
     */
    method Reset(vt: VTType)
      modifies this, table
      ensures Valid()
      ensures multiset(table[..]) == multiset(old(table[..]))
      ensures forall i :: 0 <= i < lastIndex ==> Active(table[i], vt)
      ensures forall i :: lastIndex <= i < table.Length ==> !Active(table[i], vt)
    {
      var k := Partition(vt);
      ghost var parted := table[..];
      lastIndex := k;
      SortPrefix(k);
      forall i | 0 <= i < k ensures Active(table[i], vt) {
        assert table[i] in multiset(table[..k]);
        assert table[i] in parted[..k];
      }
      forall i | k <= i < table.Length ensures !Active(table[i], vt) {
        assert table[i] == parted[i];
      }
    }

    /**
     * std::partition: a swap-based pass that moves every definition with the
     * predicate to the front; returns the first position without it.
     */
    method Partition(vt: VTType) returns (k: nat)
      modifies table
      ensures k <= table.Length
      ensures multiset(table[..]) == multiset(old(table[..]))
      ensures forall i :: 0 <= i < k ==> Active(table[i], vt)
      ensures forall i :: k <= i < table.Length ==> !Active(table[i], vt)
    {
      k := 0;
      var i := 0;
      while i < table.Length
        invariant 0 <= k <= i <= table.Length
        invariant multiset(table[..]) == multiset(old(table[..]))
        invariant forall j :: 0 <= j < k ==> Active(table[j], vt)
        invariant forall j :: k <= j < i ==> !Active(table[j], vt)
      {
        if Active(table[i], vt) {
          Swap(k, i);
          k := k + 1;
        }
        i := i + 1;
      }
    }

    /** std::rotate(it, it + 1, end): the entry at `i` goes to the end, the ones after it move up. */
    method RotateToEnd(i: nat)
      requires i < table.Length
      modifies table
      ensures table[..] == Rotated(old(table[..]), i)
      ensures multiset(table[..]) == multiset(old(table[..]))
    {
      var n := table.Length;
      var moved := table[i];
      ghost var before := table[..];
      forall k | i <= k < n - 1 {
        table[k] := table[k + 1];
      }
      table[n - 1] := moved;
      RotatedAt(before, i);
      assert table[..] == Rotated(before, i);
    }

    /**
     * disableSequence: if an active definition equals `d`, rotate it to the
     * very end of the array (the entries after it move up by one) and shrink
     * the active part by one; otherwise change nothing.
     */
    method DisableSequence(d: FunctionDefinition)
      requires Valid()
      modifies this, table
      ensures Valid()
      ensures multiset(table[..]) == multiset(old(table[..]))
      ensures
        var i := FirstMatch(old(table[..lastIndex]), d);
        if i < old(lastIndex) then
          && lastIndex == old(lastIndex) - 1
          && table[..] == Rotated(old(table[..]), i)
        else
          lastIndex == old(lastIndex) && table[..] == old(table[..])
    {
      var i := Find(0, lastIndex, d);
      assert table[0..lastIndex] == table[..lastIndex];
      if i < lastIndex {
        ghost var before := table[..];
        RotateToEnd(i);
        SortedWithout(before[..lastIndex], i);
        RotatedPrefix(before, i, lastIndex);
        lastIndex := lastIndex - 1;
      }
    }

    /**
     * enableSequence: if a disabled definition equals `d`, swap it to the
     * first disabled position, grow the active part by one and sort it;
     * otherwise change nothing.
     */
    method EnableSequence(d: FunctionDefinition)
      requires Valid()
      modifies this, table
      ensures Valid()
      ensures multiset(table[..]) == multiset(old(table[..]))
      ensures
        var i := old(lastIndex) + FirstMatch(old(table[lastIndex..]), d);
        if i < table.Length then
          && lastIndex == old(lastIndex) + 1
          && multiset(table[..lastIndex]) == multiset(old(table[..lastIndex])) + multiset{old(table[i])}
          && table[lastIndex..] == old(table[..])[i := old(table[lastIndex])][lastIndex..]
        else
          lastIndex == old(lastIndex) && table[..] == old(table[..])
    {
      var i := Find(lastIndex, table.Length, d);
      assert table[lastIndex..table.Length] == table[lastIndex..];
      if i < table.Length {
        ghost var before := table[..];
        Swap(lastIndex, i);
        ghost var swapped := table[..];
        SwapIntoPrefix(before, lastIndex, i);
        lastIndex := lastIndex + 1;
        SortPrefix(lastIndex);
        SortedPrefixRest(swapped, Sort(swapped[..lastIndex]), table[..], lastIndex);
      }
    }
  }

  /** std::rotate(it, it + 1, end) on a sequence: entry i taken out and put at the end. */
  function Rotated(s: seq<FunctionDefinition>, i: nat): seq<FunctionDefinition>
    requires i < |s|
  {
    s[..i] + s[i + 1..] + [s[i]]
  }

  /** Entry by entry, the rotation of entry i to the end, which keeps the multiset. */
  lemma RotatedAt(s: seq<FunctionDefinition>, i: nat)
    requires i < |s|
    ensures |Rotated(s, i)| == |s|
    ensures forall k :: 0 <= k < i ==> Rotated(s, i)[k] == s[k]
    ensures forall k :: i <= k < |s| - 1 ==> Rotated(s, i)[k] == s[k + 1]
    ensures Rotated(s, i)[|s| - 1] == s[i]
    ensures multiset(Rotated(s, i)) == multiset(s)
  {
    assert s[i..] == [s[i]] + s[i + 1..];
    assert s == s[..i] + s[i..];
  }

  /** After the rotation the first n - 1 entries are the first n with entry i taken out. */
  lemma RotatedPrefix(s: seq<FunctionDefinition>, i: nat, n: nat)
    requires i < n <= |s|
    ensures Rotated(s, i)[..n - 1] == s[..n][..i] + s[..n][i + 1..]
  {
    var r := Rotated(s, i);
    var t := s[..n][..i] + s[..n][i + 1..];
    assert |t| == n - 1;
    forall k | 0 <= k < n - 1 ensures r[k] == t[k] {
      if k < i {
        assert r[k] == s[k] && t[k] == s[k];
      } else {
        assert r[k] == s[k + 1] && t[k] == s[k + 1];
      }
    }
  }

  /** Swapping entry i into position n (n <= i) makes it the last of the first n + 1 entries. */
  lemma SwapIntoPrefix(s: seq<FunctionDefinition>, n: nat, i: nat)
    requires n <= i < |s|
    ensures s[n := s[i]][i := s[n]][..n + 1] == s[..n] + [s[i]]
    ensures multiset(s[n := s[i]][i := s[n]][..n + 1]) == multiset(s[..n]) + multiset{s[i]}
    ensures s[n := s[i]][i := s[n]][n + 1..] == s[i := s[n]][n + 1..]
  {
    var w := s[n := s[i]][i := s[n]];
    assert w[..n + 1] == s[..n] + [s[i]];
  }

  /** A sequence that agrees with `sorted` on the first n entries and with `s` after them. */
  lemma PrefixReplaced(s: seq<FunctionDefinition>, sorted: seq<FunctionDefinition>, t: seq<FunctionDefinition>, n: nat)
    requires n <= |s| == |t| && |sorted| == n && multiset(sorted) == multiset(s[..n])
    requires forall k :: 0 <= k < n ==> t[k] == sorted[k]
    requires forall k :: n <= k < |t| ==> t[k] == s[k]
    ensures t == sorted + s[n..] && t[..n] == sorted
    ensures multiset(t) == multiset(s)
  {
    assert t == sorted + s[n..];
    assert s == s[..n] + s[n..];
  }

  /** What sorting the first n entries leaves beyond them. */
  lemma SortedPrefixRest(s: seq<FunctionDefinition>, sorted: seq<FunctionDefinition>, t: seq<FunctionDefinition>, n: nat)
    requires n <= |s| && |sorted| == n && t == sorted + s[n..]
    ensures t[..n] == sorted && t[n..] == s[n..]
  {
  }

  lemma FirstMatchIsFirst(s: seq<FunctionDefinition>, x: FunctionDefinition, i: nat)
    requires i <= |s|
    requires forall k :: 0 <= k < i ==> !Equal(s[k], x)
    requires i < |s| ==> Equal(s[i], x)
    ensures FirstMatch(s, x) == i
  {
  }
}
