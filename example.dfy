/** The example program: a 4-index tensor of width 4 over unsigned integers is
    filled with 0, 1, 2, ... in row-major order of its index tuples, every
    element is read back in the same order, and the tensor is deallocated. */
module AllPointers {
  import opened Trie
  import opened Tensor

  /** The dimension of the example: the width N and the number of indices. */
  const Dimension: nat := 4

  /** The row-major rank of an index tuple: the value the fill loop stores there. */
  function Rank(q: seq<nat>): (r: nat)
    requires |q| == 4 && InRange(q, 4)
    ensures r < 256
  {
    ((q[0] * 4 + q[1]) * 4 + q[2]) * 4 + q[3]
  }

  /** The index tuple of row-major rank k. */
  function Unrank(k: nat): (q: seq<nat>)
    requires k < 256
    ensures |q| == 4 && InRange(q, 4)
    ensures Rank(q) == k
  {
    var k1 := k / 4;
    var k2 := k1 / 4;
    [k2 / 4, k2 % 4, k1 % 4, k % 4]
  }

  /** Unrank inverts Rank, so distinct index tuples have distinct ranks. */
  lemma UnrankRank(q: seq<nat>)
    requires |q| == 4 && InRange(q, 4)
    ensures Unrank(Rank(q)) == q
  {
  }

  /** The tuples of rank below i hold their rank; the others read as the default 0. */
  ghost predicate Filled(m: Tree<nat>, i: nat)
  {
    && Shaped(m, 4, 4)
    && forall k :: 0 <= k < 256 ==> Read(m, Unrank(k), 0, 4) == if k < i then k else 0
  }

  /** One step of the fill loop: storing the rank at the tuple of that rank. */
  lemma FillStep(m: Tree<nat>, q: seq<nat>)
    requires Shaped(m, 4, 4) && |q| == 4 && InRange(q, 4)
    requires Filled(m, Rank(q))
    ensures Filled(Write(m, q, Rank(q), 4), Rank(q) + 1)
  {
    var i := Rank(q);
    var m' := Write(m, q, i, 4);
    forall k | 0 <= k < 256
      ensures Read(m', Unrank(k), 0, 4) == if k < i + 1 then k else 0
    {
      if k == i {
        UnrankRank(q);
        ReadWriteSame(m, q, i, 0, 4);
      } else {
        ReadWriteOther(m, q, i, Unrank(k), 0, 4);
      }
    }
  }

  /** The body of the fill loops: set_element(i++, tensor, i0, i1, i2, i3). */
  method FillOne(t: Level?<nat>, q: seq<nat>, i: nat) returns (t': Level<nat>, i': nat)
    requires |q| == 4 && InRange(q, 4) && i == Rank(q)
    requires IsTensor(t, 4, 4) && Filled(LevelModel(t), i)
    modifies LevelRepr(t)
    ensures t'.Valid() && t'.height == 4 && t'.width == 4 && fresh(t'.Repr - old(LevelRepr(t)))
    ensures i' == i + 1 && Filled(t'.Model, i')
  {
    FillStep(LevelModel(t), q);
    t' := SetElement(i, t, q, Dimension);
    i' := i + 1;
  }

  /** The fill loops of main, starting from a null tensor. */
  method Fill() returns (t: Level?<nat>)
    ensures t != null && t.Valid() && t.height == 4 && t.width == 4 && fresh(t.Repr)
    ensures Filled(t.Model, 256)
  {
    t := null;
    var i: nat := 0;
    for i0 := 0 to 4
      invariant IsTensor(t, 4, 4) && (t != null ==> fresh(t.Repr))
      invariant i == 64 * i0
      invariant Filled(LevelModel(t), i)
    {
      for i1 := 0 to 4
        invariant IsTensor(t, 4, 4) && (t != null ==> fresh(t.Repr))
        invariant i == 64 * i0 + 16 * i1
        invariant Filled(LevelModel(t), i)
      {
        for i2 := 0 to 4
          invariant IsTensor(t, 4, 4) && (t != null ==> fresh(t.Repr))
          invariant i == 64 * i0 + 16 * i1 + 4 * i2
          invariant Filled(LevelModel(t), i)
        {
          for i3 := 0 to 4
            invariant IsTensor(t, 4, 4) && (t != null ==> fresh(t.Repr))
            invariant i == 64 * i0 + 16 * i1 + 4 * i2 + i3
            invariant Filled(LevelModel(t), i)
          {
            t, i := FillOne(t, [i0, i1, i2, i3], i);
          }
        }
      }
    }
    assert Read(LevelModel(t), Unrank(1), 0, 4) == 1;
  }

  /** One step of the display loops: appending the reading at the tuple whose
      rank is the number of readings so far. */
  lemma ReadingsNext(m: Tree<nat>, out: seq<nat>, q: seq<nat>, x: nat)
    requires Shaped(m, 4, 4) && |q| == 4 && InRange(q, 4) && |out| == Rank(q)
    requires forall k :: 0 <= k < |out| ==> out[k] == Read(m, Unrank(k), 0, 4)
    requires x == Read(m, q, 0, 4)
    ensures forall k :: 0 <= k < |out + [x]| ==> (out + [x])[k] == Read(m, Unrank(k), 0, 4)
  {
    UnrankRank(q);
  }

  /** The display loops of main: the element at every index tuple in row-major
      order; the readings are returned instead of printed. */
  method Display(t: Level?<nat>) returns (out: seq<nat>)
    requires IsTensor(t, 4, 4)
    ensures |out| == 256
    ensures forall k :: 0 <= k < 256 ==> out[k] == Read(LevelModel(t), Unrank(k), 0, 4)
  {
    ghost var m := LevelModel(t);
    out := [];
    for i0 := 0 to 4
      invariant |out| == 64 * i0
      invariant forall k :: 0 <= k < |out| ==> out[k] == Read(m, Unrank(k), 0, 4)
    {
      for i1 := 0 to 4
        invariant |out| == 64 * i0 + 16 * i1
        invariant forall k :: 0 <= k < |out| ==> out[k] == Read(m, Unrank(k), 0, 4)
      {
        for i2 := 0 to 4
          invariant |out| == 64 * i0 + 16 * i1 + 4 * i2
          invariant forall k :: 0 <= k < |out| ==> out[k] == Read(m, Unrank(k), 0, 4)
        {
          for i3 := 0 to 4
            invariant |out| == 64 * i0 + 16 * i1 + 4 * i2 + i3
            invariant forall k :: 0 <= k < |out| ==> out[k] == Read(m, Unrank(k), 0, 4)
          {
            var q := [i0, i1, i2, i3];
            var x := GetElement(t, q, 0, Dimension);
            ReadingsNext(m, out, q, x);
            out := out + [x];
          }
        }
      }
    }
  }

  /** main: fill, read back and deallocate. The element at rank k reads as k,
      and the tensor is null at the end. */
  method Example() returns (out: seq<nat>, t: Level?<nat>)
    ensures |out| == 256
    ensures forall k :: 0 <= k < 256 ==> out[k] == k
    ensures t == null
  {
    t := Fill();
    out := Display(t);
    ghost var deleted;
    t, deleted := Deallocate(t, Dimension);
  }
}
