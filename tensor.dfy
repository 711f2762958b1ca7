/** The nested-pointer sparse tensor on the heap.

    A tensor with d indices over width N is a pointer that is null or points at
    a Level of height d. A Level is one heap array of N child pointers: at height
    1 the children are leaf pointers (`cells`), above that they point at Levels of
    the height below (`down`); the array not used at a height is null. A Leaf is
    one heap cell holding one element. The pointer a C++ function receives by
    reference is passed in and the (possibly new) pointer is returned.
 */
module Tensor {
  import opened Trie

  /** One heap cell holding an element: the target of an element pointer. */
  class Leaf<T> {
    var value: T

    constructor (v: T)
      ensures value == v
    {
      value := v;
    }
  }

  /** One heap array of `width` child pointers, `height` indices above the elements. */
  class Level<T> {
    ghost const height: nat
    ghost const width: nat
    const cells: array?<Leaf?<T>>
    const down: array?<Level?<T>>

    ghost var Repr: set<object>
    ghost var Model: Tree<T>
    // the part of Repr owned by each child slot of an interior level
    ghost var Parts: seq<set<object>>

    /** The object invariant: the array has `width` slots and the ghost Model is
        the abstract value of the pointers below this level; distinct slots own
        disjoint parts of the heap. */
    ghost predicate Valid()
      reads this, Repr
      ensures Valid() ==> this in Repr
      decreases Repr, 0
    {
      && this in Repr
      && height >= 1
      && Model.Block? && |Model.kids| == width
      && Shaped(Model, height, width)
      && (cells != null <==> height == 1)
      && (down != null <==> height > 1)
      && (cells != null ==>
            && cells in Repr && cells.Length == width
            && (forall k :: 0 <= k < width ==> cells[k] != null ==> cells[k] in Repr)
            && (forall k :: 0 <= k < width ==> Model.kids[k] == LeafModel(cells[k]))
            && (forall j, k :: 0 <= j < k < width && cells[j] != null ==> cells[j] != cells[k]))
      && (down != null ==>
            && down in Repr && down.Length == width && |Parts| == width
            && (forall k :: 0 <= k < width ==> Parts[k] <= Repr && this !in Parts[k] && down !in Parts[k])
            && (forall j, k :: 0 <= j < k < width ==> Parts[j] !! Parts[k])
            && (forall k :: 0 <= k < width ==> down[k] != null ==> down[k] in Parts[k])
            && (forall k :: 0 <= k < width ==> ChildFits(down[k], height - 1, width, Model.kids[k], Parts[k])))
    }

    /** Stores `c` into slot `idx` of an interior level whose other slots still
        fit their parts, and re-establishes the invariant. */
    method Attach(idx: nat, c: Level<T>)
      requires height > 1 && cells == null && down != null && down.Length == width && idx < width
      requires this in Repr && down in Repr
      requires Model.Block? && |Model.kids| == width && |Parts| == width
      requires Shaped(Model, height, width)
      requires ChildFits(c, height - 1, width, c.Model, c.Repr)
      requires this !in c.Repr && down !in c.Repr
      requires forall k :: 0 <= k < width && k != idx ==>
                 && Parts[k] <= Repr && this !in Parts[k] && down !in Parts[k] && Parts[k] !! c.Repr
                 && (down[k] != null ==> down[k] in Parts[k])
                 && ChildFits(down[k], height - 1, width, Model.kids[k], Parts[k])
      requires forall j, k :: 0 <= j < k < width && j != idx && k != idx ==> Parts[j] !! Parts[k]
      modifies this, down
      ensures Valid()
      ensures down[idx] == c && forall k :: 0 <= k < width && k != idx ==> down[k] == old(down[k])
      ensures Model == Block(old(Model).kids[idx := c.Model])
      ensures Repr == old(Repr) + c.Repr
      ensures Parts == old(Parts)[idx := c.Repr]
    {
      ghost var cm, cr := c.Model, c.Repr;
      assert ChildFits(c, height - 1, width, cm, cr);
      down[idx] := c;
      Repr, Model, Parts := Repr + cr, Block(Model.kids[idx := cm]), Parts[idx := cr];
      assert ChildFits(c, height - 1, width, cm, cr);
      forall k | 0 <= k < width
        ensures ChildFits(down[k], height - 1, width, Model.kids[k], Parts[k])
      {
        if k != idx {
          assert old(ChildFits(down[k], height - 1, width, Model.kids[k], Parts[k]));
        }
      }
    }

    /** The `new ...[N]` of set_element followed by the loop that nulls every child. */
    constructor (h: nat, n: nat)
      requires h >= 1
      ensures Valid() && fresh(Repr)
      ensures height == h && width == n
      ensures Model == Block(Nulls(n))
    {
      height, width := h, n;
      if h == 1 {
        var a := new Leaf?<T>[n];
        for i := 0 to n
          invariant forall k :: 0 <= k < i ==> a[k] == null
        {
          a[i] := null;
        }
        cells, down := a, null;
        Repr := {this, a};
      } else {
        var a := new Level?<T>[n];
        for i := 0 to n
          invariant forall k :: 0 <= k < i ==> a[k] == null
        {
          a[i] := null;
        }
        cells, down := null, a;
        Repr := {this, a};
      }
      Model := Block(Nulls(n));
      Parts := seq(n, _ => {});
    }
  }

  /** The abstract value of a leaf pointer. */
  ghost function LeafModel<T>(p: Leaf?<T>): Tree<T>
    reads p
  {
    if p == null then Null else Cell(p.value)
  }

  /** A child pointer of height h over width w, with abstract value m and footprint fp. */
  ghost predicate ChildFits<T>(c: Level?<T>, h: nat, w: nat, m: Tree<T>, fp: set<object>)
    reads c, fp
    decreases fp, 1
  {
    if c == null then m == Null && fp == {}
    else c.Repr == fp && c.Valid() && c.height == h && c.width == w && c.Model == m
  }

  /** Unfolds ChildFits. */
  lemma ChildFitsValid<T>(c: Level?<T>, h: nat, w: nat, m: Tree<T>, fp: set<object>)
    requires ChildFits(c, h, w, m, fp)
    ensures LevelModel(c) == m && LevelRepr(c) == fp
    ensures IsTensor(c, h, w)
  {
  }

  /** The abstract value of an interior pointer. */
  ghost function LevelModel<T>(p: Level?<T>): Tree<T>
    reads p
  {
    if p == null then Null else p.Model
  }

  ghost function LevelRepr<T>(p: Level?<T>): set<object>
    reads p
  {
    if p == null then {} else p.Repr
  }

  /** A well-formed tensor pointer for `depth` indices over width `n`. */
  ghost predicate IsTensor<T>(p: Level?<T>, depth: nat, n: nat)
    reads p, LevelRepr(p)
  {
    p != null ==> p.Valid() && p.height == depth && p.width == n
  }

  // ---------------------------------------------------------------------------
  // get_element

  /** get_element, tail case: a null leaf pointer reads as the default. */
  function GetLeaf<T>(p: Leaf?<T>, dflt: T): (r: T)
    reads p
    ensures r == Read(LeafModel(p), [], dflt, 0)
  {
    if p != null then p.value else dflt
  }

  /** get_element, recursive case: descends only while the pointer and the child
      at the next index are non-null. */
  function GetElement<T>(p: Level?<T>, idxs: seq<nat>, dflt: T, ghost n: nat): (r: T)
    requires |idxs| >= 1 && InRange(idxs, n)
    requires IsTensor(p, |idxs|, n)
    reads p, LevelRepr(p)
    ensures r == Read(LevelModel(p), idxs, dflt, n)
    decreases |idxs|
  {
    if p == null then dflt
    else
      var idx := idxs[0];
      assert InRange(idxs[1..], n) by {
        forall k | 0 <= k < |idxs[1..]| ensures idxs[1..][k] < n { assert idxs[1..][k] == idxs[k + 1]; }
      }
      if |idxs| == 1 then
        if p.cells[idx] != null then GetLeaf(p.cells[idx], dflt) else dflt
      else
        ChildFitsValid(p.down[idx], |idxs| - 1, n, p.Model.kids[idx], p.Parts[idx]);
        if p.down[idx] != null then GetElement(p.down[idx], idxs[1..], dflt, n) else dflt
  }

  // ---------------------------------------------------------------------------
  // set_element

  /** set_element, tail case: overwrite the leaf in place, or allocate a fresh
      leaf holding `val` when the pointer is null. */
  method SetLeaf<T>(val: T, p: Leaf?<T>) returns (q: Leaf<T>)
    modifies p
    ensures q.value == val
    ensures p != null ==> q == p
    ensures p == null ==> fresh(q)
  {
    if p != null {
      p.value := val;
      q := p;
    } else {
      q := new Leaf(val);
    }
  }

  /** set_element, recursive case: allocate a missing interior array of `n` null
      children, then set into the child at the next index. */
  method SetElement<T>(val: T, p: Level?<T>, idxs: seq<nat>, n: nat) returns (q: Level<T>)
    requires |idxs| >= 1 && InRange(idxs, n)
    requires IsTensor(p, |idxs|, n)
    modifies LevelRepr(p)
    ensures q.Valid() && q.height == |idxs| && q.width == n
    ensures p != null ==> q == p
    ensures q.Model == Write(old(LevelModel(p)), idxs, val, n)
    ensures fresh(q.Repr - old(LevelRepr(p)))
    decreases |idxs|, 1
  {
    if p == null {
      q := new Level(|idxs|, n);
    } else {
      q := p;
    }
    if |idxs| == 1 {
      SetInBottom(val, q, idxs[0]);
    } else {
      SetInInterior(val, q, idxs, n);
    }
  }

  /** The step of set_element at a level whose children are leaf pointers. */
  method SetInBottom<T>(val: T, t: Level<T>, idx: nat)
    requires t.Valid() && t.height == 1 && idx < t.width
    modifies t.Repr
    ensures t.Valid()
    ensures t.Model == Block(old(t.Model).kids[idx := Cell(val)])
    ensures fresh(t.Repr - old(t.Repr))
  {
    var c := SetLeaf(val, t.cells[idx]);
    t.cells[idx] := c;
    t.Repr := t.Repr + {c};
    t.Model := Block(t.Model.kids[idx := Cell(val)]);
  }

  /** The step of set_element at a level whose children are interior pointers. */
  method SetInInterior<T>(val: T, t: Level<T>, idxs: seq<nat>, n: nat)
    requires t.Valid() && t.height == |idxs| > 1 && t.width == n && InRange(idxs, n)
    modifies t.Repr
    ensures t.Valid()
    ensures t.Model == Write(old(t.Model), idxs, val, t.width)
    ensures fresh(t.Repr - old(t.Repr))
    decreases |idxs|, 0
  {
    var idx := idxs[0];
    assert InRange(idxs[1..], n) by {
      forall k | 0 <= k < |idxs[1..]| ensures idxs[1..][k] < n { assert idxs[1..][k] == idxs[k + 1]; }
    }
    var c0 := t.down[idx];
    ghost var kids, parts := t.Model.kids, t.Parts;
    ChildFitsValid(c0, |idxs| - 1, n, kids[idx], parts[idx]);
    var c := SetElement(val, c0, idxs[1..], n);
    forall k | 0 <= k < n && k != idx
      ensures parts[k] !! c.Repr && ChildFits(t.down[k], |idxs| - 1, n, kids[k], parts[k])
    {
      assert parts[k] !! parts[idx] by {
        if k < idx { assert parts[k] !! parts[idx]; } else { assert parts[idx] !! parts[k]; }
      }
      assert old(ChildFits(t.down[k], |idxs| - 1, n, kids[k], parts[k]));
    }
    t.Attach(idx, c);
    assert t.Model == Write(old(t.Model), idxs, val, n);
  }

  // ---------------------------------------------------------------------------
  // deallocate

  /** No block is deleted twice. */
  predicate Distinct(s: seq<object>)
  {
    forall a, b :: 0 <= a < b < |s| ==> s[a] != s[b]
  }

  lemma DistinctAppend(s: seq<object>, u: seq<object>)
    requires Distinct(s) && Distinct(u)
    requires forall o :: o in u ==> o !in s
    ensures Distinct(s + u)
  {
    forall a, b | 0 <= a < b < |s + u| ensures (s + u)[a] != (s + u)[b] {
      if b < |s| {
        assert (s + u)[a] == s[a] && (s + u)[b] == s[b];
      } else if a < |s| {
        assert (s + u)[a] == s[a] && (s + u)[b] == u[b - |s|];
        assert u[b - |s|] in u;
      } else {
        assert (s + u)[a] == u[a - |s|] && (s + u)[b] == u[b - |s|];
      }
    }
  }

  /** deallocate, tail case: delete the leaf (nothing for a null pointer) and
      null the pointer. `deleted` lists the blocks deleted. */
  method DeallocateLeaf<T>(p: Leaf?<T>) returns (q: Leaf?<T>, ghost deleted: seq<object>)
    ensures q == null
    ensures Distinct(deleted) && |deleted| == Size(LeafModel(p))
    ensures forall o :: o in deleted ==> o == p
    ensures p != null ==> p in deleted
  {
    q := null;
    deleted := if p == null then [] else [p];
  }

  /** deallocate, recursive case: release every child, delete the array and null
      the pointer. No block is deleted twice, only blocks of the tensor are
      deleted, as many as it has, and among them are the level itself and every
      child it pointed at. */
  method Deallocate<T>(p: Level?<T>, n: nat) returns (q: Level?<T>, ghost deleted: seq<object>)
    requires p != null ==> p.Valid() && p.width == n
    modifies LevelRepr(p)
    ensures q == null
    ensures Distinct(deleted) && |deleted| == Size(old(LevelModel(p)))
    ensures forall o :: o in deleted ==> o in old(LevelRepr(p))
    ensures p != null ==> p in deleted
    ensures p != null && p.cells != null ==> forall k :: 0 <= k < n ==>
              p.cells[k] == null && (old(p.cells[k]) != null ==> old(p.cells[k]) in deleted)
    ensures p != null && p.down != null ==> forall k :: 0 <= k < n ==>
              p.down[k] == null && (old(p.down[k]) != null ==> old(p.down[k]) in deleted)
    decreases if p == null then 0 else p.height, 1
  {
    q := null;
    if p == null {
      deleted := [];
    } else if p.cells != null {
      deleted := ReleaseLeaves(p, n);
      deleted := deleted + [p];
    } else {
      deleted := ReleaseChildren(p, n);
      deleted := deleted + [p];
    }
  }

  /** The loop of deallocate over the leaf pointers of a bottom level. */
  method ReleaseLeaves<T>(p: Level<T>, n: nat) returns (ghost deleted: seq<object>)
    requires p.Valid() && p.width == n && p.cells != null
    modifies p.cells
    ensures Distinct(deleted) && |deleted| == SizeOfAll(p.Model.kids)
    ensures forall o :: o in deleted ==> o in old(p.Repr) && o != p
    ensures forall k :: 0 <= k < n ==> p.cells[k] == null
    ensures forall k :: 0 <= k < n && old(p.cells[k]) != null ==> old(p.cells[k]) in deleted
  {
    ghost var kids := p.Model.kids;
    deleted := [];
    for i := 0 to n
      invariant forall k :: i <= k < n ==> p.cells[k] == old(p.cells[k])
      invariant forall k :: 0 <= k < i ==> p.cells[k] == null
      invariant Distinct(deleted) && |deleted| == SizeOfAll(kids[..i])
      invariant forall o :: o in deleted ==> o in old(p.Repr) && o != p
      invariant forall o :: o in deleted ==> forall k :: i <= k < n ==> o != old(p.cells[k])
      invariant forall k :: 0 <= k < i && old(p.cells[k]) != null ==> old(p.cells[k]) in deleted
    {
      var c, d := DeallocateLeaf(p.cells[i]);
      SizeOfAllAppend(kids, i);
      DistinctAppend(deleted, d);
      p.cells[i] := c;
      deleted := deleted + d;
    }
    assert kids[..n] == kids;
  }

  /** The loop of deallocate over the child pointers of an interior level. */
  method ReleaseChildren<T>(p: Level<T>, n: nat) returns (ghost deleted: seq<object>)
    requires p.Valid() && p.width == n && p.down != null
    modifies p.Repr
    ensures Distinct(deleted) && |deleted| == SizeOfAll(old(p.Model).kids)
    ensures forall o :: o in deleted ==> o in old(p.Repr) && o != p
    ensures forall k :: 0 <= k < n ==> p.down[k] == null
    ensures forall k :: 0 <= k < n && old(p.down[k]) != null ==> old(p.down[k]) in deleted
    decreases p.height, 0
  {
    ghost var kids, parts := p.Model.kids, p.Parts;
    deleted := [];
    for i := 0 to n
      invariant forall k :: i <= k < n ==> p.down[k] == old(p.down[k]) && unchanged(parts[k])
      invariant forall k :: 0 <= k < i ==> p.down[k] == null && (old(p.down[k]) != null ==> old(p.down[k]) in deleted)
      invariant Distinct(deleted) && |deleted| == SizeOfAll(kids[..i])
      invariant forall o :: o in deleted ==> o in old(p.Repr) && o != p && forall k :: i <= k < n ==> o !in parts[k]
    {
      assert old(ChildFits(p.down[i], p.height - 1, n, kids[i], parts[i]));
      assert ChildFits(p.down[i], p.height - 1, n, kids[i], parts[i]);
      ChildFitsValid(p.down[i], p.height - 1, n, kids[i], parts[i]);
      var c, d := Deallocate(p.down[i], n);
      SizeOfAllAppend(kids, i);
      DistinctAppend(deleted, d);
      p.down[i] := c;
      deleted := deleted + d;
    }
    assert kids[..n] == kids;
  }
}
