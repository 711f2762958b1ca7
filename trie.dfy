/** The abstract value of a sparse pointer tensor.

    A pointer of the nested-pointer tensor is, as a value, one of:
    - Null          : a null pointer, nothing is stored below it;
    - Cell(value)   : a leaf pointer, pointing at one heap cell holding an element;
    - Block(kids)   : an interior pointer, pointing at a heap array of N child pointers.
    A tensor with `depth` indices is a pointer whose value is Shaped(t, depth, N).
 */
module Trie {

  datatype Tree<T> = Null | Cell(value: T) | Block(kids: seq<Tree<T>>)

  /** Every index of the tuple addresses one of the N children. */
  predicate InRange(idxs: seq<nat>, n: nat)
  {
    forall k :: 0 <= k < |idxs| ==> idxs[k] < n
  }

  /** `t` is the value of a pointer with `depth` further levels over width `n`:
      interior pointers are blocks of exactly n children, leaf pointers are cells. */
  predicate Shaped<T>(t: Tree<T>, depth: nat, n: nat)
  {
    match t
    case Null => true
    case Cell(_) => depth == 0
    case Block(kids) =>
      depth > 0 && |kids| == n &&
      forall k :: 0 <= k < |kids| ==> Shaped(kids[k], depth - 1, n)
  }

  /** A freshly allocated interior array: n children, all null. */
  function Nulls<T>(n: nat): (r: seq<Tree<T>>)
    ensures |r| == n
    ensures forall k :: 0 <= k < n ==> r[k] == Null
  {
    seq(n, _ => Null)
  }

  /** The subtree reached by following `path`, or Null as soon as the walk
      meets a null pointer or steps below a leaf. */
  function Lookup<T>(t: Tree<T>, path: seq<nat>): Tree<T>
    decreases |path|
  {
    if path == [] then t
    else if t.Block? && path[0] < |t.kids| then Lookup(t.kids[path[0]], path[1..])
    else Null
  }

  /** get_element: at the tail a null pointer reads as the default and a leaf as
      its value; on the way down, a null pointer or a null child reads as the
      default. The reading is the value of the leaf the tuple reaches, or the
      default when the walk meets a null pointer; a walk of full length never
      ends inside an interior level. */
  function Read<T>(t: Tree<T>, idxs: seq<nat>, dflt: T, n: nat): (r: T)
    requires Shaped(t, |idxs|, n) && InRange(idxs, n)
    ensures Lookup(t, idxs) == Null || Lookup(t, idxs).Cell?
    ensures r == if Lookup(t, idxs).Cell? then Lookup(t, idxs).value else dflt
    decreases |idxs|
  {
    if |idxs| == 0 then
      if t.Cell? then t.value else dflt
    else if t.Block? && t.kids[idxs[0]] != Null then
      assert InRange(idxs[1..], n) by {
        forall k | 0 <= k < |idxs[1..]| ensures idxs[1..][k] < n { assert idxs[1..][k] == idxs[k + 1]; }
      }
      Read(t.kids[idxs[0]], idxs[1..], dflt, n)
    else
      dflt
  }

  /** set_element: at the tail the leaf holds `val` (overwritten or freshly
      allocated); on the way down a null interior pointer is first replaced by a
      block of n null children, then the write descends into child idxs[0]. */
  function Write<T>(t: Tree<T>, idxs: seq<nat>, val: T, n: nat): (r: Tree<T>)
    requires Shaped(t, |idxs|, n) && InRange(idxs, n)
    ensures Shaped(r, |idxs|, n)
    ensures r != Null
    decreases |idxs|
  {
    if |idxs| == 0 then
      Cell(val)
    else
      var kids := if t == Null then Nulls(n) else t.kids;
      Block(kids[idxs[0] := Write(kids[idxs[0]], idxs[1..], val, n)])
  }

  /** The number of heap blocks (interior arrays and leaf cells) a tree occupies. */
  function Size<T>(t: Tree<T>): nat
    decreases t, 1
  {
    match t
    case Null => 0
    case Cell(_) => 1
    case Block(kids) => 1 + SizeOfAll(kids)
  }

  function SizeOfAll<T>(ts: seq<Tree<T>>): nat
    decreases ts, 0
  {
    if ts == [] then 0 else SizeOfAll(ts[..|ts| - 1]) + Size(ts[|ts| - 1])
  }

  /** Counting the blocks of one more child adds that child's size. */
  lemma SizeOfAllAppend<T>(ts: seq<Tree<T>>, i: nat)
    requires i < |ts|
    ensures SizeOfAll(ts[..i + 1]) == SizeOfAll(ts[..i]) + Size(ts[i])
  {
    assert ts[..i + 1][..i] == ts[..i];
  }

  // ---------------------------------------------------------------------------
  // Properties of reading and writing

  /** Walking past the bottom level of a shaped tree always meets a null pointer. */
  lemma {:induction false} LookupTooDeep<T>(t: Tree<T>, depth: nat, n: nat, path: seq<nat>)
    requires Shaped(t, depth, n) && |path| > depth
    ensures Lookup(t, path) == Null
    decreases depth
  {
    if t.Block? && path[0] < |t.kids| {
      LookupTooDeep(t.kids[path[0]], depth - 1, n, path[1..]);
    }
  }

  /** An empty (null) tensor reads as the default at every index tuple. */
  lemma ReadNull<T>(idxs: seq<nat>, dflt: T, n: nat)
    requires InRange(idxs, n)
    ensures Read(Tree<T>.Null, idxs, dflt, n) == dflt
  {
  }

  /** Every pointer on the path of a write is non-null afterwards, and the last
      one is a leaf holding the written value. */
  lemma {:induction false} WriteCreatesPath<T>(t: Tree<T>, idxs: seq<nat>, val: T, n: nat, q: seq<nat>)
    requires Shaped(t, |idxs|, n) && InRange(idxs, n)
    requires q <= idxs
    ensures Lookup(Write(t, idxs, val, n), q) != Null
    ensures q == idxs ==> Lookup(Write(t, idxs, val, n), q) == Cell(val)
    decreases |idxs|
  {
    if q != [] {
      var kids := if t == Null then Nulls(n) else t.kids;
      assert InRange(idxs[1..], n) by {
        forall k | 0 <= k < |idxs[1..]| ensures idxs[1..][k] < n { assert idxs[1..][k] == idxs[k + 1]; }
      }
      assert q[1..] <= idxs[1..];
      WriteCreatesPath(kids[idxs[0]], idxs[1..], val, n, q[1..]);
    }
  }

  /** A write changes nothing off its own path: the subtree at every path that is
      not a prefix of the index tuple is the same before and after. */
  lemma {:induction false} WriteOffPath<T>(t: Tree<T>, idxs: seq<nat>, val: T, n: nat, q: seq<nat>)
    requires Shaped(t, |idxs|, n) && InRange(idxs, n)
    requires !(q <= idxs)
    ensures Lookup(Write(t, idxs, val, n), q) == Lookup(t, q)
    decreases |idxs|
  {
    var r := Write(t, idxs, val, n);
    if |idxs| == 0 {
      LookupTooDeep(r, 0, n, q);
      LookupTooDeep(t, 0, n, q);
    } else {
      var kids := if t == Null then Nulls(n) else t.kids;
      assert InRange(idxs[1..], n) by {
        forall k | 0 <= k < |idxs[1..]| ensures idxs[1..][k] < n { assert idxs[1..][k] == idxs[k + 1]; }
      }
      if q[0] == idxs[0] {
        assert !(q[1..] <= idxs[1..]);
        WriteOffPath(kids[idxs[0]], idxs[1..], val, n, q[1..]);
      }
    }
  }

  /** Get after set returns the value that was set. */
  lemma {:induction false} ReadWriteSame<T>(t: Tree<T>, idxs: seq<nat>, val: T, dflt: T, n: nat)
    requires Shaped(t, |idxs|, n) && InRange(idxs, n)
    ensures Read(Write(t, idxs, val, n), idxs, dflt, n) == val
  {
    WriteCreatesPath(t, idxs, val, n, idxs);
  }

  /** A set at one index tuple leaves the reading at every other tuple unchanged. */
  lemma {:induction false} ReadWriteOther<T>(t: Tree<T>, idxs: seq<nat>, val: T, other: seq<nat>, dflt: T, n: nat)
    requires Shaped(t, |idxs|, n) && InRange(idxs, n)
    requires |other| == |idxs| && InRange(other, n) && other != idxs
    ensures Read(Write(t, idxs, val, n), other, dflt, n) == Read(t, other, dflt, n)
  {
    assert !(other <= idxs);
    WriteOffPath(t, idxs, val, n, other);
  }

  /** After a write, the allocated pointers are exactly those allocated before
      together with the prefixes of the written index tuple. */
  lemma {:induction false} WriteAllocatesOnlyPath<T>(t: Tree<T>, idxs: seq<nat>, val: T, n: nat, q: seq<nat>)
    requires Shaped(t, |idxs|, n) && InRange(idxs, n)
    ensures Lookup(Write(t, idxs, val, n), q) != Null <==> Lookup(t, q) != Null || q <= idxs
  {
    if q <= idxs {
      WriteCreatesPath(t, idxs, val, n, q);
    } else {
      WriteOffPath(t, idxs, val, n, q);
    }
  }
}
