# Sparse nested-pointer tensor

This project models the sparse "tensor" of `src/example_all_pointers.cpp` in the
type-utilities repository, and proves properties of that model. The tensor is a
trie of fixed depth built from nested raw pointers (`type*****` for four indices):

- every interior level is a heap array of `N` child pointers, where a null child
  means nothing is stored below it;
- every leaf is one heap cell holding one element;
- `get_element` walks an index tuple and returns the value-initialised element
  `T()` as soon as it meets a null pointer;
- `set_element` walks the same path, allocating every missing interior array
  (with `N` null children) and the missing leaf, then writes the value;
- `deallocate` deletes the whole structure recursively and nulls the root;
- `main` fills a 4-index tensor of width 4 with 0, 1, 2, ... in row-major
  order, reads every element back, and deallocates it.

The project has three modules:

- `Trie` (`trie.dfy`) is the abstract value of a tensor pointer:
  `Tree = Null | Cell(value) | Block(kids)`. `Read` and `Write` are the
  value-level meaning of `get_element` and `set_element`, and `Lookup` is the
  subtree at a path. The lemmas prove get-after-set, independence of other
  tuples, and that a set creates exactly the pointers on its own path.
- `Tensor` (`tensor.dfy`) is the heap structure.
  - `Leaf` is one element cell.
  - `Level` is one array of `N` child pointers. At height 1 its children are
    leaf pointers (`cells`); above that they are level pointers (`down`).
  - Every `Level` carries a ghost abstract value `Model`, a footprint `Repr`,
    and one footprint per child slot (`Parts`). `Valid()` ties the arrays to
    `Model` and keeps the slots' footprints disjoint.
  - `GetElement` is a function that reads the heap.
  - `SetElement` and `Deallocate` are methods that change it.
  - A pointer the C++ code takes by reference (`T& tensor`) is passed in, and
    the possibly new pointer is returned for the caller to store.
- `AllPointers` (`example.dfy`) is the example program: the fill loops, the
  display loops and the final deallocation.

The source file describes the example only as use cases of the pointer traits;
the behaviour stated here is read from the code.

## Model

| member | source | states |
|---|---|---|
| Trie.Nulls | src/example_all_pointers.cpp:60-61 | a freshly allocated interior array has exactly N children and every one is null |
| Trie.Write | src/example_all_pointers.cpp:47-64 | set_element keeps the tensor well-shaped for its depth and width, and the pointer it was given is non-null afterwards |
| Trie.Read | src/example_all_pointers.cpp:31-45 | the value-level get_element: the default when some pointer on the path is null, otherwise the value of the leaf the tuple reaches (`Lookup`); a walk of full length never ends inside an interior level |
| Trie.ReadNull | src/example_all_pointers.cpp:42-44 | an empty (null) tensor reads as the default at every in-range tuple, as a deallocated tensor does |
| Trie.WriteCreatesPath | src/example_all_pointers.cpp:59-63 | after a set, every pointer on the written path is allocated, and the last one is a leaf holding the written value |
| Trie.WriteOffPath | src/example_all_pointers.cpp:55-64 | a set changes nothing off its own path: the subtree at any path that is not a prefix of the tuple is unchanged |
| Trie.WriteAllocatesOnlyPath | src/example_all_pointers.cpp:59-63 | after a set, a pointer is allocated if and only if it was allocated before or lies on the written path |
| Trie.ReadWriteSame | src/example_all_pointers.cpp:32-64 | get after set at the same tuple returns the value that was set |
| Trie.ReadWriteOther | src/example_all_pointers.cpp:55-64 | a set at one tuple leaves the reading at every other tuple of the same length unchanged |
| Tensor.GetLeaf | src/example_all_pointers.cpp:32-35 | the tail of get_element: a null leaf pointer reads as the default, a non-null one as exactly the value it stores |
| Tensor.GetElement | src/example_all_pointers.cpp:38-45 | get_element on the heap returns the abstract reading `Read` of the pointer's model, for in-range indices and a tensor of matching depth |
| Tensor.Leaf.constructor | src/example_all_pointers.cpp:51 | `new raw_t(val)` yields a cell holding val |
| Tensor.SetLeaf | src/example_all_pointers.cpp:48-52 | the tail of set_element overwrites an existing leaf in place, or returns a fresh leaf holding val when the pointer is null |
| Tensor.Level.constructor | src/example_all_pointers.cpp:59-61 | `new ...[N]` plus the nulling loop yields a fresh valid level of N null children |
| Tensor.SetElement | src/example_all_pointers.cpp:55-64 | set_element keeps the tensor valid; it keeps a non-null pointer, allocates a level for a null one, and its new model is `Write` of the old model; everything it allocates is fresh |
| Tensor.SetInBottom | src/example_all_pointers.cpp:63 | the recursive call at a level of leaf pointers stores the leaf that the tail of set_element returns, and only that slot's value changes |
| Tensor.SetInInterior | src/example_all_pointers.cpp:63 | the recursive call at an interior level writes into child idx, and the level's model becomes `Write` of the old one |
| Tensor.Level.Attach | src/example_all_pointers.cpp:63 | storing the (possibly new) child back through the reference `tensor[idx]` re-establishes the invariant, and only slot idx of the model and footprint changes |
| Tensor.DeallocateLeaf | src/example_all_pointers.cpp:69-71 | the tail of deallocate deletes the leaf (nothing for a null pointer) and nulls the pointer |
| Tensor.Deallocate | src/example_all_pointers.cpp:67-79 | deallocate returns a null root; the deleted blocks have no duplicates, lie in the old footprint and number `Size` of the old model; they include the level itself and every child it pointed at, and every slot of the level is null afterwards |
| Tensor.ReleaseLeaves | src/example_all_pointers.cpp:74 | the loop over the N leaf pointers of a bottom level deletes every leaf it held, none twice, and nulls every slot |
| Tensor.ReleaseChildren | src/example_all_pointers.cpp:74 | the loop over the N children of an interior level deallocates every child it held, none twice since their footprints are disjoint, and nulls every slot |
| AllPointers.Rank | src/example_all_pointers.cpp:95-99 | the value of the counter at `[i0, i1, i2, i3]` is `i0*64 + i1*16 + i2*4 + i3`, which stays below 256 for in-range indices |
| AllPointers.Unrank | src/example_all_pointers.cpp:95-99 | every counter value below 256 is the row-major rank of exactly one tuple of in-range indices |
| AllPointers.UnrankRank | src/example_all_pointers.cpp:95-99 | Unrank inverts Rank, so the counter is different at every tuple the fill loops visit |
| AllPointers.FillStep | src/example_all_pointers.cpp:99 | storing i at the tuple of rank i extends "the tuples of rank below i hold their rank, the rest read 0" from i to i + 1 |
| AllPointers.FillOne | src/example_all_pointers.cpp:99 | one `set_element(i++, tensor, i0, i1, i2, i3)` on the heap keeps the tensor valid and advances the fill invariant |
| AllPointers.Fill | src/example_all_pointers.cpp:89-103 | the four fill loops, starting from a null tensor, leave a valid tensor where the tuple of rank k holds k for every k below 256 |
| AllPointers.ReadingsNext | src/example_all_pointers.cpp:106-112 | one step of the display loops appends the reading at the tuple whose rank is the number of readings made so far |
| AllPointers.Display | src/example_all_pointers.cpp:106-116 | the display loops read all 256 tuples in row-major order: reading k is get_element at the tuple of rank k |
| AllPointers.Example | src/example_all_pointers.cpp:86-121 | main reads back `i0*64 + i1*16 + i2*4 + i3` at `[i0, i1, i2, i3]`, i.e. reading k is k, and after the final deallocate the tensor is null |

## Left out

- include/type_utilities.hpp, src/test.cpp and src/type_utilities.cpp are not part of this model. They hold compile-time type traits and console smoke tests of those traits, with no runtime behaviour to state.
- Console output in `main` (src/example_all_pointers.cpp:110-112): `Display` returns the readings as a sequence instead of printing them.
- Memory release: Dafny has no `delete`. `Deallocate` nulls every pointer it releases, as the source does, and lists the deleted blocks in a ghost sequence; the objects stay allocated in the model.
- Deallocate: says that the level itself and each child it pointed at are deleted. It does not name the deeper blocks as one set; they are covered by the recursive calls' contracts together with the count, the duplicate-freedom and the footprint bound.
- Deallocate, ReleaseLeaves, ReleaseChildren: do not state what a released level holds afterwards beyond its slots being null. The source deletes those levels, so nothing may read them again.
- The compile-time dispatch (`enable_if_element_pointer_t`, `if constexpr`; src/example_all_pointers.cpp:27-29, 69-72) becomes a runtime split on the level's height. The C++ type system enforces that the number of indices equals the pointer depth; the model requires that as `IsTensor(p, |idxs|, n)`.
- The value-initialised element `T()` is an explicit `dflt` parameter; the example uses 0, which is `unsigned long long()`.
- Indices are unchecked in the source (`tensor[idx]`), and an index of N or more is undefined behaviour there. Get and set therefore require every index to be below N (`InRange`).
- `std::size_t` and `unsigned long long` widths are not modelled. The example's values and indices stay below 256, so no wrap-around can occur.
- Example: does not state how many blocks the final deallocate deletes (1 + 4 + 16 + 64 + 256). `Deallocate` states the count generically as `Size` of the model.
