# Chained hash table of libredox, modelled in Dafny

This project models the fixed-capacity hash table of `libredox/src/hashmap.rs`.
The table has exactly 256 buckets. A key's bucket is chosen by Bernstein's DJB2
hash of the key's bytes, modulo 256. Each bucket is a singly linked chain of
key/value pairs, searched head first. `insert` first looks the key up and
overwrites its value in place. Only when the key is absent does it prepend
the pair to the key's bucket.

The model has one module per component of the source file:

- `Chain` (chain.dfy): `LinkedList` as the datatype `List`, with `follow`,
  `push` and the two iterators. The iterators are classes whose `Next`
  reassigns the cursor field `ll`, as the source does. A mutable reference
  into a list is a `Ref`: the position of an element and its current value.
- `Bucket` (bucket.dfy): `Entry`, with `new`, `get`, `get_mut`, `push`, and a
  store through the reference `get_mut` returns (`SetValue`). `Find` and
  `FindMut` run the search the source runs, `iter().find(..)`, as a loop over
  the iterator. They are proved equal to `Entry.Get` and `Entry.GetMut`.
- `Hashing` (djb2.dfy): the `Djb2` hasher as a class over a `u64` state.
  `write` is a loop. `Fold` is its specification, proved equal to the closed
  form `state * 33^n + sum of b_i * 33^(n-1-i)` modulo 2^64. `FoldLowByte`
  proves that the low byte of the state, which is all `get_entry` keeps, can
  be computed with 8-bit arithmetic throughout.
- `Table` (hashmap.dfy): `HashMap` as a class holding an array of 256
  `Entry` values and a ghost `Contents` map. `Valid()` ties the two together
  and states the table invariant. `TableInsert` is a pure description of
  `insert` on the bucket sequence. The lemmas prove that insert keeps the
  invariant and acts as a map update.

The key type's `Hash` implementation is represented by the constant
`HashMap.hash: K -> seq<u8>`, the bytes the key writes into the hasher. It is
passed to the constructor. `HashMap::new` in the source takes no argument
because Rust finds that implementation through the type.

## Model

| member | source | states |
|---|---|---|
| `Chain.Follow` | libredox/src/hashmap.rs:20-43 | `follow` drops the head of a non-empty list. On `Nil` it returns the same node, a fixpoint. `follow_mut` is the same on values. |
| `Chain.Push` | libredox/src/hashmap.rs:46-48 | The new list is the given element followed by the old list, unchanged. Its length grows by exactly one, and following it gives back the old list. |
| `Chain.Update` | libredox/src/hashmap.rs:194 | A store through a reference to element `i` changes that element only. The length and the other elements stay the same. |
| `Chain.ListIter.constructor` | libredox/src/hashmap.rs:51-55 | `iter` starts at the head of the list, with nothing yielded yet. |
| `Chain.ListIter.Next` | libredox/src/hashmap.rs:71-79 | Yields the elements head to tail, one per call, and advances the cursor by one link. At the end it yields `None` and the cursor stays put, so every later call yields `None` too. |
| `Chain.ListIterMut.constructor` | libredox/src/hashmap.rs:57-61 | `iter_mut` starts at position 0 of the list. |
| `Chain.ListIterMut.Next` | libredox/src/hashmap.rs:88-96 | Yields a reference to each element in head-to-tail order: its position and current value. At the end it yields `None` and stays there. |
| `Bucket.IndexOf` | libredox/src/hashmap.rs:124 | The position where `find` stops. It is the first pair whose key equals the query, with no earlier pair matching. `None` means no pair has that key. |
| `Bucket.Entry.New` | libredox/src/hashmap.rs:107-111 | A bucket holding exactly the one pair, in which `get` of that key returns the value. |
| `Bucket.Entry.Get` | libredox/src/hashmap.rs:123-129 | Returns the value of the first pair, head to tail, whose key equals the query. Returns `None` exactly when no pair has that key. |
| `Bucket.Entry.GetMut` | libredox/src/hashmap.rs:132-139 | Finds the same pair as `get`. It is present exactly when `get` finds a value. It points at the pair (key, that value), and no earlier pair has the key. |
| `Bucket.Entry.SetValue` | libredox/src/hashmap.rs:194 | `mem::replace` through the `get_mut` reference. Only the value of that pair changes, and its key is kept. |
| `Bucket.Entry.Push` | libredox/src/hashmap.rs:142-146 | The new pair is prepended to the unchanged old chain. `get` of its key then returns the new value. |
| `Bucket.PushGet` | libredox/src/hashmap.rs:142-146 | After `push`, `get` of every other key answers as before. |
| `Bucket.GetUnique` | libredox/src/hashmap.rs:123-129 | In a bucket with unique keys, `get` returns the value of whichever pair holds the key. |
| `Bucket.SetValueGet` | libredox/src/hashmap.rs:189-195 | Overwriting a value in place keeps the keys unique. `get` of that key then returns the new value, and `get` of every other key is unchanged. |
| `Bucket.PushUnique` | libredox/src/hashmap.rs:198-199 | Prepending a key that `get` does not find keeps the keys of the bucket unique. |
| `Bucket.Find` | libredox/src/hashmap.rs:123-129 | The `iter().find(..)` loop over the iterator returns exactly what `Entry.Get` specifies. |
| `Bucket.FindMut` | libredox/src/hashmap.rs:132-139 | The `iter_mut().find(..)` loop returns exactly the position `Entry.GetMut` specifies. |
| `Hashing.Step` | libredox/src/hashmap.rs:224 | `(state << 5) + state + b` with each operation wrapping at 64 bits equals `(33 * state + b) mod 2^64`. |
| `Hashing.Fold` | libredox/src/hashmap.rs:222-226 | Folding bytes left to right gives the polynomial `state * 33^n + sum of b_i * 33^(n-1-i)`, reduced modulo 2^64. |
| `Hashing.FoldAppend` | libredox/src/hashmap.rs:222-226 | Two writes leave the same state as one write of the concatenated bytes. |
| `Hashing.FoldLowByte` | libredox/src/hashmap.rs:172 | The state modulo 256 equals DJB2 computed on an 8-bit state, because 256 divides 2^64. |
| `Hashing.Djb2Hash` | libredox/src/hashmap.rs:170-172 | `Djb2::new`, `write` and `finish` as `get_entry` runs them give `5381 * 33^n + sum of b_i * 33^(n-1-i)` modulo 2^64. `BucketOf` reduces it to a bucket index, and `HashMap.GetEntry` is proved to compute that index. |
| `Hashing.Djb2.constructor` | libredox/src/hashmap.rs:211-215 | A new hasher's state is 5381. |
| `Hashing.Djb2.Finish` | libredox/src/hashmap.rs:219-221 | `finish` returns the current state and changes nothing. |
| `Hashing.Djb2.Write` | libredox/src/hashmap.rs:222-226 | The loop leaves the state equal to `Fold` of the old state over the bytes, first byte first. |
| `Table.BucketOf` | libredox/src/hashmap.rs:170-172 | The `get_entry` index is below `BUCKETS` = 256, so indexing `data` never goes out of bounds. It is a function of the key's bytes alone, equal to the 8-bit DJB2 of those bytes. |
| `Table.TableGet` | libredox/src/hashmap.rs:178-180 | `HashMap::get` on the buckets: `None` exactly when no pair in the key's bucket has the key, otherwise the value of such a pair. `HashMap.Valid()` ties it to `Contents`, and `HashMap.Get` returns it. |
| `Table.EmptyTable` | libredox/src/hashmap.rs:156-161 | `HashMap::new` builds exactly 256 buckets, each an empty chain. |
| `Table.EmptyTableSpec` | libredox/src/hashmap.rs:156-161 | A new table satisfies the table invariant, and `get` returns `None` for every key. |
| `Table.TableInsert` | libredox/src/hashmap.rs:188-201 | `insert` returns the key's previous value, if any. Every bucket except the key's is unchanged. When the key was present, its chain keeps its length and only the pair `get_mut` finds takes the new value. When the key was absent, the chain becomes `(key, val)` followed by the old chain. |
| `Table.InsertCorrect` | libredox/src/hashmap.rs:188-201 | Insert preserves "at most one pair per key per bucket" and "every key lies in bucket `get_entry(key)`". Afterwards `get(key)` returns the new value, and `get` of every other key is unchanged. |
| `Table.InsertTwice` | libredox/src/hashmap.rs:188-201 | Inserting a key twice: the second insert returns the first value, and `get` then returns the second. |
| `Table.InsertAllInv` | libredox/src/hashmap.rs:188-201 | Any sequence of inserts, with keys repeated or not, keeps the table invariant, so no bucket ever holds a key twice. |
| `Table.InsertAllChainLength` | libredox/src/hashmap.rs:198-199 | Inserting n distinct absent keys that share a bucket lengthens that chain by exactly n. |
| `Table.HashMap.constructor` | libredox/src/hashmap.rs:156-161 | A new table has the 256 empty buckets, satisfies `Valid()` and holds the empty map. |
| `Table.HashMap.GetEntry` | libredox/src/hashmap.rs:169-175 | Runs a fresh `Djb2` over the key's bytes and reduces `finish()` modulo 256. The result is in range and equals `BucketOf` of the key's bytes, so equal keys get equal indices. |
| `Table.HashMap.Get` | libredox/src/hashmap.rs:178-180 | Returns the value the table maps the key to, or `None` when the key is absent. |
| `Table.HashMap.GetMut` | libredox/src/hashmap.rs:183-185 | Returns a reference exactly when the key is present. The reference points into the key's own bucket, at the pair (key, its value). |
| `Table.HashMap.Replace` | libredox/src/hashmap.rs:194 | Stores through a `get_mut` reference and returns the value it replaced. Only that pair's value changes, and the invariant is kept. |
| `Table.HashMap.Insert` | libredox/src/hashmap.rs:188-201 | Returns the previous value of the key and makes the table map the key to the new value, with every other key unchanged. The buckets afterwards are exactly `TableInsert`'s: an in-place overwrite when present, a prepend to bucket `get_entry(key)` when absent. |
| `Table.Scenario` | libredox/src/hashmap.rs:229-236 | The steps of `test()` for any key serialisation: `insert(1, 42)` returns `None` and `get(1)` is 42; `insert(288, 666)` returns `None`; `get(288)` is 666 and `get(1)` is still 42. |
| `Table.OverwriteScenario` | libredox/src/hashmap.rs:188-201 | Two steps beyond `test()`, an overwrite of key 1 and a lookup of the absent key 7, on a new table holding key 1: inserting key 1 again returns `Some(42)`, `get(1)` is then 99, and `get(7)` is `None`. |

## Left out

- The `debugln!` calls in `get_entry` and `insert` are diagnostic output with no effect on results. The `Debug` and `Display` bounds exist only for them.
- Rust's `Hash` serialisation of a key into bytes lives in `core::hash`, which is not part of this model. The model takes it as the parameter `hash`. Each key is taken to reach the hasher as one `write` of those bytes; `FoldAppend` shows that several writes give the same state as one.
- Key comparison is Dafny's `==`, an equivalence, and `hash` is a function of the key, so equal keys always write equal bytes. This is the contract Rust documents for `Eq` and `Hash`. The source's bounds ask only for `PartialEq` and `Hash`. Keys whose `PartialEq` is not reflexive, or whose `Hash` disagrees with their `PartialEq`, are outside the model. For such keys `insert` could prepend a key again, or put equal keys in different buckets. The uniqueness invariant, `InsertCorrect` and `HashMap.Insert`'s map-update contract rely on this abstraction.
- `Hashing.Step`: an overflowing `+` panics in a debug build of the source. The model wraps modulo 2^64 and does not model the panic.
- `Box` allocation, lifetimes, and the clone before `push` in `insert` are not modelled. The clone-then-push is a functional prepend, written as datatype construction.
- `Entry::iter` and `Entry::iter_mut` only forward to the chain's iterators, so the model uses the chain's iterators directly. The source's `iter_mut` takes `&self`, which the borrow checker rejects; the model's `get_mut` is an in-place store at the matched pair.
- A Rust `&mut` reference is a position in the model (`Ref` in a chain, `Slot` in the table), not a borrow. Aliasing and borrow lifetimes are not captured. A store through it is `Update`, `SetValue` or `Replace`.
- The assertion at libredox/src/hashmap.rs:234 expects `insert(288, 666)` on a fresh key to return `Some`. The code returns `None` for an absent key, and `Table.Scenario` proves `None`. The model follows the code.
- The commented-out `HashMap::iter` and the 300-key loop of `test()` are not live code and are not modelled.
