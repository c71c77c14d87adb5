# go-collect in Dafny

A model of the `collect` Go package: a stateless library of five generic
operations over slices and maps.

- **Apply** transforms a slice element by element. The result has one entry per
  input element, at the same index.
- **Select** keeps the elements a predicate accepts. **Reject** keeps the
  elements a predicate refuses. Both keep the survivors in their original order.
- **Keys** and **Values** turn a map into a slice of its keys, or of its values
  with one entry per key. The order is whatever Go's map iteration produces.

Files:

- `sequences.dfy` (module `Sequences`): the order predicate `IsSubsequence`, the
  predicate `NoDuplicates`, and the facts about them the proofs use.
- `collect.dfy` (module `Collect`): the five operations, their contracts and the
  lemmas that relate them.
- `collect_examples.dfy` (module `CollectExamples`): the package's example and
  test scenarios, stated about the model.

A Go slice is a `seq`, a Go map is a `map`, and a callback is a total pure
Dafny function (`T -> V` or `T -> bool`). Apply, Select and Reject are
structurally recursive functions. Keys is a method that takes the map's keys
one at a time in an arbitrary order chosen with `:|`. Values reads the map along
the key order Keys produced. It also returns that order as a ghost
out-parameter, so callers can see which ordering the values follow. Callers may
rely only on what holds for every order: the set of keys, and how many times
each value occurs.

## Model

| member | source | states |
|---|---|---|
| Collect.Apply | collect.go:11-17 | The output has exactly one entry per input element, so an empty slice gives an empty slice. The entry at index i is the callback applied to input element i, so input order is kept. |
| Collect.Select | collect.go:19-28 | The output is an order-preserving subsequence of the input and is no longer than it. Every element it holds satisfies the predicate. Each value the predicate accepts occurs as often as in the input, and every other value is absent. |
| Collect.Reject | collect.go:30-39 | The output is an order-preserving subsequence of the input and is no longer than it. No element it holds satisfies the predicate. Each value the predicate refuses occurs as often as in the input, and every other value is absent. |
| Collect.SelectUnique | collect.go:21-28 | Any order-preserving subsequence of s that holds each accepted value as often as s does, and nothing else, equals Select(s, p). So Select's contract determines its result completely. |
| Collect.RejectIsSelectComplement | collect.go:21-39 | Reject with a predicate equals Select with the negated predicate. |
| Collect.SelectRejectPartition | collect.go:21-39 | Select and Reject with the same predicate split the input: their multisets add up to the input's multiset, and their lengths add up to its length. |
| Collect.SelectIdempotent | collect.go:21-28 | Selecting again with the same predicate changes nothing. |
| Collect.SelectEmptyIff | collect.go:21-28 | Select returns an empty slice exactly when no input element satisfies the predicate. |
| Collect.SelectAllIff | collect.go:21-28 | Select returns the whole input exactly when every input element satisfies the predicate. |
| Collect.RejectEmptyIff | collect.go:32-39 | Reject returns an empty slice exactly when every input element satisfies the predicate. |
| Collect.Keys | collect.go:41-46 | Every key of the map occurs in the result and nothing else does. No key occurs twice. The length equals the number of entries. |
| Collect.Values | collect.go:48-53 | The result has one entry per map entry. It is the map read along some duplicate-free ordering of all its keys. Each value occurs as many times as there are keys holding it, so repeated values are kept. A value occurs in the result exactly when some key maps to it. |
| Collect.ValuesAlongMultiplicity | collect.go:48-53 | Reading a map along any duplicate-free list of its keys yields each value exactly once per listed key that holds it. |
| Collect.ValuesMultiplicity | collect.go:48-53 | Reading a map along any ordering of all its keys yields each value once per key that holds it, whatever the order. |
| Collect.KeyOrderingsArePermutations | collect.go:41-46 | Two orderings of the keys of one map are permutations of each other, and both have one entry per map entry. Only the order of Keys' result is left open. |
| Collect.KeyOrderingLength | collect.go:41-46 | A duplicate-free list holding exactly the keys of a map has one element per map entry. |
| CollectExamples.ApplyStringToInt | examples_test.go:11-18 | Applying string length to ["a","bb","ccc","dddd"] gives [1,2,3,4]. |
| CollectExamples.ApplyStructToString | examples_test.go:20-35 | Appending "a" to the field of each of the structs {a}, {bb}, {ccc}, {dddd} gives ["aa","bba","ccca","dddda"], position by position. |
| CollectExamples.ApplyStructToStruct | examples_test.go:37-55 | Building {baz: bar + "a"} from each of the structs {a}, {bb}, {ccc}, {dddd} gives {aa}, {bba}, {ccca}, {dddda}, position by position. |
| CollectExamples.SelectAboveTwo | examples_test.go:57-64 | Selecting the elements above 2 from [1,2,3,4] gives [3,4]. |
| CollectExamples.RejectAboveTwo | examples_test.go:66-73 | Rejecting the elements above 2 from [1,2,3,4] gives [1,2]. |
| CollectExamples.KeysOfThree | collect_test.go:65-70 | The keys of a map with keys 1, 2 and 12 come back as exactly 1, 2 and 12, in some order. |
| CollectExamples.ValuesOfThree | collect_test.go:72-77 | The values of {1: "1", 2: 1.2, 10: struct{}{}} come back as exactly those three values, in some order. |
| CollectExamples.ValuesWithRepeat | collect.go:48-53 | The values of {1:"a", 2:"b", 10:"a"} come back as "a", "b" and "a" in some order. The repeated value appears twice. No test of the package exercises a repeated value; this scenario shows the one-value-per-key promise. |

## Left out

- `Unique` (order-preserving deduplication) appears in the package's description but not in `collect.go`, so there is no code to model.
- The difference between a nil slice and an empty one is not modelled. Select and Reject return nil when nothing survives, and Apply returns a non-nil empty slice. Both are `[]` here.
- Callbacks are total pure functions. Side effects, panics and the number and order of callback invocations are not modelled.
- Go's randomised map iteration is not fixed to any order. Keys chooses each next key with `:|`, and no contract depends on that choice.
- The standard-library helpers `maps.Keys`, `maps.Values` and `slices.Collect` are modelled only by their observable result, a slice of all keys or values. Their iterator machinery is not modelled.
- Benchmarks, the `fmt` printing in the examples, and the `~[]T` / `~map[K]V` type-set generality of the signatures are left out.
- The example in examples_test.go:83-93 calls `maps.Values` from the standard library directly, not `collect.Values`, so it is not modelled. The test of `collect.Values` (collect_test.go:72-77) is modelled by `CollectExamples.ValuesOfThree`, with Go's `any` values stood in for by a small datatype.
- Go's `len` on a string counts bytes, while `|s|` counts characters. The example inputs are ASCII, so the two agree there.
