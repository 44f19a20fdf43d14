# Set inclusion over string slices: linear search versus a map

This project models the functional core of a Go micro-benchmark (`main.go`)
that compares two ways to decide whether every string of one slice occurs in
another:

- **linear search**: `StringInStringSlice` scans a slice and returns on the
  first match; `StringSliceInStringSlice` calls it once per string of
  `slice1` and returns `false` on the first miss;
- **map-backed**: `StringInStringSliceUsingMap` and
  `StringSliceInStringSliceUsingMap` first fill a `map[string]struct{}` with
  the strings of the searched slice, one key per iteration, then probe it.

It also models the benchmark's input generator `makeShortStringSlice(n, k)`,
which walks the candidates `1000 + i` for `i` in `[0, n)`, skips those that
`k` divides, and appends the decimal rendering of the rest.

Three modules, one per component:

- `Decimal` (`decimal.dfy`): `Render`, the decimal rendering that
  `fmt.Sprintf("%d", n)` produces for a non-negative `n`, its inverse
  `Parse`, and the injectivity of `Render` that follows.
- `Membership` (`membership.dfy`): the recursive reference functions
  `Contains` and `AllContained` that say what the linear search computes,
  `Inserted`, the map left by inserting a slice's strings in order, and the
  four predicates as methods with the source's loops and early returns. Each
  method is proved equal to the reference function, so the map-backed
  predicates agree with their linear twins on every input, duplicates
  included.
- `Generator` (`generator.dfy`): `Kept`, the surviving candidates over the
  integers, `RenderAll`, and the generator as a method with the source's
  counted loop and `continue`, proved to return `RenderAll(Kept(n, k))`;
  lemmas then state exactly which strings that is.

Go slices that are only read are modelled as `seq<string>` values and Go's
`map[string]struct{}` as `map<string, ()>`. Since none of the four predicate
methods has a `modifies` clause, none can change its inputs, and since each
result is fixed by a function of the inputs, calling one twice gives the same
answer.

Two details of the generator that the model pins down:

- For ten candidates with skip modulus 3 the generator skips 1002, 1005 and
  1008 and returns `1000, 1001, 1003, 1004, 1006, 1007, 1009`
  (`Generator.TenCandidatesSkipThree`).
- The generator fails only on a skip modulus of 0, where Go's `%` panics
  (main.go:56). The model requires a non-zero modulus and accepts negative
  ones, because truncating and Euclidean `%` agree on whether the remainder
  is zero.

## Model

| member | source | states |
|---|---|---|
| `Decimal.Render` | main.go:59 | the rendering is a non-empty string of decimal digits with no leading zero |
| `Decimal.ParseRender` | main.go:59 | reading a rendering back gives the number that was rendered |
| `Decimal.RenderInjective` | main.go:55 | two numbers render to the same string exactly when they are equal |
| `Decimal.RenderFourDigits` | main.go:55 | each candidate from 1000 to 9999 renders as a short string of exactly four digits |
| `Membership.ContainsIsOccurrence` | main.go:93-102 | the linear search finds `s` exactly when `s` occurs in the slice; so it is false on an empty slice |
| `Membership.AllContainedIsInclusion` | main.go:104-115 | the nested linear search is true exactly when every element of `slice1` occurs in `slice2`, that is, when the element set of `slice1` is a subset of that of `slice2` |
| `Membership.EmptyBoundaries` | main.go:108-115 | an empty `slice1` is always included; a non-empty `slice1` is never included in an empty `slice2` |
| `Membership.InsertedKeys` | main.go:121-124 | after the map-filling loop the key set is exactly the set of the slice's strings, with no extra key; it has at most as many keys as the slice has strings, and exactly as many when the slice has no duplicates |
| `Membership.StringInStringSlice` | main.go:95-102 | the loop with early return yields `Contains(s, slice)`, which is true exactly when `s` occurs in `slice` |
| `Membership.StringSliceInStringSlice` | main.go:108-115 | the loop that calls the single-string search and stops at the first miss yields `AllContained(slice1, slice2)`, which is true exactly when every string of `slice1` occurs in `slice2` |
| `Membership.StringInStringSliceUsingMap` | main.go:120-129 | filling the map and probing it gives the same result as the linear `StringInStringSlice`, for all inputs |
| `Membership.StringSliceInStringSliceUsingMap` | main.go:135-146 | one map filled from `slice2` and probed for every string of `slice1` gives the same result as the linear `StringSliceInStringSlice`, for all inputs, duplicates in `slice2` included |
| `Membership.LinearAndMapAgree` | main.go:93-146 | a caller sees the linear and map-backed predicates agree, and calling each of the four predicates a second time on the same slices gives the same answer as the first call |
| `Generator.RenderAll` | main.go:59 | one rendering per value, in the order of the values |
| `Generator.KeptExactly` | main.go:54-58 | a value survives exactly when it lies in `[1000, 1000 + numStrings)` and the skip modulus does not divide it |
| `Generator.KeptIncreasing` | main.go:54-55 | the surviving values are strictly increasing, so each is unique |
| `Generator.KeptLength` | main.go:54-58 | at most `numStrings` values survive, and none when `numStrings` is not positive |
| `Generator.RenderAllMembership` | main.go:59 | a number's rendering is among the rendered strings exactly when the number is among the values |
| `Generator.RenderAllReadBack` | main.go:59 | every rendered string is all digits, reads back as one of the values, and is that value's rendering |
| `Generator.RenderAllIncreasing` | main.go:55 | renderings of strictly increasing values read back strictly increasing and are pairwise distinct |
| `Generator.GeneratedStringsAreShort` | main.go:55 | while at most 9000 candidates are walked, every generated string is a short string of exactly four digits |
| `Generator.GeneratedSlice` | main.go:52-62 | the generated slice holds exactly the renderings of the non-multiples of the skip modulus in `[1000, 1000 + numStrings)` and nothing else, in increasing numeric order, no more than `numStrings` of them, and no string twice |
| `Generator.MakeShortStringSlice` | main.go:52-62 | the counted loop with `continue` returns `RenderAll(Kept(numStrings, moduloSkip))`, no longer than `numStrings` and without duplicates |
| `Generator.GeneratedInclusion` | main.go:34-48 | of two generated slices of the same length, the first is included in the second exactly when every candidate the first keeps, the second keeps too |
| `Generator.TenCandidatesSkipTwo` | main.go:34 | ten candidates with skip modulus 2 give `1001, 1003, 1005, 1007, 1009` |
| `Generator.TenCandidatesSkipThree` | main.go:35 | ten candidates with skip modulus 3 give `1000, 1001, 1003, 1004, 1006, 1007, 1009` |
| `Generator.TenCandidatesSkipFour` | main.go:36 | ten candidates with skip modulus 4 give `1001, 1002, 1003, 1005, 1006, 1007, 1009` |
| `Generator.TenCandidatePairs` | main.go:42-43 | for ten candidates, pair "B,C" is not an inclusion (1005 is odd and a multiple of 3) and pair "B,D" is one |

## Left out

- `linearLookups` and `strmapLookups` (main.go:73-91): they only time repeated calls with `time.Now` and `time.Since` and discard the results; wall-clock time is not modelled.
- `timingTests`, `timingTestLinearSearchVsMaps` and `timeLookups` (main.go:23-50, main.go:64-71): driver and `fmt.Printf` output. Their fixed grid of lengths, iteration counts and pairs is not modelled, apart from the first pairs for length ten (`Generator.TenCandidatePairs`).
- `math.Pow(10, float64(i))` (main.go:41): floating point, used only by the driver.
- The complexity and allocation claims in the doc comments (main.go:107, main.go:118-119, main.go:133-134): they are about cost, not results.
- Go's hash-map internals: the map is a Dafny `map<string, ()>`, whose lookups and insertions are exact.
- `fmt.Sprintf("%d", n)` for negative `n`: the generator only renders candidates of at least 1000, so the sign is never printed.
- `Generator.MakeShortStringSlice`: does not model the wrap-around of Go's `int` (32 or 64 bits, by platform) in `1000 + i`. It cannot be observed: with a skip modulus of 1 or -1 every candidate is skipped, wrapped or not, so the result is empty either way; with any other modulus at least half the candidates (about 2^30 or 2^62 strings) are appended before the first wrapped one, a slice that cannot be allocated.
- Slice aliasing: the predicates only read their slices, so they are modelled as immutable sequences, and a slice shared with other code cannot be expressed.
