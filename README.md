# runorder in Dafny

A model of the Go package `runorder` (file `runorder.go`). It orders jobs
into waves. The input is a dependency map from each job name to the list of
job names it depends on. `New` first rejects a map in which two jobs list
each other, or a job lists itself. It then runs `calculate`. Each step of
`calculate` emits every job whose list is empty as one wave. It deletes those
jobs from the map and from the other jobs' lists, and recurses until the
map is empty. `Reverse` turns the wave order around.

The project has two modules:

- `Slices` (`slices.dfy`) holds the list helpers: `indexOf`, `removeAtIndex`,
  and "remove the first occurrence". That last one is what `indexOf` and
  `removeAtIndex` do together inside `deleteReference`.
- `RunOrder` (`runorder.dfy`) holds the graph part. It has pure
  specification functions, the read-only Go loops as methods, and a class
  `DependencyMap`. The class holds the caller's map in a field, since a Go map
  is a reference that `deleteReference`, `calculate` and `New` (with
  `c == false`) change in place.

The specification functions are:

- `StripFirst(l, refs)`: a list after `deleteReference`. The first
  occurrence of each reference is dropped and later ones stay.
- `DeleteRefs(m, refs)`: the whole map after `deleteReference`.
- `Ready(m)`: the keys whose list is empty. A nil list counts as empty.
- `Waves(m)`: the run `calculate` produces. Each wave is a set, because the
  order inside a wave is map iteration order. When a non-empty map has no
  ready key, the Go code recurses forever on an unchanged map. `Waves` models
  that case as the outcome `Stalled`. There is no other fallback.
- `Mutual` and `HasCircularReference`: the pair that
  `checkCircularReference` looks for. A name that is not a key has the
  empty (nil) list.

Each method is proved against these functions. The lemmas prove what
`calculate` guarantees when it finishes.

## Model

| member | source | states |
|---|---|---|
| `Slices.IndexOf` | runorder.go:54-63 | returns -1 exactly when `t` is not in `s`; otherwise returns an index in range holding `t` with no `t` before it |
| `Slices.RemoveAtIndex` | runorder.go:5-8 | result is one shorter; elements before `i` keep their place, later ones move down by one; the multiset loses exactly `s[i]` |
| `Slices.RemoveFirstAt` | runorder.go:14-18 | removing at the index `indexOf` reports is removing the first occurrence of the reference |
| `Slices.RemoveFirstAbsent` | runorder.go:15-16 | when `indexOf` finds nothing, the list is unchanged |
| `RunOrder.StripFirstNone` | runorder.go:13 | with no references a list is unchanged (the starting value `t := v`) |
| `RunOrder.StripFirstStep` | runorder.go:14-19 | stripping one more reference `x` equals removing the first `x` from the list stripped so far, so references can be dropped one at a time in any order |
| `RunOrder.StripFirstKeeps` | runorder.go:11-25 | an entry that is not a reference is in the stripped list exactly when it was in the original |
| `RunOrder.StripFirstCounts` | runorder.go:14-19 | each reference the list contains loses exactly one copy; every other count is unchanged |
| `RunOrder.StripFirstAbsent` | runorder.go:11-25 | a list that mentions no reference is left as it is |
| `RunOrder.StripFirstDistinct` | runorder.go:10-25 | a list without duplicates ends up holding its old elements minus all references |
| `RunOrder.DeleteRefsEffect` | runorder.go:11-25 | no reference stays a key; every other key stays with its list stripped; when no reference occurs anywhere, the map is unchanged |
| `RunOrder.DeleteRefsShrinks` | runorder.go:22-24 | deleting a non-empty set of keys makes the map strictly smaller (the termination measure of `calculate`) |
| `RunOrder.WavesShape` | runorder.go:28-43 | a finished run covers exactly the input keys, has no empty wave, and has at most one wave per key |
| `RunOrder.WavesStep` | runorder.go:28-42 | an empty map gives no waves; a non-empty map with no ready key stalls; otherwise the first wave is exactly the ready set, and the rest of the run is the run on the map whose keys are the old keys minus that wave |
| `RunOrder.WavesUnfold` | runorder.go:39-42 | a finished run on a non-empty map is its non-empty ready set followed by the finished run on the rest |
| `RunOrder.WavesNext` | runorder.go:33-42 | with a ready key, the run stalls exactly when the run on the rest stalls; otherwise it is the ready set followed by the rest's waves |
| `RunOrder.WavesCoverKeys` | runorder.go:28-43 | when the run finishes, every input key is in some wave |
| `RunOrder.WavesDisjoint` | runorder.go:28-43 | when the run finishes, no job is in two waves (so each key is in exactly one wave) |
| `RunOrder.WavesRespectDependencies` | runorder.go:33-42 | when the run finishes, every entry B of job A's input list is in a wave strictly before A's |
| `RunOrder.DependenciesAreKeys` | runorder.go:33-42 | when the run finishes, every entry of a job's list is itself an input key |
| `RunOrder.SelfDependencyIsCircular` | runorder.go:67-76 | a job that lists itself counts as a circular reference |
| `RunOrder.CircularReferenceStalls` | runorder.go:67-76 | `calculate` could not finish on any map that the circular check rejects |
| `RunOrder.ExampleLeaf` | runorder_test.go:246-257 | `{a:[b], b:[]}` gives waves `[{b}, {a}]` |
| `RunOrder.ExampleChain` | runorder_test.go:126-137 | `{a:[b], b:[c], c:[]}` gives waves `[{c}, {b}, {a}]` |
| `RunOrder.ExampleUndeclaredDependency` | runorder_test.go:158-166 | `{a:[b]}` stalls, because `b` is not a key |
| `RunOrder.ExampleDeleteKeepsDuplicate` | runorder_test.go:81-92 | deleting `c` from `{a:[b], b:[c,c], c:[]}` leaves `b:[c]` |
| `RunOrder.ExampleDuplicateDependency` | runorder_test.go:279-290 | `{a:[b,b], b:[]}` stalls |
| `RunOrder.ExampleMutual` | runorder_test.go:223-229 | `{a:[b], b:[a]}` has a circular reference |
| `RunOrder.ExampleLongerCycle` | runorder.go:65-76 | a three-job cycle passes the circular check, and then `calculate` stalls on it |
| `RunOrder.CheckCircularReference` | runorder.go:67-76 | reports nothing exactly when no mutual pair exists; any pair it reports is mutual |
| `RunOrder.Copy` | runorder.go:45-52 | the copy equals the input map |
| `RunOrder.Reversed` | runorder.go:92-98 | same length; element `i` is the input's element `i` places from the end |
| `RunOrder.ReversedInvolution` | runorder.go:92-98 | reversing twice gives back the input |
| `RunOrder.Reverse` | runorder.go:93-98 | the loop builds exactly `Reversed(r)`, a new sequence; the input is a value and is not changed |
| `RunOrder.StripList` | runorder.go:13-19 | the inner loop of `deleteReference` turns a list into `StripFirst` of it, for distinct references |
| `RunOrder.ReadyKeys` | runorder.go:33-38 | the scan collects each ready key exactly once |
| `RunOrder.RealizesStep` | runorder.go:39-42 | putting the scanned wave in front of the recursive result gives the specified run |
| `RunOrder.DependencyMap.DeleteReference` | runorder.go:11-25 | the map becomes `DeleteRefs` of the old map with the given references |
| `RunOrder.DependencyMap.Calculate` | runorder.go:28-43 | the result is `Waves` of the old map (waves as lists with no repeats); a finished run leaves the map empty; a stalled run leaves a non-empty map with no ready key |
| `RunOrder.New` | runorder.go:78-90 | returns an error exactly when a mutual pair exists; the error names such a pair and the map is untouched; otherwise the result is `Waves` of the input; with `c` the caller's map is unchanged; without `c`, a finished run empties it |

## Where the code, its comments and its tests differ

The model follows the code in each of these cases.

- `deleteReference` (runorder.go:10-25). Its comment says it removes all
  references. The code removes only the first occurrence of each reference
  from each list. The test at runorder_test.go:81-92 expects all copies to
  go. `ExampleDeleteKeepsDuplicate` shows the code's result.
- A job that lists the same dependency twice keeps one copy after that
  dependency's wave. Its list then never empties, so `calculate` recurses
  forever. The test at runorder_test.go:279-290 expects two waves.
  `ExampleDuplicateDependency` shows the stall.
- A dependency that is not itself a key never becomes ready. The test
  "calculate D" (runorder_test.go:158-166) expects `[{b}, {a}]`. The code
  never returns, as `ExampleUndeclaredDependency` shows.
- The tests call `Calculate` (runorder_test.go:295), but the package's
  entry point is `New`. `New` is what is modelled.
- Line 15 of `runorder.go` searches the original list `v`, not the running
  list `t`. `removeAtIndex` shifts `t` inside `v`'s backing array, so for
  distinct references the first match in `v` is the first match in `t`.
  `StripList` therefore searches `t`.

## Left out

- Go slice aliasing. Lists are value sequences. `removeAtIndex` writing
  through a shared backing array is not modelled. Nor is the shallow `cp`
  letting `calculate` on the copy rearrange the caller's inner slices. With
  `c == true`, the caller's map keeps its keys and lists as values.
- Map iteration order. A wave is specified as a set. The methods pick keys
  with `:|`, so the order within a wave and the mutual pair that
  `checkCircularReference` reports are left open.
- Non-termination. `calculate`'s endless recursion on a map with no ready
  key becomes the outcome `Stalled`. The Go program would instead run
  until the stack is exhausted.
- Panics. `removeAtIndex` requires an index in range, and every call site
  supplies one. `deleteReference` requires distinct references, and its
  only caller passes distinct keys. With a repeated reference, the Go code
  can slice past the list's length.
- The error text built with `fmt.Errorf` (runorder.go:71). The error
  carries the two job names only.
- The test helper `compare` (runorder_test.go:103-119), which sorts waves
  before comparing them.
