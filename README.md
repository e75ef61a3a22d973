# cidr-rs aggregation engine, modelled in Dafny

This project models the CIDR aggregation engine of `cidr-rs` (all of it is in
`src/main.rs`). The tool reads IPv4/IPv6 addresses, CIDR blocks and
`from,to` ranges, one per line. It collapses them into a minimal set of
blocks. It can optionally complement that set ("reverse") or merge it
against an exclusion list. It prints the result, optionally expanded to a
fixed prefix length.

The model follows the program's own structure:

- `Subnets` (subnet.dfy): the `Subnet` value. The `Result<u32, u128>`
  address is a family (`V4` for `Ok`, `V6` for `Err`) plus a natural number
  below `2^32` or `2^128`. `mask` and `tag` are `u8`. The derived order
  `Less` is lexicographic over (family, net, mask, tag), so the tag takes
  part in order and equality. `contains` and `is_next` are here too.
- `Bits` (bits.dfy): the shifts `(x >> n) << n`, written as arithmetic on
  naturals.
- `OrderedSet` (ordered.dfy): the `BTreeSet<Subnet>`, as a strictly
  increasing sequence with idempotent insertion.
- `Text` (text.dfy): `trim`, `find` and `prepare_str`.
- `Parse` (parse.dfy): `try_ipv4`/`try_ipv6`, `parse_subnet`,
  `parse_range` and `parse`. Each one returns the blocks the source would
  insert, or the error that stops it.
- `RangeSplit` (split.dfy): the range loop of
  `parse_ipv4_range`/`parse_ipv6_range`, written as a function.
- `Aggregate` (aggregate.dfy): `merge_vec` and `shrink`, written as
  functions over the sorted contents.
- `Complement` (gap.dfy): `gap`, written as a fold.
- `Pipeline` (pipeline.dfy): `merge` and `read_stdin`, run over sequences
  of lines.
- `Expansion` (expand.dfy): the prefix-expansion loop of `main`.
- `Lists` (list.dfy): the imperative code. `SubnetList` is a class whose
  `items` field holds the set. Its methods `Insert`, `InsertRange`
  (the range loop), `Shrink`, `Gap`, `Merge`, `Parse`, `ParseAll` and
  `ReadStdin` are loops and in-place updates. Each one is proved to leave
  `items` equal to the matching function of the old contents. `MergeVec`
  and `StackPass` are the pop/push loops of `merge_vec` and `shrink`.
- `Scenarios`, `ShrinkScenarios`, `SplitScenarios`, `ExcludeScenarios`
  (scenarios.dfy, shrink_cases.dfy, split_cases.dfy, exclude_cases.dfy):
  the inputs of the source's tests, plus a few more, as lemmas over
  concrete values.

Source behaviours that are modelled as written:

- `contains` returns true for any zero-mask block before it looks at the
  family. So `0.0.0.0/0` makes `shrink` drop every IPv6 entry
  (`ShrinkCrossFamily`). It also makes a second `shrink(true)` change a
  set that the first one produced (`ShrinkTwiceCrossFamily`).
- The exclusion merge is not set subtraction. The redundancy pass rewrites
  the tag of the cover, and only tag 0 survives. Excluding an empty list
  from `{1.1.1.0/24}` gives `{0.0.0.0/0}` when merging and `{}` when not
  (`ExcludeNothing`).
- The tail test of `gap` is a strict `<`. A lone uncovered top address is
  never emitted (`GapMissesTop`).
- Overflow follows a checked (debug) build, where it panics:
  - a shift by the full width or a `u8` underflow in `try_ipv4`/`try_ipv6`
    (mask 0, or mask above the width);
  - `s + (1 << (width - mask))` in `gap` for a block that reaches the top
    of its space;
  - `1 << (prefix - mask)` in `main` when the shift is the full width;
  - `panic!` on a range whose bounds are of two families;
  - the `split[1]` index on a range line whose prepared text has no comma.

  Each of these is an explicit error result (`Overflow`, `MixedFamilies`,
  `MissingField`, or `None`) that ends the run. The shift in `is_next` for
  mask 0 is never reached from `merge_vec`, so it is a precondition.
- A line containing `,` anywhere is a range line, even when the comma is
  inside a comment (`RangeInComment`).

## Model

| member | source | states |
|---|---|---|
| `Subnets.ContainsMeaning` | src/main.rs:221-239 | on canonical blocks, `contains(a, b)` holds iff `a` has mask 0 (whatever the families), or both are of one family and `b`'s addresses lie inside `a`'s; it is false whenever `a.mask > b.mask` |
| `Subnets.IsNextMeaning` | src/main.rs:241-258 | `is_next(a, b)` holds iff the masks and families are equal, `a` is aligned one bit further (its block index is even) and `b` starts exactly where `a` ends (index + 1) |
| `Subnets.ParentOfPair` | src/main.rs:384-386 | the merged block keeps `a.net` with `mask - 1`, is canonical, ends where `b` ends and covers exactly the addresses of the two halves |
| `OrderedSet.InsertSorted` | src/main.rs:316-318 | `BTreeSet::insert`: the result holds exactly the old elements plus the new one, stays strictly sorted, is unchanged when the element is present and grows by one when it is not |
| `OrderedSet.InsertAll` | src/main.rs:316-318 | inserting a sequence keeps the set sorted and holds exactly the elements of both |
| `OrderedSet.SortedUnique` | src/main.rs:274-275 | a strictly sorted sequence is determined by its set of elements |
| `OrderedSet.InsertAllConcat` | src/main.rs:316-318 | inserting `a + b` is inserting `a` and then `b` |
| `Text.TrimStart` | src/main.rs:201 | `trim_start`: the result is a suffix, everything dropped is white space, and it does not start with white space |
| `Text.TrimEnd` | src/main.rs:201 | `trim_end`: the result is a prefix, everything dropped is white space, and it does not end with white space |
| `Text.Find` | src/main.rs:202 | `find(c)`: the position of the first `c`, and `None` iff `c` does not occur |
| `Text.PrepareStrMeaning` | src/main.rs:200-206 | `prepare_str` returns the text before the first `#`, trimmed at both ends |
| `Text.PrepareEmpty` | src/main.rs:416-418 | `""`, `"#"` and `"#127.0.0.1"` prepare to the empty text |
| `Text.PrepareComment` | src/main.rs:419 | `"127.0.0.1   ####hello"` prepares to `"127.0.0.1"` |
| `Parse.Decode` | src/main.rs:146 | a decoded address is below `2^32` or `2^128` for its family |
| `Parse.TryIp` | src/main.rs:144-150 | a result is a canonical block of the tried family with tag 0 |
| `Parse.TryIpMeaning` | src/main.rs:144-150 | an undecodable address is an ordinary error; a decoded one with mask 0 or above the width overflows; otherwise the result has the given mask (the width when absent) and is the one canonical block of that mask holding the address |
| `Parse.TryBoth` | src/main.rs:179 | IPv4 is tried first: its success or its panic is the result; only after its ordinary error (`Rejected`) is the IPv6 result taken, so an IPv6 block is returned only when IPv4 was rejected; errors are only `Rejected` or `Overflow`; a success is canonical with tag 0 |
| `Parse.ParseSubnet` | src/main.rs:169-180 | a parsed subnet is canonical and tagged 0 |
| `Parse.PrefixLine` | src/main.rs:174-179 | a prepared line `t/p` whose address decodes (only as IPv6 when IPv4 rejects it) and whose prefix length `m` is in `1..width` parses to the canonical block of prefix `m` holding the address, tag 0 |
| `Parse.DefaultMask` | src/main.rs:174-179 | without a `/` the mask is the family width and the network is the decoded address itself |
| `Parse.Bound` | src/main.rs:187-192 | a range bound that parses is canonical |
| `Parse.RangeBounds` | src/main.rs:185-198 | both bounds of a range line are canonical and of one family |
| `Parse.RangeBoundsMeaning` | src/main.rs:187-196 | the bounds are the two comma-separated fields of the prepared line, each read as a bound; the line is `MixedFamilies` exactly when both fields read as bounds and their families differ |
| `Parse.ParseRangeTiles` | src/main.rs:185-198 | a range line inserts blocks tiling exactly `[from.net, to.net]` with the given tag (0 without one), and nothing when `from > to` |
| `Parse.ParseLineWellFormed` | src/main.rs:208-219 | every block a line inserts is canonical and carries the given tag (0 without one) |
| `RangeSplit.SplitRange` | src/main.rs:98-142 | for `from <= to` the blocks are canonical (aligned to their mask), of the family, carry the tag, are pairwise disjoint and cover exactly `[from, to]`; for `from > to` nothing is inserted; no two blocks are the two halves of one block, so none could be merged and the decomposition is minimal |
| `RangeSplit.SplitNoBuddies` | src/main.rs:106-140 | at any level of the loop, every block has at most that level's prefix and no two blocks are the two halves of one block: the peeled lower index is odd, the peeled upper index even, and deeper levels have shorter prefixes |
| `RangeSplit.SplitTiles` | src/main.rs:106-140 | at any level of the loop, the remaining blocks tile exactly the addresses of the remaining index range |
| `RangeSplit.PeelTiles` | src/main.rs:119-134 | peeling an odd lower and an even upper index leaves three adjacent tilings |
| `RangeSplit.HalveTiles` | src/main.rs:135-139 | halving both indices and shortening the prefix preserves the addresses tiled |
| `RangeSplit.SplitFull` | src/main.rs:98-142 | the whole space of a family splits into the single block of prefix 0 |
| `Aggregate.MergeInto` | src/main.rs:382-393 | `merge_vec` keeps the stack below the merge point, keeps it ordered and canonical, and pushes a block carrying `i`'s tag that ends where `i` ends |
| `Aggregate.MergeIntoCovers` | src/main.rs:382-393 | the stack after `merge_vec` covers exactly the old stack's addresses plus `i`'s |
| `Aggregate.MergeIntoNoPairs` | src/main.rs:382-393 | `merge_vec` leaves no neighbouring equal-tag pair of halves on a stack that had none |
| `Aggregate.NotContainedIsBefore` | src/main.rs:323-331 | a sorted entry that the last cover does not contain lies wholly after the cover |
| `Aggregate.Retag` | src/main.rs:326-327 | only the stack top changes, and only its tag (to 0 with `merge`, to 2 without) |
| `Aggregate.Step` | src/main.rs:323-333 | one turn keeps the stack ordered and canonical, and its top ends where the last cover ends |
| `Aggregate.StepCovers` | src/main.rs:323-333 | a contained entry is skipped without changing the addresses on the stack; any other entry adds exactly its addresses |
| `Aggregate.Walk` | src/main.rs:321-333 | the loop's invariant: the stack is ordered and canonical and the last cover is an input entry that the stack top covers up to its end |
| `Aggregate.KeepTagZero` | src/main.rs:334-339 | the refill keeps exactly the stack entries whose tag is 0 |
| `Aggregate.Shrunk` | src/main.rs:320-340 | the shrunk set is strictly sorted, canonical, pairwise disjoint and all tagged 0 |
| `Aggregate.ShrinkSound` | src/main.rs:320-340 | `shrink` never adds an address |
| `Aggregate.ShrinkCoverage` | src/main.rs:320-340 | on all-tag-0 input with `merge`, `shrink` keeps exactly the covered addresses (no `/0` ahead of the other family) |
| `Aggregate.WalkNoPairs` | src/main.rs:320-333 | on all-tag-0 input with `merge`, the stack stays tagged 0 and holds no mergeable pair |
| `Aggregate.WalkSettled` | src/main.rs:320-333 | a settled set passes through the loop unchanged |
| `Aggregate.ShrinkIdempotent` | src/main.rs:320-340 | on all-tag-0 input a second `shrink(true)` leaves the set unchanged, when the first left no `/0` ahead of the other family |
| `Complement.GapStep` | src/main.rs:351-370 | a turn fails exactly when the entry reaches the top of its space, keeps the bound below the top, and leaves the other family's bound alone |
| `Complement.GapFold` | src/main.rs:346-371 | both bounds stay below the top of their spaces |
| `Complement.GapFoldFails` | src/main.rs:356-365 | `gap` overflows exactly when some entry reaches the top of its space (every `/0` does) |
| `Complement.StepSame` | src/main.rs:352-360 | one turn fills the hole below the entry and keeps the family invariant: below the bound, the emitted blocks cover exactly what the entries leave uncovered |
| `Complement.GapFoldInv` | src/main.rs:350-371 | the loop keeps the emitted blocks canonical, tagged 0 and disjoint, and both family invariants |
| `Complement.GapCovers` | src/main.rs:346-379 | the gap is canonical, tagged 0 and pairwise disjoint; below the top address it covers exactly the addresses not covered by the input; the top address is emitted iff the address below it is uncovered; no two gap blocks, in insertion or sorted order, are the two halves of one block |
| `Complement.GapNoBuddies` | src/main.rs:346-379 | the gap is a minimal decomposition: each hole and tail is split minimally, and every block emitted earlier ends strictly below the start of any later hole or tail of its family, so no pair spans two holes |
| `Complement.GapDisjoint` | src/main.rs:346-379 | no gap block overlaps an input block |
| `Complement.GapEmpty` | src/main.rs:346-379 | the gap of the empty set is `{0.0.0.0/0, ::/0}` |
| `Complement.GapMissesTop` | src/main.rs:372-377 | after `255.255.255.254/32` the uncovered top address `255.255.255.255` is not emitted |
| `Pipeline.Load` | src/main.rs:284-288 | parsing the lines keeps the set sorted, canonical, tagged 0 and growing; it fails only with a panic |
| `Pipeline.LoadMembers` | src/main.rs:284-288 | when no line panics, the loaded set holds exactly the old entries and the blocks of every line that parses; a line with an ordinary error adds nothing |
| `Pipeline.LoadCovers` | src/main.rs:284-288 | when no line panics, the loaded set covers exactly the addresses of the old entries and of the blocks of the lines that parse |
| `Pipeline.Exclude` | src/main.rs:308-314 | `merge` fails exactly when the gap of the exclusion list overflows |
| `Pipeline.ExcludeSound` | src/main.rs:308-314 | `merge` keeps only addresses of the set or of the gap of the exclusion list |
| `Pipeline.TaggedCovers` | src/main.rs:309-311 | retagging the gap blocks changes no covered address |
| `Pipeline.RunOutput` | src/main.rs:278-306 | `read_stdin` fails only by a panic, and otherwise leaves a strictly sorted, canonical, tag-0, pairwise disjoint set |
| `Pipeline.RunPlain` | src/main.rs:284-289 | with neither exclusion nor reversal, `read_stdin` leaves the shrunk loaded set, which covers no address that neither the initial set nor a parsed line covered, and, with no `/0` ahead of an entry of the other family, exactly those addresses |
| `Pipeline.RunReverse` | src/main.rs:284-302 | when reversing without an exclusion file (and with no `/0` ahead of the other family), below each family's top address the result covers exactly the addresses that neither the initial set nor a parsed line covered; the top address is covered iff the one below it is uncovered |
| `Expansion.TileFacts` | src/main.rs:38 | the `i`-th expanded block is canonical, lies inside the entry, and ends where the next begins |
| `Expansion.ExpandTiles` | src/main.rs:34-55 | when `mask < p <= width`, the entry becomes `2^(p - mask)` blocks of prefix `p`, the `i`-th at `net + i * 2^(width - p)`, in increasing order, tiling the entry; otherwise it is emitted unchanged |
| `Expansion.ExpandCovers` | src/main.rs:31-59 | the printed blocks cover exactly the entry's addresses |
| `Expansion.OutputCovers` | src/main.rs:31-59 | the output loop fails exactly when some count overflows; otherwise it prints canonical blocks covering exactly the list's addresses |
| `Expansion.Emit` | src/main.rs:31-59 | the nested loops print what `Output` specifies |
| `Lists.MergeVec` | src/main.rs:382-393 | the pop/push loop leaves the stack `MergeInto` specifies |
| `Lists.StackPass` | src/main.rs:321-333 | the first loop of `shrink` builds the stack `Walk` specifies |
| `Lists.Refilled` | src/main.rs:334-339 | the refilled set equals `Shrunk` |
| `Lists.Shift` | src/main.rs:135-139 | the halving loop ends with the prefix at most the width and the upper index smaller, and the rest of the split is unchanged |
| `Lists.GapTurn` | src/main.rs:351-370 | one turn of `gap` inserts the hole and updates the bound as `GapStep` says, or fails on overflow |
| `Lists.AddHole` | src/main.rs:353-355 | the hole below an entry is inserted |
| `Lists.AddTail` | src/main.rs:372-377 | the tail up to the top address is inserted only when the bound is strictly below it |
| `Lists.SubnetList.constructor` | src/main.rs:274-275 | a new list is empty |
| `Lists.SubnetList.Insert` | src/main.rs:316-318 | the set becomes `InsertSorted` of the old one, and the result says whether the element was new |
| `Lists.SubnetList.InsertRange` | src/main.rs:98-142 | the range loop inserts exactly the blocks of `Split` |
| `Lists.SubnetList.Peel` | src/main.rs:119-134 | the two peeling `if`s insert the odd lower and even upper blocks and leave an even/odd pair |
| `Lists.SubnetList.Parse` | src/main.rs:208-219 | a line inserts what `ParseLine` yields, or changes nothing and returns its error |
| `Lists.SubnetList.ParseAll` | src/main.rs:284-288 | the line loop leaves the set `Load` specifies, or returns its panic |
| `Lists.SubnetList.Merge` | src/main.rs:308-314 | `merge` leaves the set `Exclude` specifies, and fails exactly when that overflows |
| `Lists.SubnetList.InsertTagged` | src/main.rs:309-312 | each gap block is inserted with tag 1 |
| `Lists.SubnetList.ReadStdin` | src/main.rs:278-306 | `read_stdin` leaves the set `Run` specifies, or returns its error |
| `Lists.SubnetList.Gap` | src/main.rs:346-379 | `gap` returns a fresh list holding the blocks `Complement.Gap` specifies, or fails exactly when that overflows |
| `Lists.SubnetList.Shrink` | src/main.rs:320-340 | `shrink` leaves the set `Shrunk` specifies |
| `Lists.SubnetList.Refill` | src/main.rs:334-339 | the refill inserts exactly the tag-0 stack entries |
| `Scenarios.ParseBlank` | src/main.rs:416-418 | `""`, `"#"` and `"#127.0.0.1"` parse to `None` |
| `Scenarios.ParseCommented` | src/main.rs:419 | `"127.0.0.1   ####hello"` parses to `127.0.0.1/32` |
| `Scenarios.ParseMasked` | src/main.rs:423 | `"127.0.0.1/7"` parses to `126.0.0.0/7` |
| `Scenarios.ParseV6` | src/main.rs:424 | `"0::1/128"` parses to `::1/128` after the IPv4 attempt fails |
| `Scenarios.RangeInComment` | src/main.rs:185-198 | a comma inside a comment makes a range line with no second field, which panics |
| `Scenarios.RangeMixed` | src/main.rs:193-197 | `1.2.3.4,::1` panics on mixed families |
| `ShrinkScenarios.ShrinkHalves` | src/main.rs:320-340 | `10.0.0.0/25` and `10.0.0.128/25` shrink to `10.0.0.0/24` |
| `ShrinkScenarios.ShrinkAbsorbs` | src/main.rs:320-340 | `10.0.0.0/8` absorbs `10.1.2.3/32` |
| `ShrinkScenarios.ShrinkCrossFamily` | src/main.rs:225-227 | `0.0.0.0/0` makes `shrink` drop `::1/128` and lose its address |
| `ShrinkScenarios.ShrinkTwiceCrossFamily` | src/main.rs:320-340 | `0.0.0.0/1`, `128.0.0.0/1`, `::1/128` shrink to `0.0.0.0/0`, `::1/128`, and a second shrink drops `::1/128` |
| `SplitScenarios.SplitExample` | src/main.rs:98-142 | `223.255.229.0` to `223.255.230.255` splits into `223.255.229.0/24` and `223.255.230.0/24` |
| `SplitScenarios.RangeLine` | src/main.rs:462 | the test line with its trailing comma inserts those two blocks |
| `ExcludeScenarios.ExcludeNothing` | src/main.rs:308-314 | excluding an empty list from `{1.1.1.0/24}` gives `{0.0.0.0/0}` with `merge` and `{}` without |

## Left out

- Reading standard input and the exclusion file, and every `println!`
  (src/main.rs:284-287, 291-296, 39, 51, 58). The lines come in as
  sequences of strings, and the output loop returns the blocks it would
  print. I/O errors are not modelled.
- Expansion.Output: on a count overflow it is `None`. The lines the
  program has already printed before that panic are not part of the
  result.
- Command-line and configuration handling (`Config`, `init_args`,
  `add_arg`, src/main.rs:14-27, 63-89). These go through the `cfg_rs`
  builder, which is not part of this model. The options are plain
  parameters.
- The global allocator (src/main.rs:9-12).
- The standard library's text decoders for `Ipv4Addr`, `Ipv6Addr` and the
  `u8` prefix (src/main.rs:146, 176). They are opaque function parameters
  (`Parse.Decoders`).
- `to_string` (src/main.rs:261-272), which relies on the standard
  library's IPv6 text format (section 4 of RFC 5952).
- `str::trim` strips Unicode `White_Space`; the model lists those
  characters explicitly. Positions are character positions, not byte
  offsets.
- Release-build arithmetic, where overflow wraps and over-wide shifts are
  masked. Every overflow is modelled as the panic of a checked build.
- `gap(gap(S)) == S` is not stated: the missed top address and the
  overflow on blocks that reach the top of their space make it false as
  written.
- ShrinkIdempotent: it requires that the first shrink left no `/0` ahead of
  an entry of the other family; `ShrinkTwiceCrossFamily` shows the
  property fails without it.
- ShrinkCoverage: it is stated only for all-tag-0 input with `merge` and
  no `/0` ahead of an entry of the other family; `ShrinkCrossFamily`
  shows addresses are lost otherwise.
- RunPlain and RunReverse: exact coverage is stated only for an initial
  set tagged 0 and a loaded set with no `/0` ahead of an entry of the
  other family (the ShrinkCoverage condition). Without it, RunPlain gives
  only the upper bound. The run with an exclusion file has only
  ExcludeSound's upper bound.
- GapCovers: exact coverage is stated below the top address of each
  family; at the top address itself it states the source's behaviour
  (emitted iff the address below is uncovered).
- ExcludeSound: only an upper bound on what the exclusion merge keeps is
  proved. The merge does not compute a set difference
  (`ExcludeNothing`), so no exact statement of its result is given beyond
  its definition `Pipeline.Exclude`.
- Subnets.Contains and Subnets.IsNext require `mask <= width` of their
  first argument, and `IsNext` a non-zero mask for equal masks of one
  family. Every block the model builds satisfies this, and `merge_vec`
  never reaches the full-width shift of `is_next`.
