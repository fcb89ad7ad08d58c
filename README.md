# A verified model of the gem5-hpc memory access accelerator's core

This project models three parts of gem5-hpc in Dafny and proves what they
promise:

- **The statistics-report converter** of `util/extract_stats.py`
  (`stats_report.dfy`, module `StatsReport`).
  - `convert_to_json` turns the lines of a gem5 `stats.txt` report into
    nested dictionaries. It skips the two header lines and stops at the
    end marker. It skips blank lines, splits off the `#` description and
    scans the numeric tokens. A dotted key becomes a path of nested
    dictionaries.
  - `filter_stats` prunes such a dictionary to the keys of an interest
    list.
  - Python values are modelled as they are. A leaf record is itself a
    dictionary `{'val', 'description'}`, so the filter descends into
    leaves. A dotted key may also descend into an earlier leaf. Walking
    into a string raises `TypeError`, and a one-word line raises
    `ValueError`. Both are modelled as errors.
- **The stream access unit** of the accelerator (`StreamAccess.cc`/`.hh`).
  - `request_table.dfy` (module `StreamRequestTable`) models the request
    table. It has 32 block-address slots with 16 entries each, kept as
    arrays that are updated in place: `add_entry`, `get_entries`,
    `is_full`, `check_reset` and `reset`.
  - `stream_access.dfy` (module `StreamAccess`) models the unit itself.
    This covers the Idle → Decode → Request → Response state machine of
    `executeInstruction` and the element loop's word-address, block and
    word-id arithmetic. It also covers the per-block read packets, the
    tick-ordered outstanding-packet queue with its earliest-first
    sending, and `recvData`.
- **The controller** of `MAA.cc` (`maa_controller.dfy`, module
  `MaaController`).
  - The RoBaRaCoCh address mapper: `slice_lower_bits`, `map_addr` and
    `channel_addr`.
  - The tile-status decision table `getTileStatus`.
  - `allFuncUnitsIdle`.
  - The idle-flag bookkeeping of `issueInstruction`,
    `finishInstructionCompute` and `finishInstructionInvalidate`.
  - The "only ever earlier" rescheduling of the issue and dispatch events.
  - `inRange`.

`machine_types.dfy` holds the machine integer types and powers of two.
`wrappers.dfy` holds `Option` and `Result`.

Integers are unbounded in Dafny. The model writes the following out
explicitly:

- the `uint64_t` address and tick arithmetic, including the wrap-around
  of `base + 4*i` and of `curTick() + latency`;
- the `uint32_t` store of a negative iteration number;
- the `int` shift `1 << bits`, which is why `bits` is at most 30.

## Model

| member | source | states |
|---|---|---|
| StatsReport.LeadingSpaces | util/extract_stats.py:17 | the whitespace run at the start of a line, as `str.isspace` sees it: all spaces, followed by a non-space |
| StatsReport.IsSpace | util/extract_stats.py:17 | the characters `str.isspace` accepts, the ASCII whitespace and the Unicode separators |
| StatsReport.IsDecimalDigit | util/extract_stats.py:24 | `\d` of a `str` pattern: every ASCII digit is one, and no other ASCII character is |
| StatsReport.IsNumChar | util/extract_stats.py:24 | the class `[\d\.\-e]`; none of its characters is whitespace or `#` |
| StatsReport.IsBlank | util/extract_stats.py:17 | `not line.strip()`: the line is blank exactly when its leading whitespace is all of it |
| StatsReport.Contains | util/extract_stats.py:14 | `needle in line`: true exactly when the needle occurs at some position |
| StatsReport.SplitKey | util/extract_stats.py:21 | `split(maxsplit=1)`: the key is the first non-empty whitespace-free word after the leading whitespace, and the rest is the suffix of the line after the whitespace that follows it |
| StatsReport.TrailingSpaces | util/extract_stats.py:45 | the whitespace run at the end of a string |
| StatsReport.WordLength | util/extract_stats.py:21 | the first word runs to the first whitespace character |
| StatsReport.NumRunLength | util/extract_stats.py:24 | a maximal run of `[\d\.\-e]` characters, where `\d` is any Unicode decimal digit |
| StatsReport.IndexOf | util/extract_stats.py:22-23 | the position of the first `#`, or the length when there is none |
| StatsReport.Strip | util/extract_stats.py:45 | `strip()` returns the text between the leading and trailing whitespace, and neither end of it is whitespace |
| StatsReport.Words | util/extract_stats.py:21 | `split()` yields only non-empty words |
| StatsReport.SplitHash | util/extract_stats.py:22-27 | the value text has no `#`; without `#` the description is `""`; with one, value + `#` + description is the whole text |
| StatsReport.NumericTokens | util/extract_stats.py:24-27 | every token found is a non-empty run of value characters |
| StatsReport.SplitOn | util/extract_stats.py:38 | `key.split('.')` gives at least one part, none containing a dot |
| StatsReport.ValueOf | util/extract_stats.py:30-35 | one token gives the token itself, any other number gives the list; either way the tokens are kept |
| StatsReport.Leaf | util/extract_stats.py:45 | the record has exactly the keys `val` and `description`, the value, and the stripped description |
| StatsReport.Lookup | util/extract_stats.py:38-45 | a value is found only along a path whose prefix walks through dictionaries |
| StatsReport.Insert | util/extract_stats.py:38-45 | storing a leaf adds at most the first key part at the top level and leaves every other key alone |
| StatsReport.ParseLine | util/extract_stats.py:20-45 | a line fails with the unpack error exactly when it has fewer than two words; otherwise it adds its key's first part to the top-level keys and keeps all others |
| StatsReport.ParseFrom | util/extract_stats.py:12-45 | the loop never removes a top-level key |
| StatsReport.Parse | util/extract_stats.py:4-46 | a report of at most two lines gives `{}` |
| StatsReport.ConvertToJson | util/extract_stats.py:4-46 | the imperative loop over the lines returns exactly what the recursive definition of the parse gives |
| StatsReport.Filter | util/extract_stats.py:48-57 | the keys of the filtered dictionary are keys of the input |
| StatsReport.SentinelLineNotBlank | util/extract_stats.py:14-18 | a line holding the end marker is not blank |
| StatsReport.LeadingSpacesUnique | util/extract_stats.py:17 | the leading-space count is the position of the first non-space |
| StatsReport.BlankLineNotSentinel | util/extract_stats.py:14-18 | a blank line is never taken for the end marker |
| StatsReport.WordsSkipSpaces | util/extract_stats.py:21 | leading whitespace does not change the words of a line |
| StatsReport.SplitKeyWords | util/extract_stats.py:21 | `split(maxsplit=1)` fails exactly when the line has at most one word; otherwise the key is the first word and the rest splits into the remaining words |
| StatsReport.NumRunOfPrefix | util/extract_stats.py:24 | a token run stops at the first non-token character |
| StatsReport.NumericTokensSplit | util/extract_stats.py:24 | a non-token character splits the token list into the tokens before it and after it |
| StatsReport.NumericTokensOfRun | util/extract_stats.py:24-32 | a value that is one run of token characters is one token |
| StatsReport.NumericTokensNone | util/extract_stats.py:24-35 | text without token characters has no tokens, so the value is the empty list |
| StatsReport.JoinSplitOn | util/extract_stats.py:38 | joining the dotted parts gives the key back |
| StatsReport.SplitOnJoin | util/extract_stats.py:38 | splitting a join of dot-free parts gives the parts back |
| StatsReport.InsertSucceedsIff | util/extract_stats.py:40-43 | the descent fails exactly when an existing value on the path is not a dictionary |
| StatsReport.InsertThenLookup | util/extract_stats.py:38-45 | after a successful insert, the leaf is found at its dotted path |
| StatsReport.InsertOverwrites | util/extract_stats.py:38-45 | storing twice at the same path keeps only the second leaf |
| StatsReport.InsertLeavesOtherPaths | util/extract_stats.py:38-45 | storing a leaf changes nothing at a path that leaves the stored path at some part |
| StatsReport.ParseLineLeavesOtherPaths | util/extract_stats.py:20-45 | a data line changes nothing at a path that leaves its dotted key at some part |
| StatsReport.ParseLineStoresLeaf | util/extract_stats.py:20-45 | a data line stores the record `{'val': value_num, 'description': stripped description}` at the path of its dotted key |
| StatsReport.SameKeyLastWins | util/extract_stats.py:38-45 | a later line with the same key replaces the earlier leaf |
| StatsReport.HeaderIgnored | util/extract_stats.py:9 | the first two lines never contribute, whatever they hold |
| StatsReport.ParseFromStopsAtSentinel | util/extract_stats.py:13-15 | the loop ignores everything from an end-marker line on |
| StatsReport.SentinelEndsReport | util/extract_stats.py:9-15 | nothing from the first end-marker line onward reaches the result |
| StatsReport.ParseFromSkipsBlank | util/extract_stats.py:17-18 | the loop skips whitespace-only lines |
| StatsReport.BlankLineSkipped | util/extract_stats.py:17-18 | a whitespace-only line after the header has no effect on the result |
| StatsReport.OneWordLineAborts | util/extract_stats.py:21 | a non-blank line of one word aborts the whole parse with the unpack error |
| StatsReport.FilterEmptyInterest | util/extract_stats.py:48-57 | an empty interest list gives `{}` |
| StatsReport.FilterPrunes | util/extract_stats.py:48-57 | at every level the output only removes keys, never adds or changes one |
| StatsReport.FilterIdempotent | util/extract_stats.py:48-57 | filtering twice with the same list is filtering once |
| StatsReport.Covered | util/extract_stats.py:50-56 | every key at every depth is listed, or holds a non-empty dictionary whose keys are covered |
| StatsReport.FilterKeepsAllIff | util/extract_stats.py:48-57 | filtering gives the input back exactly when the list covers it: no loss at any depth, and the condition is also necessary |
| StatsReport.FilterKeepsMatchAtAnyDepth | util/extract_stats.py:50-56 | a value whose bare key is listed survives at any depth below unlisted keys |
| StatsReport.SplitKeyOfShortLine | util/extract_stats.py:21 | a line like `a 1` splits into key `a` and value `1` |
| StatsReport.TokensOfDigit | util/extract_stats.py:24 | a one-digit value is one token |
| StatsReport.ParseShortLine | util/extract_stats.py:20-45 | the line `a 1` stores `{'val': '1', 'description': ''}` under `a` |
| StatsReport.ShortLineIsData | util/extract_stats.py:14-18 | such a line is neither blank nor the end marker |
| StatsReport.ParseFromShortLine | util/extract_stats.py:12-45 | one such line followed by more lines: its leaf is stored, then the rest is parsed |
| StatsReport.ExampleFilterIntoLeaf | util/extract_stats.py:50-56 | filtering on `val` descends into leaf records and drops their descriptions |
| StreamRequestTable.MakeEntry | src/mem/MAA/StreamAccess.hh:22-24 | the two-argument entry keeps `wid` and stores `itr` in a `uint32_t`, so a negative value wraps modulo 2^32 |
| StreamRequestTable.Collect | src/mem/MAA/StreamAccess.cc:50-55 | the valid entries of a slot, in position order: never more than the slot holds |
| StreamRequestTable.CollectEmptyIff | src/mem/MAA/StreamAccess.cc:50-60 | the collected list is non-empty exactly when some entry of the slot is valid |
| StreamRequestTable.CollectMembers | src/mem/MAA/StreamAccess.cc:50-55 | an entry is collected exactly when it sits at a valid position |
| StreamRequestTable.CollectAllValid | src/mem/MAA/StreamAccess.cc:50-55 | a fully valid slot gives back all 16 entries |
| StreamRequestTable.RequestTable.SlotOf | src/mem/MAA/StreamAccess.cc:68-71 | a present block address is held by exactly one valid slot |
| StreamRequestTable.RequestTable.FirstFreeSlot | src/mem/MAA/StreamAccess.cc:73-75 | the slot `add_entry` picks for a new block: the lowest invalid one |
| StreamRequestTable.RequestTable.FirstFreeEntry | src/mem/MAA/StreamAccess.cc:86-92 | the entry `add_entry` fills: the lowest invalid one of the slot |
| StreamRequestTable.RequestTable.constructor | src/mem/MAA/StreamAccess.cc:20-35 | a new 32 x 16 table has no valid slot and no valid entry |
| StreamRequestTable.RequestTable.AddEntry | src/mem/MAA/StreamAccess.cc:63-97 | fails exactly when the block is absent and all slots are valid, and then changes nothing; otherwise it uses the block's slot or the lowest free one, and the lowest free entry of that slot; the assertion that such an entry exists fails exactly when the slot's entries are all valid; nothing else changes, and slots keep distinct addresses |
| StreamRequestTable.RequestTable.GetEntries | src/mem/MAA/StreamAccess.cc:46-62 | returns the valid entries of the block's slot in position order, never empty; that slot and its entries become invalid and every other slot is unchanged |
| StreamRequestTable.RequestTable.IsFull | src/mem/MAA/StreamAccess.cc:114-121 | true exactly when all 32 slots are valid |
| StreamRequestTable.RequestTable.CheckReset | src/mem/MAA/StreamAccess.cc:98-105 | passes exactly when no slot and no entry is valid |
| StreamRequestTable.RequestTable.Reset | src/mem/MAA/StreamAccess.cc:106-113 | invalidates every slot and every entry |
| StreamRequestTable.ClearTableNotFull | src/mem/MAA/StreamAccess.cc:106-121 | after a reset the table is never full |
| StreamAccess.WordsPerBlockMatchesTable | src/mem/MAA/StreamAccess.hh:117-118 | a 64-byte block holds 16 four-byte words, as many as a slot has entries |
| StreamAccess.StatusCode | src/mem/MAA/StreamAccess.hh:49-55 | the status codes are Idle=0, Decode=1, Request=2, Response=3, max=4 |
| StreamAccess.StatusOfCode | src/mem/MAA/StreamAccess.hh:49-55 | exactly the codes below 5 name a status |
| StreamAccess.StatusCodeRoundTrip | src/mem/MAA/StreamAccess.hh:49-55 | code and status convert into each other both ways |
| StreamAccess.StatusNamesDistinct | src/mem/MAA/StreamAccess.hh:58-63 | `status_names` has a distinct name at every status code |
| StreamAccess.WordVaddr | src/mem/MAA/StreamAccess.cc:212 | `base + word_size * i` in 64-bit unsigned arithmetic |
| StreamAccess.BlockAlign | src/mem/MAA/StreamAccess.cc:213 | the block address is 64-aligned and the address lies within its block |
| StreamAccess.WordId | src/mem/MAA/StreamAccess.cc:223 | the word id is below 16 and picks the 4-byte word holding the address |
| StreamAccess.BlockAlignUnique | src/mem/MAA/StreamAccess.cc:213 | the block address is the only 64-aligned address within 64 bytes below |
| StreamAccess.WordIdRoundTrip | src/mem/MAA/StreamAccess.cc:212-223 | a word address equals its block plus 4 times its word id |
| StreamAccess.NextWordSameBlock | src/mem/MAA/StreamAccess.cc:212-223 | the next word of the same block has the next word id |
| StreamAccess.TickBeforeIsStrictWeakOrder | src/mem/MAA/StreamAccess.hh:74-82 | `CompareByTick` is a strict weak order whose ties are the packets with equal ticks |
| StreamAccess.SortedTail | src/mem/MAA/StreamAccess.cc:302 | the queue stays ordered when its earliest packet is removed |
| StreamAccess.UpperBound | src/mem/MAA/StreamAccess.hh:83 | the number of leading packets due by a tick: in an ordered queue, all later ones are due after it |
| StreamAccess.InsertByTick | src/mem/MAA/StreamAccess.cc:283 | insertion adds one packet |
| StreamAccess.InsertByTickContents | src/mem/MAA/StreamAccess.cc:283 | insertion adds exactly the new packet to the contents |
| StreamAccess.InsertByTickPlacement | src/mem/MAA/StreamAccess.hh:83 | insertion keeps the queue ordered, after every packet with the same or an earlier tick and before every later one |
| StreamAccess.CondFits | src/mem/MAA/StreamAccess.cc:208-211 | the condition tile has a word for every element the loop may read |
| StreamAccess.ElementI | src/mem/MAA/StreamAccess.cc:184-207 | the loop variable `i` at element `k`: `min`, stepped `k` times by the stride |
| StreamAccess.TickBefore | src/mem/MAA/StreamAccess.hh:78-82 | `CompareByTick`: an earlier tick comes first |
| StreamAccess.ElementIClosedForm | src/mem/MAA/StreamAccess.cc:207 | after `k` steps the loop variable is `min + k*stride` |
| StreamAccess.InLoop | src/mem/MAA/StreamAccess.cc:207 | the loop test `i < max && idx < num_tile_elements` at element `k` |
| StreamAccess.InLoopThroughMeans | src/mem/MAA/StreamAccess.cc:207 | every element in a range passes the loop test `i < max && idx < num_tile_elements` |
| StreamAccess.Selected | src/mem/MAA/StreamAccess.cc:211 | an element is visited when there is no condition tile or its condition word is non-zero |
| StreamAccess.ElementVaddr | src/mem/MAA/StreamAccess.cc:212 | the word address `base + word_size * i` of element `k` |
| StreamAccess.ElementVaddrClosedForm | src/mem/MAA/StreamAccess.cc:207-212 | element `k`'s address is `base + 4*(min + k*stride)` modulo 2^64 |
| StreamAccess.ElementRequest | src/mem/MAA/StreamAccess.cc:212-224 | the entry of element `k` carries `k` and a word id below 16 |
| StreamAccess.BlocksBetween | src/mem/MAA/StreamAccess.cc:207-213 | one block per selected element |
| StreamAccess.RequestsBetween | src/mem/MAA/StreamAccess.cc:207-236 | one entry per selected element |
| StreamAccess.RequestsBetweenBlocks | src/mem/MAA/StreamAccess.cc:222-224 | entry `j` is for the translation of the `j`-th visited block |
| StreamAccess.RequestsBetweenComplete | src/mem/MAA/StreamAccess.cc:207-224 | every selected element in the range gets its entry |
| StreamAccess.RequestsBetweenSound | src/mem/MAA/StreamAccess.cc:207-224 | only selected elements in the range get an entry, each with its own address arithmetic |
| StreamAccess.RequestsBetweenOrdered | src/mem/MAA/StreamAccess.cc:207 | entries come in increasing element order |
| StreamAccess.Emit | src/mem/MAA/StreamAccess.cc:214-221 | the packets closed by a run of visited blocks, with the block left open |
| StreamAccess.Flush | src/mem/MAA/StreamAccess.cc:239-244 | those packets plus the packet of the block still open |
| StreamAccess.EmitStep | src/mem/MAA/StreamAccess.cc:214-221 | a new block closes the open one's packet, unless no block was open |
| StreamAccess.EmitShape | src/mem/MAA/StreamAccess.cc:214-221 | the open block is the last visited one, and no packet is for block 0 |
| StreamAccess.FlushCoversBlocks | src/mem/MAA/StreamAccess.cc:214-244 | once the loop is flushed, every visited block other than 0 has a packet |
| StreamAccess.ZeroBlockNeverSent | src/mem/MAA/StreamAccess.cc:214-244 | block 0 never gets a packet |
| StreamAccess.Packets | src/mem/MAA/StreamAccess.cc:217-218 | one packet per closed block |
| StreamAccess.PacketsIndex | src/mem/MAA/StreamAccess.cc:217-218 | packet `i` reads the translated block `i` and is due its latency after now |
| StreamAccess.PacketsAppend | src/mem/MAA/StreamAccess.cc:217-218 | the packets of two runs are the concatenation of their packets |
| StreamAccess.QueueGrows | src/mem/MAA/StreamAccess.cc:283 | packets added in two steps are added as one |
| StreamAccess.SpdReads | src/mem/MAA/StreamAccess.cc:205-211 | the condition-tile reads of a call: one per element passed when there is a condition tile, none otherwise |
| StreamAccess.InFlight | src/mem/MAA/StreamAccess.cc:144-152 | `scheduleNextExecution()` right after the loop: a request-table access or a scratchpad read of this call is still in progress |
| StreamAccess.Instruction.constructor | src/mem/MAA/StreamAccess.cc:177-186 | the instruction fields the unit reads are stored unchanged |
| StreamAccess.StreamAccessUnit.constructor | src/mem/MAA/StreamAccess.cc:134-143 | `allocate` gives an idle unit with no instruction, `dst_tile_id` -1 and an empty table |
| StreamAccess.StreamAccessUnit.SetInstruction | src/mem/MAA/StreamAccess.cc:355-358 | requires that no instruction is held, then holds the new one and changes nothing else |
| StreamAccess.StreamAccessUnit.ExecuteInstruction | src/mem/MAA/StreamAccess.cc:164-277 | Idle decodes and falls through to Request without stalling; a resumed Request stalls exactly on a pending access or a full table, and otherwise runs the element loop; the unit reaches Response only when received responses equal sent requests; there it stops the simulation while an access of this call is in flight or a read packet is queued, and otherwise finishes, Idle again without the instruction |
| StreamAccess.StreamAccessUnit.RunRequest | src/mem/MAA/StreamAccess.cc:200-263 | the Request state: stalls exactly on a pending access or a full table; otherwise the element loop, then Response once all requests are answered, with the Response checks |
| StreamAccess.StreamAccessUnit.FillAndRespond | src/mem/MAA/StreamAccess.cc:205-263 | the element loop, then waiting for responses or the Response state; the loop's effect holds whatever the outcome |
| StreamAccess.StreamAccessUnit.Respond | src/mem/MAA/StreamAccess.cc:257-273 | the first `panic_if` fires exactly when an access of this call is in flight, the second exactly when nothing is in flight but a packet is queued, and the instruction finishes exactly when neither holds; only finishing changes the unit |
| StreamAccess.StreamAccessUnit.ResponseChecks | src/mem/MAA/StreamAccess.cc:260-261 | the two conditions of the Response `panic_if` checks, computed without changing anything |
| StreamAccess.StreamAccessUnit.DecodeInstruction | src/mem/MAA/StreamAccess.cc:172-199 | Decode loads the operands, starts at `min` with element 0, clears the counters, resets the table and enters Request |
| StreamAccess.StreamAccessUnit.LoadOperands | src/mem/MAA/StreamAccess.cc:177-186 | the decoded operands are the instruction's fields and register values |
| StreamAccess.StreamAccessUnit.ClearCounters | src/mem/MAA/StreamAccess.cc:187-190 | the counters start at zero with no block open |
| StreamAccess.StreamAccessUnit.RespondInstruction | src/mem/MAA/StreamAccess.cc:264-272 | after the checks pass: finishes the instruction, idles the unit and reports the destination tile, the tile size `idx` and whether `check_reset` passes |
| StreamAccess.StreamAccessUnit.FillRequests | src/mem/MAA/StreamAccess.cc:205-246 | the element loop plus the last packet: the selected elements get their entries in order, every visited block gets its packet, and the loop stops past the stream or at a refused element |
| StreamAccess.StreamAccessUnit.FillEffect | src/mem/MAA/StreamAccess.cc:205-246 | what the element loop has done, given how it ended: entries for the selected elements in order, packets for the closed blocks, and the stopping condition |
| StreamAccess.StreamAccessUnit.ElementLoop | src/mem/MAA/StreamAccess.cc:207-238 | the loop ends past the stream or at the first selected element the table refuses |
| StreamAccess.StreamAccessUnit.RefusedEffect | src/mem/MAA/StreamAccess.cc:224-231 | a refused element ends the loop with everything before it requested |
| StreamAccess.StreamAccessUnit.VisitSelected | src/mem/MAA/StreamAccess.cc:211-236 | a selected element enters its block and gets its entry, unless the table refuses it |
| StreamAccess.StreamAccessUnit.SelectedEffect | src/mem/MAA/StreamAccess.cc:211-236 | the loop state after a selected element, from the state before it |
| StreamAccess.StreamAccessUnit.SkipElement | src/mem/MAA/StreamAccess.cc:208-211 | an element the condition tile skips adds no block, entry or packet |
| StreamAccess.StreamAccessUnit.StepPast | src/mem/MAA/StreamAccess.cc:207 | `i += stride, idx++` keeps the loop state |
| StreamAccess.StreamAccessUnit.Advance | src/mem/MAA/StreamAccess.cc:207 | the step of `i` by the stride and of `idx` by one |
| StreamAccess.StreamAccessUnit.CloseOpenBlock | src/mem/MAA/StreamAccess.cc:239-244 | after the loop, the open block, if any, gets its packet and no block stays open |
| StreamAccess.StreamAccessUnit.RequestOpenBlock | src/mem/MAA/StreamAccess.cc:239-244 | one more sent request and the packet for the open block |
| StreamAccess.StreamAccessUnit.RequestElement | src/mem/MAA/StreamAccess.cc:212-236 | one selected element: its block test and its table entry |
| StreamAccess.StreamAccessUnit.EnterBlock | src/mem/MAA/StreamAccess.cc:214-221 | the block test: a changed block closes the open one's packet, unless none was open |
| StreamAccess.StreamAccessUnit.AddElementEntry | src/mem/MAA/StreamAccess.cc:222-224 | the `add_entry` call for the element's translated block and word id |
| StreamAccess.StreamAccessUnit.CreateReadPacket | src/mem/MAA/StreamAccess.cc:278-285 | the packet joins the queue in tick order, due `latency` after now |
| StreamAccess.StreamAccessUnit.SendOutstandingReadPacket | src/mem/MAA/StreamAccess.cc:286-306 | sends a prefix of the queue, earliest first, all due by now; stops at the first packet not yet due or when the port refuses; reports true exactly when the queue is empty |
| StreamAccess.StreamAccessUnit.RecvData | src/mem/MAA/StreamAccess.cc:307-332 | every entry waiting on the block gets its word, in entry order; the block leaves the table; one more response is counted; execution is woken when the table was full or all responses are in |
| MachineTypes.Pow2 | src/mem/MAA/MAA.cc:189 | `1 << bits` is at least 1 |
| MachineTypes.Pow2Add | src/mem/MAA/MAA.cc:189-190 | shifting by `a` and then by `b` is shifting by `a + b` |
| MachineTypes.Pow2Monotone | src/mem/MAA/MAA.cc:189 | wider fields have larger powers of two |
| MaaController.WellFormed | src/mem/MAA/MAA.cc:187-202 | the mapping parameters under which the C++ is defined: one width per level, an offset below 64, widths of at most 30 bits and a row level inside the vector |
| MaaController.WellFormedShiftFits | src/mem/MAA/MAA.cc:189 | under those bounds every `1 << bits` is a positive 32-bit `int` |
| MaaController.Shr | src/mem/MAA/MAA.cc:190 | a right shift never increases the address |
| MaaController.BitField | src/mem/MAA/MAA.cc:189 | the bits `lo .. lo+w-1` of an address fit in `w` bits |
| MaaController.ShiftTwice | src/mem/MAA/MAA.cc:195-199 | two right shifts are one by the sum |
| MaaController.SliceLowerBits | src/mem/MAA/MAA.cc:188-192 | returns the low `bits` bits and leaves the address shifted right by `bits`, so the old address is rest * 2^bits + result |
| MaaController.SumAppend | src/mem/MAA/MAA.cc:196-200 | field widths add up across a concatenation |
| MaaController.Fields | src/mem/MAA/MAA.cc:196-200 | one field per width |
| MaaController.RestIsShift | src/mem/MAA/MAA.cc:196-200 | after slicing fields, the address has been shifted right by their total width |
| MaaController.FieldIsBitField | src/mem/MAA/MAA.cc:196-200 | field `k` is the bit field that starts after the fields before it |
| MaaController.FieldsFit | src/mem/MAA/MAA.cc:189 | every sliced field fits its width |
| MaaController.SliceRoundTrip | src/mem/MAA/MAA.cc:196-200 | slicing loses nothing: the address is the rest shifted back plus the fields packed back |
| MaaController.ShiftedField | src/mem/MAA/MAA.cc:188-199 | field `k` of the address shifted by the offset is the bit field of the address that starts after the offset and the earlier fields |
| MaaController.Positions | src/mem/MAA/MAA.cc:196-199 | the slices go to index 0, then the last index, then indices 1 to `m_row_bits_idx` |
| MaaController.Widths | src/mem/MAA/MAA.cc:196-199 | the widths of those slices, in slicing order |
| MaaController.Written | src/mem/MAA/MAA.cc:194-200 | writing values at positions keeps the vector's length |
| MaaController.WrittenAt | src/mem/MAA/MAA.cc:196-199 | a written position holds its value when no later write overwrites it |
| MaaController.WrittenElsewhere | src/mem/MAA/MAA.cc:194 | a position never written keeps its initial -1 |
| MaaController.MapAddrSpec | src/mem/MAA/MAA.cc:193-202 | the address vector has `m_num_levels` entries |
| MaaController.MapAddr | src/mem/MAA/MAA.cc:193-202 | the slicing loop computes the address vector |
| MaaController.MapAddrSlice | src/mem/MAA/MAA.cc:195-199 | slice `k` of the mapping lands at its position |
| MaaController.MapAddrChannel | src/mem/MAA/MAA.cc:195-196 | index 0 (the channel) holds the lowest `m_addr_bits[0]` bits above the transaction offset |
| MaaController.MapAddrColumn | src/mem/MAA/MAA.cc:197 | the last index (the column) holds the next field |
| MaaController.MapAddrLooped | src/mem/MAA/MAA.cc:198-200 | indices 1 to `m_row_bits_idx` hold the following fields, in order |
| MaaController.MapAddrUnsliced | src/mem/MAA/MAA.cc:194-200 | every other index stays -1 |
| MaaController.WidthsBelow | src/mem/MAA/MAA.cc:198-200 | the field at index `i` starts after the channel, column and lower row fields |
| MaaController.MapAddrRoundTrip | src/mem/MAA/MAA.cc:193-202 | the mapped fields, with the address bits above them and below the offset, give the address back |
| MaaController.ChannelAddr | src/mem/MAA/MAA.cc:203-206 | the channel number fits in `m_addr_bits[0]` bits |
| MaaController.ChannelAddrAgrees | src/mem/MAA/MAA.cc:193-206 | `channel_addr(a)` equals `map_addr(a)[0]` |
| MaaController.GetTileStatus | src/mem/MAA/MAA.cc:336-368 | tile -1 is Finished; otherwise each outcome holds exactly under its condition: mismatched 8-byte halves stop the simulation before anything else; a dirty tile or pair waits for invalidation; a destination waits for service; a source maps Idle/Service/Finished to WaitForService/Service/Finished and stops on any other status |
| MaaController.DestinationOnlyWaits | src/mem/MAA/MAA.cc:351-356 | a destination tile only ever waits, for invalidation or for service |
| MaaController.MismatchBeforeDirty | src/mem/MAA/MAA.cc:342-353 | a mismatched 8-byte pair stops the simulation even when it is dirty |
| MaaController.NoneBusy | src/mem/MAA/MAA.cc:211-230 | one scan of unit states: true exactly when none is busy |
| MaaController.AllIdle | src/mem/MAA/MAA.cc:207-232 | every unit of every kind, and the invalidator, reports Idle |
| MaaController.AllFuncUnitsIdle | src/mem/MAA/MAA.cc:207-232 | true exactly when the invalidator and every stream, indirect, ALU and range unit is idle |
| MaaController.FuncUniId | src/mem/MAA/MAA.cc:246-323 | `funcUniID` is -1 exactly for the invalidator and the unit index otherwise |
| MaaController.Issued | src/mem/MAA/MAA.cc:240-330 | the instructions issued to one kind: no more than were issued, each handed to a unit of that kind |
| MaaController.IssuedOneKind | src/mem/MAA/MAA.cc:252-330 | when every issue went to one kind, that kind's instructions are all of them in order and every other kind's are none |
| MaaController.Saturated | src/mem/MAA/MAA.cc:252-330 | a kind has no ready instruction or no idle unit, so a scan issues nothing more to it |
| MaaController.Bookkeeping | src/mem/MAA/MAA.cc:233-330 | the facts `issueInstruction` keeps: in-order issue from the ready lists, delays 0, 1, 2, ..., only to flagged units, exactly the receiving flags cleared, no unit twice |
| MaaController.IssuedAppend | src/mem/MAA/MAA.cc:233-335 | the instructions of a kind issued across two runs are those of the first run followed by those of the second |
| MaaController.ScanKeeps | src/mem/MAA/MAA.cc:240-330 | a scan of one kind keeps every issue-bookkeeping fact, leaves that kind saturated and keeps the other kinds saturated |
| MaaController.ScanEnd | src/mem/MAA/MAA.cc:252-270 | a scan that stops at the last unit, or at an idle unit with nothing ready, has issued in order to idle units only and saturated its kind |
| MaaController.PassKeeps | src/mem/MAA/MAA.cc:239-330 | one pass over the invalidator and the four kinds keeps the bookkeeping, saturates every kind, and moves exactly the issued instructions out of the ready lists |
| MaaController.Rank | src/mem/MAA/MAA.cc:240-330 | the five kinds take the positions 0 to 4 of a pass: invalidator, stream, indirect, ALU, range |
| MaaController.ScanKeepsOrder | src/mem/MAA/MAA.cc:250-330 | a scan of one kind after issues only to earlier kinds appends its issues in rising unit index, so the issues stay in pass order and go to that kind or earlier ones |
| MaaController.ScanIssuesToIdle | src/mem/MAA/MAA.cc:252-262 | a scan that issues something found an idle unit of its kind |
| MaaController.ScanSaturatedIssuesNothing | src/mem/MAA/MAA.cc:240-330 | a scan that starts with every kind saturated issues nothing and leaves every kind saturated |
| MaaController.PassOrder | src/mem/MAA/MAA.cc:233-335 | a pass from nothing issued yields issues in pass order, and a pass from every kind saturated adds nothing, so the second pass of the `while (progress)` loop keeps the first pass's order |
| MaaController.When | src/mem/MAA/MAA.cc:475-496 | `curTick() + latency` as a 64-bit tick, equal to the plain sum when that fits |
| MaaController.Rescheduled | src/mem/MAA/MAA.cc:475-496 | the event ends scheduled, at the requested time or where it was, and never later than either |
| MaaController.RescheduledAll | src/mem/MAA/MAA.cc:475-496 | after several requests the event is scheduled no later than where it was and no later than the last request |
| MaaController.RescheduledAllEarliest | src/mem/MAA/MAA.cc:475-496 | after any sequence of requests the event sits at the earliest time asked for, or where it already was if earlier |
| MaaController.RescheduledCommutes | src/mem/MAA/MAA.cc:475-496 | the order of two requests does not matter |
| MaaController.Maa.constructor | src/mem/MAA/MAA.cc:80-112 | every unit of every kind and the invalidator start with their idle flag set; neither event is scheduled |
| MaaController.Maa.GetReady | src/mem/MAA/MAA.cc:240-255 | `getReady` hands out the first ready instruction of the kind, or none when there is none |
| MaaController.Maa.IssueToInvalidator | src/mem/MAA/MAA.cc:240-251 | an idle invalidator takes the next ready invalidation, with the next delay, and becomes busy |
| MaaController.Maa.ScanUnits | src/mem/MAA/MAA.cc:252-330 | each idle unit takes the next ready instruction, lowest index first, and becomes busy; the scan stops at the first unit for which nothing is ready |
| MaaController.Maa.IssuePass | src/mem/MAA/MAA.cc:239-330 | one pass keeps the bookkeeping and saturates every kind; from nothing issued it hands out the invalidator first, then stream, indirect, ALU and range units, lowest unit index first within a kind; from every kind saturated it issues nothing |
| MaaController.Maa.IssueInstruction | src/mem/MAA/MAA.cc:233-335 | every issue goes to a unit whose flag was set, takes the kind's ready instructions in order, has delay 0, 1, 2, ... in issue order and clears exactly that unit's flag; no unit gets two instructions; afterwards no kind has both an idle unit and a ready instruction; the issues come in the scan order (invalidator, stream, indirect, ALU, range; lowest unit index first within a kind), so each delay `num_issued` is fixed by that order; an idle period ends exactly when all units were idle and something was issued |
| MaaController.Maa.ScheduleIssueInstructionEvent | src/mem/MAA/MAA.cc:475-485 | the issue event moves to `now + latency` only if it was unscheduled or later |
| MaaController.Maa.ScheduleDispatchInstructionEvent | src/mem/MAA/MAA.cc:486-496 | the dispatch event moves to `now + latency` only if it was unscheduled or later |
| MaaController.Maa.SetIdle | src/mem/MAA/MAA.cc:424-440 | sets exactly one unit's idle flag |
| MaaController.Maa.FinishInstructionCompute | src/mem/MAA/MAA.cc:409-450 | sets the finishing unit's flag again and no other; brings the issue event forward to `now + issueLatency` and the dispatch event to `now + dispatchLatency`; starts an idle period exactly when all units are idle; an invalidator instruction fails the `default` assertion and changes nothing |
| MaaController.Maa.FinishInstructionInvalidate | src/mem/MAA/MAA.cc:466-474 | sets the invalidator's flag again, brings the issue event forward, and starts an idle period exactly when all units are idle |
| MaaController.FirstContaining | src/mem/MAA/MAA.cc:141-149 | the intended result: the index of the first range containing the address, or -1 exactly when no range contains it |
| MaaController.InRangeAsWritten | src/mem/MAA/MAA.cc:141-149 | the function as written returns -1 for every address, so it differs from the intended answer exactly when some range holds the address |
| MaaController.InRangeAsWrittenMisses | src/mem/MAA/MAA.cc:141-149 | for an address inside the only range the intended answer is 0, while some range holds it, so as written the answer is -1 |
| MaaController.InRange | src/mem/MAA/MAA.cc:141-149 | with the index recorded before the `break`, the loop returns the first containing range |

## Left out

- File handling in `util/extract_stats.py` is not modelled. This covers reading the file, writing JSON, the fixed paths and the module-level run. The model starts from the list of lines.
- Python dictionaries keep insertion order, so the JSON output lists keys in the order the lines gave them. Dafny maps are unordered, so that order is not modelled.
- MMU translation is a function parameter. The register file and the condition tile are inputs. SPD writes become the returned `(element, value)` list.
- Ports, packet objects, DPRINTF, statistics and the tick/cycle conversions are not modelled. The `getClockEdge(Cycles(latency))` of a packet is `now + latency`.
- StreamAccess.StreamAccessUnit.ExecuteInstruction: whether an access of an earlier call is still pending when a resumed Request runs is an input (`executionPending`). The `scheduleNextExecution` / `scheduleNextSend` events themselves are not modelled.
- StreamAccess.StreamAccessUnit.ExecuteInstruction: `getDataLatency` of the scratchpad is not part of this model. It is a parameter mapping a number of reads to cycles. `now` is taken to be a clock edge, so `getClockEdge(Cycles(n))` lies after `curTick()` exactly when `n > 0`.
- StreamAccess.StreamAccessUnit.Respond: the third Response `panic_if` (received responses differ from sent requests) cannot fire on the path from Request, which enters Response only when they are equal, so it has no outcome of its own. When the first two fire, the model leaves the unit in Request, while the C++ has already set Response before stopping the simulation.
- StreamAccess.StreamAccessUnit.RecvData: the `wids` argument is unused by the source and is not modelled.
- StreamRequestTable.RequestTable.GetEntries: the source asserts a non-empty result. The model requires the block to be present, which is equivalent under the table invariant.
- MaaController.Maa.IssueInstruction: `issueInstruction`'s panics, for a unit whose flag says idle but whose own state does not, are a precondition. The precondition asks this of every flagged unit, while the C++ checks only the units a scan visits before it stops.
- The `setInstruction`, `scheduleExecuteInstructionEvent` and `setTileService` calls on the units and the scratchpad are not modelled. An issue is recorded as a value (instruction, unit kind, unit index, execute delay). `funcUniID` is that index, or -1 for the invalidator (`FuncUniId`).
- The instruction file is modelled as one ready list per kind, with `getReady` taking the head. `ifile` is not part of this model. In this model a second pass of the `while (issued)` loop therefore never issues more: nothing becomes ready during a pass.
- MaaController.Maa.IssueInstruction: the `cycles_IDLE` statistic is not kept. The method reports whether an idle period ended; the stat adds the idle ticks when it does.
- MaaController.Maa.FinishInstructionCompute: the tile updates (`setTileFinished`, `setTileReady`) and `ifile->finishInstructionCompute` are not modelled. The `default: assert(false)` is the debug-build behaviour and is returned as an error.
- MaaController.Maa.FinishInstructionInvalidate: `setTileClean` and `ifile->finishInstructionInvalidate` are not modelled.
- The default latencies of `scheduleIssueInstructionEvent` and `scheduleDispatchInstructionEvent` are declared in MAA.hh, which is not part of this model. Each is a parameter of its own (`issueLatency`, `dispatchLatency` of `FinishInstructionCompute`); callers that schedule one event take that event's latency as `latency`.
- `dispatchInstruction`, `getTileStatus`'s caller, is not modelled. It depends on the instruction file and the scratchpad.
- An `AddrRange` is a plain half-open interval. gem5's interleaved ranges are not modelled.
- MaaController.Maa.constructor: `resetStats` (MAA.cc:506-509) sets `my_last_idle_tick` to `curTick()`. Statistics resets are not modelled, and the model starts the field at 0.
- StatsReport.IsDecimalDigit: the digit table is the decimal-digit category of Unicode 15.0. A Python built on another Unicode version accepts a slightly different set.
- `map_addr` does not use `m_col_bits_idx`, and neither does the model.
- The C++ `int` counters `my_i` and `my_idx` do not overflow in the model. The stepped `my_i` is an unbounded integer, and the entry index is kept below 2^31.
- `tests/test-progs/NAS/NPB3.4-OMP/IS/is.c` is not part of this model. It is an OpenMP benchmark with floating-point random numbers.
- `dev/uart.hh` is not part of this model. It is an abstract device interface.

## Findings

| source | as written | input that shows it | evidently intended | confidence | as-written member | corrected member |
|---|---|---|---|---|---|---|
| src/mem/MAA/MAA.cc:141-149 | `inRange` breaks out of its loop at the first range containing the address but never assigns `r_id`, so it returns -1 for every address | ranges `[0, 64)`, address 0: the range at index 0 contains it, yet the result is -1 | return the index of the first range containing the address, and -1 only when none does | high, not executed | MaaController.InRangeAsWritten, MaaController.InRangeAsWrittenMisses | MaaController.InRange, MaaController.FirstContaining |
