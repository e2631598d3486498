# retroc: the hopper65 block engine and the listing helpers, in Dafny

This project models two small cores of the retroc repository and proves properties of them.

**hopper65 block engine** (`crates/hopper65/src/block.rs`). A code-generation state has two parts:
- a residency map: each logical value maps to the register believed to hold it and the index of the instruction that put it there;
- the 6502 instructions emitted so far.

`on(dest, op)` lists the successor states of a request:
- reusing a value that is not resident gives no successor;
- reusing an untouched value aliases it;
- reusing a value whose register was overwritten gives one rescue per register A, X and Y;
- loading a constant gives one load per register.

`add_patch` inserts a deferred store and renumbers the forward distances and indices around it. `sets_at` is the backward scan that decides whether a register was overwritten.

The model has two views of a state. The value `Block.State` is what `On` returns sets of. The class `Block.MutState` holds the in-place methods, each proved against a function on `State`. The invariant `Valid` says every residency points at an instruction that sets its register; every operation is proved to keep it. A consequence is `ReuseAlwaysClobbered`. From a valid state, the scan at a residency's own index always finds the instruction that set it. So the aliasing branch of `on` is never taken from a valid state. The code does not show whether a scan from the next index (`oi + 1`) was meant, so the model follows the code as written and does not model that reading. Likewise `get_into_a` calls `add_patch(oi, A, or)` where `on` calls `add_patch(oi, or, r)`: when A was overwritten it stores A at the old index and loads into the value's register rather than into A, and it does not rebind the name to A. The model (`GotIntoA`, `GotIntoAEffect`) follows that argument order as written.

**Listing helpers** (`crates/retroc-file/src/listing/`).
- `core.rs` reads and writes dotted-group numbers in base 8 or 16, and converts grouped values to big-endian bytes. The `u128` shifts are modelled with their wrap-around. The panics (a shift of 128 bits or more, an overflowing `pow`) are preconditions.
- `asm.rs` reads and prints `<address> <entry> <text>` lines. For base 8 or 16 layouts with non-empty groups whose shifts stay below 128 bits (`RoundTripConfig`), and for entry texts with no line feed and no trailing whitespace (`KeepsText`), printing then parsing gives back every entry reduced to the bits its groups hold. Entries already in that form come back unchanged. A text such as `"a\nb"` does not come back.
- `detached.rs` reads and prints a comment text that maps addresses into a separate raw image. Reading maps:
  - each dotted first token that parses to the window of raw bytes at that offset;
  - any other line to a plain comment at address 0.

  Printing places each mapped entry's bytes at its offset, padding the image with zeros first when it is shorter. The image is only ever appended to, so bytes are guaranteed to land at their own address when the entries are ascending (`PlacedAtAddress`). Two consequences of the code as written are proved:
  - address 0 marks a plain comment, so a line mapping offset 0 reads as an entry with bytes, and that entry is then printed as its text alone and adds nothing to the image (`ZeroMappingDropped`);
  - with a single address group the printed address has no `.`, so the line reads back as a plain comment holding the whole line (`SingleGroupReadsAsComment`).

Files:
- `block.dfy`: the block engine;
- `listing_core.dfy`, `listing_asm.dfy`, `listing_detached.dfy`: one module per listing source file;
- `strings.dfy`: the `str` operations the listing code uses (`split`, `join`, `trim`, `lines`, `splitn` on whitespace);
- `arith.dfy`: powers and division facts;
- `wrappers.dfy`: `Option` and `Result`;
- `seqs.dfy`: two generic sequence identities.

## Model

| member | source | states |
|---|---|---|
| Block.SetsFromIff | crates/hopper65/src/block.rs:39-56 | the backward scan of `sets_at` answers true exactly when some instruction in `[lim, len)` overwrites the register (a self-transfer does not) |
| Block.MutState.SetsAt | crates/hopper65/src/block.rs:39-56 | the loop from the last instruction down to `lim` returns whether an instruction at or after `lim` sets the register |
| Block.Patched | crates/hopper65/src/block.rs:20-38 | `add_patch` adds two instructions: a store at `orig` whose forward distance reaches the appended placeholder load into `target`; no name is added or removed |
| Block.PatchedShape | crates/hopper65/src/block.rs:20-38 | instructions from `orig` move up one slot, stores before `orig` reach one further, other instructions stay; residencies keep their register, and those at or after `orig` move up one index |
| Block.PatchedValid | crates/hopper65/src/block.rs:20-38 | patching keeps every residency pointing at an instruction that sets its register |
| Block.PatchedSplice | crates/hopper65/src/block.rs:21-32 | inserting, appending and then bumping the earlier stores gives the patched instruction list |
| Block.MutState.AddPatch | crates/hopper65/src/block.rs:20-38 | the in-place insert, push and two renumbering loops leave the state `Patched` describes |
| Block.MutState.BumpStoresBefore | crates/hopper65/src/block.rs:28-32 | every store before `orig` has its forward distance increased by one; nothing else changes |
| Block.MutState.ShiftEntriesFrom | crates/hopper65/src/block.rs:33-37 | every residency at or after `orig` moves up one index; the instructions are unchanged |
| Block.On | crates/hopper65/src/block.rs:74-116 | an unknown value has no successors; there are at most three; every successor binds `dest`, keeps every bound name and has at least as many instructions |
| Block.OnAlias | crates/hopper65/src/block.rs:97-100 | an untouched value is aliased: one successor, `dest` mapped to the same register and index, no instruction emitted |
| Block.OnClobbered | crates/hopper65/src/block.rs:82-96 | a clobbered value gives exactly three successors, one per register; each binds `dest` to its last instruction and is a patch when that register was also overwritten, otherwise one appended transfer |
| Block.OnClobberedCount | crates/hopper65/src/block.rs:83-96 | the three rescues are all there and distinct |
| Block.OnClobberedMember | crates/hopper65/src/block.rs:83-96 | every successor of a clobbered reuse is the rescue into the register `dest` is bound to |
| Block.RescueShape | crates/hopper65/src/block.rs:86-94 | a rescue into `r` binds `dest` to `r` at the last instruction, via a patch or a single transfer |
| Block.RescueDistinct | crates/hopper65/src/block.rs:83-96 | rescues into different registers are different states |
| Block.OnConst | crates/hopper65/src/block.rs:105-114 | a constant gives exactly three successors, each appending one load into its register and binding `dest` there, all other entries unchanged |
| Block.OnValid | crates/hopper65/src/block.rs:74-116 | every successor of a valid state is valid |
| Block.OnJustValid | crates/hopper65/src/block.rs:80-104 | every successor of a reuse from a valid state is valid |
| Block.LoadedValid | crates/hopper65/src/block.rs:107-113 | a constant load keeps the invariant |
| Block.RescueValid | crates/hopper65/src/block.rs:85-95 | a rescue from a clobbered residency keeps the invariant |
| Block.RescuePatchValid | crates/hopper65/src/block.rs:87-88 | the patch branch of a rescue keeps the invariant |
| Block.RescueMoveValid | crates/hopper65/src/block.rs:89-91 | the transfer branch of a rescue keeps the invariant |
| Block.ValidAppend | crates/hopper65/src/block.rs:90 | appending an instruction keeps every residency valid |
| Block.ValidBind | crates/hopper65/src/block.rs:92-93 | binding a name to a last instruction that sets its register keeps the invariant |
| Block.ReuseAlwaysClobbered | crates/hopper65/src/block.rs:81-100 | from a valid state the scan at a residency's own index always succeeds, so every successor of a reuse emits instructions |
| Block.GotIntoAEffect | crates/hopper65/src/block.rs:57-73 | `get_into_a` keeps the invariant; when A is untouched it appends one transfer into A from a different register and rebinds the name to A; otherwise it adds two instructions, keeps the same names and leaves the name in its register |
| Block.MutState.GetIntoA | crates/hopper65/src/block.rs:57-73 | the in-place method leaves the state `GotIntoA` describes |
| ListingCore.NewHex | crates/retroc-file/src/listing/core.rs:20-33 | base 16 with the given group counts and widths; four bits per entry digit |
| ListingCore.NewOctal | crates/retroc-file/src/listing/core.rs:34-47 | base 8 with the given group counts and widths; three bits per entry digit |
| ListingCore.GroupBits | crates/retroc-file/src/listing/core.rs:49-57 | 4 bits per entry digit for base 16, 3 for base 8, 4 for any other base |
| ListingCore.GroupSpan | crates/retroc-file/src/listing/core.rs:49-57 | for base 8 and 16, `w` digits span exactly `base^w` values, so bits per digit times `w` is the group width in bits |
| ListingCore.FromStrRadix | crates/retroc-file/src/listing/core.rs:88-89 | `u128::from_str_radix` accepts only a non-empty digit string (an optional `+`) whose value is below 2^128 |
| ListingCore.FromStrRadixDigits | crates/retroc-file/src/listing/core.rs:88-89 | a digit string in range is read as its value |
| ListingCore.DigitsValue | crates/retroc-file/src/listing/core.rs:88-89 | `n` digits of a base are worth less than `base^n` |
| ListingCore.PartBelowShift | crates/retroc-file/src/listing/core.rs:88-96 | a part's value fits in the bits it is shifted in by, so the `|` adds |
| ListingCore.FitsAll | crates/retroc-file/src/listing/core.rs:87-97 | when every part parses, the no-panic condition means every shift is below 128 bits |
| ListingCore.AllFits | crates/retroc-file/src/listing/core.rs:87-97 | shifts that are all below 128 bits meet the no-panic condition |
| ListingCore.ShlRoom | crates/retroc-file/src/listing/core.rs:96 | a `u128` shifted left leaves room for a part below `2^bits`, so the sum stays in range |
| ListingCore.GroupedValue | crates/retroc-file/src/listing/core.rs:86-97 | the fold `value = (value << bits) \| part` stays below 2^128 |
| ListingCore.GroupedValueSnoc | crates/retroc-file/src/listing/core.rs:87-97 | one more part that parses is one more step of the fold |
| ListingCore.ParseGrouped | crates/retroc-file/src/listing/core.rs:75-99 | a parsed value is below 2^128 |
| ListingCore.ParseGroupedErrors | crates/retroc-file/src/listing/core.rs:80-98 | the errors: a wrong part count gives "group count mismatch"; with the right count, "invalid group digits" exactly when a part does not parse; an empty part always fails; there are no other errors |
| ListingCore.ParseGroupedNumber | crates/retroc-file/src/listing/core.rs:75-99 | the loop with its early returns computes `ParseGrouped` |
| ListingCore.DigitChar | crates/retroc-file/src/listing/core.rs:115-119 | a digit is written as the lowercase character whose value it is |
| ListingCore.NaturalDigits | crates/retroc-file/src/listing/core.rs:117-119 | a number is never written with no digits |
| ListingCore.FixedDigits | crates/retroc-file/src/listing/core.rs:117-119 | exactly `w` lowercase digits of the base |
| ListingCore.FixedDigitsZero | crates/retroc-file/src/listing/core.rs:117-119 | zero is written as `w` zeros |
| ListingCore.PaddedOneDigit | crates/retroc-file/src/listing/core.rs:117-119 | a one-digit value padded to `w` digits is its fixed-width form |
| ListingCore.PaddedStep | crates/retroc-file/src/listing/core.rs:117-119 | padding a value is padding its higher digits and then writing its lowest digit |
| ListingCore.PaddedIsFixed | crates/retroc-file/src/listing/core.rs:113-119 | for `2 <= base <= 16`, `w >= 1` and a value below `base^w`, `{:0w$x}` / `{:0w$o}` writes exactly `w` digits |
| ListingCore.FixedDigitsValue | crates/retroc-file/src/listing/core.rs:113-119 | reading `w` fixed digits back gives the value modulo `base^w` |
| ListingCore.DropSnoc | crates/retroc-file/src/listing/core.rs:122-126 | one more `value >>= bits` step is one more division by the group weight |
| ListingCore.DropIsDiv | crates/retroc-file/src/listing/core.rs:122-126 | after `i` steps the value is divided by the weight to the power `i` |
| ListingCore.GroupValues | crates/retroc-file/src/listing/core.rs:111-127 | `g` group values, each below the group weight |
| ListingCore.GroupValuesSnoc | crates/retroc-file/src/listing/core.rs:111-127 | each loop step adds the masked current value as the next group |
| ListingCore.GroupValueAt | crates/retroc-file/src/listing/core.rs:111-127 | group `i` is `(v >> i*d*w) mod base^w` |
| ListingCore.GroupWeight | crates/retroc-file/src/listing/core.rs:122-126 | `i` groups of `w` digits weigh `2^(d*w*i)` |
| ListingCore.Padded | crates/retroc-file/src/listing/core.rs:121 | one written part per group value |
| ListingCore.PaddedSnoc | crates/retroc-file/src/listing/core.rs:121 | pushing one more part |
| ListingCore.PaddedReversed | crates/retroc-file/src/listing/core.rs:128 | reversing the parts is writing the reversed groups |
| ListingCore.Reversed | crates/retroc-file/src/listing/core.rs:128 | `parts.reverse()`: the element at `i` is the one at `len-1-i` |
| ListingCore.FormatGroupedNumber | crates/retroc-file/src/listing/core.rs:102-130 | the loop collecting groups from the least significant up, then reverse and join, computes `FormatGrouped` |
| ListingCore.FormatGroupedParts | crates/retroc-file/src/listing/core.rs:102-130 | for `g, w >= 1`, the output splits at `.` into exactly `g` parts; each is exactly `w` lowercase digits; the `i`-th from the right is group `i` of the value |
| ListingCore.PaddedGroupsShape | crates/retroc-file/src/listing/core.rs:117-129 | groups below `base^w`, written and reversed, are fixed-width digit parts, most significant first |
| ListingCore.ReversedPaddedFixed | crates/retroc-file/src/listing/core.rs:117-129 | the `j`-th reversed written part is the fixed digits of group `g-1-j` |
| ListingCore.FixedShapes | crates/retroc-file/src/listing/core.rs:117-129 | parts that are reversed fixed digits are `w` lowercase digits each, with group `i` at position `g-1-i` |
| ListingCore.FormatSplit | crates/retroc-file/src/listing/core.rs:128-129 | splitting the joined output at `.` gives back the reversed written groups |
| ListingCore.JoinDigits | crates/retroc-file/src/listing/core.rs:129 | digit parts joined by `.` split back into themselves |
| ListingCore.JoinDotDigits | crates/retroc-file/src/listing/core.rs:129 | digit parts joined by `.` hold only digits and dots |
| ListingCore.JoinEnds | crates/retroc-file/src/listing/core.rs:129 | a join ends with its last part's last character and, when that part is non-empty, starts with its first part's first character |
| ListingCore.DotDigitsText | crates/retroc-file/src/listing/core.rs:102-130 | digits and dots are neither whitespace nor a line feed |
| ListingCore.FormatGroupedText | crates/retroc-file/src/listing/core.rs:102-130 | for `g, w >= 1` the output is non-empty digits and dots, starts and ends with a digit, and holds a dot exactly when `g >= 2` |
| ListingCore.HornerBound | crates/retroc-file/src/listing/core.rs:86-97 | `n` groups below `p`, most significant first, are worth less than `p^n` |
| ListingCore.HornerGroups | crates/retroc-file/src/listing/core.rs:111-129 | reading the written groups back, most significant first, rebuilds the value modulo `p^g` |
| ListingCore.FixedParses | crates/retroc-file/src/listing/core.rs:88-89 | for base 8 or 16, `w >= 1` and `d*w < 128`, a part of exactly `w` digits of the base is accepted by `from_str_radix` and read as its value |
| ListingCore.PaddedParses | crates/retroc-file/src/listing/core.rs:88-89 | a group written with `{:0w$}` reads back as its value |
| ListingCore.PaddedAllParse | crates/retroc-file/src/listing/core.rs:87-89 | every written group parses back, and each is `w` long |
| ListingCore.GroupsFit | crates/retroc-file/src/listing/core.rs:96 | `n` groups of `d*w` bits fit in 128 bits |
| ListingCore.ShlNoWrap | crates/retroc-file/src/listing/core.rs:96 | below `p^(n-1)`, a shift by one group does not wrap |
| ListingCore.GroupedHorner | crates/retroc-file/src/listing/core.rs:86-97 | fixed-width groups parse without panic or wrap-around to their base-`base^w` value |
| ListingCore.FormatParseRoundTrip | crates/retroc-file/src/listing/core.rs:75-130 | for base 8 or 16, `g, w >= 1`, `d*w*g <= 128` and `d*w < 128`, parsing what `format_grouped_number` wrote, expecting `g` groups, succeeds without a panic and gives the value reduced to its low `d*w*g` bits |
| ListingCore.BytesBE | crates/retroc-file/src/listing/core.rs:150-156 | `n` big-endian bytes |
| ListingCore.BytesBEAt | crates/retroc-file/src/listing/core.rs:152-155 | byte `k` is `(v >> 8*(n-1-k)) & 0xff` |
| ListingCore.GroupedValueToBytes | crates/retroc-file/src/listing/core.rs:133-158 | no bytes for a zero-bit value, else `(bits+7)/8` bytes, byte `k` being the value shifted right by `8*(n-1-k)` bits and masked |
| ListingCore.BytesValue | crates/retroc-file/src/listing/asm.rs:35-38 | the printer's fold `val = (val << 8) \| b` stays below 2^128 |
| ListingCore.BytesValueBound | crates/retroc-file/src/listing/asm.rs:35-38 | `n <= 16` bytes fold to a value below `2^(8n)`, without wrap-around |
| ListingCore.BytesOfBytesValue | crates/retroc-file/src/listing/asm.rs:35-38 | writing `n <= 16` bytes' fold back as `n` big-endian bytes gives the bytes again |
| ListingCore.BytesValueOfBE | crates/retroc-file/src/listing/core.rs:150-156 | folding `n <= 16` big-endian bytes of a value gives the value modulo `256^n` |
| ListingAsm.Fields | crates/retroc-file/src/listing/asm.rs:17-20 | `splitn(3, ws)` gives two whitespace-free tokens, and fails exactly when the line has no whitespace ("missing entry") |
| ListingAsm.ParseRawEntries | crates/retroc-file/src/listing/asm.rs:12-27 | on success, one entry per non-blank trimmed line, in order, each being that line's parse; on failure, the error of a line all of whose predecessors parsed |
| ListingAsm.MissingEntryLine | crates/retroc-file/src/listing/asm.rs:19 | a one-token line fails with "missing entry" |
| ListingAsm.ParseLineErrors | crates/retroc-file/src/listing/asm.rs:18-22 | a line fails only with "missing entry" or an error of `parse_grouped_number`, passed on unchanged; a wrong group count in either token fails the line |
| ListingAsm.ParseAsmLine | crates/retroc-file/src/listing/asm.rs:17-24 | one line of the loop, with the `?` early returns |
| ListingAsm.ParseAsmListing | crates/retroc-file/src/listing/asm.rs:12-27 | the loop over `lines()` computes `ParseAsm`: blank lines skipped, the first error returned |
| ListingAsm.ParseRawStep | crates/retroc-file/src/listing/asm.rs:14-25 | one loop step: a blank line is skipped, a failing line ends the parse with its error, any other adds its entry in front of the rest |
| ListingAsm.PrintAsmListing | crates/retroc-file/src/listing/asm.rs:30-47 | the loop computes `PrintAsm`: every entry's line followed by a line feed, in order |
| ListingAsm.AsmLinesSnoc | crates/retroc-file/src/listing/asm.rs:32-45 | each loop step appends that entry's line |
| ListingAsm.Reparsed | crates/retroc-file/src/listing/asm.rs:12-47 | what a printed entry reads back as keeps the text and has a full set of entry bytes |
| ListingAsm.JoinedFields | crates/retroc-file/src/listing/asm.rs:40-44 | a written line is trimmed, has no line feed, and splits back into its address, entry and text |
| ListingAsm.AsmLineRoundTrip | crates/retroc-file/src/listing/asm.rs:12-47 | a printed line parses back to the entry with its address and bytes reduced to the bits their groups hold |
| ListingAsm.ParseRawAllOk | crates/retroc-file/src/listing/asm.rs:12-27 | lines that each parse, plus the empty piece after the last line feed, parse to their entries |
| ListingAsm.PrintParseRoundTrip | crates/retroc-file/src/listing/asm.rs:12-47 | for any entries whose texts survive a line, parsing the printed text gives one `Reparsed` entry per entry, in order |
| ListingAsm.PrintParseIdentity | crates/retroc-file/src/listing/asm.rs:12-47 | canonical entries come back exactly: parsing is a left inverse of printing |
| ListingAsm.CanonicalReparsed | crates/retroc-file/src/listing/asm.rs:12-47 | a canonical entry reads back as itself |
| ListingDetached.DetachedSafeAll | crates/retroc-file/src/listing/detached.rs:19-27 | the no-panic condition of the parse holds exactly when it holds for every trimmed line |
| ListingDetached.Window | crates/retroc-file/src/listing/detached.rs:31-38 | at most `total_bytes` bytes; none past the end of the image; otherwise a run of the image at the offset that is full or reaches the end |
| ListingDetached.WindowFull | crates/retroc-file/src/listing/detached.rs:31-38 | a window that fits in the image is exactly the bytes there |
| ListingDetached.DetachedLine | crates/retroc-file/src/listing/detached.rs:20-44 | an entry's bytes are at most `total_bytes` and are the image's bytes at its address; a line without a dotted first token, or whose token fails to parse, becomes a plain comment holding the whole line |
| ListingDetached.MappedLine | crates/retroc-file/src/listing/detached.rs:25-39 | a dotted first token that parses maps the rest of the line to the window at that address |
| ListingDetached.ZeroMappingDropped | crates/retroc-file/src/listing/detached.rs:25-63 | a dotted line whose address reads as 0 gives an entry with bytes from a non-empty image; printing that entry writes its text alone and leaves the image as it was |
| ListingDetached.DetachedEntriesNonBlank | crates/retroc-file/src/listing/detached.rs:17-47 | the parse reads every non-blank trimmed line, in order, into the entry at the same position, and nothing else |
| ListingDetached.DetachedStep | crates/retroc-file/src/listing/detached.rs:19-45 | one loop step: a blank line adds nothing, any other adds its entry |
| ListingDetached.ReadDetachedLine | crates/retroc-file/src/listing/detached.rs:20-44 | one loop step with the source's `group_bits`/`total_bits`/`min` window arithmetic computes `DetachedLine` |
| ListingDetached.ParseDetachedListing | crates/retroc-file/src/listing/detached.rs:17-47 | the loop over `lines()` computes `ParseDetached`; it never fails |
| ListingDetached.PrintDetachedListing | crates/retroc-file/src/listing/detached.rs:50-66 | the loop computes `PrintDetached`: the comment lines and the raw image built entry by entry |
| ListingDetached.CommentLinesSnoc | crates/retroc-file/src/listing/detached.rs:53-64 | each loop step appends that entry's comment line |
| ListingDetached.RawAfterSnoc | crates/retroc-file/src/listing/detached.rs:54-63 | each loop step places a mapped entry's bytes and leaves the image alone for a plain comment |
| ListingDetached.ZeroBytes | crates/retroc-file/src/listing/detached.rs:59 | `resize(offset, 0)` adds exactly the missing zero bytes |
| ListingDetached.PlacedShape | crates/retroc-file/src/listing/detached.rs:58-60 | placing bytes keeps the image, zero-fills it up to the offset, and appends the bytes at the larger of the old length and the offset |
| ListingDetached.RawAfterPrefix | crates/retroc-file/src/listing/detached.rs:53-64 | the image only grows: an earlier image is a prefix of every later one |
| ListingDetached.LastEndIs | crates/retroc-file/src/listing/detached.rs:53-64 | where the last mapped entry ends is 0 or the end of some mapped entry |
| ListingDetached.LastEndBefore | crates/retroc-file/src/listing/detached.rs:53-64 | for ascending entries every earlier mapped entry ends no later than a mapped entry starts |
| ListingDetached.RawLenAscending | crates/retroc-file/src/listing/detached.rs:53-64 | for ascending entries the image is exactly as long as the last mapped entry's end |
| ListingDetached.PlacedLast | crates/retroc-file/src/listing/detached.rs:58-60 | right after an ascending mapped entry the image ends with its bytes, at its address |
| ListingDetached.PlacedAtAddress | crates/retroc-file/src/listing/detached.rs:50-66 | for ascending entries every mapped entry's bytes sit in the final image at its own address |
| ListingDetached.AddressLineSplits | crates/retroc-file/src/listing/detached.rs:20-28 | a printed `<address> <text>` line trims to itself (or to the address when the text is empty) and splits back into the address and the text |
| ListingDetached.TrimAfterToken | crates/retroc-file/src/listing/detached.rs:20 | `"<address> "` trims to the address |
| ListingDetached.AddressLineRead | crates/retroc-file/src/listing/detached.rs:25-28 | a mapped entry's printed line has a dotted first token that parses back to its address, followed by its text |
| ListingDetached.MappedLineRoundTrip | crates/retroc-file/src/listing/detached.rs:17-66 | a mapped entry's line reads back as that entry when its bytes sit in the image at its address |
| ListingDetached.DetachedAllRead | crates/retroc-file/src/listing/detached.rs:17-47 | lines that each read back, plus the empty piece after the last line feed, parse to their entries |
| ListingDetached.DetachedCons | crates/retroc-file/src/listing/detached.rs:19-45 | a non-blank line in front adds its entry in front |
| ListingDetached.DetachedRoundTrip | crates/retroc-file/src/listing/detached.rs:17-66 | for ascending entries that each round-trip, reading the printed comment text against the printed image gives the entries back |
| ListingDetached.SingleGroupReadsAsComment | crates/retroc-file/src/listing/detached.rs:17-66 | with one address group, a mapped entry's printed line reads back as a plain comment at address 0 holding the whole line |
| ListingDetached.PrintedCommentLines | crates/retroc-file/src/listing/detached.rs:50-66 | when no text holds a line feed, the printed comment text splits back into exactly one line per entry |
| Strings.TrimStartShape | crates/retroc-file/src/listing/detached.rs:20 | `trim_start` removes a whitespace prefix and stops at a non-whitespace character |
| Strings.TrimEndShape | crates/retroc-file/src/listing/detached.rs:20 | `trim_end` removes a whitespace suffix and stops at a non-whitespace character |
| Strings.TrimEnds | crates/retroc-file/src/listing/asm.rs:15 | a trimmed string is empty or starts and ends with non-whitespace |
| Strings.TrimTwice | crates/retroc-file/src/listing/asm.rs:15 | trimming is idempotent |
| Strings.TrimEmptyIff | crates/retroc-file/src/listing/asm.rs:15-16 | a line is skipped as blank exactly when it is all whitespace |
| Strings.Split | crates/retroc-file/src/listing/core.rs:80 | `split('.')` gives at least one part and no part holds the separator |
| Strings.SplitAfter | crates/retroc-file/src/listing/core.rs:80 | splitting after a separator-free prefix puts the prefix in front of the first part |
| Strings.SplitJoin | crates/retroc-file/src/listing/core.rs:80-129 | `split` undoes `join` when no part holds the separator |
| Strings.LinesOfTerminated | crates/retroc-file/src/listing/asm.rs:12-47 | cutting lines that each end in a line feed gives them back |
| Strings.TerminatedSnoc | crates/retroc-file/src/listing/asm.rs:41-43 | pushing one more terminated line |
| Strings.NonBlankTrimmed | crates/retroc-file/src/listing/asm.rs:15-16 | every non-blank line the parsers read is non-empty and already trimmed |
| Strings.SplitWs | crates/retroc-file/src/listing/detached.rs:23-28 | `splitn(2, char::is_whitespace)`: a whitespace-free first token that is a prefix, and the text after the first whitespace character if there is one |
| Strings.SplitWsAt | crates/retroc-file/src/listing/detached.rs:23-28 | a token, one whitespace character and a tail split back into the token and that tail |
| Strings.SplitWsWhole | crates/retroc-file/src/listing/detached.rs:23-28 | a token without whitespace is not split |

## Left out

- Block.Patched: indices and forward distances are unbounded, so the `u32` width of `len as u32 + 1 - orig`, `fwd += 1` and `len - 1` is not modelled. Its wrap-around only matters past 2^32 instructions.
- Block.MutState.SetsAt: `lim <= |insts|` is a precondition. With `lim > len` the source still scans `[0, len)`: it returns true at the first instruction from the end that sets the register and panics in `idx -= 1` only when none does. Every call site passes a residency index, which `Valid` keeps below the instruction count, so the precondition holds there.
- Block.On: `BTreeSet` and `BTreeMap` are taken as a mathematical set and map. Their ordering and the derived `Ord`, `PartialOrd` and `Debug` are not modelled.
- The `Display` impl of `ListingEntry` (`core.rs:68-72`) is not modelled: no listing operation uses it.
- `crates/retroc-file/src/lib.rs` is not part of this model: it holds the parser traits, the `FileRegistry` with `register_parser` and the dispatch by file extension, and `ErrorKind`, which sit outside the listing core.
- `crates/retroc-file/src/listing/mod.rs` is not part of this model: it only re-exports.
- ListingCore.FormatGroupedNumber: modelled for base 8 and 16 only. Every base other than 16 is written with `{:o}` (`core.rs:118-119`) and shifted by `4 * w` bits (`core.rs:125`), so for other bases the digits written and the bits dropped do not match the base.
- ListingCore.ParseGroupedNumber: radices above 16 are not modelled, so the digits `g`..`z` are left out. A radix below 2, which panics in `from_str_radix`, and a shift by 128 bits or more, which panics, are preconditions.
- ListingCore.FormatGroupedNumber: the `base.pow(w)` overflow, which panics, is a precondition.
- Strings.Trim: whitespace is the ASCII subset of `char::is_whitespace`. Unicode whitespace is not modelled.
- `lines()` is modelled as a cut at each line feed. The `\r` of a `\r\n` and the empty piece after a final line feed are left to `trim` and the blank-line skip, which remove them as the source does.
- ListingAsm.Fields: the "missing address" error of `asm.rs:18` is never produced: `splitn` always yields a first token.
- ListingDetached.ReadDetachedLine: `usize` is taken as 64 bits, so `addr_val as usize` is the value modulo 2^64, like `as u64`. The `usize` overflows of `group_bits * entry_groups` and `offset + total_bytes` are not modelled.
- ListingDetached.DetachedRoundTrip: requires ascending entries and at least two address groups. Without these, the entries need not come back (`PlacedAtAddress`, `SingleGroupReadsAsComment`).
- I/O and allocation failure are outside the model; every operation here is a pure computation over strings and byte vectors.
