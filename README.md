# discount flag subsystem, in Dafny

This project models the flag subsystem of the discount Markdown compiler:

- the v3 flag set (`mkd_flag_t`) and its operations in `flags.c`: the NULL-tolerant read, the any-set test, initialisation, allocation, copying, in-place union, release, and the reporter `__mkd_flags_are` with its document wrapper `mkd_mmiot_flags`;
- the translator `convert_v2flags` in `v2compat.c`, which turns a 32-bit legacy (v2) option word into a v3 flag set.

Files:

- `flag_ids.dfy` (module `FlagIds`): the v3 identifiers as an enumeration.
  - `Index` maps each identifier to its slot in a flag set; `FlagAt` is its inverse.
  - The numeric values come from `markdown.h`, which is not part of this model. The identifiers are numbered 0..30 in name-table order.
- `flags.dfy` (module `Flags`): the flag set and the reporter.
  - A flag set is an `array<bool>` of `NrFlags` slots, and a NULL set is the null array.
  - `Bits` reads a set, and reads a NULL set as all clear.
  - The reporter is specified by the pure function `Report` over the name table `FlagNames()` and the stored bit of each entry.
  - Stream writes become string appends. `WriteEntries` appends the entries in the order the C code writes them, starting from the empty string. In HTML mode, `WriteReport` and `WriteFixedReport` put the opening table tag in front of them after the loop, then append the closing tags.
- `v2compat.dfy` (module `V2Compat`): the legacy constants as `bv32` and the `switch`.
  - `SwitchCase` is the case ladder, and `LegacyEntry` is the same mapping written as a table indexed by bit position.
  - `Converted(m)` is the set of flags the translation of `m` turns on.
  - `ConvertV2Flags` is the in-place loop. It is proved to leave exactly `Image(Converted(bitmask))` in the array.

### Three points where the code differs from what one might expect

The model follows the code in each:

- Initialisation does not turn `MKD_DLDISCOUNT` (the changed default) on. In the code, `mkd_init_flags` (flags.c:115-118) only zeroes the set. It is `convert_v2flags` that sets `MKD_DLDISCOUNT` (v2compat.c:76).
- No translation action clears a flag: no case of the `switch` clears anything. `MKD2_NODLDISCOUNT` *sets* `MKD_DLDISCOUNT` (v2compat.c:149-151), which is already on, so that bit has no visible effect (`NoDlDiscountBitIsInert`).
- The HTML report does not close its last row when the entry count is odd. It writes a stray `</tr>` when the count is even instead (see Findings).

## Model

| member | source | states |
|---|---|---|
| FlagIds.Index | flags.c:10-42 | every identifier has a slot below NrFlags, and FlagAt recovers the identifier from its slot |
| FlagIds.IndexOnto | flags.c:10-42 | every slot below NrFlags belongs to an identifier, so Index is a bijection onto the slots |
| FlagIds.IndexInjective | flags.c:10-42 | distinct identifiers use distinct slots |
| V2Compat.Bit | v2compat.c:80 | the single-bit word `1 << i`; OnlyOwnBit states that it has bit i and no other |
| V2Compat.HasBit | v2compat.c:80-82 | whether `bitmask & (1 << i)` is non-zero; MaskedBit and OrBit state its properties |
| V2Compat.SwitchCase | v2compat.c:82-173 | the case ladder on the masked value: 0 matches no case, and no case names MKD_NORMAL_LISTITEM or MKD_ALT_AS_TITLE |
| V2Compat.LegacyEntry | v2compat.c:82-173 | the same mapping keyed by bit position: only position 23 (MKD2_NODLDISCOUNT) names MKD_DLDISCOUNT, and no position names MKD_NORMAL_LISTITEM or MKD_ALT_AS_TITLE |
| V2Compat.ConvertedUpTo | v2compat.c:75-174 | the flags that are on once bits 0..n-1 have been read always include MKD_DLDISCOUNT and never MKD_NORMAL_LISTITEM or MKD_ALT_AS_TITLE |
| V2Compat.Converted | v2compat.c:68-175 | the flags on after all 32 bits; it has no contract of its own, and ConvertedMembers characterises it |
| V2Compat.ConvertV2Flags | v2compat.c:68-175 | after the call, a slot of the v3 set is set iff its flag is in Converted(bitmask): the forced MKD_DLDISCOUNT plus the table entry of every set bit |
| V2Compat.ApplyBit | v2compat.c:78-173 | one pass of the loop turns the set for bits 0..i-1 into the set for bits 0..i |
| V2Compat.SetSelected | v2compat.c:82-173 | carrying out a switch outcome sets the slot of the flag it names and no other, and does nothing for no match |
| V2Compat.Image | v2compat.c:65-66 | the slot of f in the image of s is set iff f is in s |
| V2Compat.ImageSet | v2compat.c:65 | `set_mkd3_flag` on the image of s gives the image of s plus that flag |
| V2Compat.ImageDefault | v2compat.c:75-76 | a zeroed set with MKD_DLDISCOUNT then set is the image of {MKD_DLDISCOUNT} |
| V2Compat.MaskedBit | v2compat.c:80-82 | `bitmask & bit` is either 0 or the single bit |
| V2Compat.SwitchMatchesTable | v2compat.c:80-173 | the switch on `bitmask & (1 << i)` selects nothing for a clear bit and table entry i for a set one |
| V2Compat.SwitchOnBits0To7 | v2compat.c:82-173 | for bits 0..7 the case ladder on the single bit agrees with the position table |
| V2Compat.SwitchOnBits8To15 | v2compat.c:82-173 | the same for bits 8..15 |
| V2Compat.SwitchOnBits16To23 | v2compat.c:82-173 | the same for bits 16..23 |
| V2Compat.SwitchOnBits24To31 | v2compat.c:82-173 | the same for bits 24..31 |
| V2Compat.ConvertedStep | v2compat.c:78-174 | reading bit n adds exactly the flag the switch selects for it |
| V2Compat.ConvertedNone | v2compat.c:75-76 | before any bit is read, only MKD_DLDISCOUNT is on |
| V2Compat.ConvertedMembers | v2compat.c:75-174 | a flag is on iff it is MKD_DLDISCOUNT or some set bit's table entry names it |
| V2Compat.DlDiscountAlwaysOn | v2compat.c:75-76 | MKD_DLDISCOUNT is on for every input word |
| V2Compat.ConvertZero | v2compat.c:75-82 | the word 0 yields exactly {MKD_DLDISCOUNT} |
| V2Compat.ConvertSingleBit | v2compat.c:80-173 | a single-bit word yields MKD_DLDISCOUNT plus that bit's table entry |
| V2Compat.OnlyOwnBit | v2compat.c:80 | `1 << i` has bit j set iff i == j |
| V2Compat.ConvertUnion | v2compat.c:78-174 | the translation of m1 OR m2 is the union of the translations of m1 and m2 |
| V2Compat.UnionSplits | v2compat.c:78-174 | a flag of the translation of m1 OR m2 comes from m1 or from m2 |
| V2Compat.UnionKeeps | v2compat.c:78-174 | a flag of the translation of m1 stays in that of m1 OR m2 |
| V2Compat.OrBit | v2compat.c:82 | a bit is set in m1 OR m2 iff it is set in m1 or in m2 |
| V2Compat.ConvertMonotone | v2compat.c:78-174 | adding bits to the word never removes a flag |
| V2Compat.ConvertedOnlyReadsMappedBits | v2compat.c:82-173 | two words that agree on every bit with a case translate alike |
| V2Compat.StrictAliases | v2compat.c:83-112 | MKD2_STRICT, MKD2_STRICT2 and both together each yield exactly {MKD_STRICT, MKD_DLDISCOUNT} |
| V2Compat.StrictPositions | v2compat.c:83-112 | exactly bits 4 and 9 select MKD_STRICT |
| V2Compat.IgnoredBits | v2compat.c:48-58 | clearing MKD2_NODLIST and bit 0x20000000 never changes the translation |
| V2Compat.ClearedBits | v2compat.c:48-58 | clearing bits 20 and 29 leaves every other bit as it was |
| V2Compat.ClearedMask | v2compat.c:48-58 | the mask that clears bits 20 and 29 keeps every other single bit |
| V2Compat.UnmappedPositions | v2compat.c:82-173 | exactly bits 20 and 29 have no case |
| V2Compat.NoDlDiscountBitIsInert | v2compat.c:149-151 | MKD2_NODLDISCOUNT alone yields {MKD_DLDISCOUNT}, and adding it to any word changes nothing |
| V2Compat.UnreachableFlags | v2compat.c:82-173 | MKD_NORMAL_LISTITEM and MKD_ALT_AS_TITLE are never on after translation |
| Flags.Negated | flags.c:76 | whether a table name starts with the `!` marker; no contract of its own, and ShownRestores and Enabled state what depends on it |
| Flags.Even | flags.c:68-99 | the value of `even` after n passes: it starts at 1 and each pass inverts it; EvenIsParity states that it is the parity of n |
| Flags.Stored | flags.c:73-74 | the stored bit of each shipped entry, one per table entry; StoredOf states what each bit is |
| Flags.FixedReport | flags.c:101-104 | the report with the loop end corrected to close a row when the count is odd; FixedReportIsRows states that it is the table tags around Rows |
| Flags.Rows | flags.c:81-99 | the intended HTML layout: cells in table order, two per row, the last row holding one cell for an odd count, every row opened by ` <tr>` and closed by `</tr>\n`; BodyIsRows relates the entries to it |
| Flags.FlagIsSet | flags.c:47-50 | false for a NULL set, otherwise the stored bit |
| Flags.Bits | flags.c:47-50 | the contents of a set that may be NULL: NrFlags slots, all clear for NULL |
| Flags.IsAnyFlagSet | flags.c:53-62 | true iff the set is non-NULL and some slot below NrFlags is set |
| Flags.InitFlags | flags.c:115-118 | every slot is clear afterwards |
| Flags.NewFlags | flags.c:121-129 | NULL iff allocation fails, otherwise a fresh set with every slot clear |
| Flags.CopyFlags | flags.c:133-141 | NULL iff allocation fails; otherwise a fresh set equal to the original slot by slot, or all clear for a NULL original |
| Flags.WriteToCopy | flags.c:133-141 | the copy is a different object from the original; flipping one of its slots leaves the original's contents as they were |
| Flags.SetFlagNum | flags.c:148 | the write sets slot i and changes nothing else; through a NULL set it does nothing |
| Flags.CopyFlagsInplace | flags.c:144-150 | every slot of `to` becomes its old value OR the slot of `from`, and a NULL `from` counts as all clear |
| Flags.FreeFlags | flags.c:152-156 | no contract: releasing memory has no counterpart in the model's heap |
| Flags.Union | flags.c:144-150 | the slot-wise OR of two sets keeps their size; UnionNeverClears states its slots |
| Flags.UnionNeverClears | flags.c:144-150 | the merged slot is set iff it was set in either operand, so a set slot stays set |
| Flags.UnionIdempotent | flags.c:144-150 | merging the same set twice equals merging it once |
| Flags.UnionWithNothing | flags.c:144-150 | merging a NULL set changes nothing |
| Flags.FlagNames | flags.c:10-42 | the name table: 31 entries, one per identifier (NrFlags), with the source's names in the source's order; slots are numbered in this order (FlagIds.Index) |
| Flags.Shown | flags.c:75-77 | the printed name: the table name without a leading `!`; ShownRestores states its contract |
| Flags.ShownRestores | flags.c:75-77 | putting the `!` back in front of the printed name of a marked entry gives the table name, and an unmarked name is printed as is |
| Flags.Enabled | flags.c:74-79 | the feature is on iff the stored bit differs from the `!` marker |
| Flags.PlainEntry | flags.c:85-91 | a plain-mode entry: a space, `!` if the feature is off, the printed name; PlainEntryMarksDisabled and PlainEntryCounts state its properties |
| Flags.Cell | flags.c:83-96 | an HTML cell, struck through with `<s>` and `</s>` when the feature is off; CellMarksDisabled states its property |
| Flags.HtmlEntry | flags.c:81-98 | an HTML entry: ` <tr>` before the cell at an even position, `</tr>\n` after it at an odd one; BodyIsRows states the layout that results |
| Flags.Entry | flags.c:81-98 | the entry in the requested mode |
| Flags.Body | flags.c:73-100 | the entries for the first n table rows, in table order; BodyGrows and BodyIsRows state its properties |
| Flags.Report | flags.c:71-104 | the whole report, with the closing test as written; HtmlFrame, ReportLeavesLastRowOpen and ReportClosesRowTwice state its properties |
| Flags.StoredOf | flags.c:73-74 | entry k's stored bit is what mkd_flag_isset returns for the set and entry k's identifier, so it is false for every entry of a NULL set |
| Flags.EvenIsParity | flags.c:68-99 | Even(n), the step-by-step recurrence that the `even` toggle follows from its initial 1, agrees with n % 2 == 0 (the toggle itself is WriteEntries's loop invariant) |
| Flags.Unmark | flags.c:75-79 | a leading `!` is stripped and the value inverted; other names pass unchanged |
| Flags.WriteEntry | flags.c:74-99 | one loop pass appends exactly Entry: ` <tr>` before an even-position cell, `</tr>\n` after an odd one, `<s>` or `!` when the feature is off |
| Flags.PlainEntryWrites | flags.c:85-91 | the plain-mode writes spell a space, `!` if off, then the name |
| Flags.HtmlEntryWrites | flags.c:81-97 | the HTML-mode writes spell the row tag, the cell and the row close in that order |
| Flags.WriteNext | flags.c:73-99 | the loop body extends the entries written so far by entry i |
| Flags.WriteEntries | flags.c:73-100 | the loop writes the entries in table order, and `even` ends telling whether the count is even |
| Flags.WriteReport | flags.c:65-105 | the output equals Report for any name table |
| Flags.FlagsAre | flags.c:65-105 | the output for the shipped name table equals Report of the set's stored bits |
| Flags.Mmiot.constructor | flags.c:108-111 | a document whose flag set holds exactly the given NrFlags bits |
| Flags.MmiotFlags | flags.c:108-112 | nothing for a NULL document, otherwise the report of the document's flags |
| Flags.BodyIsRows | flags.c:81-99 | after an even number of HTML entries the output is the two-cells-per-row layout Rows; after an odd number, Rows minus the last `</tr>\n` |
| Flags.RowsOdd | flags.c:81-97 | an entry at an even position closed by `</tr>` is a one-cell row |
| Flags.RowsEven | flags.c:81-97 | entries at an even and the next odd position form a two-cell row |
| Flags.ReportLeavesLastRowOpen | flags.c:101-104 | with an odd entry count the HTML report lacks the `</tr>\n` of its last row |
| Flags.ReportClosesRowTwice | flags.c:101-104 | with an even entry count the HTML report has a stray `</tr>\n` after the closed rows |
| Flags.ShippedTableIsOdd | flags.c:10-42 | the shipped name table has 31 entries, an odd count |
| Flags.ShippedReportLeavesLastRowOpen | flags.c:71-104 | for every flag set, the HTML report of the shipped table ends its body with no `</tr>` and differs from the corrected report |
| Flags.FixedReportIsRows | flags.c:101-104 | with the closing test inverted, the HTML report is exactly the table tags around Rows for every count, and plain mode is unchanged |
| Flags.WriteFixedReport | flags.c:101-104 | the corrected loop end produces FixedReport |
| Flags.BodyGrows | flags.c:73-100 | the output after m entries is a prefix of the output after n >= m entries: entries come in table order |
| Flags.PlainEntryMarksDisabled | flags.c:85-91 | for a name whose printed form is non-empty and has no `!` or `<`: a plain entry starts with a space and has `!` right after it iff its feature is off (ShippedEntriesMarkDisabled instantiates it for every shipped name) |
| Flags.CellMarksDisabled | flags.c:83-96 | for a name whose printed form is non-empty and has no `!` or `<`: an HTML cell starts with `<td>` and continues with `<s>` iff its feature is off (instantiated for every shipped name by ShippedEntriesMarkDisabled) |
| Flags.PlainEntryCounts | flags.c:85-91 | for a name whose printed form has no `!` or `<`: a plain entry holds one `!` if its feature is off and none otherwise, and no `<` (instantiated for every shipped name by ShippedEntriesMarkDisabled) |
| Flags.PlainBodyCounts | flags.c:73-100 | for a table whose printed names have no `!` or `<`: in plain mode the number of `!` equals the number of disabled entries, and no `<` (no markup) appears (ShippedPlainReportCounts instantiates it for the shipped table) |
| Flags.PlainWord | flags.c:75-77 | a name whose printed form is a given non-empty word free of `!` and `<` satisfies the hypothesis of the lemmas above |
| Flags.ShippedNamesArePlain | flags.c:10-42 | every printed name of the shipped table is non-empty and contains no `!` and no `<` (the ShippedNamesFrom lemmas check the names two at a time) |
| Flags.ShippedPlainReportCounts | flags.c:71-104 | for every flag set, the plain-mode report of the shipped table has one `!` per disabled feature and no `<` |
| Flags.ShippedEntriesMarkDisabled | flags.c:83-96 | for every shipped entry and stored bit: the plain entry is a space followed by `!` iff the feature is off and holds one `!` exactly when off and no `<`; the HTML cell starts with `<td>` followed by `<` iff off, and that `<` opens `<s>` |
| Flags.HtmlFrame | flags.c:71-103 | the HTML report starts with `<table class="mkd_flags_are">\n` and ends with `</table>\n` |

## Left out

- Stream output: `fprintf` and `fputc` on a `FILE*` are modelled as appending to a string that the method returns.
- Allocation: whether `malloc` succeeds is the parameter `mallocOk`, because the model cannot see the allocator.
- FreeFlags: `mkd_free_flags` is a method with no effect and no contract, because releasing memory has no counterpart in Dafny's heap.
- `markdown.h` is not part of this model. So the numeric values of `MKD_*` and the layout of `MMIOT` are not modelled. The class `Mmiot` keeps only the flag set that `mkd_mmiot_flags` reads.
- `MKD_NR_FLAGS` is taken to be exactly the 31 identifiers of the name table (`NrFlags`), so every slot belongs to a named identifier. If `markdown.h` defines slots with no name, the model does not capture them: the loops at flags.c:57 and flags.c:146 and the memset at flags.c:117 would also cover those slots.
- `flagprocs.h` only declares `mkd_set_flag_num`, `mkd_clr_flag_num` and `mkd_set_flag_bitmap`, and their definitions are not part of this model:
  - `SetFlagNum` models the first as a write of one slot that does nothing through NULL, as its name and its one use at flags.c:148 suggest;
  - the other two are not used by the modelled code, so they are not modelled.
- `clear_mkd3_flag` (v2compat.c:66) is defined but never used by `convert_v2flags`, so it is not modelled.
- The forwarding wrappers at v2compat.c:178-316 are not modelled. They convert the flags and hand off to the parser, the renderer and streams, none of which are part of this model. The dead `#if 0` block at v2compat.c:189-192 is not modelled either.
- C integer types: the `1L << i` of v2compat.c:80 is modelled as a shift on `bv32`. Any wider intermediate type makes no difference for i below 32.

## Findings

| source | as written | input that shows it | evidently intended | confidence | as-written member | corrected member |
|---|---|---|---|---|---|---|
| flags.c:101-102 | after the loop, `</tr>\n` is written when `even` is still set, which happens when the entry count is even | the shipped 31-entry table in HTML mode: the last row (ALT_AS_TITLE) is opened by ` <tr>` and never closed; any table with an even count gets a stray `</tr>\n` | write `</tr>\n` when `even` is clear (odd count), which closes the one-cell last row; a one-cell last row is then closed like every other row | high (not executed) | Flags.ShippedReportLeavesLastRowOpen | Flags.FixedReportIsRows |

The as-written behaviour is what `FlagsAre`, `WriteReport` and `MmiotFlags` produce: they model the shipped code. `ReportLeavesLastRowOpen` and `ReportClosesRowTwice` state the two symptoms for any odd or even count. The corrected loop end is `WriteFixedReport`, proved against `FixedReport`.
