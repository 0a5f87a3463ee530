# A verified model of the cperl runtime core

This project models five parts of the cperl runtime in Dafny and proves what they promise. Each
source file that works by updating things in place is modelled by classes, arrays and loops; beside
every such class or loop stands a plain value-level meaning, the methods are proved to compute it,
and the laws are proved about it, over every input and every run.

* **Arrays (av.c).** `PerlArray` is the window that slides inside one allocated block, with counts,
  the mortal stack and the reify transition. `PerlArraySpec` says what the operations mean on a
  sequence of optional elements, `PerlArrayLaws` and `PerlArrayRuns` prove reference conservation and
  agreement with a plain sequence over whole runs, croaks included, `PerlArrayRoom` and `PerlArrayCost`
  prove the amortised bounds for growing at either end, and what a queue costs, which is not linear.
* **String operators (doop.c).** `Vec` is vec at every width, with the laws that relate reads and
  writes across widths. `BitString` is the operators &, | and ^ with the word-at-a-time loop, the
  in-place form, the guard against code points above 0xFF and what becomes of those in a tail. `Trans`,
  `TransUtf8` and `TransSwash` are the variants of tr///, and `TransLaws` says exactly when they agree. `TransCompile` is the loop of
  S_pmtrans (op.c) that pairs the lists of a tr/// and finds out whether replacements grow, and
  `TransInPlace` says exactly when a buffer of its own can be done without. `TransTable` is the
  part of S_pmtrans that makes the table for lists of bytes. `TransLists` and `TransTable` prove what a tr///
  does from its two lists alone. `Bits`, `Utf8` and
  `PerlString` are what they share.
* **Protocols (doio.c).** `Cloexec` is the close-on-exec strategy machine, `InPlaceEdit` the commit of
  an in-place edit, with forked children that close the handle at any time, over an abstract file system
  with the atomicity that IEEE Std 1003.1-2008, System Interfaces, gives link() and rename(), `ArgvSplit` the word
  splitter of do_exec3.
* **Runlevel stacks (cop.h).** `StackInfo` is the doubly linked chain of stackinfos in memory and
  `StackLevels` its meaning and the laws over runs; `JmpEnv` and `JmpEnvRuns` are the same for the
  chain of jump environments.
* **Escapes (dquote.c).** `Numeric` is grok_oct and grok_hex, `Dquote` the parsers of \o{...},
  \x{...} and \xHH with the promise that the result fits the bytes it replaces.

`dafny verify dfyconfig.toml` checks all of it.

Where the code and its own documentation disagree, the model follows the code:

* tr/// over UTF-8 marks "no run" with the value 0xfeedface, which is itself a code point. A
  replacement by that code point is dropped (`TransLaws.CollisionExample`); otherwise the loop is right
  (`TransLaws.PassIsListwise`, both directions).
* With squash and delete both at work, the byte branch of do_trans_complex carries a run across a
  deleted character and the UTF-8 branch ends it (`TransLaws.Disagreement`); in all other tables the
  encoding does not show (`TransLaws.ComplexIsEncodingIndependent`, both directions).
* The escape parsers may look past the limit that dquote.c:186-189 sets: the scan of \xHH
  (`Dquote.TwoLookPast`), and in \o{ and \x{ the search for the end of the digits where the right brace
  is missing (`Dquote.RunLooksPast`); each says exactly when, for every text. \x4 before a NUL reads the
  NUL (`Dquote.TwoLookPastEnd`).
* OPpTRANS_GROWS is meant to tell whether a tr/// may need more room, but S_pmtrans computes it from the
  pairs of the lists only and forgets the final replacement, which serves the characters for which the
  replacement list is used up. tr/\x{100}a/\x{100}/ on "a" panics (`TransCompile.PanicsOnA`), and with
  \x{10FFFF} a write leaves the buffer (`TransCompile.OverrunsBlock`). With the flag off every string is
  transliterated in place exactly if no character that gets the final replacement is shorter than that
  (and NONE, see below, has not overflowed into a replacement that is too long); if the final replacement
  is the very value that stands for "no run" under squash, the character before counts too
  (`TransInPlace.FinalFits`, `TransCompile.GrowsOffExactly`).
* PL_delaymagic is saved again each time setjmp returns, so JMPENV_POP restores its value at the last
  jump that ended in the frame (`JmpEnvRuns.MagicAfterJump`, `JmpEnvRuns.MagicLost`).
* An av_unshift that croaks has already exposed its headroom as elements
  (`PerlArrayRuns.RefusedUnshift`); elements stay exactly if it has none (`PerlArrayRuns.CroakExposes`).
* A forked child that closes the handle of an in-place edit skips the commit, but its close still flushes
  what the child has printed. Without a backup that spoils the edited file if it comes after the commit
  (`InPlaceEdit.SpoiltEdit`, `InPlaceEdit.CloseEverywhere`).
* do_vecset reads the length of a UTF-8 string before it downgrades it; do_vecget reads it again. A store
  that ends between the two lengths is lost in part or whole (`Vec.LostStore`), and one past both may leave
  bytes of the old encoding in between (`Vec.StaleByte`). Perl code comes there by a reference to vec() that
  is taken while the string is still bytes. `Vec.HoldsExactly` says exactly when the store is right.
* `|=` and `^=` copy the characters above 0xFF that the left operand ends in from its own buffer, after the
  result and its NUL have been written there. They survive in `^=` if the bytes of the result have fewer
  characters of two bytes than there were before, and in `|=` never (`BitString.TailExactly`,
  `BitString.OrNeverKeeps`, `BitString.SpoiltTail`); into another target they are right.
* A tr/// without growth writes over a string that has no UTF-8 flag and leaves it unflagged. If a squashed
  run makes room for a longer final replacement, its encoding is taken for other characters
  (`TransCompile.UnflaggedString`); the flag is right if the final replacement fits
  (`TransInPlace.FlagIsRight`), and in any call exactly if it is on or the result is ASCII
  (`TransSwash.TransliterateSimple`, `TransSwash.TransliterateComplex`).
* av_clear returns early if there is no cell above the headroom, and then leaves the headroom
  (`PerlArray.Array.Clear`).
* The lookup of a tr/// with characters above 0xFF drops a line that starts where an earlier one does, with
  all its characters (`TransLists.RepeatedStart`, `TransLists.InAnyList`), where pod/perlop.pod:2657-2658
  promises that the first of several transliterations is used. Without repetitions the lists are followed
  exactly (`TransLists.TreatedAsAsked`, `TransLists.TransliteratedAsAsked`).
* NONE, which stands for characters that are not listed, changes its sign if 0x7fffffff is a replacement:
  they all become \x{80000000} (`TransLists.NoneOverflows`).
* tr///s squeezes characters above 0xFF, which it does not list (`TransTable.EmptyListsSquash`); all other
  tables follow their lists exactly (`TransTable.TableAsks`).

## Model

| member | source | states |
|---|---|---|
| PerlArray.Array.constructor | av.h:21-29 | A new array is empty and owning, has no storage, and its own SV has one reference. |
| PerlArray.Array.Make | av.c:448-500 | The array holds `size` new SVs with one reference each and nothing else; the block has exactly that many cells, and there is none for size 0. |
| PerlArray.Array.Extend | av.c:100-232 | The elements stay; the new storage is that of `Extended`, with the slide back, the slack of ten cells and the one-fifth rule; it croaks exactly below -1 or above I32_MAX. |
| PerlArray.Array.SlideBack | av.c:118-136 | The window returns to the start of the block and every cell it left is NULL if the array is owning. |
| PerlArray.Array.Reallocate | av.c:165-229 | The new block holds the old elements; cells past the old block are NULL if the array is owning; the copy is charged with the old block's size. |
| PerlArray.Array.Reify | av.c:43-69 | Each element gains one reference, the array becomes owning, and every cell outside the window, headroom included, is NULL. |
| PerlArray.Array.Acquire | av.c:59-64 | The counts after the loop are those of one reference more per cell, the immortal undef excepted. |
| PerlArray.Array.Store | av.c:362-434 | Refines the store on a plain sequence: negative index, reify, gap of NULLs, release of the replaced element, croak above I32_MAX; the array stays valid. |
| PerlArray.Array.Put | av.c:403-416 | An element past the top is stored where the cells are already NULL; one below the top replaces an element that is released. |
| PerlArray.Array.Fetch | av.c:277-325 | The slot of an existing element, NULL for a missing one, or under lval a slot with a new SV stored there. |
| PerlArray.Array.Push | av.c:765-783 | Appends one element, and spends exactly the storage of `Pushed`. |
| PerlArray.Array.Pop | av.c:798-823 | Takes the last element off with its reference, NULL as undef, and leaves its cell NULL. |
| PerlArray.Array.Shift | av.c:925-954 | Takes the first element off with its reference; the window moves right and the cell it leaves is NULL if the array is owning. |
| PerlArray.Array.Unshift | av.c:859-910 | Puts `num` empty elements in front, from the headroom as far as it goes; a croak leaves those already exposed. |
| PerlArray.Array.MakeHeadroom | av.c:892-909 | What the headroom does not cover is made by one block move that leaves as much new headroom as the old top index. |
| PerlArray.Array.UseHeadroom | av.c:882-891 | Cells below the window can be exposed as elements because they are NULL. |
| PerlArray.Array.SlideUp | av.c:899-904 | After the block move and the countdown loop the window begins with `num` NULLs and goes on with the old elements. |
| PerlArray.Array.Fill | av.c:999-1036 | Shortens with release of every excess element, or lengthens with NULLs; past the storage it stores a NULL and reifies. |
| PerlArray.Array.Release | av.c:1019-1023 | The countdown loop releases exactly the elements from `n` on and NULLs their cells; no count goes below zero. |
| PerlArray.Array.Delete | av.c:1052-1116 | The element is released or made mortal; deleting the last one also drops the NULLs before it. |
| PerlArray.Array.Exists | av.c:1131-1182 | True exactly for an index, from either end, whose element is not NULL. |
| PerlArray.Array.Clear | av.c:603-666 | Every element is released, each cell NULL before its release, and the guard reference is gone; the window returns to the block's start, except where it has no cell: then the early return leaves the headroom. |
| PerlArray.Array.Undef | av.c:686-731 | The same, and the block is given up. |
| PerlArray.Array.Guard | av.c:639-642 | A reference to the array itself goes on the mortal stack. |
| PerlArray.Array.Exec | av.c:81-1182 | Whatever the operation, the window, the NULL rule and the counts are valid afterwards, and elements, result and counts are those of `Step`. |
| PerlArray.GuardNets | av.c:658-665 | Guard, release of all elements and disarming change each count by the elements alone, and the guarded count can be taken down in between. |
| PerlArrayRoom.GrowthFits | av.c:128-170 | For every key the guard lets through, the unsaturated sum key + AvMAX fits an SSize_t, and the block reaches the key. |
| PerlArrayRoom.UnshiftSplits | av.c:882-909 | An unshift is the use of headroom followed by an unshift of the rest without headroom. |
| PerlArrayRoom.BlockFor | av.c:106-228 | Which block an extension leaves, in cells: the slide, the slack of ten, twice the size, the fifth, the first block; and what it costs. |
| PerlArrayRoom.WindowFor | av.c:882-909 | Where the window lies after an unshift, a shift and a push. |
| PerlArrayLaws.StepConserves | av.c:43-1116 | For every SV but undef: count less cells less mortal stack changes by exactly what the operation hands to or takes from its caller, and stays non-negative. |
| PerlArrayLaws.UndefIsNotCounted | av.c:43-1116 | No operation changes the count of the immortal undef. |
| PerlArrayLaws.BumpAllHeld | av.c:60-64 | Releasing or acquiring a run of cells changes each count by the number of cells that hold it. |
| PerlArrayLaws.CoversLast | av.c:1020-1023 | Releasing the last cell of an owned run is possible and leaves the rest owned. |
| PerlArrayLaws.ElementIsAlive | av.c:414-415 | The count of an element of an owning array is positive. |
| PerlArrayLaws.ReifiedConserves | av.h:26-29 | Reifying changes no claim of the rest of the program. |
| PerlArrayLaws.MadeIsOwned | av.c:456-500 | An array of new SVs satisfies the ownership invariant. |
| PerlArrayLaws.TrimIsPrefix | av.c:1099-1103 | Dropping trailing NULLs yields the longest prefix that ends in an element that exists. |
| PerlArrayRuns.StepIsPlain | av.c:361-1116 | Unless it croaks, an operation does to the array what it does to a plain sequence, in any layout, owning or not. |
| PerlArrayRuns.RunIsPlain | av.c:361-1116 | Every run, croaks included, agrees with the same run on a plain sequence, results included; all a croak shows there is the empty elements an unshift exposed, or the SV of a fetch. |
| PerlArrayRuns.Perform | av.c:81-1182 | A run of operations on the array itself, one after the other: it is a run of the model, croaks included, and what the array holds and all results are those of the plain sequence. |
| PerlArrayRuns.CroakExposes | av.c:859-910 | An operation that croaks puts as many empty elements in front as it has headroom to expose, and leaves the elements alone exactly if that is none. |
| PerlArrayRuns.RefusedUnshift | av.c:882-897 | A refused unshift that turns an empty array into one of five elements. |
| PerlArrayRuns.CroakNeedsHugeIndex | av.c:106-116 | Only operations that ask for an index past I32_MAX, or an extend below -1, ever croak. |
| PerlArrayRuns.RunConserves | av.c:43-1116 | Over any run, croaks included, each count is what was held outside at the start, plus what was handed out, plus the cells and mortals that hold it. |
| PerlArrayRuns.PushThenPop | av.c:785-823 | pop undoes push on an owning array, counts included. |
| PerlArrayRuns.UnshiftThenShift | av.c:858-954 | As many shifts as were unshifted give the array back. |
| PerlArrayRuns.StoreLands | av.c:327-434 | A store puts its value at exactly the index asked for, counted from the end if that is negative; the length is what it was or what the index requires, all other elements stay and a gap is NULL; before the start nothing is done; when it croaks. |
| PerlArrayRuns.FetchFinds | av.c:277-325 | A fetch finds the element at that index, or NULL, or for lval stores a new SV there as a store would. |
| PerlArrayRuns.EndsTaken | av.c:798-954 | pop and shift yield the last and the first element, undef for NULL or none, and leave the others in place. |
| PerlArrayRuns.PushedBehind | av.c:765-783 | A push adds its value at the end; when push and extend croak; extend changes nothing. |
| PerlArrayRuns.UnshiftShows | av.c:859-910 | So many NULLs in front of the old elements, or as many as there is headroom if it croaks, and exactly when it does. |
| PerlArrayRuns.FillMakes | av.c:993-1036 | The length becomes fill + 1, what stays is as it was and what is new is NULL; when it croaks, and when the array becomes owning. |
| PerlArrayRuns.DeleteTakes | av.c:1040-1116 | Exactly the element asked for is taken out, and with the last one the NULLs before it; what is returned and what becomes mortal. |
| PerlArrayRuns.ExistsAndEmpties | av.c:1131-1182 | An element exists if its index is in the array and its cell is not NULL; clear and undef leave none. |
| PerlArrayRuns.StoreThenFetch | av.c:277-434 | A stored value is found from both ends, other elements stay, and gaps do not exist. |
| PerlArrayRuns.DeleteThenExists | av.c:1052-1182 | A deleted element does not exist, no other existence changes, and the array ends in an existing element if its last was deleted. |
| PerlArrayRuns.FillNothingIsClear | av.c:993-994 | av_fill(av, -1) is av_clear, as documented. |
| PerlArrayCost.OnePush | av.c:167-170 | A push copies only when the block is full, and a full block grows to at least 6/5 of its size. |
| PerlArrayCost.PushesAreCheap | av.c:765-783 | n single pushes onto an empty array copy fewer than 6n cells. |
| PerlArrayCost.OneUnshift | av.c:883-909 | An unshift uses headroom, or moves the elements once and leaves as much headroom as the old top index. |
| PerlArrayCost.UnshiftsAreCheap | av.c:859-910 | n single unshifts onto an empty array move fewer than 2n elements, and reallocations copy fewer than 12n cells. |
| PerlArrayCost.HeadroomIs | av.c:892-909 | After n single unshifts the headroom fills the elements up to the next power of two, and the block is at most about a quarter larger than that. |
| PerlArrayCost.UnshiftSucceeds | av.c:882-909 | So 2^31 single unshifts onto an empty array succeed. |
| PerlArrayCost.UnshiftRefused | av.c:106-116 | The one after them croaks. |
| PerlArrayCost.PushAll | av.c:765-783 | The bound holds for the array itself and every number of pushes that can succeed, up to 2^31; it ends up holding the values and their references. |
| PerlArrayCost.UnshiftAll | av.c:859-910 | The bound holds for the array itself and every number of unshifts that can succeed. |
| PerlArrayCost.OneTurn | av.c:118-143 | A push and a shift move the window one cell on, or slide all elements back; the block grows then exactly if its slack is at most ten cells. |
| PerlArrayCost.QueueCost | av.c:118-143 | A queue of n elements whose slack exceeds ten cells never grows; any number of rounds of as many turns as there is slack move n elements each, so a turn costs at most c moves on average exactly if the slack is at least n / c. |
| PerlArrayCost.QueueSettles | av.c:133-143 | With less slack the block grows at the end of the first round and has more slack than elements from then on. |
| Vec.Locate | doop.c:779-790 | 8 * uoffset + bitoffs == size * offset for every power-of-two size, or the guard tells that the field is beyond any string. |
| Vec.ReadBytes | doop.c:800-903 | Bytes past the end of the string read as zeros in all truncated cases. |
| Vec.Read64 | doop.c:824-870 | The eight truncated cases of a 64-bit field are one big-endian number padded with zeros. |
| Vec.GetField | doop.c:779-907 | The value of the field of the string padded with zeros; croaks exactly for a size that is no power of two. |
| Vec.FitsBytes | doop.c:767-769 | Whether all characters of a UTF-8 string fit in bytes. |
| Vec.Downgrade | sv.c:3706-3749 | A UTF-8 string becomes the bytes of its characters where it lies if all of them fit, and else stays as it is; behind the NUL the end of the old encoding is left. |
| Vec.LowExactly | sv.c:3733-3744 | A string is converted exactly if some bytes stand for it, and then to those. |
| Vec.VecGet | doop.c:748-907 | The value of the field of the string, downgraded first if it is UTF-8; a wrong size croaks before that. |
| Vec.Extend | doop.c:968-975 | Measured from a given length, which need not be the string's, the string grows to the length needed and no further, with zeros from the given length on; the saturated size fails. |
| Vec.WriteBytes | doop.c:983-1008 | The bytes of a wide field are those of the value, the high byte first, and no other byte changes. |
| Vec.SetField | doop.c:957-1011 | In what lies below the given length the bits of the field become the low bits of the value and every other bit stays; the string keeps its length, or has the one needed if that exceeds the given one; both croaks. |
| Vec.ByteStays | doop.c:981-1010 | A store changes no byte outside those the field lies in. |
| Vec.HoldsExactly | doop.c:944-979 | What has been stored is what should be in the string exactly if the length read before the downgrade does no harm: it is the right one, or the field lies within the string, or the field ends past the old encoding and no byte of that which is left below the field is other than zero. |
| Vec.VecSet | doop.c:914-1012 | The length is read before the downgrade: what the buffer and the string then hold, with the exact condition under which it is the store in the downgraded string; an error deferred in the LV croaks before anything is touched. |
| Vec.LostStore | doop.c:944-979 | A store behind the UTF-8 string \x{80} is lost, and takes the string's NUL. |
| Vec.StaleByte | doop.c:944-979 | A store past the end of the UTF-8 string \x{80}\x{81} leaves a byte of the old encoding between. |
| Vec.Widths | doop.c:763-764 | The accepted sizes up to 64 are 1, 2, 4, 8, 16, 32 and 64. |
| Vec.PowerOfTwoTest | doop.c:763-764 | size & (size - 1) is zero exactly for powers of two. |
| Vec.IsIllegal | doop.c:763-764 | The test for a wrong size. |
| Vec.StoredLength | doop.c:967-975 | After a store the string is as long as it was, or ends with the byte that holds the field's last bit. |
| Vec.PositionRange | doop.c:779-790 | A field covers the bit positions from w*i to w*(i+1), each once. |
| Vec.WideField | doop.c:876-903 | A field of whole bytes is their big-endian number. |
| Vec.NarrowField | doop.c:874-875 | A shift and a mask extract a field narrower than a byte. |
| Vec.NarrowOffset | doop.c:779-782 | A narrow field lies within one byte. |
| Vec.FieldPastEnd | doop.c:792-793 | A field past the end reads as zero. |
| Vec.GetAfterSet | doop.c:748-1012 | Reading a field after storing v gives v mod 2^w. |
| Vec.SetElsewhere | doop.c:748-1012 | A field of any width with no bit in common keeps its value. |
| Vec.OtherField | doop.c:748-1012 | Every other field of the same width keeps its value. |
| Vec.SubField | doop.c:748-907 | A field inside a wider one is that part of its value: bytes from the high end, narrower fields from the low end of their byte. |
| Vec.GetInsideSet | doop.c:748-1012 | After a store, a narrower field inside reads as that part of the stored value. |
| Vec.GetAroundSet | doop.c:748-1012 | After a store, a wider field around has the stored bits in place and its own elsewhere. |
| BitString.WordOp | doop.c:1159-1183 | An operator on words does to memory what it does byte by byte, in either byte order, for any word size. |
| BitString.WordStep | doop.c:1162-1165 | One word of the result, also if the buffers overlap in place. |
| BitString.FourWords | doop.c:1161-1166 | One turn of the unrolled loop combines four words. |
| BitString.Words | doop.c:1146-1190 | The word loop combines a prefix and touches nothing else. |
| BitString.Combine | doop.c:1146-1205 | Words and remainder together are the plain byte loop, for every length and alignment. |
| BitString.GuardIsDefined | doop.c:1104-1123 | The guard refuses exactly the operands whose code points above 0xFF lie where both have characters, and else the operation covers the shorter operand. |
| BitString.ResultBits | doop.c:1159-1201 | Bit by bit the result is both, one or the other, or exactly one of the operands, the shorter going on with zeros. |
| BitString.Downgrade | utf8.c:2570-2628 | The characters that fit in bytes, up to the first that does not, as bytes of their own; and the address of that one in the string's own buffer. |
| BitString.DoVop | doop.c:1015-1246 | In place, into a target of its own or into the right operand, which is emptied first: the complaint exactly where the operator is undefined; else the result is that of the pointwise meaning, UTF-8 if an operand was, exactly if no tail above 0xFF is to be copied within the target, or the tail is kept there; otherwise what comes out instead, or that a freed block is read. |
| BitString.TailExactly | doop.c:1219-1241 | A tail copied within the target is as it was exactly if the bytes of the result have fewer characters of two bytes than the part of the left operand that was converted. |
| BitString.OrNeverKeeps | doop.c:1194-1241 | In an or-assignment that is never so, for any operands. |
| BitString.SpoiltTail | doop.c:1194-1241 | Or-assigning b to a\x{100} leaves the bytes 63 00 80. |
| BitString.Append | sv.c:5536-5576 | The bytes are appended, also from an address in the string itself; if the block is moved such an address is no good any more. |
| BitString.UpgradeBytes | sv.c:3611-3668 | The characters become UTF-8 where they lie, from the last one down to the first of two bytes; the block is kept exactly if they fit, and nothing behind their NUL changes. |
| BitString.Expand | sv.c:3650-3668 | The loop backwards never overtakes its reading and leaves the UTF-8 of the bytes, with its NUL. |
| BitString.WithZeros | doop.c:1088-1096 | Where one operand has ended, or and exclusive or yield the other one's characters. |
| BitString.XorUndoesXor | doop.c:1198-1201 | ^ with an operand twice gives the string back, if the string is at least as long as the operand. |
| Utf8.FirstByte | utf8.h:123-145 | The first byte of an encoding tells its length. |
| Utf8.ShortestForm | utf8.h:123-145 | n bytes are used exactly for what does not fit in fewer: 7 bits, then 5n + 1, and 36 in seven. |
| Utf8.EncodeTable | utf8.c:271-300 | Up to 0x10FFFF the bytes are those of the table of RFC 3629, section 3. |
| Utf8.DecodeEncode | utf8.c:1292-1300 | Decoding gives the encoded code point back, whatever follows it, for all 64-bit code points. |
| Utf8.EncodeInjective | utf8.c:271-300 | Different strings have different encodings. |
| Utf8.AsciiIsUtf8 | doop.c:313-318 | An ASCII string is its own UTF-8. |
| Utf8.UpgradeBound | doop.c:313-318 | The upgraded string has at most twice as many bytes. |
| Utf8.EncodeLatins | utf8.c:2563-2565 | The encoding of characters that fit in bytes has one byte more for each of 0x80 and above. |
| Trans.TranslateIsListwise | doop.c:176-212 | The output has each character not deleted or squashed, replaced if mapped; a replacement is squashed exactly if it equals the last output and that was a replacement; counts and lengths agree. |
| Trans.SimpleBytes | doop.c:52-63 | The byte loop replaces in place and counts as the list meaning says. |
| Trans.CountBytes | doop.c:131-136 | The count is that of the translation that is not made. |
| Trans.Compact | doop.c:197-210 | The compaction without squash never overtakes its reading and computes the list meaning. |
| Trans.CompactSquashed | doop.c:180-196 | The compaction with squash keeps the run by a pointer into its output, across deleted characters, and computes the list meaning. |
| Trans.EmitSquashed | doop.c:184-189 | A replacement stays exactly if it does not repeat the replacement written just before. |
| Trans.ComplexBytes | doop.c:176-213 | The string is the compacted one, with its NUL. |
| TransUtf8.ReadChar | doop.c:80 | The next character and its length. |
| TransUtf8.WriteChar | doop.c:81-85 | A replacement is written without overtaking the reading, or within the doubled buffer. |
| TransUtf8.CopyChar | doop.c:86-90 | A kept character is moved, also where source and target overlap. |
| TransUtf8.SimpleUtf8 | doop.c:64-101 | The string is the UTF-8 of the transliterated characters, in place or in 2*len + 1 bytes. |
| TransUtf8.SimplePass | doop.c:75-91 | No write leaves the buffer, and the output encodes the list meaning. |
| TransUtf8.CountUtf8 | doop.c:137-149 | Characters below 256 count if mapped, those above exactly under /c. |
| TransUtf8.CountedIsTranslated | doop.c:117-152 | Without /c the count is the one tr would return if it wrote. |
| TransUtf8.ComplexUtf8 | doop.c:214-273 | The string is the UTF-8 of what the loop computes with its "no run" value. |
| TransUtf8.ComplexPass | doop.c:228-262 | No write leaves the buffer, and the output encodes what the loop computes. |
| TransUtf8.EntryFits | doop.c:235-258 | A replacement needs no more bytes than its original, or at most twice as many if growth is declared. |
| TransLaws.PassIsListwise | doop.c:220-261 | The loop agrees with the list meaning exactly if no replacement equal to 0xfeedface comes where no run is on; the count always agrees. |
| TransLaws.CollisionNeedsSentinel | doop.c:254-258 | That takes the code point 0xfeedface itself under an identity tail of the table. |
| TransLaws.CollisionExample | doop.c:220-261 | A table and a one-character string on which the loop yields the empty string. |
| TransLaws.SimpleIsEncodingIndependent | doop.c:39-104 | Transliterating the UTF-8 form of a byte string gives the UTF-8 of the transliterated bytes and the same count. |
| TransLaws.ComplexIsEncodingIndependent | doop.c:163-276 | The same for the complex branch exactly if squash does not meet delete in the table. |
| TransLaws.Disagreement | doop.c:192-261 | Where they meet, replaced, deleted and replaced again is one character for bytes and two for UTF-8. |
| TransSwash.Regrow | doop.c:358-366 | Past the soft limit the buffer is enlarged and keeps the output, or, without a buffer of its own, the call panics exactly there. |
| TransSwash.WriteGrowing | doop.c:339-342 | A character is written, or there is no room for it in the block; with a growing buffer there always is. |
| TransSwash.SimpleTurn | doop.c:337-357 | One character is handled as the lookup says, or does not fit in the block. |
| TransSwash.SimpleLoop | doop.c:337-367 | With a growing buffer no write leaves it and the pass is complete; in place it ends as the lengths of the output and of the reading say, character by character; a complete pass has the output and the count of the list. |
| TransSwash.ComplexTurn | doop.c:502-554 | One character is handled as the lookup, the flags and the last replacement say, or does not fit in the block. |
| TransSwash.ComplexLoop | doop.c:500-590 | The same for the loops with squash and delete, which notice too long an output one turn later. |
| TransSwash.Source | doop.c:312-320 | The source is the UTF-8 of the string, upgraded only if it must be. |
| TransSwash.FateIs | doop.c:337-382 | A pass in place is complete if no output is ahead of its reading; and how it ends where one is. |
| TransSwash.CallFateIs | doop.c:312-330 | With a buffer of its own every call is complete; otherwise it ends as the pass does in the copy or in the string's own block. |
| TransSwash.TransliterateSimple | doop.c:287-382 | For any lookup, any growth flag and any string: exactly when the call is complete, panics, overtakes its reading or writes beyond the block; a complete call leaves the encoding of the result, the count of the replaced characters and the flag the code sets; the string then is the result exactly if it is flagged or the result is ASCII. |
| TransSwash.TransliterateComplex | doop.c:447-605 | The same with squash and delete. |
| TransSwash.ReadAsBytes | doop.c:368-378 | An encoding read without the flag is the string it encodes exactly if that is ASCII. |
| TransInPlace.NeverAhead | doop.c:337-357 | If no pair of the lists needs more bytes than it replaces and the final replacement fits, the output of no string is ever longer than what has been read. |
| TransInPlace.NeverOverExactly | doop.c:337-367 | Without growth among the pairs no output overtakes its reading, for all strings, exactly if the final replacement fits. |
| TransInPlace.InPlaceExactly | doop.c:337-605 | And exactly then every string comes to its end in place, in every block that holds it. |
| TransInPlace.AsciiStays | doop.c:368-378 | If pairs and final replacement fit, what an ASCII string becomes is ASCII. |
| TransInPlace.FlagIsRight | doop.c:368-378 | And every string made in place is flagged as it should be. |
| TransCompile.Compile | op.c:8419-8494 | The lines are those of both lists paired range by range; the growth flag, the largest replacement and the final one are those of the lines, and the final one does not enter the flag. |
| TransCompile.NextLines | op.c:8455-8493 | What is written and what is pending make up the lines asked for, turn by turn. |
| TransCompile.LineFits | op.c:8483-8485 | The test of the first character and the last replacement of a range speaks for all of its characters. |
| TransCompile.GrowsIs | op.c:8483-8485 | When the flag is on, told from the lines; a range mapped onto itself or onto lower characters never turns it on. |
| TransCompile.GrowsOffPairsFit | op.c:8483-8485 | If the flag is off, no pair of the lists needs more bytes than it replaces. |
| TransCompile.GrowsOffExactly | op.c:8446-8515 | With the flag off every string is transliterated in place without a failure, in every block, exactly if the final replacement fits too and NONE has not overflowed into a replacement that does not. |
| TransCompile.FetchedOnce | utf8.c:4992-5047 | Where lines have no character in common each serves its own, and NONE all others. |
| TransCompile.LargestBound | op.c:8479-8480 | No replacement of the lines exceeds the largest. |
| TransCompile.CompilesLast | op.c:8419-8515 | tr/XY/X/ is compiled with the flag off and X as the final replacement, whatever X and Y are. |
| TransCompile.PanicsOnA | doop.c:358-362 | tr/\x{100}a/\x{100}/ panics on "a". |
| TransCompile.OverrunsBlock | doop.c:349-353 | tr/\x{10FFFF}a/\x{10FFFF}/ writes beyond a block of sixteen bytes that holds fifteen characters. |
| TransCompile.CompilesTwo | op.c:8419-8515 | tr/XZY/XZ/ is compiled with the flag off and Z as the final replacement, whatever X < Z and Y are. |
| TransCompile.UnflaggedOnBba | doop.c:500-601 | tr/b\x{100}a/b\x{100}/s on bba needs no upgrade, is complete and yields b\x{100}. |
| TransCompile.UnflaggedString | doop.c:591-601 | The call leaves the bytes 62 C4 80 in a string without the flag, which then is not b\x{100}. |
| TransLists.LinesPlaced | op.c:8419-8491 | The lines have the characters of the search list one after the other, each with the character at the same place of the replacement list, or none if that is shorter. |
| TransLists.FetchedListed | lib/utf8_heavy.pl:491-528 | The lookup answers the n-th character of a list without repetitions with the n-th of the other, or with NONE + 1. |
| TransLists.FetchedUnlisted | utf8.c:4970-4989 | And a character in no range with NONE. |
| TransLists.TreatedAsAsked | doop.c:337-590 | A character in no range is kept, the n-th of the search list becomes the n-th of the replacement list, and what is left over is deleted under /d and else FINAL: exactly so in both functions. |
| TransLists.TransliteratedAsAsked | doop.c:287-605 | For every string: the outputs the lists ask for, squashed if asked for, exactly unless the value for no run collides; and the count of the listed characters. |
| TransLists.InAnyList | lib/utf8_heavy.pl:491-506 | With repetitions a character is treated as one of its places asks for or left alone, the latter exactly if every line that has it starts where an earlier one does. |
| TransLists.RepeatedStart | lib/utf8_heavy.pl:491-506 | tr/\x{100}\x{100}-\x{102}/\x{200}-\x{203}/ leaves \x{101} alone. |
| TransLists.NoneOverflows | op.c:8493-8509 | With 0x7fffffff among the replacements characters in no range become \x{80000000}; otherwise they are kept. |
| TransLists.LeftoverExactly | op.c:8439-8450 | The replacement list is used up exactly if it is the shorter one. |
| TransLists.LastIsFinal | op.c:8446-8447 | FINAL is the last character of the replacement list. |
| TransTable.PlainTable | op.c:8613-8641 | The entries without /c: that of the first place of each character in the search list; and exactly when a replacement grows. |
| TransTable.ComplementTable | op.c:8558-8611 | The entries under /c, those past the bytes and the last one included; and exactly when a replacement grows. |
| TransTable.Compile | op.c:8550-8650 | The table for both lists is valid, and the growth flag is known to be right. |
| TransTable.OthersAre | op.c:8564-8595 | The place of a character in the complement of a list is the number of smaller characters not in it. |
| TransTable.TableAsks | doop.c:47-276 | A character is kept, replaced or deleted exactly as the lists ask for, in all branches; except that empty lists make characters above 0xFF their own replacements. |
| TransTable.BytesAsAsked | doop.c:47-213 | For every byte string: the outputs the lists ask for, squashed if asked for, and the count. |
| TransTable.PointsAsAsked | doop.c:64-276 | For every UTF-8 string the same, exactly unless the value for no run collides. |
| TransTable.EmptyListsSquash | op.c:8641 | tr///s squeezes characters above 0xFF, though none is listed. |
| TransTable.CountsTranslated | doop.c:117-152 | With equal lists the count is that of the characters translated, under /c too. |
| Cloexec.Process.GenOpen | doio.c:116-149 | Which open's result is returned in each strategy: under experiment that of the open without the flag if the kernel rejects it with EINVAL or ENOSYS; what the strategy becomes; which descriptors are close-on-exec. |
| Cloexec.UnmarkedExactly | doio.c:116-149 | A descriptor is returned unmarked exactly where the kernel ignored the flag and the site relies on it. |
| Cloexec.SettledForGood | doio.c:119-148 | Once a site's strategy leaves the experiment it never changes, in any run. |
| Cloexec.NeverRelied | doio.c:122-130 | Under a kernel that never honours the flag no site comes to rely on it. |
| Cloexec.RejectedIsPlain | doio.c:131-142 | Under a kernel that rejects the flag every use of every run returns the result of its open without the flag. |
| Cloexec.FailsExactly | doio.c:116-149 | A use that experiments fails exactly if the flagged open fails for another reason or both opens fail. |
| Cloexec.SuccessSettles | doio.c:119-142 | After its first success a site never experiments again, and what it has settled on. |
| Cloexec.OtherSites | doio.c:116-183 | Each site has a strategy of its own. |
| Cloexec.EveryDescriptorIsMarked | doio.c:107-183 | Under a kernel that always or never honours the flag every descriptor of every use in every run is close-on-exec, both ends of a pipe. |
| Cloexec.Run | doio.c:107-183 | A process runs any uses: each returns what the laws say; under a uniform kernel all descriptors are close-on-exec at the end; under one that rejects the flag all results are those of the opens without it. |
| Cloexec.InconsistentKernel | doio.c:123-145 | A kernel that changes its mind defeats the experiment. |
| InPlaceEdit.TryLink | doio.c:1653-1662 | The call relative to a directory, and the plain call exactly if that is not supported: one effect at most. |
| InPlaceEdit.TryRename | doio.c:1666-1675 | The same for rename, which does nothing where both names are one file. |
| InPlaceEdit.SucceedsExactly | doio.c:1651-1742 | Exactly which replies of the system calls let a commit succeed, and remove the work file. |
| InPlaceEdit.WrittenIs | doio.c:1631 | A close that fails has written so much of what was pending; one that succeeds all of it. |
| InPlaceEdit.Backup | doio.c:1651-1705 | Link, or else rename, to the backup name: the old contents keep a name at each step, and the backup exists exactly if one of the two takes effect. |
| InPlaceEdit.Install | doio.c:1711-1722 | The work file replaces the original in one step, exactly if the rename takes effect. |
| InPlaceEdit.Discard | doio.c:1723-1755 | Giving the work file up removes its name exactly if the calls for that take effect, and loses nothing. |
| InPlaceEdit.Close | doio.c:1631 | What the process has not flushed goes to the end of the work file, whoever it is; no name changes. |
| InPlaceEdit.Replace | doio.c:1651-1742 | Exactly if backup and rename take effect the new contents are in place and the work name is gone; else the old contents have a name. |
| InPlaceEdit.ArgvoutFinal | doio.c:1584-1761 | One body for every process: one whose pid is not that of the edit closes the handle and does nothing else; for the other, whatever fails and whatever children do between its calls, the exact outcome, no other file changed, and the work name gone exactly if the calls that remove it take effect. |
| InPlaceEdit.Others | doio.c:1631-1637 | Children that close the handle between two system calls change no name, and nothing but the end of the work file. |
| InPlaceEdit.CloseEverywhere | doio.c:1584-1761 | With any schedule of children around and between the system calls: the exact outcome; the edited file is in place with its contents exactly if no child had anything to flush; and every view since the start is safe if the commit fails, a backup is kept or no child writes, and, unless the edited file happens to equal the old one, only then. |
| InPlaceEdit.SpoiltEdit | doio.c:1631-1637 | A run on which it is not safe: a child flushes one element after the commit of an edit without a backup. |
| ArgvSplit.WordsAreWords | doio.c:2463-2472 | Every word is non-empty and without spaces, and together the words hold all characters that are no spaces, in order. |
| ArgvSplit.SpacesAre | handy.h:1383-1386 | Spaces are exactly blank, tab, newline, vertical tab, form feed and carriage return. |
| ArgvSplit.SpaceCuts | doio.c:2463-2472 | A space separates: the words before and behind it are independent of each other. |
| ArgvSplit.WordAlone | doio.c:2466-2469 | Characters without a space are one word. |
| ArgvSplit.SplitJoined | doio.c:2463-2472 | Words joined by blanks are split into the same words. |
| ArgvSplit.WordsNeedRoom | doio.c:2458 | A text of n characters has at most (n + 1) / 2 words. |
| ArgvSplit.VectorIsTight | doio.c:2458 | For every odd length some command fills the vector to its last cell. |
| ArgvSplit.CString | doio.c:2460-2466 | The characters from an address up to the first NUL. |
| ArgvSplit.PastSpaces | doio.c:2464-2465 | Stops at the first character that is no space, within the buffer. |
| ArgvSplit.PastWord | doio.c:2468-2469 | Stops at the first space or NUL, within the buffer. |
| ArgvSplit.RoundTakes | doio.c:2463-2472 | The words of the rest are the word just cut off and the words behind the NUL. |
| ArgvSplit.RoundIsUnderway | doio.c:2463-2472 | A NUL written behind a word completes it and leaves all listed words as they are. |
| ArgvSplit.Turn | doio.c:2463-2472 | One round lists at most one word, and moves two cells on for it unless the text ends. |
| ArgvSplit.Split | doio.c:2458-2473 | Read as C strings, the cells of the vector are the words of the command, a NULL follows, and the vector's size suffices. |
| StackLevels.CroaksExactly | cop.h:1082-1099 | A run croaks exactly if it leaves more levels than it has. |
| StackLevels.RunKeeps | cop.h:1058-1099 | A run leaves alone every level below the lowest it comes to, and ends as many levels up as it entered more than it left. |
| StackLevels.RunLength | cop.h:1067-1071 | The chain is as long as the deepest level so far requires: a level is allocated only at a new maximum. |
| StackLevels.CallRestores | cop.h:1058-1099 | A well-nested call gives its caller back level, stack pointer, stack cells and context index. |
| StackLevels.LevelEntered | cop.h:1058-1078 | After any run a level is entered with the type asked for, no context and the stack pointer at the bottom; a reused level keeps its cells, a new one has 32; no other level changes. |
| StackLevels.LevelLeft | cop.h:1084-1099 | A level that is left keeps its stack pointer, and that of the level below is in force again. |
| StackLevels.UnwoundToIs | cop.h:1101-1107 | POPSTACK_TO ends on the target level with every level above it without contexts. |
| StackLevels.UnwindingRestores | cop.h:1101-1107 | Unwinding a call abandoned at any depth gives the caller what its normal end gives it. |
| StackInfo.PerlSI.constructor | scope.c:72-91 | A new stackinfo is unlinked, of type PERLSI_UNDEF, holds one undef and has no contexts; how many cells it has. |
| StackInfo.Interpreter.constructor | perl.c:4534-4550 | One level, the main one, with an empty stack, and the registers belong to it. |
| StackInfo.Interpreter.SwitchStack | pp.h:552-559 | The stack left keeps its fill index, and all registers belong to the stack entered. |
| StackInfo.Interpreter.Link | cop.h:1067-1071 | The chain stays doubly linked, one stackinfo longer. |
| StackInfo.Interpreter.Push | cop.h:1058-1078 | The level above is current, with its type, no context and an empty stack, and the chain stays doubly linked; a level is allocated exactly if none was above; nothing is freed. |
| StackInfo.Interpreter.Pop | cop.h:1084-1099 | The level below is current with its own stack pointer, or a croak changes nothing; the chain is untouched. |
| StackInfo.Interpreter.UnwindContexts | pp_ctl.c:1582-1587 | The loop ends with no context on the level. |
| StackInfo.Interpreter.PopTo | cop.h:1101-1107 | It terminates always: at the target exactly if the target is on this level or below, else in the croak on the lowest level. |
| StackInfo.Interpreter.Exec | cop.h:1058-1107 | Any run of events on the linked chain is the run on levels. |
| JmpEnvRuns.ChainIsLive | cop.h:112-139 | After every run the chain is the old frames not popped and the pushes that no pop answers, by the bracket rule. |
| JmpEnvRuns.JumpLands | cop.h:141-149 | Every jump by v returns v, or 1 for 0, from the setjmp of the innermost live push, with je_mustcatch off and PL_delaymagic saved, and leaves the frames below alone. |
| JmpEnvRuns.JumpExits | cop.h:148-153 | With only the bootstrap frame a jump ends the program with STATUS_EXIT for 2 and else with 1. |
| JmpEnvRuns.OtherEvents | cop.h:112-165 | What push, pop, CATCH_SET and a change of PL_delaymagic do, field by field. |
| JmpEnvRuns.ExitsExactly | cop.h:148-153 | A run ends the program exactly if a jump finds only the bootstrap frame. |
| JmpEnvRuns.BelowUntouched | cop.h:112-139 | Frames below those a run works with keep every field. |
| JmpEnvRuns.NestedRestores | cop.h:112-139 | Push, nested run with any jumps, pop: all frames, PL_top_env included, are as before. |
| JmpEnvRuns.SavedMagicStays | cop.h:121-126 | A frame's saved PL_delaymagic changes only where a jump ends in that frame. |
| JmpEnvRuns.MagicRestored | cop.h:125-137 | Pop restores PL_delaymagic if no jump ended in the frame. |
| JmpEnvRuns.MagicAfterJump | cop.h:121-138 | If one did, pop sets the value at the last such jump, so it restores exactly if that was the value at the push. |
| JmpEnvRuns.MagicLost | cop.h:121-138 | A run on which it is not restored. |
| JmpEnv.Interpreter.constructor | cop.h:66-75 | The bootstrap frame alone, with null je_prev, je_ret -1 and je_mustcatch on. |
| JmpEnv.Interpreter.Return | cop.h:122-126 | What runs each time setjmp returns: the frame is on top with the value delivered. |
| JmpEnv.Interpreter.Push | cop.h:112-127 | The frame is linked in front of the old top, zero is delivered, je_mustcatch is off and PL_delaymagic saved. |
| JmpEnv.Interpreter.Pop | cop.h:129-139 | The chain is as before the push, still ending at the bootstrap frame, and PL_delaymagic is what the frame has saved. |
| JmpEnv.Interpreter.Jump | cop.h:141-154 | It lands in the top frame with the value v, or 1 for 0, unless that is the bootstrap frame; then the status is STATUS_EXIT for 2 and else 1. |
| JmpEnv.Interpreter.Exec | cop.h:112-165 | Any run of events on the linked frames is the run on values. |
| Numeric.Grok | numeric.c:478-553 | The value is that of the longest number at the front, digits with single underscores between if allowed, capped at UV_MAX; its extent; and exactly which bytes are looked at. |
| Numeric.AppendedBelow | numeric.c:490-533 | n digits denote less than radix^n. |
| Numeric.Positional | numeric.c:497-499 | A digit appended multiplies by the radix and adds. |
| Numeric.LiteralReads | numeric.c:359-553 | A number written in octal or hexadecimal, in small, capital or mixed letters and with underscores where allowed, is read back to its end. |
| Numeric.DigitIsPlace | handy.h:2190-2192 | A byte is a digit of value d exactly if it is the d-th of 0123456789abcdef or 0123456789ABCDEF. |
| Numeric.ReadsLongest | numeric.c:484-541 | The prefix that is read spells the digits that are counted. |
| Numeric.ReadsNoLess | numeric.c:484-541 | No longer prefix spells a number. |
| Numeric.TooLarge | numeric.c:484-507 | The test against UV_MAX / radix is exactly the overflow of the next digit. |
| Numeric.LargestValue | numeric.c:484-507 | UV_MAX is the largest number of 64 bits. |
| Numeric.ExtentReaches | numeric.c:490-510 | A scan comes past a byte exactly if all bytes up to it are digits. |
| Dquote.NumberFits | dquote.c:69-70 | For digit strings of any length the value needs no more UTF-8 bytes than digits, braces, letter and backslash. |
| Dquote.Lexer.FindClosing | dquote.c:114 | The first right brace before the end, or the end. |
| Dquote.Lexer.GrokBslashO | dquote.c:59-162 | The result fits the bytes skipped; value, cursor, message and error position in each case; and exactly when a byte at or behind the limit is looked at. |
| Dquote.Lexer.GrokBslashX | dquote.c:165-297 | The same for \x{...} and \xHH, strict and not, the limit included. |
| Dquote.Lexer.GrokTwo | dquote.c:232-248 | Up to two digits, or in strict mode exactly two; the limit is passed exactly if all bytes before it are digits and the scan may go that far. |
| Dquote.Lexer.GrokBraces | dquote.c:250-297 | The part with braces: missing brace, empty, bad digit or value, each with its cursor. |
| Dquote.Lexer.SkipDigits | dquote.c:117-119 | The cursor stops behind the digits; the limit is passed exactly if there is nothing but digits up to it. |
| Dquote.Lexer.LimitIs | dquote.c:112-119 | What the parsers look for, byte by byte: the braces, and digits up to the end. |
| Dquote.Lexer.BadCharacterIs | dquote.c:139-143 | The character complained about is skipped as a whole, but not beyond the end. |
| Dquote.Lexer.SameNumber | dquote.c:233-237 | The third byte strict mode looks at does not change the value of the first two. |
| Dquote.TwoLookPast | dquote.c:232-236 | The scan of \xHH looks at the limit or beyond exactly if the limit is within its reach and every byte before it is a digit. |
| Dquote.RunLooksPast | dquote.c:117-119 | The search for the end of the digits where a right brace is missing does exactly if every byte up to the limit is a digit. |
| Dquote.TwoLookPastEnd | dquote.c:232-236 | \x4 at the end of a string reads the NUL behind it. |
| Dquote.TwoTakePastEnd | dquote.c:232-236 | \x41 with the limit between its digits uses the second one. |
| Dquote.RunLooksPastEnd | dquote.c:117-119 | \o{4 and \x{4 at the end of a string read the NUL behind the digit. |

## Left out

- PerlArray.Array.Exec: does not model tied, magical, shaped, static, COW or read-only arrays, nor the
  special cases for PL_curstack; they call code outside av.c or break the plain invariant.
- PerlArray.Array.Clear: does not model destructors that change the array while it is cleared, nor what
  happens when a count reaches zero; a count is a number, and a released SV keeps its id.
- PerlArray.Array.Extend: does not model memory exhaustion; SSize_t is a mathematical integer here, with
  `PerlArrayRoom.GrowthFits` for the one sum that is not saturated, and INTSIZE is 4, so I32_MAX limits
  the index.
- PerlArray.Array.Reify: models arrays with exactly one of AvREAL and AvREIFY; a fake array with neither
  flag, as the argument stacks are, is modelled only by `StackInfo`, where nothing is counted.
- PerlArray.Array.Make: models the values as new SVs; copying a value and its magic is not part of it.
- Perl_safesysmalloc_size and STRESS_REALLOC are taken to be undefined.
- Vec.VecGet: does not model the warnings, nor magic; requires well-formed UTF-8; sizes above 64 read as zero,
  as in the code.
- Vec.VecSet: does not model magic; requires well-formed UTF-8; sizes above 64 only extend the string, as in
  the code.
- BitString.DoVop: the three loops per operator are one loop with the operator as a parameter; two strings
  with one buffer are excluded unless they are the same string, and so are strings whose lengths together
  come near a third of SSIZE_MAX. A block that is enlarged always moves, and its new size is not rounded up;
  what is read from a freed block is not said.
- TransUtf8.ReadChar: requires well-formed UTF-8; what UTF8_ALLOW_DEFAULT makes of malformed bytes is decided
  in utf8.c and left out.
- TransUtf8.SimpleUtf8: reads by `TransUtf8.ReadChar`, so malformed bytes are left out, here and in
  `TransUtf8.SimplePass`. That growth is declared for a byte table is proved in `TransTable.Compile`.
- TransUtf8.CountUtf8: the same.
- TransUtf8.ComplexUtf8: the same, here and in `TransUtf8.ComplexPass`.
- TransSwash.SimpleTurn: the same.
- TransSwash.ComplexTurn: the same.
- TransSwash.ComplexLoop: the same.
- TransSwash.SimpleLoop: malformed bytes are left out as above; swash_fetch is a lookup function.
- TransSwash.TransliterateSimple: a call that panics, overtakes its reading or leaves its block is reported as
  such; what the string holds then is not said. do_trans_count_utf8 is left out as an easier member of the
  same kind.
- TransCompile.Compile: begins at the loop over both lists, with their ranges decoded; the complement and
  the defaults of an empty replacement list are left out there, and so are characters above 0x7fffffff, which
  the cast to I32 would make negative. `TransTable.Compile` has both for lists of bytes.
- TransCompile.Fetched: SWASHNEW and S_swatch_get are the choice among lines that they come to; how they
  hold values and cache them is left out, but for the width of 32 bits.
- Cloexec.Process.GenOpen: F_SETFD is taken to succeed, and the build without F_GETFD, which always marks,
  is left out.
- InPlaceEdit.ArgvoutFinal: models the build with rename() and the calls relative to a directory; the builds
  without either, the DOSish ones, setuid modes, the check for a changed directory and two processes
  committing the same edit are left out.
- InPlaceEdit.CloseEverywhere: a child that goes on printing is one that closes later with more to flush;
  the work file is what all processes append to, in the order of their closes.
- ArgvSplit.Split: the scan for shell metacharacters that precedes it, and exec itself, are left out; the
  buffer may hold any characters, also a NUL before its end, as that scan leaves one.
- StackInfo.Interpreter.Push: the local copy of the stack pointer and PL_stack_sp are one register; mark
  stack, scope stack and the contexts' own contents are left out, and so is freeing the chain at the end.
- StackInfo.Interpreter.UnwindContexts: dounwind is the loop over the context index; what each context
  type restores is left out.
- JmpEnv.Interpreter.Jump: a C frame left by a jump is modelled by the frames of the chain only.
- Numeric.Grok: the prefix 0x, which both callers disallow, the value in floating point and the warnings are
  left out.
- do_open6, stat, chmod, chown, System V IPC, glob, do_join, do_sprintf, do_kv, apply and the warnings and
  taint checks everywhere are left out: they are plumbing around code that is not modelled.
