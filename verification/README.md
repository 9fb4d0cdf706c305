# MangoHud, verified in part

This project models six pieces of MangoHud and proves what they promise. All of them are pure
state and arithmetic; the POSIX branches of the source are modelled.

* **Paths** (`PathText` … `PathObjects`). `ghc::filesystem::path` keeps a path as one flat string and works on
  character positions. `PathText` follows that code branch by branch, network names (`//host`) and
  colons included. `PathPlain` gives the plain paths (no colon, no doubled separator) a meaning as a
  root flag, a list of names and a trailing separator, and shows that strings and meanings are the same
  thing. `PathResolve` says which directory a list of elements leads to. The remaining modules
  prove that `/=`, `compare`, `lexically_normal`, `lexically_relative`, the iterator and the
  decompositions do the right thing to these meanings. `PathObjects` has the classes with
  their loops, each proved against `PathText`.
* **Unicode** (`Utf8`, `Utf8Strings`, `Utf8Errors`). The packed-nibble automaton, the encoder and the converters,
  on machine words. A half-read sequence is recovered from the automaton's state and code point
  (`Pending`), which ties the magic table to Table 3-7 of the Unicode Standard.
* **String map and dispatch tables** (`Probing`, `StringMap`, `Dispatch`). The Python builder, the C
  lookup it generates, and the alias compaction behind it. `Probing` has the number theory: 19 has an
  inverse modulo every power of two, so a probe path meets every slot.
* **Enum aliases** (`EnumAlias`, `EnumNames`, `EnumRuns`, `EnumOrder`). Deferred, recursive alias resolution; the end of a
  run is described by the alias chains of its declarations, and every order ends alike exactly when no
  name has two values.
* **Control socket** (`Control`, `ControlSocket`). The byte-at-a-time parser against a declarative reading
  of the stream, and the writer that it undoes.
* **CPU statistics** (`CpuAccounting`, `CpuStats`). Saturating counter differences over runs, and the
  restart when the set of CPUs changes.

Where the promise does not hold on all inputs, the exact condition is proved together with an example:

* `lexically_normal` loses two parents on paths that stumble, like `../a/../..` (`NormalKeepsDirectory`,
  `StumbleExample`), and is not idempotent on paths that end on parents, like `../a/..`
  (`NormalIdempotent`, `TwiceExample`).
* `base / p.lexically_relative(base)` is `p` exactly when going up from the base leads to the directory the
  two share, which a base like `/a/../c` misses (`RelativeLeadsBackExactly`, `ClimbingBaseExample`).
* `compare` turns the order of the elements around when the first difference is between a byte above 127
  and one below (`CompareIsElementwise`, `MixedExample`).
* An unquoted one-character path read from a stream is joined with the next word (`WordIsExtracted`,
  `JoinedExample`).
* A control message without parameter never arrives (`RoundTrip`, `LostExample`).
* With inconsistent enum declarations, and only then, the order of the declarations matters
  (`ConfluentExactly`, `InconsistentExample`).
* CPU periods add up exactly when no two of the counters move in opposite directions (`PeriodsAddUp`,
  `PeriodsExample`).

Two places where the code and its comments differ, and the code is followed: the comment on
`LWG_2936_BEHAVIOUR` (include/filesystem.h:266-273) says that a path with a root directory compares as -1, the
code returns 1; and `StringIntMap.baked` is asserted in `add_string` but never set by `bake`
(bin/vk_dispatch_table_gen.py:747, 756), so it has no counterpart here.

Verify with `dafny verify dfyconfig.toml`.

## Model

| member | source | states |
|---|---|---|
| PathPlain.RenderOfParse | include/filesystem.h:1707-1749 | Every normalised colon-free string without network name is the text of a root flag, a name list and a trailing-separator flag. |
| PathPlain.RenderInjective | include/filesystem.h:1707-1749 | Of these there is only one: different readings have different texts. |
| PathPlain.ElementsOfRender | include/filesystem.h:3166-3250 | Iterating over character positions yields the root, then the names, then an empty element for a trailing separator, and stops. |
| PathPlain.IterateAtName | include/filesystem.h:3166-3250 | From the start of a name, `++` goes to the next name, to a trailing separator or to the end, and `*` is the name. |
| PathIterate.NextThenPrevious | include/filesystem.h:3202-3264 | `--` undoes `++` at every position the iterator can reach before the end. |
| PathIterate.PreviousThenNext | include/filesystem.h:3202-3264 | `++` undoes `--` at every position the iterator can reach behind the beginning. |
| PathIterate.RebuildFromElements | include/filesystem.h:2432-2465 | Appending the elements of a path one by one to the empty path gives the exact string again. |
| PathAppend.AppendOfRender | include/filesystem.h:2432-2465 | `a /= b` replaces for an absolute `b`, adds a final separator for an empty one, and otherwise joins the two name lists. |
| PathAppend.FilenameOfRender | include/filesystem.h:2960-2963 | The filename is the last name, or empty behind a trailing separator or a bare root. |
| PathAppend.RemoveFilenameOfRender | include/filesystem.h:2609-2615 | Removing the filename drops the last name and keeps the separator before it; without a filename nothing changes. |
| PathAppend.ParentOfRender | include/filesystem.h:2939-2951 | The parent is the path without its trailing separator, or without its last name and the separator before it; a path with nothing behind the root is its own parent. |
| PathAppend.ParentAndFilename | include/filesystem.h:2939-2963 | `parent_path() / filename()` is the path itself whenever there is something behind the root. |
| PathCompare.CompareIsElementwise | include/filesystem.h:2807-2846 | After the root-directory check the one-pass comparison of signed characters is the lexicographic order of the element lists if and only if the first difference is not between a byte above 127 and one below, separators apart; then it is the reverse. |
| PathCompare.MixedExample | include/filesystem.h:2845 | The byte C3 is before `a` in `compare` and behind it as an element. |
| PathCompare.CompareIsTotalOrder | include/filesystem.h:2807-2846 | `compare` is 0 exactly for equal strings, antisymmetric and transitive. |
| PathRelative.AppendMeansWalk | include/filesystem.h:2432-2465 | The directory of `p / q` is where the elements of `q` lead from the directory of `p`. |
| PathNormal.StepText | include/filesystem.h:3080-3103 | One round of the loop on the destination string is one step on parents, names and separator flag. |
| PathNormal.RunFollowsWalk | include/filesystem.h:3076-3107 | The loop keeps pace with the directory walk until a `..` comes just when the walk is back on parents above the start; from then on it is two or more parents short. |
| PathNormal.NormalKeepsDirectory | include/filesystem.h:3076-3107 | The normal form means the same directory if and only if the path never stumbles in that way; absolute paths, and relative ones that end at or below their start, never do. |
| PathNormal.NoClimbNoStumble | include/filesystem.h:3076-3107 | A path that is absolute or ends its walk without a parent above its start never stumbles. |
| PathNormal.NormalIsNormalForm | include/filesystem.h:3076-3107 | The result has no `.` unless it is all of it, `..` only as a relative prefix, and none at all for absolute paths and for relative ones that end at or below their start. |
| PathNormal.NormalTrailingSeparator | include/filesystem.h:3076-3107 | When a name is left, the result ends in a separator exactly when the path ended in one, in `.` or in `..`. |
| PathNormalTwice.RunEndsOnParents | include/filesystem.h:3076-3107 | The loop ends with a separator behind leading `..` elements exactly on paths that end on parents: inside a round of climbing and undoing, behind its first coming back, with no name left. |
| PathNormalTwice.OneRound | include/filesystem.h:3076-3107 | A path that does not stumble ends on parents exactly when it is just back on them, apart from a trailing separator. |
| PathNormalTwice.NormalIdempotent | include/filesystem.h:3076-3107 | Normalising twice is normalising once if and only if the path does not end on parents, which is when the result ends in `../`; absolute paths, and relative ones that end at or below their start, never do. |
| PathNormalTwice.TwiceExample | include/filesystem.h:3090 | `../a/..` becomes `../`, and that becomes `..`. |
| PathNormalTwice.NormalDirectory | include/filesystem.h:3076-3107 | The directory of the normal form, for every plain path: the names of the walk, and the parents that the last round of climbing and undoing leaves. |
| PathNormal.StumbleExample | include/filesystem.h:3086-3097 | `../a/../..` is two parents up but its normal form is `.`. |
| PathRelative.RelativeLeadsBack | include/filesystem.h:3109-3142 | `base / p.lexically_relative(base)` is the directory of `p`, for absolute and for relative pairs, whenever the base does not go above the elements both share; the result is relative. |
| PathLeadsBack.RelativeLeadsBackExactly | include/filesystem.h:3109-3142 | With at least as many names as `..` behind the shared elements of the base, that is so if and only if going up from the base leads to the shared directory, less the parents the rest of `p` climbs itself; with fewer names the result is empty. |
| PathLeadsBack.ClimbingBaseExample | include/filesystem.h:3123-3138 | From `/a/../c` the result does not lead to `/a/b`. |
| PathLeadsBack.RelativeElementsExactly | include/filesystem.h:3109-3142 | For any two plain paths the result is relative. It is empty if and only if just one of them is absolute, or the base has more `..` than names behind the shared elements, or there is nothing to walk between different paths; it is `.` for equal elements, and otherwise has one `..` for each of these names and then the rest of `p`. |
| PathRelative.MismatchIs | include/filesystem.h:3114-3118 | The shared elements are those before the first difference. |
| PathRelative.DepthLast | include/filesystem.h:3122-3130 | A name counts one, `..` takes one away, `.` and the empty element count nothing. |
| PathLeadsBack.WalkByResolve | include/filesystem.h:3109-3142 | From any directory, a relative element list leads as many parents up and then down the names that its own walk comes to. |
| PathRelative.NoDotDotIsSteady | include/filesystem.h:3123-3131 | A base without `..` never goes above what it shares with the path. |
| PathRelative.RelativeUndoesAppend | include/filesystem.h:3109-3142 | `(base / r).lexically_relative(base)` is `r`, character by character, for every non-empty relative `r`. |
| PathPostProcess.PostProcessIsNormalisation | include/filesystem.h:1741-1748 | Post-processing leaves single separators apart from a network start, is idempotent, and keeps the names and the root. |
| PathStream.InsertedIsExtracted | include/filesystem.h:3364-3415 | Extraction after insertion gives the path back for any characters, and leaves what follows in the stream. |
| PathStream.WordIsExtracted | include/filesystem.h:3409-3413 | Whatever follows in the stream, an unquoted word is read as it is if and only if it is longer than one character, no other word follows, or it is the root and the other word is nothing but separators. |
| PathStream.JoinedExample | include/filesystem.h:3409-3413 | The stream `a b` is read as the one path `ab`. |
| PathStream.NextWordIsJoined | include/filesystem.h:3409-3413 | What is joined to a single character is the next word, and the stream goes on behind it. |
| PathStream.UnquoteOfMarked | include/filesystem.h:3386-3405 | Whichever characters are escaped, quotes and backslashes among them, the text is read up to the closing quote or the end of the stream. |
| PathStream.EscapedLength | include/filesystem.h:3369-3374 | Nothing but quotes and backslashes is escaped. |
| PathStream.BlanksAreSkipped | include/filesystem.h:3384-3413 | Blanks in front are skipped; at the end of the stream the uninitialised character makes the path. |
| PathStream.Insert | include/filesystem.h:3364-3377 | The loop writes the path between quotes with every quote and backslash escaped. |
| PathStream.Extract | include/filesystem.h:3380-3415 | The reader, loops included, computes the extraction that undoes insertion; at the end of the stream the uninitialised character makes the path. |
| PathObjects.PathIterator.Forward | include/filesystem.h:3238-3250 | The loops of `++` move to the next element, and `--` would come back. |
| PathObjects.PathIterator.Backward | include/filesystem.h:3259-3264 | `--` moves to the element before, and `++` would come back. |
| PathObjects.Path.DivAssign | include/filesystem.h:2432-2465 | The in-place loop appends as specified, and walks from the old directory along the argument. |
| PathObjects.Path.CompareTo | include/filesystem.h:2807-2846 | The cursor loop computes the element-wise order, reversed where the signs are mixed. |
| PathObjects.Path.Normalised | include/filesystem.h:3076-3107 | The loop computes the normal form, which keeps the directory exactly when the path does not stumble. |
| PathObjects.Path.RelativeTo | include/filesystem.h:3109-3142 | The iterator loops compute the relative path: never absolute, empty exactly when there is none, otherwise with the elements above, and leading from a steady base to this path. |
| Utf8.CategoryRanges | include/filesystem.h:1451-1456 | The packed nibbles sort the 256 byte values into the byte ranges of Table 3-7. |
| Utf8.NextStateRanges | include/filesystem.h:1451-1458 | The packed rows are the transitions of the grammar: which byte ranges each state accepts. |
| Utf8.LaterByte | include/filesystem.h:1449-1459 | In every state, the code point read so far determines the pending bytes, and an accepting byte completes exactly their encoding. |
| Utf8.EncodingIsInTable | include/filesystem.h:1417-1444 | The encoding of a scalar is a row of Table 3-7 and carries the scalar in its payload bits. |
| Utf8.TableIsEncoding | include/filesystem.h:1417-1459 | Every row of Table 3-7 is the encoding of its payload, a scalar value: no surrogates, no overlong forms. |
| Utf8Strings.ValidIsTable37 | include/filesystem.h:1461-1475 | `validUtf8` accepts exactly the strings that can be cut into rows of Table 3-7. |
| Utf8Strings.ValidIsEncoding | include/filesystem.h:1461-1475 | The valid strings are exactly the encodings of scalar sequences, and decoding yields precisely that sequence; on any input only scalars. |
| Utf8Strings.DecodeOfEncode | include/filesystem.h:1530-1560 | Decoding undoes encoding on all scalar sequences. |
| Utf8Strings.Decode16IsUtf16 | include/filesystem.h:1490-1560 | On any bytes the 16 bit decoder is UTF-16 (section 2.1 of RFC 2781) of the 32 bit decoder's output, replacements included. |
| Utf8Strings.RoundTripThrough16 | include/filesystem.h:1490-1605 | Bytes to UTF-16 and back are the same bytes if and only if they were valid; the output is well formed in any case. |
| Utf8Strings.RoundTripFrom16 | include/filesystem.h:1490-1605 | UTF-16 to bytes and back is the same if and only if no surrogate is unpaired; the bytes are valid in any case. |
| Utf8Strings.RoundTrip32 | include/filesystem.h:1530-1615 | The same for 32 bit units: exactly the scalar sequences and exactly the valid bytes survive. |
| Utf8Errors.StartedIsPrefix | include/filesystem.h:1451-1458 | The beginnings of sequences are the proper prefixes of rows of Table 3-7. |
| Utf8Errors.DecodeRow | include/filesystem.h:1530-1560 | A row is decoded to its scalar, and decoding goes on behind it. |
| Utf8Errors.DecodeBad | include/filesystem.h:1530-1560 | The beginning of a row, possibly empty, and a byte that does not go on with it become one U+FFFD together. |
| Utf8Errors.DecodeUnfinished | include/filesystem.h:1556-1560 | The beginning of a row at the end becomes one U+FFFD. |
| Utf8Errors.Pieces | include/filesystem.h:1530-1560 | Every byte string starts with one of these pieces. |
| Utf8Errors.EncodeUnitPair | include/filesystem.h:1579-1605 | A pair of surrogates is encoded as the value it stands for. |
| Utf8Errors.EncodeUnpaired | include/filesystem.h:1579-1605 | A surrogate and a unit behind it that makes no pair become one U+FFFD together. |
| Utf8Errors.EncodeSingleUnit | include/filesystem.h:1579-1605 | A unit that is no surrogate is encoded as itself. |
| Utf8Errors.EncodeLastSurrogate | include/filesystem.h:1579-1605 | A surrogate at the end becomes one U+FFFD. |
| Utf8Strings.ValidUtf8 | include/filesystem.h:1461-1475 | The loop decides whether the bytes encode some scalar sequence. |
| Utf8Strings.AppendUtf8 | include/filesystem.h:1417-1444 | What is appended is one row of Table 3-7 with the code point as payload, or U+FFFD for a value that is no scalar. |
| Utf8Strings.FromUtf8To32 | include/filesystem.h:1530-1560 | The loop computes the decoding; all units are scalars. |
| Utf8Strings.FromUtf8To16 | include/filesystem.h:1490-1527 | The loop computes UTF-16 of the decoding. |
| Utf8Strings.ToUtf8From16 | include/filesystem.h:1579-1605 | The loop computes the encoding of the code points, valid on any input. |
| Utf8Strings.ToUtf8From32 | include/filesystem.h:1608-1615 | The loop computes the encoding, valid on any input. |
| Probing.ProbeReaches | bin/vk_dispatch_table_gen.py:773-777 | The step 19 brings the probe path of any hash to any slot of a power-of-two table within one turn. |
| Probing.WrapKeepsSlot | bin/vk_dispatch_table_gen.py:432-441 | Wrapping the probe position at 32 bits does not change the slot, so C and Python walk the same path. |
| StringMap.TableBits | bin/vk_dispatch_table_gen.py:742-743 | The table size is the least power of two that is at least 1.25 times the number of names. |
| StringMap.HasEmptySlot | bin/vk_dispatch_table_gen.py:769-779 | A table that holds fewer keys than slots has an empty slot. |
| StringMap.InsertKeepsHolds | bin/vk_dispatch_table_gen.py:771-779 | Filling the first empty slot of a path keeps every stored key findable: all slots before it on its path stay taken. |
| StringMap.BlobRead | bin/vk_dispatch_table_gen.py:390-396 | Each name is read back as a C string from its offset in the concatenated text. |
| StringMap.StringIntMap.AddString | bin/vk_dispatch_table_gen.py:750-754 | The dictionary gains exactly this name. |
| StringMap.StringIntMap.Bake | bin/vk_dispatch_table_gen.py:756-779 | The baked table holds exactly the dictionary, every key findable, with the offsets of the names; every probing loop ends; the collision statistics add up to the number of names. |
| StringMap.RoundsGrow | bin/vk_dispatch_table_gen.py:769-779 | The round in which a key is put into the table stays the first in which it is found; `Bake` counts these rounds in its buckets. |
| StringMap.HashIsPowerSum | bin/vk_dispatch_table_gen.py:729-738 | The hash is the sum of the characters times powers of the prime factor; wrapping after each one is wrapping once. |
| StringMap.MissingKey | bin/vk_dispatch_table_gen.py:432-441 | A probe path that ends in an empty slot without meeting the key proves that the key is not there. |
| StringMap.Generate | bin/vk_dispatch_table_gen.py:390-416 | The printed C tables, with their 16 and 32 bit widths, stand for the dictionary. |
| StringMap.Lookup | bin/vk_dispatch_table_gen.py:418-445 | The C lookup returns the stored number for every stored name and -1 for every other C string, and always ends. |
| Dispatch.GetEntrypoints | bin/vk_entrypoints.py:101-138 | The result has, for each required command and in order, an entry with its name and with its own signature or its own target; names are distinct and every alias stands behind an ordinary target. There is an error if and only if a command is faulty, and then it is the first such command's: an alias without its target, an alias of an alias, or a name that comes twice. |
| Dispatch.EntrypointsComeFrom | bin/vk_entrypoints.py:107-137 | Which command each entry comes from: increasing positions, all of the required ones. |
| Dispatch.SplitEntrypoints | bin/vk_dispatch_table_gen.py:798-806 | The loop computes the three lists. |
| Dispatch.OfKindPositions | bin/vk_dispatch_table_gen.py:798-806 | Each list has exactly the entries of its kind, in order. |
| Dispatch.KindByHandle | bin/vk_entrypoints.py:56-60 | The kind goes by the first parameter of the command itself or of the alias's target. |
| Dispatch.OfKindWellAliased | bin/vk_entrypoints.py:68-93 | Each of the three lists is closed under aliasing: an alias lands in the list of its target. |
| Dispatch.SameSlotIsSameCommand | bin/vk_dispatch_table_gen.py:798-831 | Two entries share a dispatch slot if and only if they are the same command up to alias. |
| Dispatch.SlotsAreOnto | bin/vk_dispatch_table_gen.py:808-809 | Every slot belongs to some ordinary entrypoint. |
| Dispatch.SlotsInOrder | bin/vk_dispatch_table_gen.py:808-809 | Slots are numbered in the order of the ordinary entrypoints. |
| Dispatch.CompactionTable | bin/vk_dispatch_table_gen.py:451-469 | The compaction table has the slot of every entry, the target's slot for an alias. |
| Dispatch.FromEntrypoints | bin/vk_dispatch_table_gen.py:599-635 | Filling keeps every non-NULL slot unless it overwrites, and sets the others to the first non-NULL entry of the slot's commands; overwriting leaves the last one, which is the first unless two entries want one slot. |
| Dispatch.FirstEntryExists | bin/vk_dispatch_table_gen.py:623-634 | That entry is the first non-NULL one among the aliases of the slot, and NULL only if all are. |
| Dispatch.LastEntryExists | bin/vk_dispatch_table_gen.py:609-621 | What overwriting leaves is the last non-NULL entry of the slot, and NULL only if all are. |
| Dispatch.FirstLayerWins | bin/vk_dispatch_table_gen.py:599-635 | After any sequence of fills, overwriting or not, of any table, a slot holds the entry of the first layer since the last overwriting one that has an entry for it. |
| Dispatch.SlotIsKept | bin/vk_dispatch_table_gen.py:624-634 | A slot that is not NULL keeps its entry as long as nothing overwrites. |
| Dispatch.FillLayers | bin/vk_dispatch_table_gen.py:599-635 | Any sequence of fills of any table computes the layered table. |
| Dispatch.GenerateTables | bin/vk_dispatch_table_gen.py:808-831 | The string map numbers the entries by position and the compaction table sends every position to a slot in range. |
| Dispatch.DispatchTableGet | bin/vk_dispatch_table_gen.py:641-662 | The lookup by name gives the entry of the name's slot, NULL for unknown names, and the same for an alias and its target. |
| EnumAlias.ExtensionValueReadsOff | bin/gen_enum_to_str.py:340-344 | Extension number from 1, offset below 1000 and sign are read off the value. |
| EnumAlias.ExtensionValuesAreDistinct | bin/gen_enum_to_str.py:340-344 | Different declarations by extension number, offset and sign have different values. |
| EnumAlias.SettleEffect | bin/gen_enum_to_str.py:346-356 | Adding a value gives it to the name and to everything that waits for it, directly or not, and to nothing else; those lists are gone. |
| EnumAlias.SettleKeepsValues | bin/gen_enum_to_str.py:346-350 | The table of shortest names stays right through the recursion. |
| EnumNames.SettledNames | bin/gen_enum_to_str.py:346-356 | Of the name kept before and the names settled now, in the order of the recursion, `values` keeps the first of the shortest; other values keep their names. |
| EnumRuns.AddKeepsGood | bin/gen_enum_to_str.py:325-356 | Every call keeps the invariant: known names have the value of their chain, unresolved aliases wait, nothing else waits. |
| EnumRuns.RunResult | bin/gen_enum_to_str.py:325-356 | At the end a name is known exactly with the value its alias chain ends in, an alias waits exactly when its target has none, and each value has its shortest name. |
| EnumRuns.DeclarationsHold | bin/gen_enum_to_str.py:325-356 | At the end each declared value, extension value and alias of a known name is in the map. |
| EnumRuns.WaitInOrder | bin/gen_enum_to_str.py:330-335 | What waits for a name without value is all its aliases in the order they were declared. |
| EnumRuns.OrderDoesNotMatter | bin/gen_enum_to_str.py:325-356 | Any two orders of the same acyclic, consistent declarations end in the same map and the same pending names. |
| EnumOrder.ConfluentExactly | bin/gen_enum_to_str.py:325-356 | For acyclic declarations, all orders end in the same map if and only if no name has two meanings. |
| EnumOrder.InconsistentOrders | bin/gen_enum_to_str.py:325-356 | Inconsistent declarations have two orders whose maps differ. |
| EnumOrder.InconsistentExample | bin/gen_enum_to_str.py:346-350 | Declaring one name with two values: the last one counts, and `values` keeps a stale entry. |
| EnumRuns.VkEnum.AddKnownValue | bin/gen_enum_to_str.py:346-356 | The recursive method terminates and computes the settled state. |
| EnumRuns.VkEnum.AddAll | bin/gen_enum_to_str.py:358-377 | Reading all declarations gives every name the value of its chain. |
| EnumRuns.BitOfOr | bin/gen_enum_to_str.py:322-323 | The OR of two integers of any sign has a bit exactly when one of them has it. |
| EnumRuns.VkEnum.AllBitsValue | bin/gen_enum_to_str.py:322-323 | A bit is set in the result exactly when some value has it. |
| Control.RunIsParse | src/control.cpp:52-106 | For every byte stream the automaton dispatches exactly the declarative commands, and remembers exactly the text since the latest open colon. |
| Control.RunInBlocks | src/control.cpp:181-217 | Cutting the stream into blocks anywhere changes nothing. |
| Control.SentIsReceived | src/control.cpp:108-130 | Behind any earlier bytes, a concatenation of sent messages is received as the messages with a parameter, in order. |
| Control.RoundTrip | src/control.cpp:108-130 | A list arrives as it was sent if and only if every message has a parameter. |
| Control.LostExample | src/control.cpp:122-127 | `hud` without parameter and then `logging=1`: only the second arrives. |
| Control.SentLeaves | src/control.cpp:108-130 | Behind a sent message the parser is idle; one without parameter leaves its command open. |
| Control.ControlSend | src/control.cpp:108-130 | The buffer gets the encoded message, in bounds. |
| ControlSocket.MatchIsWhole | src/control.cpp:14-39 | Comparing with the counted length matches a command only as a whole, up to an embedded NUL. |
| ControlSocket.ParseCommand | src/control.cpp:14-39 | `hud` turns the display switch only and `fcat` the fcat switch only; `logging` without parameter toggles logging, with 0 it is off, with a positive number on, with a negative one unchanged; any other command changes nothing. |
| ControlSocket.AtoiReadsNumber | src/control.cpp:23 | Blanks, an optional sign and decimal digits are read as the number, whatever follows. |
| ControlSocket.AtoiWithoutDigits | src/control.cpp:23 | Without a digit there the number is 0. |
| ControlSocket.TakenIs | src/control.cpp:181-217 | One call takes the leading full blocks and the block behind them, and ends the connection exactly when an error or a close follows them. |
| ControlSocket.ControlParser.ProcessChar | src/control.cpp:52-106 | In every reachable state the buffers are written in bounds and the state is that of the whole history. |
| ControlSocket.ControlParser.ProcessControlSocket | src/control.cpp:181-217 | One call takes full blocks and the first short one; the switches are those of all commands ever received. |
| CpuAccounting.PeriodsAddUp | src/cpu.cpp:62-76 | The periods of the parts add up to the total period if and only if the parts do not move in opposite directions. |
| CpuAccounting.PeriodsExample | src/cpu.cpp:62-76 | Two samples without wrap whose parts add up to 100 and whose total is 90. |
| CpuAccounting.PercentIsBusyShare | src/cpu.cpp:91-102 | The load is the share of time that was not idle, and no clamping happens then. |
| CpuAccounting.PercentIsCappedShare | src/cpu.cpp:91-102 | In any case the load is the share of user, nice, system, stolen and guest time, at most 100, and unchanged when no time has passed. |
| CpuAccounting.PlainTimes | src/cpu.cpp:51-60 | Without wrap each time is its counter without guest time, or the sum of its counters. |
| CpuAccounting.TimesWrap | src/cpu.cpp:51-60 | In any case it is so up to a multiple of 2^64. |
| CpuAccounting.DeltaIsGrowth | src/cpu.cpp:65 | The saturating difference is the growth, and 0 for a value that went back. |
| CpuAccounting.PeriodsAreGrowth | src/cpu.cpp:62-90 | Every period is the growth of its counters since the last sample, or 0 when they went back. |
| CpuAccounting.RegularCounters | src/cpu.cpp:39-103 | In a regular run each part of the period is the growth of its kernel counters, and the load is 100 times the growth of all counters but `idle` and `ioWait` over that of all. |
| CpuAccounting.RegularRun | src/cpu.cpp:39-103 | From the second sample of a regular run on, the parts add up and the load is the busy share. |
| CpuAccounting.TotalsTelescope | src/cpu.cpp:39-103 | The total periods behind the first sample sum up to the last total minus the first. |
| CpuAccounting.PercentStaysInRange | src/cpu.cpp:91-102 | Over every run, counters going backwards included, the load stays between 0 and 100. |
| CpuAccounting.SameSampleTwice | src/cpu.cpp:39-103 | A sample that is read twice, as after a restart, leaves zero periods and keeps the load. |
| CpuStats.FirstSample | src/cpu.cpp:140-144 | The first sample of a new core has its counters as periods; 1 is missing from the total. |
| CpuStats.CPUStats.Init | src/cpu.cpp:117-169 | The cores are those of the file, each with its first sample, and the boot time is that of the first such line. |
| CpuStats.CPUStats.UpdateCPUData | src/cpu.cpp:178-240 | From any previous cores, at most one restart, and then exactly the cores of the snapshot in order, sampled once; without a restart every core keeps its history. |

## Left out

- File system calls, directory iterators and all Windows branches of include/filesystem.h: operating system behaviour.
- Path theorems are about plain paths: colons and `//host` network names are modelled in `PathText` but have special cases that the statements exclude; paths that climb above their start are covered, with the exact condition.
- PathObjects.Path.DivAssign: takes its argument as a value; appending a path object to itself changes the string under the iterators, which is undefined behaviour.
- PathRelative.RelativeLeadsBack: one direction, for a condition on single elements; both directions are in `PathLeadsBack.RelativeLeadsBackExactly`.
- Characters of paths are bytes, and `char` is signed as on x86-64; where it is unsigned, `compare` has no mixed signs. `isprint` is that of the "C" locale.
- `stem`, `extension` and the `replace_` operations of paths: they only cut the filename further.
- StringMap.StringIntMap.Bake: the built-in `sorted` is a parameter, any order of the names; `round_to_pow2` is the exact power of two, not the floating-point logarithm; an empty map, for which the logarithm raises, is excluded.
- Dispatch.FromEntrypoints: the assertion that no two entries want one slot, which aborts in debug builds, is not modelled.
- The list of aliases that an entrypoint keeps, beyond an alias of an alias having none: it is only printed.
- StringMap.Generate: the text of the generated file, templates, XML and command line are left out; the tables are values of the printed widths.
- EnumRuns.VkEnum.AddValue: cyclic aliases, which wait until a value arrives for a name on the cycle and then recurse without end, are excluded by a rank; initial `values` are empty.
- The entrypoint enablement by core version and extension, and the loaders that call `vkGetProcAddr`: tables of given facts.
- Sockets, `errno` and connection set-up of src/control.cpp: the socket's answers are a parameter; `atoi` is without overflow.
- CpuStats.CPUStats.UpdateCPUData: the file does not change between two reads in one call, has its CPU lines in one block behind the total and a boot time line; a file that changes at every read could restart for ever.
- CPU percentages are real numbers, not floats; frequency, temperature and power readers are sensor input.
- src/amdgpu.cpp, src/battery.cpp, src/config.cpp, src/blacklist.cpp and bin/mangoplot.py: sensor input, simple averages and option parsing.
