# Verification of MatesOS and its gnu-efi library

MatesOS is a small x86_64 kernel that carries a copy of the gnu-efi library. This project models
the parts of both that compute something intricate over bytes, strings, linked structures and
tables, and proves what each of them is for. Routines that change memory step by step are methods
over arrays and objects, specified by functions over sequences; what the library promises is then
proved about those functions. Reference definitions are independent of the code: node lists for
device paths, cuts of a string for wildcard patterns, the bit-serial CRC of section 8 of RFC 1952,
positional values for numbers, a sequence for a linked list.

`dafny verify dfyconfig.toml` checks everything. The modules:

| file | component |
|---|---|
| `Common.dfy`, `CText.dfy` | bytes, words and optional values; CHAR16 text |
| `MetaMatch.dfy` | the wildcard matcher |
| `NumberText.dfy` | number printing and parsing |
| `Format.dfy` | fields, directives and format strings |
| `Print.dfy` | the 200-character staging buffer in front of a truncating or growing string |
| `RoundTrip.dfy` | when a printed number is parsed back |
| `FormatMeaning.dfy` | what each directive prints, character by character |
| `Crc.dfy`, `TableHeader.dfy` | CRC-32 and the sealing of EFI table headers |
| `DevicePath.dfy`, `DevicePathLib.dfy`, `DevicePathAppend.dfy`, `DevicePathUnpack.dfy` | device paths (section 9.3.1 of the UEFI 2.4 specification) |
| `Div64.dfy` | shift-and-subtract division at the level of its instructions |
| `LinkList.dfy` | intrusive circular lists |
| `Pci.dfy` | PCI enumeration and direct lookup |
| `Handles.dfy` | all-or-nothing installation of protocol interfaces |
| `GrowBuffer.dfy` | pool ownership and growing buffers |
| `Reloc.dfy` | the ELF self-relocators |
| `Smbios.dfy` | the walk over SMBIOS structures |

## Where the code differs from what it says

* `AppendDevicePath` says that Src2 is appended to each instance of Src1 (gnu-efi/lib/dpath.c:129-132).
  It copies Src2's end-of-path node into every instance, so a reader of the result stops after the
  first; whatever Src2 is, the promise holds exactly for a single instance of at most 513 nodes
  (`PromiseIffSingle`, broken in `PromiseBroken`). Within that limit the allocation is large enough
  exactly for a single instance or when Src2 is no longer than Src1 (`AllocationFits`, too small in
  `AllocationTooSmall`).
* `DevicePathInstance` stops after 513 nodes (the limit 01000 at gnu-efi/lib/dpath.c:75 is octal);
  walking delivers the instances exactly when none is longer (`VisitsAreInstances`, not so in
  `LongInstanceSplit`).
* `UnpackDevicePath` stores a rounded length of 65536 as zero; the result can be read exactly when
  no node of the input is longer than 65532 bytes (`UnpackReadable`, `LongNodeUnreadable`).
* `%u` prints through a signed routine. A decimal value comes back from parsing exactly when it is
  below 2^63 and, with commas, below 1000; what was printed as negative parses as zero
  (`PrintParse`, `FieldParse`).
* `SwapListEntries` "puts Entry2 before Entry1". It does exactly when the two differ and Entry2 is
  not directly before Entry1 already; otherwise Entry2 ends up linked to itself (`SwapListEntries`,
  as in `MoveLastToEnd`).
* `DivU64x32` says it works for 31-bit divisors. It is exact for every dividend exactly when the
  divisor is at most 2^31 (`ExactIff`, `LargeDivisorFails`); the assertion in the code stops one earlier.
* `LibInstallProtocolInterfaces` does not look at the answers to its rollback; the database is
  restored exactly when the firmware refuses none of the removals.
* The direct PCI lookup adds the bus index with 64-bit wrap-around. For regions that begin at
  multiples of one bus, the scan finds a function that the lookup finds exactly when the index did
  not wrap or leads into the region of some MCFG entry all the same (`RecordedIff`; the two kinds of
  wrapped index are in `WrappedUnrecorded` and `WrappedRecorded`). When the regions, each extended
  down to bus 0, do not overlap, only the first can be (`RecordedApart`).
* Neither the scan nor the lookup takes in bus `EndBus` itself. Scanning it too would find the same
  functions exactly when the first function of that bus is absent in every entry (`LastBusIff`).
* The overwriting relocator shifts the image exactly when every named word holds its addend
  (`OverwriteShiftsIff`, not so in `OverwriteNotShifted`).
* `LibGetSmbiosString` moves on for any number above the last string, not only for -1, and -1 does
  not move when a structure has 65535 strings or more (`Smbios.LibGetSmbiosString`). A type 1
  structure of an older version keeps the system search from looking at any later structure
  (`LibGetSmbiosSystemGuidAndSerialNumber`).
* A refused growth makes `_PoolPrint` drop everything printed before it. A print loses its beginning
  exactly when the pool refuses a request that was made when there was something to lose, and gives
  null exactly when it refuses the last one (`CatPrint`, `VPoolPrint`, `LoseBeginning`).

## Model

| member | source | states |
|---|---|---|
| MetaMatching.MetaMatch | gnu-efi/lib/str.c:325-409 | the matcher terminates and says TRUE exactly when the string matches the pattern's atoms, for every pattern whose sets are closed |
| MetaMatching.MatchStar | gnu-efi/lib/str.c:342-350 | trying the rest of the pattern at every position decides the star |
| MetaMatching.ScanSet | gnu-efi/lib/str.c:363-392 | the left-to-right scan with its range state finds a character exactly when some position of the set admits it |
| MetaMatching.MatchSet | gnu-efi/lib/str.c:359-402 | a set match also ends just behind the closing bracket |
| MetaMatching.MatchesIffCut | gnu-efi/lib/str.c:325-409 | a match is a cut of the string into consecutive pieces, one accepted by each atom |
| MetaMatching.StarUnfolds | gnu-efi/lib/str.c:342-350 | the star's law: give up at once or swallow one more character |
| MetaMatching.AtomsConcat | gnu-efi/lib/str.c:325-409 | reading a concatenation of closed patterns gives the concatenated atoms |
| MetaMatching.PatternConcat | gnu-efi/lib/str.c:325-409 | a string matches p1 + p2 exactly when it splits into a match of each |
| MetaMatching.AtomsMean | gnu-efi/lib/str.c:336-408 | `*` matches anything, `?` any one character, and any other character but `[` itself |
| MetaMatching.SetMeans | gnu-efi/lib/str.c:366-392 | a set written from single characters and ranges admits exactly what one of them covers, the ends of a range in either order |
| MetaMatching.EdgeDashes | gnu-efi/lib/str.c:372-382 | a leading dash begins a range from the lowest character, a trailing one adds nothing |
| MetaMatching.SetPattern | gnu-efi/lib/str.c:359-402 | a bracketed set matches the strings of one character in it |
| MetaMatching.RangePattern | gnu-efi/lib/str.c:372-382 | a pattern like `[a-c]` matches exactly the single characters from its first to its last |
| Crc.CalculateCrc | gnu-efi/lib/crc.c:201-218 | the table-driven loop over the 64-bit accumulator computes the bit-serial CRC-32 of every byte sequence |
| Crc.TableEntry | gnu-efi/lib/crc.c:22-66 | entry i of the table of literals is eight rounds of the generator polynomial on i, for all 256 entries |
| Crc.PolyBits | gnu-efi/lib/crc.c:22-66 | 0xEDB88320 holds the coefficients of the RFC 1952 generator, reflected |
| Crc.TableStepIsFeed | gnu-efi/lib/crc.c:211-213 | one table step is eight bits fed into the bit-serial register |
| Crc.WideStepIsStep | gnu-efi/lib/crc.c:207-217 | the 64-bit step on an extended word is the extension of the 32-bit step |
| Crc.WideFits | gnu-efi/lib/crc.c:211-213 | a step keeps the 64-bit accumulator below 2^32, whatever the byte |
| Crc.FeedBitsConcat | gnu-efi/lib/crc.c:201-218 | the running state composes over concatenation |
| Crc.CrcWordIsCrc32 | gnu-efi/lib/crc.c:201-218 | the 32-bit word computed by table steps is the reference CRC |
| Crc.SameCrcIff | gnu-efi/lib/crc.c:191-197 | comparing 32-bit words is comparing reference CRCs |
| Crc.CheckValue | gnu-efi/lib/crc.c:201-218 | the CRC of the digits 123456789 is 0xCBF43926, and that of nothing 0 |
| Crc.FeedBitsInjective | gnu-efi/lib/crc.c:210-214 | a common continuation never makes two states equal |
| Crc.BurstDetected | gnu-efi/lib/crc.c:201-218 | messages that differ inside one window of at most 32 bits reach different states |
| Crc.WindowDetected | gnu-efi/lib/crc.c:201-218 | equal-length messages that differ only inside four consecutive bytes have different CRCs |
| TableHeader.SetCrcAltSize | gnu-efi/lib/crc.c:93-116 | the header becomes the sealed header and nothing else changes |
| TableHeader.SetCrc | gnu-efi/lib/crc.c:70-91 | the same with the size in the header |
| TableHeader.CheckCrcAltSize | gnu-efi/lib/crc.c:146-198 | the check answers whether the stored value is the CRC of the header with a cleared field, refuses size zero and sizes above the maximum, and leaves the header as it was |
| TableHeader.CheckCrc | gnu-efi/lib/crc.c:119-142 | the same with the size in the header |
| TableHeader.SealedPasses | gnu-efi/lib/crc.c:93-198 | a sealed header passes, and no other field value does |
| TableHeader.CorruptionFails | gnu-efi/lib/crc.c:146-198 | corruption within four consecutive bytes, in the field or outside it, makes the check fail |
| TableHeader.ByteCorruptionFails | gnu-efi/lib/crc.c:146-198 | any changed byte of the field or the covered bytes makes the check fail |
| TableHeader.SetThenCheck | gnu-efi/lib/crc.c:70-142 | what SetCrc seals, CheckCrc accepts |
| TableHeader.SealedMeans | gnu-efi/lib/crc.c:114-115 | sealing writes bytes 16 to 19 only, with the CRC-32 of the first bytes in which those are zeros, lowest bit first |
| TableHeader.PassesMeans | gnu-efi/lib/crc.c:170-197 | a header passes exactly when the size is not zero nor above a maximum that is not zero, and bytes 16 to 19 are that CRC-32 |
| TableHeader.SizeMeans | gnu-efi/lib/crc.c:90-90 | HeaderSize is bytes 12 to 15, lowest first |
| DevicePath.WalkStep | gnu-efi/lib/dpath.c:68-85 | one step of a walk reads the first node's header and stands before the rest |
| DevicePath.DecodeEncode | gnu-efi/lib/dpath.c:286-307 | the bytes of a node list read back as that list, whatever follows |
| DevicePath.EncodeDecode | gnu-efi/lib/dpath.c:286-307 | every list that can be read is the one whose bytes are there |
| DevicePath.InstanceSizes | gnu-efi/lib/dpath.c:48-121 | the instance sizes plus 4 for each instance make up the size of the path |
| DevicePath.PieceIsFirst | gnu-efi/lib/dpath.c:64-106 | within the cap one walk delivers the first instance and leaves the others |
| DevicePath.VisitsAreInstances | gnu-efi/lib/dpath.c:48-121 | repeated walks deliver every instance once, in order, exactly when none exceeds the 513-node cap |
| DevicePath.LongInstanceSplit | gnu-efi/lib/dpath.c:75-82 | a path of one instance with 514 nodes, which is delivered in pieces |
| DevicePath.LongInstanceWhole | gnu-efi/lib/dpath.c:75-82 | one of 513 nodes is delivered whole |
| DevicePath.NodeMeans | gnu-efi/lib/dpath.c:68-71 | the bytes of a node: type, subtype, length in two bytes, low byte first, payload |
| DevicePath.InstancesOfJoined | gnu-efi/lib/dpath.c:68-96 | instances put together with end nodes of type 0x7F and subtypes 0x01 and 0xFF are read off again |
| DevicePathLib.DevicePathInstance | gnu-efi/lib/dpath.c:48-106 | the walk delivers the piece at the front with its size and the position of the rest, or the end |
| DevicePathLib.DevicePathInstanceCount | gnu-efi/lib/dpath.c:108-121 | the number of pieces, none for a null path |
| DevicePathLib.DevicePathSize | gnu-efi/lib/dpath.c:286-307 | the size of the node list in bytes |
| DevicePathLib.DuplicateDevicePath | gnu-efi/lib/dpath.c:309-334 | a fresh block with exactly the bytes of the path |
| DevicePathLib.CompareMem | gnu-efi/lib/runtime/efirtlib.c:84-101 | zero exactly for equal bytes; it stays inside both memories when they differ in time |
| DevicePathLib.PrefixDifference | gnu-efi/lib/dpath.c:1222-1227 | byte prefix is node prefix, and the first difference comes no later than the type byte of the first end node |
| DevicePathLib.InstanceCompare | gnu-efi/lib/dpath.c:1222-1227 | the comparison does not read past the first end node of Single |
| DevicePathLib.LibMatchDevicePaths | gnu-efi/lib/dpath.c:1209-1229 | TRUE exactly when some piece of Multi is a prefix of Single's first instance; memory is only demanded up to Single's first end node |
| DevicePathLib.MatchMeansPrefix | gnu-efi/lib/dpath.c:1209-1229 | within the cap that is: some instance of Multi is a prefix of Single's node list |
| DevicePathAppend.AppendDevicePathInstance | gnu-efi/lib/dpath.c:397-433 | the block is filled exactly with Src, its end turned into an end of instance, and Instance |
| DevicePathAppend.ReopenInstances | gnu-efi/lib/dpath.c:420-431 | the instances of the result are those of Src followed by those of Instance |
| DevicePathAppend.AppendDevicePath | gnu-efi/lib/dpath.c:124-194 | whenever the computed size suffices, the block has it and begins with what the copying loop lays down for the pieces walked over, all inside it |
| DevicePathAppend.VisitsSize | gnu-efi/lib/dpath.c:64-106 | the pieces, with an end node for each, are never longer than the path |
| DevicePathAppend.AllocationFits | gnu-efi/lib/dpath.c:163-190 | the computed size suffices for one piece or a short Src2, within the cap in no other case, and one instance fills it exactly |
| DevicePathAppend.AllocationTooSmall | gnu-efi/lib/dpath.c:163-190 | two paths for which the computed size does not suffice |
| DevicePathAppend.SpreadDecodes | gnu-efi/lib/dpath.c:172-190 | the result decodes to the first piece of Src1 followed by all of Src2 |
| DevicePathAppend.SingleDecodes | gnu-efi/lib/dpath.c:172-190 | for a single instance of at most 513 nodes that is Src1's nodes followed by all of Src2 |
| DevicePathAppend.PromiseIffSingle | gnu-efi/lib/dpath.c:129-132 | Src2, of one instance or several, is appended to each instance exactly when there is one, of at most 513 nodes |
| DevicePathAppend.PromiseBroken | gnu-efi/lib/dpath.c:129-132 | a Src1 of two empty instances breaks the promise for every Src2 |
| DevicePathAppend.AppendDevicePathNode | gnu-efi/lib/dpath.c:197-230 | the same with the one-node path that is built from Src2 |
| DevicePathUnpack.UnpackedSize | gnu-efi/lib/dpath.c:344-359 | rounding the running size gives the bytes that the copying pass writes |
| DevicePathUnpack.UnpackDevicePath | gnu-efi/lib/dpath.c:336-394 | the block holds exactly the unpacked nodes: payloads kept, zero padding, aligned lengths, unpacked bit set |
| DevicePathUnpack.UnpackMeans | gnu-efi/lib/dpath.c:377-383 | every node keeps its subtype, its payload and the low bits of its type, has the top bit set, zeros behind, and the next multiple of four as its length |
| DevicePathUnpack.UnpackedBytesMean | gnu-efi/lib/dpath.c:377-383 | the same of the bytes in memory |
| DevicePathUnpack.UnpackAligned | gnu-efi/lib/dpath.c:27-27 | the same number of nodes, each starting and ending on an aligned offset |
| DevicePathUnpack.UnpackTwice | gnu-efi/lib/dpath.c:336-394 | unpacking twice is unpacking once |
| DevicePathUnpack.UnpackInstances | gnu-efi/lib/dpath.c:336-394 | the instances of the result are the unpacked instances |
| DevicePathUnpack.UnpackReadable | gnu-efi/lib/dpath.c:380-381 | the result reads back exactly when no node of the input is longer than 65532 bytes |
| DevicePathUnpack.AllFitIff | gnu-efi/lib/dpath.c:27-27 | the rounded lengths fit 16 bits exactly when no length is above 65532 |
| DevicePathUnpack.OverflowUnreadable | gnu-efi/lib/dpath.c:380-381 | with a longer node anywhere in the path nothing can be read |
| DevicePathUnpack.LongNodeUnreadable | gnu-efi/lib/dpath.c:380-381 | a path with a node of 65533 bytes for which that happens |
| NumberText.ValueToHex | gnu-efi/lib/print.c:1260-1288 | the buffer holds the hexadecimal numeral of any 64-bit value |
| NumberText.ValueToString | gnu-efi/lib/print.c:1291-1334 | the buffer holds the signed decimal text, with commas if asked for, of any INT64 |
| NumberText.NumeralMeans | gnu-efi/lib/print.c:1269-1288 | numerals have upper-case digits, no leading zeros, and the value of the number |
| NumberText.NumeralStep | gnu-efi/lib/print.c:1278-1286 | the numeral of 16 v + d, or of 10 v + d, is that of v and the character of d |
| NumberText.SignedMeans | gnu-efi/lib/print.c:1303-1333 | a minus sign in front of a negative number; without its commas the text is the numeral |
| NumberText.CommaPlaces | gnu-efi/lib/print.c:1322-1332 | a comma precedes digit i of n exactly when i > 0 and n - i is a multiple of three |
| NumberText.GroupedPlain | gnu-efi/lib/print.c:1322-1332 | taking out the commas gives the digits back |
| NumberText.Xtoi | gnu-efi/lib/str.c:267-296 | shift-and-or parsing gives the value of the leading hexadecimal digits modulo 2^64 |
| NumberText.Atoi | gnu-efi/lib/str.c:298-323 | multiply-and-add parsing gives the value of the leading decimal digits modulo 2^64 |
| NumberText.FoldIsValue | gnu-efi/lib/str.c:281-295 | wrapping at every digit gives the positional value modulo 2^64 |
| NumberText.CharactersMean | gnu-efi/lib/str.c:284-289 | which characters continue a number, and what each counts for |
| NumberText.SkippingMeans | gnu-efi/lib/str.c:276-279 | exactly the leading blanks are skipped |
| NumberText.ParsingMeans | gnu-efi/lib/str.c:283-292 | a number goes on as long as characters continue it |
| NumberText.ParseNumeral | gnu-efi/lib/str.c:267-323 | a numeral with spaces and zeros before it and anything that does not continue it behind parses to its number |
| RoundTrip.PrintParse | gnu-efi/lib/print.c:1260-1334 | a printed 64-bit value is parsed back exactly in hexadecimal, or in decimal below 2^63 and, with commas, below 1000; from 2^63 on it is parsed as zero |
| RoundTrip.GroupedPrefix | gnu-efi/lib/str.c:312-320 | parsing grouped digits stops at the first comma or cut |
| RoundTrip.FieldParse | gnu-efi/lib/print.c:914-971 | printed as a field of any width, field width and padding, a value is parsed back exactly when it is zero, or the field width does not cut it and it is parsed back without padding |
| RoundTrip.ParsePadded | gnu-efi/lib/str.c:276-320 | padding in front and what does not continue the number behind do not change the parsed number |
| RoundTrip.DirectiveParse | gnu-efi/lib/print.c:1132-1160 | what %x and %u print, under any flags and widths, is parsed back under the same conditions |
| Format.Item.Measure | gnu-efi/lib/print.c:924-934 | the length of an item is that of its text, cut to the field width |
| Format.Item.Layout | gnu-efi/lib/print.c:924-944 | the paddings that the two widths leave |
| Print.PrintState.PITEM | gnu-efi/lib/print.c:914-971 | the output grows by the padded field |
| Print.PoolPrint.SPrint | gnu-efi/lib/print.c:313-352 | text is appended up to the maximum, and the string is terminated |
| Print.PoolPrint.PoolPrint | gnu-efi/lib/print.c:355-397 | text is appended in full, in a larger block if needed, unless the pool refuses it |
| Print.PrintState.PFLUSH | gnu-efi/lib/print.c:845-857 | what was staged has been delivered, in order, and the staging buffer is empty |
| Print.PrintState.PPUTC | gnu-efi/lib/print.c:876-896 | a character, with a carriage return before a line feed, joins the output and the staging buffer never overflows |
| Print.ExpandMeans | gnu-efi/lib/print.c:883-885 | every line feed goes out as a carriage return and a line feed |
| Print.ExpandKeeps | gnu-efi/lib/print.c:887-889 | a text without line feeds goes out as it is |
| Print.PrintoutMeans | gnu-efi/lib/print.c:883-889 | what reaches a string is the formatted text, with every line feed expanded |
| Print.PrintState.Print | gnu-efi/lib/print.c:974-1255 | for every format whose directives are complete and find their arguments, the whole expanded text of the format has been delivered and counted |
| Print.PrintState.PrintDirective | gnu-efi/lib/print.c:1044-1249 | the flag loop consumes exactly one directive and its arguments and prints its field, with attribute changes that flush and print nothing |
| Print.PrintState.ParseWidth | gnu-efi/lib/print.c:1090-1105 | a width is the value of its digits modulo 2^64 |
| Format.Convert | gnu-efi/lib/print.c:1059-1231 | the switch over one character, with the number routines writing into the scratch buffer, has the action that the format's meaning gives it |
| FormatMeaning.FlagsMean | gnu-efi/lib/print.c:1070-1088 | what each flag character does to the directive behind it |
| FormatMeaning.WidthMeans | gnu-efi/lib/print.c:1090-1105 | a width is its value, for the field after a point |
| FormatMeaning.AttributesMean | gnu-efi/lib/print.c:1202-1244 | small letters go on with the directive, capital ones end it unless the attribute is zero |
| FormatMeaning.NumbersMean | gnu-efi/lib/print.c:1132-1169 | x, X, u and d print the low 32 bits or all 64, as hexadecimal, unsigned or signed numbers |
| FormatMeaning.TextsMean | gnu-efi/lib/print.c:1061-1126 | the texts of %, s, a, c and the converted arguments |
| FormatMeaning.OthersMean | gnu-efi/lib/print.c:1226-1230 | any other character prints a question mark |
| FormatMeaning.PaddedText | gnu-efi/lib/print.c:941-969 | without a field width the padding is in front |
| FormatMeaning.FieldOfTwoWidths | gnu-efi/lib/print.c:924-969 | a field is cut, padded to the width in front, and brought to the field width with blanks on one side |
| FormatMeaning.HexMeans | gnu-efi/lib/print.c:1138-1145 | %x and %lx print the numeral of the low 32 bits or the whole number, which parsing gives back |
| FormatMeaning.FixedHexMeans | gnu-efi/lib/print.c:1132-1145 | %X and %lX bring it to 8 or 16 digits with zeros |
| FormatMeaning.DecimalMeans | gnu-efi/lib/print.c:1153-1169 | %d, %ld, %u and %lu print the signed number with the low bits of the argument |
| FormatMeaning.SignedParses | gnu-efi/lib/print.c:1291-1334 | which parsing gives back behind its sign |
| FormatMeaning.CommaMeans | gnu-efi/lib/print.c:1078-1080 | %,lu prints the grouped digits |
| FormatMeaning.PaddingMeans | gnu-efi/lib/print.c:1070-1105 | %Wx and %0Wx bring the text to W characters with blanks or zeros |
| FormatMeaning.FieldMeans | gnu-efi/lib/print.c:1074-1105 | %.Wx and %-.Wx make a field of W characters |
| Format.RenderConcat | gnu-efi/lib/print.c:1036-1250 | formats compose: the concatenation prints the first text and then what the second prints with the arguments left over |
| Format.DirectiveConcat | gnu-efi/lib/print.c:1057-1245 | what follows a complete directive does not change it |
| Format.RenderPlain | gnu-efi/lib/print.c:1037-1042 | a format without directives prints itself and leaves its arguments |
| Print.VSPrint | gnu-efi/lib/print.c:423-463 | the string holds exactly the first StrSize/2 - 1 characters of the output, terminated |
| Print.VPoolPrint | gnu-efi/lib/print.c:503-532 | the string is the output from some place on, terminated inside its block: all of it exactly when no request with something to lose is refused, and null exactly when the last request is |
| Print.CatPrint | gnu-efi/lib/print.c:566-600 | the same behind what the string held before |
| Print.LoseBeginning | gnu-efi/lib/print.c:376-386 | a string of which a refused request leaves only what comes after it |
| Div64.RoundMeaning | gnu-efi/lib/ia32/math.c:160-175 | one round of ten instructions moves one dividend bit out and one quotient bit in |
| Div64.HoldsStep | gnu-efi/lib/ia32/math.c:158-191 | the register holds the remaining dividend bits above the partial quotient, before and after a round |
| Div64.AfterRounds | gnu-efi/lib/ia32/math.c:158-191 | the invariant after k rounds, as long as no remainder loses its top bit |
| Div64.SmallDivisorExact | gnu-efi/lib/ia32/math.c:151-197 | exact quotient and remainder for every dividend and every divisor up to 2^31 |
| Div64.LargeDivisorFails | gnu-efi/lib/ia32/math.c:141-152 | for every larger divisor the dividend 2^32 comes out wrong |
| Div64.ExactIff | gnu-efi/lib/ia32/math.c:141-152 | exact for all dividends if and only if the divisor is at most 2^31 |
| Div64.DivU64x32 | gnu-efi/lib/ia32/math.c:134-199 | the loop returns the exact quotient and remainder for divisors up to 2^31, and what the rounds give for all |
| LinkList.InitializeListHead | gnu-efi/inc/efilink.h:43-45 | an empty ring |
| LinkList.RemoveEntryList | gnu-efi/inc/efilink.h:64-70 | the ring without the entry |
| LinkList.InsertTailList | gnu-efi/inc/efilink.h:90-98 | the ring with the entry before the head |
| LinkList.InsertHeadList | gnu-efi/inc/efilink.h:108-116 | the ring with the entry behind the head |
| LinkList.SwapListEntries | gnu-efi/inc/efilink.h:124-139 | the ring with Entry2 moved before Entry1 results exactly when they differ and Entry2 is not directly before Entry1; otherwise Entry2 is linked to itself |
| LinkList.MoveLastToEnd | gnu-efi/inc/efilink.h:124-139 | moving the only entry of a list to its end takes it out of the list |
| LinkList.MovableIff | gnu-efi/inc/efilink.h:124-139 | that check on the two entries is the condition on their places in the ring |
| LinkList.SelfLinkedIsAlone | gnu-efi/inc/efilink.h:124-139 | an entry linked to itself is in no ring with others |
| LinkList.MovedIsReinserted | gnu-efi/inc/efilink.h:129-138 | a move is a removal and an insertion directly before Entry1 |
| LinkList.Run | gnu-efi/inc/efilink.h:43-139 | every run of operations keeps one circular doubly linked list with the entries and order that the operations say |
| LinkList.ApplyEntries | gnu-efi/inc/efilink.h:64-139 | moves keep the entries; only removals lose and only insertions add one |
| LinkList.RunConcat | gnu-efi/inc/efilink.h:43-139 | a run goes on from where the one before it ended |
| LinkList.RunEntries | gnu-efi/inc/efilink.h:64-139 | over a whole run no entry is lost or doubled: those at the end and those removed are those at the beginning and those inserted |
| Pci.DeviceTable.EnumerateFunction | kernel/src/PCI/pci.cpp:18-33 | a present function takes the next slot, if there is one |
| Pci.DeviceTable.EnumerateDevice | kernel/src/PCI/pci.cpp:35-51 | records what the direct lookup finds on the device, in order |
| Pci.DeviceTable.EnumerateBus | kernel/src/PCI/pci.cpp:53-69 | records what the direct lookup finds on the bus, in order |
| Pci.DeviceTable.EnumeratePCI | kernel/src/PCI/pci.cpp:71-98 | records what the direct lookup finds in all entries, in order, behind what was there, up to 32 |
| Pci.HitsExactly | kernel/src/PCI/pci.cpp:90-98 | the places found are exactly those with a lookup result, in strictly rising (entry, bus, device, function) order |
| Pci.FoundIffLookup | kernel/src/PCI/pci.cpp:150-245 | an address is found exactly when a lookup that does not wrap gives it |
| Pci.FoundIsPresent | kernel/src/PCI/pci.cpp:18-69 | what the scan finds is the sum of a bus, a device and a function offset, with device identifiers other than 0 and 0xffff on the way |
| Pci.PresentIsFound | kernel/src/PCI/pci.cpp:18-69 | and it finds all of those |
| Pci.LookupMeans | kernel/src/PCI/pci.cpp:161-244 | the same of one lookup with any indices |
| Pci.KeyMeans | kernel/src/PCI/pci.cpp:90-98 | the order of places is that of entries, buses, devices and functions |
| Pci.LookupGated | kernel/src/PCI/pci.cpp:181-244 | a visible function implies function 0 of its device and of its bus's first device |
| Pci.LookupBus | kernel/src/PCI/pci.cpp:165-179 | a bus index finds a bus of the entry, or wraps around to one before the first |
| Pci.RecordedIff | kernel/src/PCI/pci.cpp:165-244 | what the lookup finds, the scan finds exactly when the bus index did not wrap or leads into some entry's region, for regions on bus boundaries that may share addresses |
| Pci.RecordedApart | kernel/src/PCI/pci.cpp:165-244 | exactly when it did not wrap, for entries that stay apart down to bus 0 |
| Pci.WrappedUnrecorded | kernel/src/PCI/pci.cpp:166-179 | a wrapped lookup that finds what the scan does not |
| Pci.WrappedRecorded | kernel/src/PCI/pci.cpp:166-179 | a wrapped lookup that leads into another entry |
| Pci.LastBusIff | kernel/src/PCI/pci.cpp:94-97 | counting EndBus in finds the same exactly when the first function of that bus is absent in every entry |
| Pci.AtInjective | kernel/src/PCI/pci.cpp:20-56 | when regions do not overlap, two places never share an address |
| Pci.FoundDistinct | kernel/src/PCI/pci.cpp:18-69 | so no function is found twice |
| Handles.LibInstallProtocolInterfaces | gnu-efi/lib/hand.c:437-517 | on success every pair is in; on error the handle is as before, the error is the failing call's, the database keeps only pairs whose removal was refused, and is the old one exactly when none was; the TPL is restored and every call was made at TPL_NOTIFY |
| Handles.AllInstalled | gnu-efi/lib/hand.c:466-490 | every pair is installed and nothing else has changed |
| Handles.Uninstalling | gnu-efi/lib/hand.c:497-509 | removing in the original order leaves exactly the refused pairs, after every step |
| Handles.RestoredIff | gnu-efi/lib/hand.c:497-509 | the rollback restores the database exactly when no removal is refused |
| Handles.NextInstall | gnu-efi/lib/hand.c:484-487 | a call fails exactly for a firmware error, a dead handle, or a protocol that is there already or twice in the list |
| Handles.FailureMeans | gnu-efi/lib/hand.c:484-487 | when an installation fails |
| Handles.LeftOver | gnu-efi/lib/hand.c:497-509 | after a rollback the keys are the old ones and those whose removal was refused |
| Handles.LibUninstallProtocolInterfaces | gnu-efi/lib/hand.c:520-555 | of any database, what is left is exactly what is on another handle or named by no listed, unrefused pair, with its interface |
| Handles.Survivors | gnu-efi/lib/hand.c:528-554 | the same of the removals one after the other |
| Handles.InstallUninstall | gnu-efi/lib/hand.c:437-555 | a complete installation followed by uninstalling restores the database exactly when no removal is refused |
| Buffers.Pool.GrowBuffer | gnu-efi/lib/misc.c:131-200 | either a new buffer of the size asked for, or the end, where an error leaves none; only live blocks are freed |
| Buffers.Pool.ReallocatePool | gnu-efi/lib/misc.c:56-79 | the old contents move to a new block and the old block is freed |
| Buffers.Loop | gnu-efi/lib/misc.c:219-239 | against any answers and allocation failures, each call gets a live block of the stated size, and the end is one new block exactly when the status is not an error |
| Buffers.OneOutcome | gnu-efi/lib/misc.c:131-200 | the outcome is determined by the answers |
| Buffers.WholeValue | gnu-efi/lib/misc.c:257-280 | a firmware that holds a value delivers all of it, in one call or two |
| Buffers.LibLocateHandle | gnu-efi/lib/hand.c:57-102 | the number of handles is that of the last answer, zero on error |
| Buffers.LibMemoryMap | gnu-efi/lib/misc.c:203-239 | the number of entries is set exactly when there is a map |
| Buffers.LibGetVariableAndSize | gnu-efi/lib/misc.c:241-281 | the size is that of the last answer, zero without a buffer, although the status is not initialized |
| Relocation.Relocate | gnu-efi/gnuefi/reloc_x86_64.c:43-98 | success or load error by the presence of the table and its entry size; the image becomes what the entries at the place the DT_RELA tag says make of it one after the other |
| Relocation.Scan | gnu-efi/gnuefi/reloc_aarch64.c:51-75 | the last value of each tag before the end mark |
| Relocation.PatchEntry | gnu-efi/gnuefi/reloc_aarch64.c:83-94 | one entry adds the base in place or overwrites, on little-endian words inside the byte image |
| Relocation.WordMeans | gnu-efi/gnuefi/reloc_x86_64.c:84-86 | a word is eight bytes, lowest first |
| Relocation.EntryMeans | gnu-efi/gnuefi/reloc_x86_64.c:79-93 | what an entry of type 8 on x86_64, or 1027 on AArch64, does, and that any other does nothing |
| Relocation.RowsCount | gnu-efi/gnuefi/reloc_x86_64.c:77-96 | there are as many entries as the size of the table needs |
| Relocation.RowsMean | gnu-efi/gnuefi/reloc_x86_64.c:94-95 | they are one after the other, the entry size apart |
| Relocation.LastMeans | gnu-efi/gnuefi/reloc_aarch64.c:51-75 | the value under a tag is the last one |
| Relocation.TableAddressMeans | gnu-efi/gnuefi/reloc_aarch64.c:53-57 | the table is at the value of tag 7 plus the base, or nowhere |
| Relocation.RunApplies | gnu-efi/gnuefi/reloc_x86_64.c:77-96 | when no target meets the table, the loop applies the entries that the table held at the start |
| Relocation.RunShiftsIff | gnu-efi/gnuefi/reloc_aarch64.c:77-96 | over a proper table the loop leaves the image shifted by the base when adding in place, and when overwriting exactly if the named words hold their addends |
| Relocation.ApplyElsewhere | gnu-efi/gnuefi/reloc_x86_64.c:77-96 | bytes that no RELATIVE entry names do not change |
| Relocation.ApplyTarget | gnu-efi/gnuefi/reloc_x86_64.c:77-96 | every named word gets its new value computed from the original image |
| Relocation.AddShifts | gnu-efi/gnuefi/reloc_x86_64.c:83-87 | adding in place gives the original image shifted by the base modulo 2^64 |
| Relocation.OverwriteShiftsIff | gnu-efi/gnuefi/reloc_aarch64.c:86-90 | overwriting does so exactly when the named words hold their addends |
| Relocation.OverwriteNotShifted | gnu-efi/gnuefi/reloc_aarch64.c:86-90 | an image whose named word does not hold its addend, and is not shifted |
| Relocation.FormsAgreeIff | gnu-efi/gnuefi/reloc_aarch64.c:77-96 | both forms give the same image exactly when the named words hold their addends |
| Relocation.ShiftedUnique | gnu-efi/gnuefi/reloc_x86_64.c:77-96 | there is only one shifted image |
| Smbios.LibGetSmbiosString | gnu-efi/lib/smbios.c:84-135 | an existing number gives that string and stays; zero stays; any other moves exactly to the next structure, also without strings |
| Smbios.LibGetSmbiosSystemGuidAndSerialNumber | gnu-efi/lib/smbios.c:29-82 | the walk visits every boundary up to the first system structure and gives its identity and serial string, or nothing |
| Smbios.EncodeUnambiguous | gnu-efi/lib/smbios.c:107-131 | the bytes determine the structure and where it ends |
| Smbios.EncodeMeans | gnu-efi/lib/smbios.c:107-131 | the written form of a structure with no string, one, or more |
| Smbios.OutcomeMeans | gnu-efi/lib/smbios.c:46-79 | what comes out of the search, by the bytes of the first type 1 structure |
| Smbios.StructureAt | gnu-efi/lib/smbios.c:67-70 | at each boundary lies the next structure |

## Left out

- MetaMatch: patterns with an unclosed `[` are excluded, because the code then reads past the pattern's terminator.
- Print.PrintState.Print: formats that end inside a directive, or whose arguments are missing or of another kind, are excluded, because the code then reads past the format's terminator or its argument list.
- Format.Arg: what a GUID, a device path, a floating-point number, a time or a status is printed as is given as its text, since those formatting tables are not modelled.
- PrintState: setting the attribute on the console and the local-or-firmware dispatch of the output function are not modelled; the flush that goes with it is.
- VSPrint: a maximum that wraps to 2^64 - 1 (StrSize below 2) needs a string large enough for the output, since nothing limits it.
- AppendDevicePath: a Src1 and a Src2 for which the loop writes outside its allocation are excluded.
- AppendDevicePathInstance: a refused allocation with a non-null Src is excluded, because the code asserts that it does not happen.
- DevicePathInstance: the dump of a path above the cap is debug output and is not modelled.
- RemoveEntryList: the poisoning of the removed entry in debug builds.
- IsListEmpty and the record macros of efilink.h: single expressions.
- DivU64x32: the compiler-dependent alternative that uses the language's own division is switched off in the source; the divisor is one 32-bit word, as on ia32.
- EnumeratePCI: page mapping, the checksum and panic checks, and the printing and driver set-up after the scan; the entries are given as a list, so a header length below the 44 bytes of the fixed part is not modelled.
- LibInstallProtocolInterfaces: notifications that change the database while the calls run; the firmware keeps its database as a map and answers each call by an arbitrary refusal of its own.
- LibReinstallProtocolInterfaces: it passes the address of the handle instead of the handle.
- Loop: a firmware that asks for more space forever is excluded, since the library's loop does not end either; firmware calls are arbitrary answers.
- LibMemoryMap: the map key and descriptor version are handed through from the firmware.
- Relocate: tables that are gone through with a negative entry size, or that lead outside the image, are excluded; ELF constants come from the ELF specification, elf.h is not part of this model.
- LibGetSmbiosSystemGuidAndSerialNumber: finding the table among the configuration tables is a given; the structures are assumed to cover the stated length.
- DevicePathToStr and its printers, GuidToString, StatusToString, TimeToString, FloatToString, DumpHex and the console: formatting tables, floating point and user interface.
- LibDuplicateDevicePathInstance: it puts an end node after the first node only, so it is no copy of longer instances.
- ValidMBR, the ACPI table walks, BCD conversion and plain string copies: easy members.
- AHCI, APIC, port I/O, GDT, IDT, CPUID, paging and the boot loader: hardware registers.
