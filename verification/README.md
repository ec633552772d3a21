# cpslib, modelled and verified in Dafny

cpslib reads system information on Linux and OS X and returns it in C structures. Under the system
calls it is a set of stateful algorithms over text and memory: scanners that cut `/proc` files into
lines and tokens and destroy them on the way, result arrays that double through a cursor `realloc` may
invalidate, two different ways of rebuilding a command line, a walk over length-prefixed messages, and
the arithmetic of CPU percentages. This project models those algorithms and proves what they are for.

What the operating system hands over (a file, a mount table, a login table, a sysctl buffer, a link) is
an argument, arbitrary within what each `requires` states. The pieces:

- `CText`, `Numbers`, `Lines`, `Tokenizer`, `Columns`, `CBuffer`, `Buffers`: C strings in buffers,
  `strtoul`, bounded `fgets` (section 7.21.7.2 of ISO C11), `strtok` with its hidden position and its
  writes into the line (section 7.24.5.8), printed tables, `strcat`/`strlcat`, result arrays.
- `Squeeze`, `GrepAwk`: the helpers of `common.c`.
- `CpuStat`, `NetDev`, `DiskIo`, `ProcStatus`, `Meminfo`: the parsers of `/proc`.
- `CpuAlgebra`: the percentages, over exact reals.
- `LinkBuffer`, `Cmdline`: growing link buffers, command lines on both systems.
- `IfMessages`, `MountOptions`: the OS X message walk and mount-option strings.
- `Heap`, `Records`, `Partitions`, `OsxPartitions`, `Users`: the heap as a ledger of live blocks that may
  refuse any request, the doubling arrays of `disk_partitions` (both systems) and `get_users`, and their
  destructors.

Methods follow the C code statement by statement over arrays, buffers and the heap; each is tied by its
`ensures` to a function of its input, and the lemmas say what that function means. A parameter
`capacity` (or the length of an array argument) stands for a fixed size of the C code: 20 CPUs,
15 interfaces, 30 partitions. `hide` statements only keep definitions a proof does not need away from
the solver.

Where the model found the code to fall short of its purpose, the code is kept and the exact condition is
proved, in both directions: `ProcStatus.ProcnameExact` (names with blanks, parentheses or an inner
newline, or past the read limit), `Cmdline.OsxExact` (an empty first argument), `Cmdline.OsxFitsExactly`
(arguments past the unchecked buffer), `LinkBuffer.GrowthFitsExactly` (32-bit doubling),
`DiskIo.FitsExactly` (a device printed twice overruns the array), `DiskIo.FoundExactly` (names cut at ten
characters), `Partitions.BuildThenFree` (blocks forgotten when a growth fails or /proc/filesystems cannot
be opened) and `Users.GetUsers` (a failed `strdup`).

## Model

| member | source | states |
|---|---|---|
| Lines.ChunksConcat | common.c:34 | What a loop over bounded `fgets` takes from a file, laid end to end, is the file. |
| Lines.ChunksAreLines | common.c:34 | The chunks are exactly the lines of the file if and only if no line exceeds the limit. |
| Lines.ReadsOfLines | common.c:34 | A file written as lines that respect the limit is read back as those lines. |
| Lines.ReadsOfPrefix | common.c:34 | Lines that respect the limit are read first, whatever the file goes on with. |
| Lines.Stream.Fgets | common.c:34 | One `fgets` fills the buffer with the next chunk and a NUL, moves the position past it, touches nothing behind the NUL, and fails only at the end of the file. |
| Tokenizer.Strtok.Next | common.c:36-38 | One `strtok` call returns the first token of the unscanned text, leaves exactly the text behind it, and overwrites at most the one delimiter that ended it. |
| Tokenizer.Strtok.Token | pslib_linux.c:406-411 | Call k returns token k, and NULL from the first call past the last token on. |
| Tokenizer.TokensAreFields | common.c:36-38 | The tokens of a text are its fields between single delimiters, empty fields dropped. |
| Tokenizer.RowRoundTrip | pslib_linux.c:670-699 | Tokenising a printed row gives its words back, whatever the padding. |
| Numbers.DecimalRoundTrip | pslib_linux.c:409 | `strtoul` of a printed 64-bit counter, followed by any non-digit text, is the counter. |
| Numbers.OverflowSaturates | pslib_linux.c:409 | A number too large for 64 bits reads as the largest one. |
| Numbers.BaseTen | pslib_linux.c:409 | Numbers are decimal, blanks before them are skipped, and a minus sign wraps around. |
| GrepAwk.Search | common.c:29-53 | The scan of the file computes the query over the lines `fgets` delivers, for field number `nfield`, or 0 when it is negative. |
| GrepAwk.FirstFieldMeaning | common.c:34-47 | The result is token n of the first line with the prefix and more than n tokens, skipping prefixed lines with too few; it is NULL if and only if there is no such line. |
| GrepAwk.PrefixMeaning | common.c:35 | A line has the prefix if and only if it is long enough and agrees with it character by character but for the case of letters. |
| GrepAwk.FirstAnswerExists | common.c:34-47 | Whenever some line answers, there is a first one, so the result is not NULL. |
| GrepAwk.SearchesLines | common.c:34 | On a file whose lines have at most 399 bytes the query runs over the file's lines. |
| Squeeze.SqueezeInPlace | common.c:55-73 | The passes leave exactly the characters not to be deleted, in order and NUL-terminated, and write nothing before the string or from its old terminator on. |
| Squeeze.WithoutIsFilter | common.c:60-70 | What is left is exactly the characters not to be deleted, in order. |
| Squeeze.WithoutBySet | common.c:60-61 | Only the set of characters to delete matters, not their order or repetition. |
| Squeeze.WithoutCompose | common.c:60-70 | Deleting in two passes deletes the union. |
| Squeeze.WithoutIdempotent | common.c:55-73 | Squeezing again changes nothing; a string is left alone if and only if none of the characters is in it. |
| CpuStat.ParseCpuTimes | pslib_linux.c:401-430 | Parsing succeeds if and only if ten tokens follow the label, and gives the readings of the first ten over the clock rate. |
| CpuStat.CpuLineRoundTrip | pslib_linux.c:401-430 | Printing counters as a cpu line and parsing it puts each of the first ten, over the clock rate, in its own field although text and structure order them differently; fewer than ten are an error. |
| CpuStat.EachCpuTimes | pslib_linux.c:942-960 | Per-CPU times fill the array with one entry per cpu line and zeros behind; a bad cpu line or a missing line after them is an error. |
| CpuStat.PerCpuMeaning | pslib_linux.c:948-958 | Success with n entries means exactly n parsable lines that start with cpu, entry i the parse of line i, then a line that does not. |
| CpuStat.WrittenOnSuccess | pslib_linux.c:949-958 | The entries written, which the array must hold, are then the entries returned. |
| CpuStat.PerCpuRoundTrip | pslib_linux.c:942-960 | For a file that starts with a total line and any parsable cpu lines that fit, and goes on with anything that is no cpu line, entry i is the parse of cpu line i. |
| CpuStat.StatFileRoundTrip | pslib_linux.c:942-960 | From a printed file of a total line, lines cpu0, cpu1 and so on, and interrupt counts, each cpu gets its own counters over the clock rate, in order. |
| CpuStat.TotalCpuTimes | pslib_linux.c:933-941 | The cumulative times are the parse of the first line, NULL on an empty file. |
| CpuAlgebra.PercentagesMeaning | pslib_linux.c:58-79 | Each percentage times the total delta is a hundred times the delta of its own field, and the result is the only structure with that property. |
| CpuAlgebra.PercentagesSumTo100 | pslib_linux.c:58-79 | Whenever the total delta is not zero the ten percentages, user to guest_nice, add up to 100. |
| CpuAlgebra.UtilisationIsNotIdle | pslib_linux.c:81-96 | The two calculators agree: utilisation is 100 minus the idle percentage. |
| CpuAlgebra.PercentagesInRange | pslib_linux.c:58-96 | With counters that never go back and a positive total delta, every percentage and the utilisation lie in 0..100. |
| CpuAlgebra.ClockRateCancels | pslib_linux.c:414-425 | Through `parse_cpu_times` percentages and utilisation do not depend on the clock rate. |
| CpuAlgebra.PercentRunsCompose | pslib_linux.c:58-79 | Over any run of samples, a percentage from first to last times the total time is the sum of the step percentages weighted with the time of each step. |
| CpuAlgebra.UtilisationRunsCompose | pslib_linux.c:81-96 | The same for utilisation. |
| CpuAlgebra.IncreasingTotals | pslib_linux.c:58-96 | Strictly increasing totals give the non-zero total delta the two run theorems need. |
| NetDev.NetIoCounters | pslib_linux.c:645-716 | The parser skips two header lines although the loop reuses their counter, and returns one record per further line, in order. |
| NetDev.RowRoundTrips | pslib_linux.c:670-699 | Parsing a printed interface row gives its name, counters 0-3 and 8-11 in the right fields, although the delimiters change after the name. |
| NetDev.NetDevRoundTrip | pslib_linux.c:664-705 | For any printed table with lines that fit, the records are the interfaces of the table, in order. |
| DiskIo.DiskIoCounters | pslib_linux.c:527-617 | The two scans produce the join of the two files in an array with one entry per partition. |
| DiskIo.MatchesFit | pslib_linux.c:574-603 | Pigeonhole: when no partition occurs twice in diskstats, the matched rows are at most as many as the partitions, so the cursor stays inside the array. |
| DiskIo.RepeatedNameOverflows | pslib_linux.c:574-603 | In every printed file, a name that occurs twice makes two records for the one partition of that name. |
| DiskIo.FitsExactly | pslib_linux.c:574-603 | The array is large enough for every list of partitions if and only if diskstats prints no name twice that a partition can have. |
| DiskIo.ListableMeans | pslib_linux.c:554-562 | Those names are exactly the first ten characters of names whose last character is a digit from 0 to 9. |
| DiskIo.DiskRoundTrip | pslib_linux.c:584-607 | A printed row gives its name, reads, sectors read times 512 in 64 bits, time reading and the same for writes, and matches exactly when its name is a partition. |
| DiskIo.JoinIsSelection | pslib_linux.c:583-609 | Over printed rows, the join is the rows with a partition's name, in diskstats order. |
| DiskIo.SelectedMeaning | pslib_linux.c:583-607 | Those are the rows with a listed name, once each and in order, every counter in its field. |
| DiskIo.PartitionsMeaning | pslib_linux.c:548-563 | From a printed partition table, the names looked for are those whose last character is a digit from 0 to 9, in order, each cut to ten characters. |
| DiskIo.NumberedIsListed | pslib_linux.c:556-560 | A name that ends in a printed number is looked for. |
| DiskIo.DiskJoinRoundTrip | pslib_linux.c:548-608 | From two printed files whose lines fit, every row can be parsed, the names looked for are the digit-ending ones cut to ten characters, and the result has, in diskstats order, the counters of exactly the rows with such a name; they fit in the array when no name a partition can have is printed twice. |
| DiskIo.FoundExactly | pslib_linux.c:554-583 | A device whose name ends in a digit is looked for under its own name if and only if that has at most ten characters. |
| DiskIo.ShortNamesListed | pslib_linux.c:554-562 | With names of at most ten characters, the names looked for are the digit-ending ones. |
| ProcStatus.GetIds | pslib_linux.c:324-359 | The ids of the first line that starts with the field name, NULL if there is none. |
| ProcStatus.GetIdsRoundTrip | pslib_linux.c:324-359 | For any status file whose first such line lists three or more ids, separated by tabs, the first three come back as real, effective and saved, modulo 2^32, whatever follows that line. |
| ProcStatus.GetProcname | pslib_linux.c:208-229 | The second blank-separated field of the first line without parentheses; NULL only when there is no line. |
| ProcStatus.ProcnameShown | pslib_linux.c:208-229 | A name that is read whole comes back as its part before the first blank, without parentheses. |
| ProcStatus.ProcnameExact | pslib_linux.c:208-229 | From the text of the stat file, the name comes back if and only if it has no blank, no parenthesis, no newline before its last character, and fits with the pid in the 299 characters read. |
| ProcStatus.NewlineCutsName | pslib_linux.c:217-223 | A name of plain characters around a newline is cut behind the newline. |
| Meminfo.ScanMeminfo | pslib_linux.c:824-851 | The scan reports all three values or three zeros. |
| Meminfo.LastValueMeaning | pslib_linux.c:835-846 | A key's value is the one on its last line, and it is missing if and only if no line has the key. |
| Meminfo.ValueIsNotUnset | pslib_linux.c:847 | No stored value can equal the marker for unset: it is a multiple of 1024 even after 64-bit wrap-around. |
| Meminfo.MemLineRoundTrip | pslib_linux.c:836-845 | A printed line of n kB stands for 1024 n bytes modulo 2^64. |
| Meminfo.MeminfoRoundTrip | pslib_linux.c:833-851 | For any file of lines that fit, the scan reports 1024 times the last number of each of the three names, modulo 2^64, or three zeros when a name is missing. |
| LinkBuffer.GetTerminal | pslib_linux.c:373-399 | The buffer ends up holding the whole link target and its NUL, whatever its length. |
| LinkBuffer.GetExe | pslib_linux.c:231-267 | The same for the executable; a process without one has the empty name, a missing process none. |
| LinkBuffer.GrownBounds | pslib_linux.c:253-260 | The final size is 1024 doubled some number of times, exceeds the target plus NUL, and is at most twice that if it grew. |
| LinkBuffer.GrowthFitsExactly | pslib_linux.c:253-260 | A size the 32-bit counter can reach is large enough if and only if the target is shorter than 2^31 - 1. |
| LinkBuffer.GrowthWraps | pslib_linux.c:253-260 | The next doubling makes the counter 0. |
| Cmdline.CleanCmdline | pslib_linux.c:21-39 | NULs become blanks, the last byte becomes the terminator, and the count returned is the number of NULs among the bytes. |
| Cmdline.NulsOfEncoding | pslib_linux.c:31-39 | The count it returns for the encoding of arguments is their number. |
| Cmdline.LinuxCmdline | pslib_linux.c:269-296 | The returned string is the blanked first 500 bytes without the last one. |
| Cmdline.ShownMeaning | pslib_linux.c:281-290 | For any file, terminated or not, the string has all but the last of the bytes read, 500 at most, with a blank for every NUL. |
| Cmdline.LinuxTruncatesExactly | pslib_linux.c:281-290 | For any arguments, the string shown is the first min(T, 500) - 1 characters of the arguments joined by blanks, T being the length of the encoding. |
| Cmdline.OsxCmdline | pslib_osx.c:266-312 | The walk appends exactly the first nargs NUL-terminated strings after the padding, joined by blanks. |
| Cmdline.WalkTakes | pslib_osx.c:281-302 | Over padding, arguments and environment those strings are the first nargs left once leading empty strings are gone. |
| Cmdline.SystemsAgree | pslib_osx.c:266-312 | With a non-empty first argument and at most 499 bytes, both systems show the same joined string. |
| Cmdline.OsxFitsExactly | pslib_osx.c:289-302 | With a non-empty first argument, what the walk appends stays inside the 500-byte buffer if and only if the encoding of the arguments has at most 499 bytes. |
| Cmdline.OsxExact | pslib_osx.c:281-302 | The OS X result is the joined arguments if and only if the first argument is not empty, unless the first non-empty string is nothing but blanks. |
| Cmdline.BlankHidesEmptyFirst | pslib_osx.c:281-302 | With such a string, an empty first argument and the shift it causes can cancel out. |
| Cmdline.JoinedSplitsBack | pslib_linux.c:21-39 | Splitting the joined line on blanks recovers the arguments when none holds a blank. |
| IfMessages.WalkMessages | pslib_osx.c:702-739 | The walk visits every message start once, in order, ends exactly at the limit, and writes one record per RTM_IFINFO2 message, counting them. |
| IfMessages.OffsetsMeaning | pslib_osx.c:704-706 | Message k starts where the messages before it end. |
| IfMessages.ConcatenationIsWalked | pslib_osx.c:704-706 | Any concatenation of messages with their length in the first two bytes can be walked, and the messages found are the ones laid down. |
| IfMessages.WalkedIsConcatenation | pslib_osx.c:704-706 | Every buffer that can be walked is the concatenation of the messages found. |
| IfMessages.OneRecordPerInfo | pslib_osx.c:708-733 | There are as many records as RTM_IFINFO2 messages. |
| IfMessages.RecordsMeaning | pslib_osx.c:710-730 | Record j has the counters of the j-th message whose type byte is 18, each in its own field, no dropped output, and its link-level name up to its length or a NUL. |
| MountOptions.BuildOptions | pslib_osx.c:437-490 | The tests build the option string of the flags; the 400-byte buffer never cuts it. |
| MountOptions.StringMeaning | pslib_osx.c:441-490 | The string is ro or rw, then for each of the 23 flags, in this order, a comma and its own name if the flag is set. |
| MountOptions.IsSetMeaning | pslib_osx.c:441-445 | A flag is set when the flag word and its mask share a bit. |
| MountOptions.OptionsRoundTrip | pslib_osx.c:437-490 | Splitting the string on commas gives ro or rw, then exactly the options whose mask meets the flags, in table order. |
| MountOptions.ConditionsRecoverable | pslib_osx.c:437-490 | Every tested condition can be read off the string. |
| Records.CapacityBounds | pslib_linux.c:488-498 | The capacity is the initial one times a power of two, and copying by growth stays below twice the number of records. |
| Records.Append | pslib_linux.c:480-486 | Storing a record behind the cursor adds its strings and its entry to the result, and nothing else to the ledger. |
| Records.Grow | pslib_linux.c:488-498 | Growth keeps every record and moves struct and cursor with the array wherever realloc puts it; a failed realloc changes nothing. |
| Records.FreeInfo | pslib_linux.c:514-525 | The destructor frees every string, the array and the struct, each once, and leaves the ledger the builder started from. |
| Records.ResultReads | pslib_linux.c:479-486 | In a result in which no strdup failed, the struct has the number of items and the array, and record i has the stamp and every string of entry i, in new blocks. |
| Records.LedgerSize | pslib_linux.c:480-505 | A result of n records with w strings each is exactly n w + 2 blocks; `disk_partitions` and `get_users` end with it. |
| Partitions.GetPhysicalDevices | pslib_linux.c:147-183 | The device names are the squeezed lines that do not start with nodev, and the ledger grows by their array and themselves; an unreadable file costs exactly the array, a refused request nothing. |
| Partitions.DevicesRoundTrip | pslib_linux.c:161-169 | From a printed /proc/filesystems whose lines fit, the names are those of the lines without nodev, in order, without the blanks and tabs around them. |
| Partitions.LongLineSplits | pslib_linux.c:161-169 | A line of more than 49 characters is read in two and makes two names. |
| Partitions.ReadMounts | pslib_linux.c:472-499 | At every loop head there is room for a record, the cursor is behind the last one in the current block, copied elements plus five are the capacity, and the records are the selected mounts so far. |
| Partitions.SelectedMeaning | pslib_linux.c:472-486 | Entry i has the device, directory, type and options of the i-th mount kept: all of them, or those whose type is a device name. |
| Partitions.PhysicalMeaning | pslib_linux.c:470-486 | With a printed /proc/filesystems, the records of a physical listing are those of exactly the mounts whose type stands there without nodev, in the order of the mount table. |
| Partitions.DiskPartitions | pslib_linux.c:448-512 | A success holds exactly the selected mounts, four strings each; besides, exactly the forgotten blocks remain: the device array and its names after a failed growth, the array alone when /proc/filesystems cannot be opened, nothing in every other case. When no request for memory is refused, it fails if and only if the mount table does not open. |
| Partitions.BuildThenFree | pslib_linux.c:448-525 | The call and the freeing of its result restore the ledger if and only if no block was forgotten; with no request refused, if and only if the mount table cannot be opened or /proc/filesystems can. |
| OsxPartitions.ReadMounts | pslib_osx.c:436-517 | The OS X loop keeps the same array: room at every loop head, cursor in the current block, copied elements plus five are the capacity, records are the selected file systems so far. |
| OsxPartitions.SelectedMeaning | pslib_osx.c:492-501 | A file system is left out if and only if physical devices are asked for, its name does not start with a slash and stat fails on it; entry i has the names and the option string of the i-th other one. |
| OsxPartitions.DiskPartitions | pslib_osx.c:406-524 | A success holds exactly the selected file systems and no other block; every failure leaves the ledger as it began; it fails only when `getfsstat` does or memory is refused, and unrefused it adds 4 n + 2 blocks. |
| OsxPartitions.RecordsShowOptions | pslib_osx.c:437-501 | Splitting the fourth string of record i on commas gives exactly the options of the flags of the i-th file system kept. |
| OsxPartitions.BuildThenFree | pslib_osx.c:406-524 | Calling it and freeing its result, if any, restores the ledger in every case; on Linux a failed growth does not. |
| Users.GetUsers | pslib_linux.c:726-772 | It succeeds if and only if no request for memory is refused, and then adds the logged-in users with three strings each, 3 n + 2 blocks; a failed growth leaves the ledger as it began, a failed strdup if and only if it was the first of its record. |
| Users.LoggedInMeaning | pslib_linux.c:738-750 | Entry i has the user, the line and the host of the i-th login record of kind 7 as its strings, in this order, and its time; no other record contributes. |
| Users.BuildThenFree | pslib_linux.c:726-784 | Building and freeing restores the ledger. |

## Left out

- System calls and frameworks (`sysctl`, mach, IOKit, `statvfs`, `sysinfo`, `getpwuid`, `kill`): their results are arguments, or the function around them is not modelled (OS X `disk_io_counters`, `disk_usage`, `swap_memory`, `pid_exists`, `get_boot_time`).
- `physical_cpu_count`: its slot pointer is never advanced (pslib_linux.c:129), so what it counts depends on memory layout.
- `get_ppid`, `get_create_time`, `get_username`, `get_process`, the assembly of `VmemInfo` and the loops of `cpu_times_percent` and `cpu_util_percent`: short code over the modelled parts that would only add easy members.
- The OS X copies of `get_users` and of the percentage arithmetic repeat the Linux algorithms and are not modelled a second time.
- Refused requests for memory outside `disk_partitions`, `get_users` and `get_physical_devices`; inside them the result struct itself (a NULL one crashes the destructor) and the `strdup` of a device name (a NULL one crashes `lfind`) always succeed. `calloc` of zero counters returns a block.
- Records.FreeInfo: reads the item count once; the C loop counts the field itself down, wrapping it in a struct that is freed right after. The fields of a record are stored in one step.
- Partitions.GetPhysicalDevices: fewer than 100 file systems on devices are required; with more, the error path returns a NULL array with a non-zero count, which `disk_partitions` dereferences.
- OsxPartitions.DiskPartitions: whether `stat` succeeds on a device name is part of the file system's entry; names are C strings.
- Partitions.DiskPartitions: at most 2^31 - 1 mounts, so that the 32-bit capacity does not overflow. A string of a record is NULL when its unchecked `strdup` failed; every other string is right.
- Users.GetUsers: the time stamp is the integer; the C field is a float and rounds it. Names are C strings, at most 2^31 - 1 entries.
- CpuAlgebra.PercentagesMeaning: exact reals and non-zero divisors, no floating-point rounding.
- ProcStatus.ProcnameExact: a pid has at most 297 digits and, like the name, no NUL.
- CpuStat.ParseCpuTimes: the clock rate is a non-zero real and the quotients are exact. The local array of ten counters is a value of type `seq`.
- Malformed rows whose missing tokens the C code dereferences (`/proc/net/dev`, `/proc/partitions`, `/proc/diskstats`, `/proc/<pid>/status`, `/proc/meminfo`) are excluded by `requires`, as are more rows than a fixed array holds.
- Cmdline.LinuxCmdline: an empty file is excluded, since the C code then writes before the buffer.
- Cmdline.OsxExact: nothing is said of an empty first argument followed by a first non-empty string made of blanks alone, where the two lines may or may not coincide.
- Cmdline.OsxCmdline: an argument area without any string, or a count of zero, is excluded since the C code then writes before its buffer, and so is one whose joined strings exceed the 500-byte buffer, which the C code does not check. The count of arguments is an argument of the method, not decoded from the first four bytes.
- IfMessages.WalkMessages: the layout of `struct if_msghdr2` and `struct sockaddr_dl` belongs to system headers; reading their fields from a message is a function argument, and a message has at least the four bytes of its header. Names have at most 31 characters.
- MountOptions.BuildOptions: the mask values belong to <sys/mount.h> and are arguments.
- LinkBuffer.GetTerminal: the link does not change between calls, and a failure after the first successful read is not modelled.
- Characters are Dafny characters; `isspace`, `isdigit` and `tolower` are those of the "C" locale. Logging and closing of files have no effect on the results and are not modelled.
