# osquery software-RAID and SMART drive discovery, modelled in Dafny

This project models two Linux table implementations of osquery.

The first is the `/proc/mdstat` reader behind the `md_devices`, `md_drives`
and `md_personalities` tables (`mdstat.cpp`). Its pieces are:

- `trimStr`, which removes the leading and trailing runs of one character;
- `getLines`, which trims every line and drops the blank ones;
- `parseMDStat`, a cursor-driven parser. It reads the personalities line,
  then one record per array block (a header line, a configuration line and a
  run of recovery/resync/check/bitmap lines), then the "unused devices"
  trailer;
- the three row generators, which project a parsed snapshot onto rows.

The second is the controller logic of `smart_drive_info`
(`smart_drives.cpp`):

- the sorted, duplicate-free list of mass-storage controller drivers;
- the choice of the smartctl device type and id count from that list;
- the walk that decides which (device, type, id) triples reach the
  per-device handler.

Files:

- `text.dfy` (module `Text`) holds the string primitives the code relies on:
  `find`, `find_first_of`/`find_first_not_of`, `split`, `std::stoi`,
  `std::to_string` and `std::string`'s `operator<`.
- `mdstat_parse.dfy` (module `MdStatParser`) holds the records, `trimStr`,
  `getLines` and `parseMDStat`.
- `mdstat_tables.dfy` (module `MdTables`) holds the three generators.
- `smart_drives.dfy` (module `SmartDrives`) holds the smart-drive logic.

Each routine that works step by step in the source is a method with its
loops. The method is proved equal to a specification function, and the
properties the source promises are lemmas about that function. C++
exceptions that escape a routine are the `Thrown` case of `Outcome`:

- `std::out_of_range` from `substr` on a short "un…" line;
- `std::invalid_argument`/`std::out_of_range` from `std::stoi`.

`getLines` trims only spaces. Tabs, carriage returns and vertical tabs count
only in the blank test.

`std::string`'s `operator<` compares characters through
`char_traits<char>::lt`, which compares them as `unsigned char`. `Text.Less`
compares by character order, so it agrees with it on byte strings.

## Model

| member | source | states |
|---|---|---|
| MdStatParser.TrimStr | osquery/tables/system/linux/mdstat.cpp:50-63 | the trimmed string is `Trimmed(s, c)`: its first and last non-`c` characters found by scanning, the rest erased |
| MdStatParser.TrimmedShape | osquery/tables/system/linux/mdstat.cpp:50-63 | a string made only of `c` (or empty) is returned unchanged; otherwise the result is the slice from the first to the last non-`c` character, with only `c` removed on either side |
| MdStatParser.TrimmedBetween | osquery/tables/system/linux/mdstat.cpp:50-63 | when s is a run of c, a stretch that starts and ends with a non-`c` character, and a run of c, trimming returns exactly that stretch |
| MdStatParser.TrimAll | osquery/tables/system/linux/mdstat.cpp:72-76 | every element of the vector is trimmed in place, and nothing else changes |
| MdStatParser.GetLines | osquery/tables/system/linux/mdstat.cpp:78-93 | the kept lines are `NormalizedLines(raw)`: each raw line trimmed of spaces, kept unless only tab/CR/VT/space remain |
| MdStatParser.NormalizedLinesShape | osquery/tables/system/linux/mdstat.cpp:83-89 | every kept line has a non-blank character and neither starts nor ends with a space; there are never more kept lines than raw ones |
| MdStatParser.NormalizedLinesAppend | osquery/tables/system/linux/mdstat.cpp:83-89 | the filter keeps order: the lines of two consecutive runs are the lines of each run, concatenated |
| MdStatParser.TrimmedBlank | osquery/tables/system/linux/mdstat.cpp:84-86 | trimming spaces never changes whether a line counts as blank, so the trimming and the blank test commute |
| MdStatParser.ParseHeader | osquery/tables/system/linux/mdstat.cpp:131-152 | the header record is `HeaderDevice(line)`: none below two ':' pieces; otherwise the trimmed name, plus status, RAID level and member tokens when at least two words follow the colon |
| MdStatParser.ApplySettings | osquery/tables/system/linux/mdstat.cpp:145-152 | with at least two settings, status and RAID level are the first two and the members are all the rest, in order; otherwise the record is unchanged |
| MdStatParser.HeaderDeviceSpec | osquery/tables/system/linux/mdstat.cpp:131-140 | a header line yields a record iff it has a ':' followed by some character other than ':'; the record's name is the text before the first ':', trimmed of spaces |
| MdStatParser.HeaderSettings | osquery/tables/system/linux/mdstat.cpp:131-152 | when the first ':' is the only one and text follows it, the settings are the space-separated words after it, each trimmed: status, RAID level, then the members |
| MdStatParser.ParseConfig | osquery/tables/system/linux/mdstat.cpp:156-171 | below four tokens nothing is set and the warning flag is raised; otherwise usable size = first two tokens, healthy ratio = second to last, status string = last, `other` = the tokens between, each preceded by a space |
| MdStatParser.MatchLine | osquery/tables/system/linux/mdstat.cpp:177-204 | the key and value of one line are `MatchMeta(line)` |
| MdStatParser.ExtractKey | osquery/tables/system/linux/mdstat.cpp:178-180 | one test of the chain yields the value `Extract(line, k)`: present iff the key text occurs, the trimmed text after its first occurrence |
| MdStatParser.MatchFromOrder | osquery/tables/system/linux/mdstat.cpp:177-204 | a line matches iff it contains the text of one of the keys tested; the key reported is the first one, in testing order (recovery, resync, check, bitmap), that it contains; the value is what that key's test cuts out |
| MdStatParser.ReadMetaRun | osquery/tables/system/linux/mdstat.cpp:176-205 | the loop consumes exactly the maximal run of keyed lines after the cursor and stops before the first unkeyed line |
| MdStatParser.ReadMetaShape | osquery/tables/system/linux/mdstat.cpp:176-205 | metadata lines never change the fields set by the header and configuration lines |
| MdStatParser.ReadMetaUntouched | osquery/tables/system/linux/mdstat.cpp:176-205 | a recovery/resync/check/bitmap field that no consumed line carries the key of keeps the value it had before the loop |
| MdStatParser.ReadMetaField | osquery/tables/system/linux/mdstat.cpp:176-205 | a keyed field ends up holding the trimmed value of the last consumed line that carries its key: a later line with the same key overwrites an earlier one |
| MdStatParser.ReadMetaLines | osquery/tables/system/linux/mdstat.cpp:176-205 | the record and cursor after the metadata loop are `ReadMeta(lines, n, d)` |
| MdStatParser.BlockFrom | osquery/tables/system/linux/mdstat.cpp:138-207 | an array block consumes its header, its configuration line and then exactly the run of keyed lines: every line between the configuration line and the cursor after the block carries a key, the line at that cursor carries none, and the cursor passes the end by at most one |
| MdStatParser.ParseBlock | osquery/tables/system/linux/mdstat.cpp:138-207 | the record, cursor and config flag of one block are `BlockFrom(lines, n, header)` |
| MdStatParser.Step | osquery/tables/system/linux/mdstat.cpp:126-219 | an iteration throws iff the line is a trailer shorter than "unused devices:"; otherwise the cursor advances (by at least two past a header); a record is appended exactly for a well-formed header, and it is that header's block; a trailer line sets the unused text to itself from index 15, any other line leaves it; personalities and earlier warnings are kept, and the warning appended is `BadHeader` for a malformed header, `BadConfig` exactly when a block's configuration line has fewer than four tokens, `UnexpectedLine` for an unrecognised line, and none for a trailer |
| MdStatParser.ParseStep | osquery/tables/system/linux/mdstat.cpp:126-218 | the outcome of one iteration at cursor n is `Step(lines, n, Parsed(mds, diags))` |
| MdStatParser.ParseMDStat | osquery/tables/system/linux/mdstat.cpp:105-220 | the parse of the normalised lines is `Parse(lines)` |
| MdStatParser.ParseFromAppends | osquery/tables/system/linux/mdstat.cpp:126-219 | the loop only appends records and warnings and never changes the personalities; each record costs at least two lines |
| MdStatParser.ParseFromBlocks | osquery/tables/system/linux/mdstat.cpp:126-219 | every record the loop adds is the block of a well-formed array header at or after the cursor |
| MdStatParser.ParseFromUnused | osquery/tables/system/linux/mdstat.cpp:210-211 | the unused-devices text is unchanged or is the tail, after the marker, of a trailer line at or after the cursor |
| MdStatParser.ParseFromTrailer | osquery/tables/system/linux/mdstat.cpp:126-219 | when the last line is a keyless trailer at least 15 long that no well-formed header directly precedes, a loop that finishes leaves the unused text equal to that line from index 15 |
| MdStatParser.ParseTrailer | osquery/tables/system/linux/mdstat.cpp:105-220 | for a whole input of two or more lines ending in such a trailer, a parse that finishes reports that trailer's text as unused |
| MdStatParser.ParseSnapshot | osquery/tables/system/linux/mdstat.cpp:105-220 | personalities = line 0 from index 15 (the length of "Personalities :") when the marker occurs in it, otherwise empty with a warning; every record is an array header's block; the unused text comes from a trailer line; at most (lines + 1) / 2 records |
| MdStatParser.SourceStallsOnMalformedHeader | osquery/tables/system/linux/mdstat.cpp:131-136 | as written, a header with fewer than two ':' pieces leaves the cursor in place; the corrected step advances it by one |
| MdStatParser.MalformedHeaderExample | osquery/tables/system/linux/mdstat.cpp:130-136 | "md0 :" is such a header: the loop as written never leaves it |
| MdStatParser.SourceReadsPastEnd | osquery/tables/system/linux/mdstat.cpp:156-205 | as written, a block that runs to the last line reads `lines[n + 1]` past the end of the vector |
| MdStatParser.StepAgreesWithSource | osquery/tables/system/linux/mdstat.cpp:126-219 | wherever the code as written advances without reading out of range, the corrected step moves the cursor to the same line |
| MdTables.DropLeading | osquery/tables/system/linux/mdstat.cpp:249-261 | `find_first_not_of(set)` followed by `substr`, or the word itself when every character is in the set, is `DropLeadingSet` |
| MdTables.ProgressColumnsSpec | osquery/tables/system/linux/mdstat.cpp:238-262 | with exactly four space-separated words: progress = w0 + " " + w1; finish/speed = w2/w3 with the leading run of characters from "finish=" / "speed=" removed (the whole word when it is only such characters); with any other count, no column |
| MdTables.HandleR | osquery/tables/system/linux/mdstat.cpp:238-262 | the row after handleR is the old row overlaid with `ProgressColumns(line, prefix)` |
| MdTables.ProgressKeys | osquery/tables/system/linux/mdstat.cpp:247-261 | handleR writes only columns under its own prefix, and writes the progress column iff the line has four words |
| MdTables.BitmapColumnsSpec | osquery/tables/system/linux/mdstat.cpp:276-294 | below two comma segments no column; otherwise on-memory and chunk size are the first two trimmed segments; the external file is present iff a third segment contains "file:", as the trimmed text after its first occurrence |
| MdTables.BitmapKeys | osquery/tables/system/linux/mdstat.cpp:276-294 | the bitmap branch writes only bitmap columns, and the on-memory column iff there are two segments |
| MdTables.HandleBitmap | osquery/tables/system/linux/mdstat.cpp:276-294 | the row after the bitmap branch is the old row overlaid with `BitmapColumns(bitmap)` |
| MdTables.ExternalFileSpec | osquery/tables/system/linux/mdstat.cpp:286-292 | the external-file column is set iff the segment contains "file:", to the trimmed text after its first occurrence, and no other column is set |
| MdTables.ExternalFileColumn | osquery/tables/system/linux/mdstat.cpp:286-292 | the external-file column is `ExternalFile(segment)` |
| MdTables.DeviceRowSpec | osquery/tables/system/linux/mdstat.cpp:227-298 | a device row holds name, status, RAID level, healthy drives, usable size and the shared unused text; discovery/resync/check_array progress exactly when that field is set and has four words; bitmap columns exactly when the bitmap is set and has two segments |
| MdTables.BuildDeviceRow | osquery/tables/system/linux/mdstat.cpp:228-298 | the row built for one array is `DeviceRow(device, unused)` |
| MdTables.GenMDDevices | osquery/tables/system/linux/mdstat.cpp:222-302 | one row per array, in snapshot order, row i = `DeviceRow(devices[i], unused)` |
| MdTables.SlotText | osquery/tables/system/linux/mdstat.cpp:312-328 | a member token yields slot text iff it contains both '[' and ']' |
| MdTables.DriveRowSpec | osquery/tables/system/linux/mdstat.cpp:311-339 | no row iff a bracket is missing; an exception iff stoi refuses the slot text; otherwise the row has array and member names, and has a status iff the slot is inside the status string, "1" iff that status character is 'U' |
| MdTables.FindSlot | osquery/tables/system/linux/mdstat.cpp:312-328 | the slot text found is `SlotText(drive)`: none when either bracket is missing; the text after the first '[' up to the first ']', or to the end of the token when that ']' comes first |
| MdTables.DriveRowOf | osquery/tables/system/linux/mdstat.cpp:311-339 | the outcome of one member token is `DriveRow(device, drive)` |
| MdTables.SlotTextOfMember | osquery/tables/system/linux/mdstat.cpp:312-328 | for a kernel token name[digits]flags the slot text is the digits |
| MdTables.DriveRowOfMember | osquery/tables/system/linux/mdstat.cpp:324-337 | a kernel token name[i]flags against status "[s]" yields a row with a status iff i < \|s\|, "1" iff s[i] is 'U' |
| MdTables.CollectSpec | osquery/tables/system/linux/mdstat.cpp:311-340 | walking one array's members throws iff one of them throws; otherwise it appends as many rows as there are row-producing members, each from one of them |
| MdTables.CollectOrder | osquery/tables/system/linux/mdstat.cpp:311-340 | within one array, the row of each row-producing member sits right after the rows of the members before it |
| MdTables.CollectAllSpec | osquery/tables/system/linux/mdstat.cpp:310-341 | the same, array after array |
| MdTables.DriveRowsSpec | osquery/tables/system/linux/mdstat.cpp:304-344 | md_drives throws iff some member's slot text is refused by stoi; otherwise it has as many rows as there are bracketed members, each the row of some member |
| MdTables.CollectAllOrder | osquery/tables/system/linux/mdstat.cpp:310-341 | across arrays, the row of member m of array a sits after the rows of every earlier array and of the earlier members of a |
| MdTables.DriveRowsOrder | osquery/tables/system/linux/mdstat.cpp:304-344 | the row of each bracketed member whose slot stoi accepts is at `RowIndex`: the number of rows of the members before it, array by array, member by member |
| MdTables.RowIndexIncreasing | osquery/tables/system/linux/mdstat.cpp:310-341 | a member that yields a row lands strictly before every later member, so distinct members get distinct rows, in the order of the nested loops |
| MdTables.GenMDDrives | osquery/tables/system/linux/mdstat.cpp:304-344 | the md_drives outcome is `DriveRows(mds)` |
| MdTables.SourceSlotGuardAdmitsOutOfRange | osquery/tables/system/linux/mdstat.cpp:329 | as written, `0 <= driveNum < length - 2` admits slot 5 and slot -1 on "[UU]", and every non-negative slot once the status string has four characters; on the one-slot "[U]" it refuses the valid slot 0 and admits -1 |
| MdTables.SlotInRangeReadsStatus | osquery/tables/system/linux/mdstat.cpp:329-331 | the corrected guard admits exactly the slots of "[" + s + "]", and the character read is s[slot] |
| MdTables.PersonalityRows | osquery/tables/system/linux/mdstat.cpp:352-359 | one row per space-separated word; the name is the word without its first and last character, and is empty for a one-character word |
| MdTables.PersonalitiesRoundTrip | osquery/tables/system/linux/mdstat.cpp:352-359 | reading back a personalities text " [a] [b] …" gives the names a, b, …, in order |
| MdTables.GenMDPersonalities | osquery/tables/system/linux/mdstat.cpp:346-362 | the md_personalities rows are `PersonalityRows(personalities)` |
| SmartDrives.LowerBound | osquery/tables/system/linux/smart_drives.cpp:107 | on a sorted list, the index returned splits it into the elements less than the name and those not less |
| SmartDrives.InsertDriver | osquery/tables/system/linux/smart_drives.cpp:107-110 | the list stays strictly sorted; it gains exactly the driver name; it is unchanged (same length) when the name was present, and one longer otherwise |
| SmartDrives.StorageControllerDrivers | osquery/tables/system/linux/smart_drives.cpp:93-115 | the result is strictly sorted and holds exactly the drivers of the PCI devices whose class is "Mass storage controller" |
| SmartDrives.DeviceTypeForSpec | osquery/tables/system/linux/smart_drives.cpp:117-176 | success iff there is one software or hardware driver, or a software and a hardware driver; software alone clears the type; hardware alone gives its prefix and id count; a pair gives "sat+" + prefix with the hardware count; on failure type and count are unchanged |
| SmartDrives.SortedDriversAgree | osquery/tables/system/linux/smart_drives.cpp:142-172 | on a strictly sorted driver list the code as written and the corrected choice agree |
| SmartDrives.ReversedPairFallsThrough | osquery/tables/system/linux/smart_drives.cpp:158-172 | as written, ["hpsa", "ahci"] sets type "sat+cciss," and count 14 and still reports failure; the corrected choice reports success |
| SmartDrives.ProbeController | osquery/tables/system/linux/smart_drives.cpp:205-217 | the handler calls for one device are `ControllerVisits(dev, type, count, probe, 0)` |
| SmartDrives.ControllerVisitsSpec | osquery/tables/system/linux/smart_drives.cpp:205-217 | a (device, fullType, id) call is made iff 0 <= id < count, fullType = type + decimal id, and the probe answers without error that the device is identifiable |
| SmartDrives.WalkSmartDevices | osquery/tables/system/linux/smart_drives.cpp:189-223 | on the strictly sorted driver list the type is chosen by the code as written, and the handler calls are `SmartVisits(drivers, devs, probe)` |
| SmartDrives.ControllerVisitsIncreasing | osquery/tables/system/linux/smart_drives.cpp:205-217 | the ids handed over for one device strictly increase, so each is handed over once, in loop order |
| SmartDrives.VisitsAppend | osquery/tables/system/linux/smart_drives.cpp:198-223 | the calls for the devices a + b are the calls for a followed by those for b |
| SmartDrives.VisitsAt | osquery/tables/system/linux/smart_drives.cpp:198-223 | the calls for device k come after those of the devices before it and before those of the devices after it |
| SmartDrives.VisitsDevices | osquery/tables/system/linux/smart_drives.cpp:198-223 | every call names a device of the list |
| SmartDrives.VisitsDistinct | osquery/tables/system/linux/smart_drives.cpp:198-223 | on a list of distinct device nodes no (device, type, id) call is made twice |
| SmartDrives.VisitsWithType | osquery/tables/system/linux/smart_drives.cpp:198-220 | behind a RAID controller a call is made iff its device is listed, has no digit in its name, and its id and typed probe qualify |
| SmartDrives.VisitsWithoutType | osquery/tables/system/linux/smart_drives.cpp:198-223 | with an empty type, every block device is handed over exactly once, in order, with the empty type and id -1 |
| SmartDrives.UnsupportedVisitsNothing | osquery/tables/system/linux/smart_drives.cpp:189-195 | an unsupported driver combination hands no device to the handler |

## Left out

- Reading `/proc/mdstat` (`std::ifstream`): `GetLines` takes the raw lines and `ParseMDStat` takes the lines it keeps.
- The generators call `parseMDStat` themselves. Here they take the parsed snapshot, so a query is `ParseMDStat` followed by a generator. The query context they receive is unused by the source too.
- `LOG(WARNING)`: the parser's warnings are recorded as a `Diag` list, and those of the generators and of the smart-drive code are dropped.
- `split()` from `osquery/core/conversions.h` is not part of this model. `Text.Split` stands in for it: it cuts at every character of the delimiter string and drops empty pieces. `Text.SplitOnce` stands in for `split(s, ":", 1)`. The library also trims white space from each piece, which is not modelled.
- `std::stoi`: `Text.Stoi` skips leading white space, reads an optional sign and the longest run of digits, and fails (the exception) with no digit or outside the 32-bit `int` range. Locale and base are not modelled.
- udev enumeration (`walkUdevSubSystem`, `getBlkDevices`, the null-path and "virtual" filters, and reading the `ID_PCI_CLASS_FROM_DATABASE` and `DRIVER` properties): the PCI devices, the block device nodes and the driver list are parameters.
- libsmartctl: `cantIdDev` is the `probe` parameter. An error answer maps to `ProbeError`, and the `content` flag maps to `Identified`. The handler `handleDevF` is modelled by the list of its calls. `genSmartDevInformation` and the rows it builds are not part of this model.
- `WalkSmartDevices` takes the driver list as a parameter instead of calling `getStorageCtlerClassDrivers` itself (smart_drives.cpp:189). It requires the list to be strictly sorted, which `StorageControllerDrivers` ensures. On such a list the type choice as written agrees with the corrected one.
- The root-privilege warning of `walkSmartDevices` (smart_drives.cpp:182-184) is only a log line and is left out.
- Out-of-range element reads (`lines[n + 1]`, `driveStatuses[driveNum + 1]`) are undefined behaviour in C++. They appear only in the as-written members of the findings. The corrected model never performs them.
- `MdTables.DeviceRowSpec`: states which progress and bitmap columns are present, not their values. The values are stated by `ProgressColumnsSpec` and `BitmapColumnsSpec`, and `DeviceRow` overlays exactly those maps.

## Findings

| source | as written | input that shows it | evidently intended | confidence | as-written member | corrected member |
|---|---|---|---|---|---|---|
| osquery/tables/system/linux/mdstat.cpp:131-136 | a header line with fewer than two ':' pieces takes `continue` without advancing `n`, so the same line is examined forever | lines ["md0 :"] | skip the malformed header and go on with the next line | high; not executed | MdStatParser.SourceStep, MdStatParser.MalformedHeaderExample | MdStatParser.Step, MdStatParser.ParseFromAppends |
| osquery/tables/system/linux/mdstat.cpp:156-205 | the configuration line and the metadata lookahead read `lines[n + 1]` without checking it exists | a header as the last line, or a block whose keyed lines run to the end of the input (e.g. ["md0 : active raid1 sda[0]"]) | treat a missing configuration line as malformed and end the metadata run at the end of the input | high; not executed | MdStatParser.SourceMeta, MdStatParser.SourceReadsPastEnd | MdStatParser.ReadMetaRun, MdStatParser.BlockFrom |
| osquery/tables/system/linux/mdstat.cpp:329 | `0 <= driveNum < length - 2` compares the bool `0 <= driveNum` with the unsigned `length - 2`, so the range check does not bound the slot, and on a single-disk array it refuses the one valid slot | status "[UU]" with slot 5 (reads past the string) or slot -1 (reads '['); status "[U]" with slot 0 (no status column, where the corrected guard reports "1") | `0 <= driveNum && driveNum < length - 2` | high; not executed | MdTables.SourceSlotGuard, MdTables.SourceSlotGuardAdmitsOutOfRange | MdTables.SlotInRange, MdTables.SlotInRangeReadsStatus |
| osquery/tables/system/linux/smart_drives.cpp:162-172 | when `getTypes(1, 0)` succeeds there is no `return true`, so control falls into `default:` and reports failure after setting type and count | drivers ["hpsa", "ahci"] | report success, as for the other order | medium; not executed; the sorted list from getStorageCtlerClassDrivers never presents this order with the current tables | SmartDrives.SmartCtlDeviceType, SmartDrives.ReversedPairFallsThrough | SmartDrives.DeviceTypeFor, SmartDrives.DeviceTypeForSpec |
