# Port scanner core, modelled in Dafny

This project models the core of a WPF TCP port scanner for IPv4 ranges:

- **Validating the address text** (`InputValidator`): a CIDR pattern and an unanchored dashed-range pattern, each behind a null-or-blank guard.
- **Parsing it into begin and end octets** (`IPRange`): a CIDR parser, a dashed parser, and the constructor that tries them in turn.
- **Enumerating every address between the bounds** (`IPRange.GetAllIP`), including the unchecked `int` capacity product that comes first.
- **Cutting the work into chunks and jobs** (`ScannerExecutor`): address mode or port mode, chunking, the task list and the shared cancellation source.
- **Walking the (address, port) pairs of one job** (`Scanner`): the quick scan, the full scan and the scan over a port list, each stopped by the cancellation token. Also the rule that decides whether one probe reports an open port.
- **The report line** (`OpenPort`).
- **The window's handlers** (`MainWindow`): the task-count box and slider, the timeout and connection validators, the button states, and `DoScan` up to its first `await`, with its checks in their order.

Modules, one file each:

| file | module | what it holds |
|---|---|---|
| `wrappers.dfy` | `Wrappers`, `Exceptions` | `Option`, `Result` and the .NET exceptions that occur |
| `text.dfy` | `Text` | decimal rendering, `String.Split(char)`, `byte`/`uint`/`int` parsing under `NumberStyles.Integer` |
| `words.dfy` | `Words` | 32-bit unsigned arithmetic: wrap-around, shifts with masked counts, the byte cast, octets of a word |
| `seqs.dfy` | `Seqs` | flattening a sequence of sequences |
| `input_validator.dfy` | `InputValidator`, `InputValidatorExamples` | the two patterns as languages and as scanners, and the unit tests' inputs |
| `ip_range.dfy` | `IPRanges` | the parsers and the enumeration as functions, and the class `IPRange` whose methods do the same work on arrays in loops |
| `open_port.dfy` | `OpenPorts` | the result record and its line of text |
| `scanner.dfy` | `Scanners` | the pair grids, the cancellation cut, the probe decision, and the class `Scanner` with its loops |
| `scanner_executor.dfy` | `Executors` | chunking, the plan of jobs, coverage and uniqueness of the pairs tried, and the class `ScannerExecutor` |
| `main_window.dfy` | `MainWindows` | the input rules, the check order of `DoScan`, and the class `MainWindow` |

Conventions of the model:

- A C# `null` string is `None` of an `Option<string>`.
- A thrown exception is the `Failure` of a `Result`. For the `IPRange` constructor the failure is a `RangeError`.
- A C# `uint` is an `int` in `[0, 2^32)`, with explicit wrap-around. Shift counts are masked to five bits, as in C#.
- The `int` product in `GetAllIP` is truncated to 32 bits after every round.
- A `List<T>` holds at most `Array.MaxLength` = 0x7FFFFFC7 items (`MaxListLength`). Creating one with a larger capacity, or adding past that count, throws an `OutOfMemoryException`.
- An exception in an `async void` method such as `stopTasks` does not reach its caller. It is posted to the dispatcher; the model returns it as `thrown`, and the caller carries on.
- The cancellation token is an oracle `cancelAt`. The token checks a scan makes are numbered 0, 1, 2, … in order, and check `n` sees the token cancelled exactly when `n >= cancelAt`. Only the checks in the scan loops are numbered. The check at the start of `ScanPortsAsync` (Scanner.cs:169) and the one after its race are the free flags `cancelledBefore` and `cancelledAfter` of a `Probe`, tied to each other only by the rule that a cancelled token stays cancelled.
- A started `Task` is a `Job` value that records which scanner method it runs and on which addresses and ports.
- `Parallel.ForEach` runs its iterations in list order.

Where the code and the intended design of the system differ, the model follows the code:

- A full scan in address mode never tries port 65535, while a full scan in port mode does (`LastPortOnlyInPortMode`).
- A quick scan tries nothing unless there are more addresses than tasks, because `ScanAsyncOnPorts` does nothing for a quick scan (`QuickScanNeedsAddressMode`). So a quick scan of a single address reports nothing.
- The job count is not bounded by the task count (`MoreJobsThanTasks`).
- The connection ceiling and the timeout the window validates reach no part of the core. `BuildExecutor` takes three arguments, and `ScanPortsAsync` races each connect against a fixed 5-second timer.
- A CIDR text whose address has host bits set below the prefix passes the validator. The constructor then throws a `FormatException` from the dashed parser (`HostBitsThrow`) rather than refusing the text.
- `GetAllIP` throws an `ArgumentOutOfRangeException` exactly when the wrapped capacity is negative. It throws an `OutOfMemoryException` when that capacity, or the address count, exceeds the longest list .NET allows, 2^31 - 57 items.
  - An ordered box is listed exactly when it holds at most 2^31 - 57 addresses (`OrderedAllIP`, `HalfSpaceThrows`, `CapacityPastLimitThrows`, `WholeSpaceThrows`).
  - One octet range reversed by two, with the other octets fixed, gives capacity -1 and throws (`ReversedOnceThrows`).
  - A reversed range whose wrapped product is not negative lists nothing and throws nothing (`ReversedTwiceEmpty`, `ReversedMayBeEmpty`).
- The example in the doc comment of `TryParseCIDR`, "10.10.10.10/16", has host bits set, so the constructor throws a `FormatException` for it (`DocCidrExampleThrows`).
- The example in the doc comment of `TryParseRange`, "10.10.10.10-254-255", passes the validator, but its fourth part holds two dashes. The dashed parser returns false and the constructor throws an `ArgumentException` (`DocRangeExampleRefused`).
- `stopTasks` never checks the executor for null, so the save button, visible in a new window, throws a `NullReferenceException` when clicked before any scan (`SaveBeforeAnyScan`).

## Model

| member | source | states |
|---|---|---|
| InputValidator.IsValid | PortScanner/InputValidator.cs:11-18 | false for null or blank text; otherwise true exactly when the text is in the pattern's language |
| InputValidator.IsIPRangeValid | PortScanner/InputValidator.cs:20-25 | true exactly when the text is not null and is either in the CIDR language or contains a dashed-range word; the blank guard never decides |
| InputValidator.MatchIsLanguage | PortScanner/InputValidator.cs:8-9 | the left-to-right scanner of each pattern accepts exactly the strings of that pattern's language |
| InputValidator.CidrMatchIsLanguage | PortScanner/InputValidator.cs:8 | the anchored CIDR scanner accepts exactly four groups of 1-3 digits joined by dots, followed by nothing, "/16" or "/24" |
| InputValidator.RangeMatchIsLanguage | PortScanner/InputValidator.cs:9 | the unanchored range scanner accepts exactly the strings that contain some "a.b.c.d-e" word of 1-3-digit groups |
| InputValidator.MatchHasDigit | PortScanner/InputValidator.cs:13-17 | every string either pattern accepts contains a digit |
| InputValidator.BlankNeverMatches | PortScanner/InputValidator.cs:13-17 | text that either pattern accepts is never null or blank, so the guard only refuses what the patterns refuse |
| InputValidator.CidrSplitValid | PortScanner/InputValidator.cs:8 | four digit groups and a CIDR suffix always pass the validator |
| InputValidator.RangeSplitValid | PortScanner/InputValidator.cs:9 | five digit groups around three dots and a dash always pass the validator |
| InputValidatorExamples.ValidByScan | PortScanner/InputValidator.cs:20-25 | the validator's answer is that of the two scanners |
| InputValidatorExamples.BlankIsInvalid | PortScannerTests/InputValidatorTests.cs:11-16 | null, "" and " " are refused |
| InputValidatorExamples.Cidr23Refused | PortScannerTests/InputValidatorTests.cs:22 | "1.1.1.1/23" is refused |
| InputValidatorExamples.Cidr24Accepted | PortScannerTests/InputValidatorTests.cs:24 | "1.1.1.1/24" is accepted |
| InputValidatorExamples.Cidr24HostBitsAccepted | PortScannerTests/InputValidatorTests.cs:25 | "255.255.254.1/24" is accepted although it has host bits set |
| InputValidatorExamples.DashRangeAccepted | PortScannerTests/InputValidatorTests.cs:32 | "1.1.1.1-223" is accepted |
| InputValidatorExamples.SpaceAfterDashRefused | PortScannerTests/InputValidatorTests.cs:33 | "1.1.1.1- 243" is refused |
| InputValidatorExamples.WordRefused | PortScannerTests/InputValidatorTests.cs:39 | "invalidIp" is refused |
| InputValidatorExamples.NoOctetBound | PortScanner/InputValidator.cs:8-9 | neither pattern bounds a group by 255: "999.999.999.999" and "300.1.1.1-999" are accepted |
| InputValidatorExamples.EarlyDashRefused | PortScanner/InputValidator.cs:9 | "10.1-5.1.1", whose only dash follows the second group, is refused |
| InputValidatorExamples.LaterRangeAccepted | PortScanner/InputValidator.cs:9 | the range pattern is unanchored: "1-2.3.4.5-6" is accepted through its factor "2.3.4.5-6" despite the early dash |
| InputValidatorExamples.NoDashNoRange | PortScanner/InputValidator.cs:9 | a range match needs a dash with at least seven characters before it and a digit after it |
| InputValidatorExamples.CidrHasNoDash | PortScanner/InputValidator.cs:8 | no string in the CIDR language contains a dash |
| InputValidatorExamples.CidrSlashEndsInPrefix | PortScanner/InputValidator.cs:8 | in the CIDR language a slash only occurs as the start of a final "/16" or "/24" |
| Text.ParseInteger | PortScanner/Model/IPRange.cs:63 | a parsed value lies in the type's range; every failure is a FormatException or an OverflowException |
| Text.TryParseInt32 | PortScanner/MainWindow.xaml.cs:51 | a value exactly when int.Parse succeeds, and then an Int32 |
| Text.ParseIntToString | PortScanner/MainWindow.xaml.cs:63 | parsing the decimal text of an integer gives the integer back, or an OverflowException outside the type's range |
| Text.ParseRejectsStrayChar | PortScanner/Model/IPRange.cs:118 | a character that is not whitespace, a sign or a digit makes the parse throw a FormatException |
| Text.SplitJoinsBack | PortScanner/Model/IPRange.cs:58 | the parts String.Split returns, joined with the separator, give the text back |
| Text.SplitCount | PortScanner/Model/IPRange.cs:60 | Split returns one more part than there are separators |
| Text.SplitJoin | PortScanner/Model/IPRange.cs:107 | splitting separator-free parts joined by the separator gives the parts back |
| Words.ShiftLeft | PortScanner/Model/IPRange.cs:68 | `uint <<` (count masked to five bits, high bits dropped) stays a 32-bit word |
| Words.ShiftRight | PortScanner/Model/IPRange.cs:74 | `uint >>` (count masked to five bits) stays a 32-bit word and never grows |
| Words.AddWrap | PortScanner/Model/IPRange.cs:69 | `uint +` stays a 32-bit word and is the exact sum when that fits |
| Words.Wrap32 | PortScanner/Model/IPRange.cs:28 | an unchecked `int` result lies in the Int32 range and equals the exact value when that fits |
| Words.PrefixShiftIsByteCast | PortScanner/Model/IPRange.cs:73 | the shift is `(32 - prefix) mod 256`, the byte cast of the difference |
| Words.ShiftsKeep | PortScanner/Model/IPRange.cs:74-76 | shifting right then left by s < 32 gives the word back exactly when its low s bits are clear |
| Words.FillOnesValue | PortScanner/Model/IPRange.cs:80-83 | k rounds of `x = (x << 1) + 1` give `x * 2^k + 2^k - 1` truncated to 32 bits |
| Words.FillAll | PortScanner/Model/IPRange.cs:80-83 | 32 or more rounds leave a word of all ones |
| Words.SubnetCheck | PortScanner/Model/IPRange.cs:74-77 | the subnet check passes exactly when the address has no bits set below the masked shift |
| Words.UnpackOf | PortScanner/Model/IPRange.cs:88-92 | four bytes that are the octets of a word, most significant first, are its unpacking |
| IPRanges.Packed | PortScanner/Model/IPRange.cs:64-70 | the accumulator of the pack loop is always a 32-bit word |
| IPRanges.PackedBytes | PortScanner/Model/IPRange.cs:64-70 | dot-parts that parse to bytes pack to those bytes read big-endian |
| IPRanges.PackedStuck | PortScanner/Model/IPRange.cs:64-70 | once a round of the pack loop throws, that exception is the loop's outcome |
| IPRanges.PackedAddress | PortScanner/Model/IPRange.cs:64-70 | the decimal octets of an address pack to the address's 32-bit value |
| IPRanges.CidrAttempt | PortScanner/Model/IPRange.cs:53-98 | a stored CIDR box has four octets at each end |
| IPRanges.CidrSplitStep | PortScanner/Model/IPRange.cs:58-61 | on valid text with exactly one '/', the CIDR parser works on the two sides of the slash |
| IPRanges.NoSlashNoCidr | PortScanner/Model/IPRange.cs:58-61 | text without a '/' makes the CIDR parser return false |
| IPRanges.CidrSteps | PortScanner/Model/IPRange.cs:55-77 | valid text with one '/', a byte prefix and an address that packs reaches the subnet check with the packed address and the byte-cast shift |
| IPRanges.CidrBoxIsBlock | PortScanner/Model/IPRange.cs:73-92 | declined exactly when the address has bits set below the masked shift; otherwise the box runs from the address to the address with those bits set |
| IPRanges.CidrDeclines | PortScanner/Model/IPRange.cs:76-77 | an address with bits set below a shift under 32 fails the subnet check |
| IPRanges.CidrOrdered | PortScanner/Model/IPRange.cs:79-92 | every octet of a CIDR box has begin <= end |
| IPRanges.CidrText | PortScanner/Model/IPRange.cs:53-77 | "a.b.c.d/16" and "a.b.c.d/24" reach the subnet check with the address's value and a shift of 16 or 8 |
| IPRanges.CidrTextValid | PortScanner/InputValidator.cs:8 | "a.b.c.d/16" and "a.b.c.d/24" in decimal pass the validator |
| IPRanges.Cidr24Block | PortScanner/Model/IPRange.cs:53-98 | "a.b.c.0/24" is the block a.b.c.0 .. a.b.c.255 |
| IPRanges.Cidr16Block | PortScanner/Model/IPRange.cs:53-98 | "a.b.0.0/16" is the block a.b.0.0 .. a.b.255.255 |
| IPRanges.HostBitsDeclined | PortScanner/Model/IPRange.cs:76-77 | the CIDR parser returns false for "a.b.c.d/p" when the address has bits set below the prefix |
| IPRanges.SlashPartThrows | PortScanner/Model/IPRange.cs:113-118 | the dashed parser meets the '/' in the fourth part of "a.b.c.d/p", and byte.Parse throws a FormatException |
| IPRanges.HostBitsThrow | PortScanner/Model/IPRange.cs:19 | valid CIDR text with host bits set makes the constructor throw a FormatException |
| IPRanges.DocCidrExampleThrows | PortScanner/Model/IPRange.cs:52 | the documented CIDR example "10.10.10.10/16" passes the validator, and the constructor throws a FormatException for it |
| IPRanges.DocRangeExampleRefused | PortScanner/Model/IPRange.cs:101 | the documented range example "10.10.10.10-254-255" passes the validator, and the constructor throws an ArgumentException for it |
| IPRanges.LastPartDeclined | PortScanner/Model/IPRange.cs:103-126 | valid text without a slash whose fourth part the dashed parser declines makes the constructor throw an ArgumentException |
| IPRanges.HostBitsExample | PortScannerTests/InputValidatorTests.cs:25 | "255.255.254.1/24" passes the validator and the constructor throws a FormatException for it |
| IPRanges.PartSingle | PortScanner/Model/IPRange.cs:113-119 | a part holding one byte n gives the bounds n..n |
| IPRanges.PartPair | PortScanner/Model/IPRange.cs:113-119 | "lo-hi" gives lo..hi whatever the order of lo and hi |
| IPRanges.PartTwoDashes | PortScanner/Model/IPRange.cs:115-116 | a part with two or more dashes makes the parser return false |
| IPRanges.PartTooLarge | PortScanner/Model/IPRange.cs:118 | a number above 255 makes byte.Parse throw an OverflowException |
| IPRanges.PartStray | PortScanner/Model/IPRange.cs:118 | a dash-free part with a character byte.Parse cannot read throws a FormatException |
| IPRanges.PartsBounds | PortScanner/Model/IPRange.cs:107-113 | one bounds outcome per dot-part, in order, each that part's |
| IPRanges.RangeUpTo | PortScanner/Model/IPRange.cs:111-120 | after n rounds of the loop the stored bounds have n octets each |
| IPRanges.RangeStuck | PortScanner/Model/IPRange.cs:111-120 | once a round returns false or throws, that is the loop's outcome |
| IPRanges.RangeStopsAt | PortScanner/Model/IPRange.cs:111-120 | a missing fourth part throws IndexOutOfRangeException; a part that does not parse ends the loop with its own outcome |
| IPRanges.RangeGrows | PortScanner/Model/IPRange.cs:118-119 | a round that parses its part appends that part's begin and end octets |
| IPRanges.FourParts | PortScanner/Model/IPRange.cs:111-122 | four parts that each parse give the bounds they make up |
| IPRanges.ParseIPRange | PortScanner/Model/IPRange.cs:14-21 | ArgumentNullException exactly for null text; a successful parse gives four octets at each end |
| IPRanges.InvalidTextRefused | PortScanner/Model/IPRange.cs:19-20 | text the validator refuses makes both parsers return false and the constructor throw ArgumentException |
| IPRanges.InvalidIpThrows | PortScannerTests/InputValidatorTests.cs:37-40 | the constructor throws ArgumentException for "invalidIp" |
| IPRanges.ByRangeAlone | PortScanner/Model/IPRange.cs:19 | for valid text without a '/' the constructor's outcome is the dashed parser's |
| IPRanges.DeclinedThenRange | PortScanner/Model/IPRange.cs:19 | when the CIDR parser declines valid text, the constructor's outcome is the dashed parser's |
| IPRanges.SingleAddress | PortScanner/Model/IPRange.cs:14-21 | the decimal text of an address parses to the range holding just that address |
| IPRanges.SingleText | PortScanner/Model/IPRange.cs:103-126 | "a.b.c.d" is the range a.b.c.d .. a.b.c.d |
| IPRanges.DashedLast | PortScanner/Model/IPRange.cs:103-126 | "a.b.c.d-e" is a.b.c.d .. a.b.c.e, and nothing checks that d <= e |
| IPRanges.OctetOverflows | PortScanner/Model/IPRange.cs:118 | a last number from 256 to 999 passes the validator and then the constructor throws an OverflowException |
| IPRanges.PlainTextValid | PortScanner/InputValidator.cs:8 | "a.b.c.n" with n below 1000 passes the validator and has no '/' |
| IPRanges.DashedTextValid | PortScanner/InputValidator.cs:9 | "a.b.c.d-e" passes the validator and has no '/' |
| IPRanges.AddressText | PortScanner/Scanner.cs:187 | IPAddress.ToString of four bytes is "a.b.c.d" in decimal |
| IPRanges.Volume | PortScanner/Model/IPRange.cs:25-30 | reference definition, no contract: the number of addresses in the box, the exact product of the octet extents; `CapacityWraps`, `ExtentIsVolume` and `VolumeBound` relate it to the truncated capacity |
| IPRanges.Enumerate | PortScanner/Model/IPRange.cs:34-46 | reference definition, no contract: the addresses the nested loops add, in order; `RowsLength`, `EnumerateIsTheBox` and `AscendingDistinct` state what it holds |
| IPRanges.AllIP | PortScanner/Model/IPRange.cs:23-49 | reference definition, no contract: GetAllIP's list or exception; `OrderedAllIP` and the `...Throws` lemmas state when it succeeds and what it lists |
| IPRanges.RowsLength | PortScanner/Model/IPRange.cs:34-46 | the nested loops list as many addresses as the box holds |
| IPRanges.RowsMembers | PortScanner/Model/IPRange.cs:34-46 | the nested loops list exactly the addresses with the given prefix whose remaining octets lie in the box |
| IPRanges.RowsAscending | PortScanner/Model/IPRange.cs:34-46 | the loops list addresses in ascending order, octet 0 most significant |
| IPRanges.EnumerateIsTheBox | PortScanner/Model/IPRange.cs:34-46 | the enumeration lists every address of the box, only those, in ascending order |
| IPRanges.AscendingDistinct | PortScanner/Model/IPRange.cs:34-46 | the enumeration lists no address twice |
| IPRanges.CapacityWraps | PortScanner/Model/IPRange.cs:25-30 | truncating the product after every round gives the truncated exact product |
| IPRanges.ExtentIsVolume | PortScanner/Model/IPRange.cs:25-30 | with no octet range reversed by more than one, the exact product is the box's address count |
| IPRanges.VolumeBound | PortScanner/Model/IPRange.cs:34-46 | a box of n octet ranges holds at most 2^(8n) addresses |
| IPRanges.OrderedAllIP | PortScanner/Model/IPRange.cs:23-49 | for ordered bounds, GetAllIP lists the box, in order, exactly when it holds at most 2^31 - 57 addresses; otherwise it throws ArgumentOutOfRangeException for a count in [2^31, 2^32) and OutOfMemoryException for any other count |
| IPRanges.ReversedIsEmpty | PortScanner/Model/IPRange.cs:34-46 | a box with an octet range in reverse order holds no address |
| IPRanges.HalfSpaceThrows | PortScanner/Model/IPRange.cs:25-32 | 0.0.0.0 .. 127.255.255.255 wraps the capacity negative, and the List constructor throws |
| IPRanges.WholeSpaceThrows | PortScanner/Model/IPRange.cs:25-46 | the whole space wraps the capacity to 0, and an Add past the list's limit throws OutOfMemoryException |
| IPRanges.CapacityPastLimitThrows | PortScanner/Model/IPRange.cs:25-32 | 0.0.0.0 .. 173.214.225.253 gives a positive capacity of 2^31 - 8, and the List constructor throws OutOfMemoryException |
| IPRanges.ReversedOnceThrows | PortScanner/Model/IPRange.cs:25-32 | one octet range reversed by two makes the capacity -1, and GetAllIP throws |
| IPRanges.ReversedTwiceEmpty | PortScanner/Model/IPRange.cs:25-46 | two octet ranges reversed by two make the capacity 1: nothing throws, and nothing is listed |
| IPRanges.ReversedMayBeEmpty | PortScanner/Model/IPRange.cs:25-46 | 0.0.0.255 .. 255.255.255.0 wraps the capacity to +2^25: nothing throws, and nothing is listed |
| IPRanges.IPRange.Unparsed | PortScanner/Model/IPRange.cs:12-13 | before a parser runs, both arrays are null |
| IPRanges.IPRange.Create | PortScanner/Model/IPRange.cs:14-21 | a new range object exactly when ParseIPRange succeeds, holding its bounds; otherwise ParseIPRange's exception |
| IPRanges.IPRange.TryParseCIDR | PortScanner/Model/IPRange.cs:53-98 | returns or throws what CidrAttempt decides; on true the fields are new arrays holding its box, otherwise the fields are unchanged |
| IPRanges.IPRange.ReadCidr | PortScanner/Model/IPRange.cs:63-73 | byte.Parse of the prefix, then the pack loop: the packed word and the shift, or the exception |
| IPRanges.IPRange.PackAddress | PortScanner/Model/IPRange.cs:64-70 | the loop's accumulator is Packed over the first four parts |
| IPRanges.IPRange.StoreCidrBlock | PortScanner/Model/IPRange.cs:74-94 | false when the subnet check fails, with the fields unchanged; otherwise true with new arrays holding the block's first and last address |
| IPRanges.IPRange.UnpackWords | PortScanner/Model/IPRange.cs:85-92 | two new 4-byte arrays holding the octets of each word, most significant first |
| IPRanges.IPRange.FillHostBits | PortScanner/Model/IPRange.cs:79-83 | the loop's result is FillOnes of the shifted address |
| IPRanges.RangeAttempt | PortScanner/Model/IPRange.cs:103-126 | reference definition, no contract: the dashed parser's outcome, declined for invalid text, otherwise the parse of the four dot-parts; `FourParts`, `RangeStopsAt` and `PartTwoDashes` state its cases |
| IPRanges.IPRange.TryParseRange | PortScanner/Model/IPRange.cs:103-126 | returns or throws what RangeAttempt decides; invalid text leaves the fields alone; valid text replaces them with new arrays, which hold the bounds on true |
| IPRanges.IPRange.StoreOctets | PortScanner/Model/IPRange.cs:118-119 | octet i of each array is written and the octets before it are kept |
| IPRanges.IPRange.ParsePart | PortScanner/Model/IPRange.cs:113-119 | the outcome for one dot-part is PartBounds of it |
| IPRanges.IPRange.FillRange | PortScanner/Model/IPRange.cs:111-122 | the loop's outcome is RangeUpTo over the parts' bounds, and on true the arrays hold its box |
| IPRanges.IPRange.GetAllIP | PortScanner/Model/IPRange.cs:23-49 | the list or exception is AllIP of the stored octets |
| IPRanges.IPRange.CapacityOf | PortScanner/Model/IPRange.cs:25-30 | the loop's capacity is the truncated product over the four octets |
| IPRanges.IPRange.AddRows | PortScanner/Model/IPRange.cs:34-46 | the nested loops append the addresses of the box below the given prefix, in order, or throw OutOfMemoryException when the list would pass its limit |
| OpenPorts.OpenPort.ToString | PortScanner/Model/OpenPort.cs:11-14 | the line starts with the host, ends with " is open.", and is exactly as long as the host, a colon, the port's decimal text and the suffix |
| OpenPorts.ReadsBack | PortScanner/Model/OpenPort.cs:11-14 | a line rendered for a colon-free host and an Int32 port reads back as the same record |
| OpenPorts.ToStringInjective | PortScanner/Model/OpenPort.cs:11-14 | two such records that render the same line are the same record |
| OpenPorts.NoColonInDecimal | PortScanner/Model/OpenPort.cs:13 | the decimal text of an integer has no colon |
| Scanners.AddressMajorMembers | PortScanner/Scanner.cs:91-109 | the address-major grid holds exactly the pairs of a listed address and a listed port |
| Scanners.PortMajorMembers | PortScanner/Scanner.cs:128-146 | the port-major grid holds exactly the pairs of a listed address and a listed port |
| Scanners.AddressMajorLength | PortScanner/Scanner.cs:91-109 | the address-major grid has one pair per address and port |
| Scanners.PortMajorLength | PortScanner/Scanner.cs:128-146 | the port-major grid has one pair per port and address |
| Scanners.FullScanPorts | PortScanner/Scanner.cs:99 | the full scan tries exactly the ports 1 to 65534 with every address; port 65535 never |
| Scanners.ReachCounts | PortScanner/Scanner.cs:91-108 | pair j is reached before check c exactly when its own check comes before c |
| Scanners.CutAt | PortScanner/Scanner.cs:89-110 | reference definition, no contract: the pairs a sequential scan hands on before the cancelled check; `CutAtClosedForm` gives it in closed form |
| Scanners.CutAtClosedForm | PortScanner/Scanner.cs:91-109 | the pairs a cancelled sequential scan hands on are exactly the prefix of the grid of length min(grid size, pairs reached before the cancelled check) |
| Scanners.NeverCancelled | PortScanner/Scanner.cs:91-109 | a token never cancelled during the scan lets it hand on the whole grid |
| Scanners.LaterCancelMore | PortScanner/Scanner.cs:91-109 | a later cancellation hands on everything an earlier one does, in the same order |
| Scanners.QuickCut | PortScanner/Scanner.cs:66-88 | the quick scan hands on at most one pair more than the grid holds |
| Scanners.OuterCut | PortScanner/Scanner.cs:71-77 | cancelled at the outer check of row i: the rows before it and the first pair of row i, because Break does not return |
| Scanners.InnerCut | PortScanner/Scanner.cs:79-85 | cancelled at the check of pair k of row i: the pairs up to it, then the first pair of the next row if there is one |
| Scanners.QuickUncut | PortScanner/Scanner.cs:66-88 | never cancelled during its checks, the quick scan hands on the whole grid |
| Scanners.QuickCutExtendsCut | PortScanner/Scanner.cs:66-88 | the quick scan hands on the sequential cut as a prefix, and at most two pairs more |
| Scanners.QuickCutInGrid | PortScanner/Scanner.cs:66-88 | every pair the quick scan hands on is a pair of the grid |
| Scanners.ProbeReport | PortScanner/Scanner.cs:157-197 | a report exactly when the token was clear at the start, the connect won the race and succeeded, and the token is still clear; the report names the address text and the port |
| Scanners.Reports | PortScanner/Scanner.cs:157-197 | at most one report per probed pair |
| Scanners.ReportsComeFromOpenPorts | PortScanner/Scanner.cs:169-188 | every report names a probed pair whose connect succeeded with the token clear throughout |
| Scanners.CancelledScanReportsNothing | PortScanner/Scanner.cs:169-184 | a token cancelled at either check of every probe silences all of them |
| Scanners.ReportsAppend | PortScanner/Scanner.cs:157-197 | the reports of two runs of probes are those of each run in turn |
| Scanners.QuickScanSilentAfterCut | PortScanner/Scanner.cs:66-88 | the pairs a quick scan hands on past the sequential cut are probed with the token cancelled, so the scan reports what the cut reports |
| Scanners.DottedTextHasNoColon | PortScanner/Scanner.cs:187 | the dotted text of an address has no colon |
| Scanners.ReportReadsBack | PortScanner/Scanner.cs:187 | every report's line reads back as the same address text and port |
| Scanners.Scanner.constructor | PortScanner/Scanner.cs:45-54 | the addresses are kept in the order given |
| Scanners.Scanner.ScanAsync | PortScanner/Scanner.cs:63-111 | the pairs handed to ScanPortsAsync: the quick cut of the common-port grid, or the sequential cut of the full grid |
| Scanners.Scanner.ScanAllPorts | PortScanner/Scanner.cs:89-110 | the full scan hands on the sequential cut of the address-major grid over ports 1 to 65534 |
| Scanners.Scanner.FullRow | PortScanner/Scanner.cs:99-108 | the port loop for one address hands on the prefix of its row that the clean checks allow, and numbers the check after it |
| Scanners.Scanner.ScanCommonPorts | PortScanner/Scanner.cs:66-88 | the quick scan hands on QuickCut of the rows of the common ports |
| Scanners.Scanner.QuickRow | PortScanner/Scanner.cs:77-86 | the inner loop hands on every port up to and including the first whose check sees the token cancelled |
| Scanners.Scanner.ScanAsyncOnPorts | PortScanner/Scanner.cs:119-148 | nothing for a quick scan; otherwise the sequential cut of the port-major grid over the given ports |
| Scanners.Scanner.PortColumn | PortScanner/Scanner.cs:136-144 | the address loop for one port hands on the prefix of its column that the clean checks allow, and numbers the check after it |
| Executors.Chunks | PortScanner/ScannerExecutor.cs:93-109 | reference definition, no contract: consecutive slices of `size` items, the last possibly shorter; `ChunksChunked`, `ChunkCount` and `ChunkAt` state its shape |
| Executors.ChunksChunked | PortScanner/ScannerExecutor.cs:93-109 | the chunks read back as the source, none is empty, each holds at most `size` items, and all but the last exactly `size` |
| Executors.ChunkCount | PortScanner/ScannerExecutor.cs:93-109 | a chunking by size >= 1 has ceil(count / size) chunks |
| Executors.ChunkAt | PortScanner/ScannerExecutor.cs:93-109 | chunk c is the stretch of the source from c * size, at most `size` long |
| Executors.ChunkedUnique | PortScanner/ScannerExecutor.cs:93-109 | a chunking is determined by its source and its size |
| Executors.ChunkedIsChunks | PortScanner/ScannerExecutor.cs:93-109 | every chunking of a source by a size is Chunks of them |
| Executors.SplitChunks | PortScanner/ScannerExecutor.cs:117-132 | the chunks the loop hands on are Chunks of the source and size |
| Executors.PortChunkSize | PortScanner/ScannerExecutor.cs:67-70 | the port chunk size is at least 1 |
| Executors.Plan | PortScanner/ScannerExecutor.cs:41-84 | reference definition, no contract: the mode choice and the jobs BuildExecutor starts; `PlanFails`, `PlanCovers` and `PlanTriesEachPairOnce` state its properties |
| Executors.PlanFails | PortScanner/ScannerExecutor.cs:46-67 | the plan fails exactly when there are no addresses or no tasks, and then with a DivideByZeroException |
| Executors.AddressModePlan | PortScanner/ScannerExecutor.cs:48-61 | address mode: one job per chunk, ceil(count / chunk size) jobs of at most chunk-size addresses, reading back as the address list |
| Executors.MoreJobsThanTasks | PortScanner/ScannerExecutor.cs:48-61 | five addresses over three tasks make five jobs |
| Executors.PortModePlan | PortScanner/ScannerExecutor.cs:63-83 | port mode: every job holds all the addresses and a chunk of the port space, and the chunks read back as the port space |
| Executors.AddressJobsCover | PortScanner/ScannerExecutor.cs:54-61 | address jobs over chunks together walk the address-major grid of all the chunks' addresses |
| Executors.PortJobsCover | PortScanner/ScannerExecutor.cs:76-82 | port jobs together walk the port-major grid of all the ports, or nothing for a quick scan |
| Executors.AddressPlanCovers | PortScanner/ScannerExecutor.cs:48-61 | in address mode the jobs walk every address with the scanner's ports |
| Executors.PortPlanCovers | PortScanner/ScannerExecutor.cs:63-83 | in port mode the jobs walk every port 1 to 65535 with every address, or nothing for a quick scan |
| Executors.PlanCovers | PortScanner/ScannerExecutor.cs:41-84 | the jobs of any plan together walk exactly the grid of its mode |
| Executors.QuickScanNeedsAddressMode | PortScanner/ScannerExecutor.cs:63-83 | a quick scan of one address, or of no more addresses than tasks, tries nothing, or divides by zero when there are no tasks |
| Executors.LastPortOnlyInPortMode | PortScanner/ScannerExecutor.cs:68 | a full scan tries port 65535 of a listed address exactly when it is in port mode |
| Executors.AddressMajorDistinct | PortScanner/Scanner.cs:91-109 | distinct addresses and ports give an address-major grid with no pair twice |
| Executors.PortMajorDistinct | PortScanner/Scanner.cs:128-146 | distinct addresses and ports give a port-major grid with no pair twice |
| Executors.PlanTriesEachPairOnce | PortScanner/ScannerExecutor.cs:41-84 | with distinct addresses, the jobs of a full scan try each pair of the mode exactly once and no other pair |
| Executors.Started | PortScanner/ScannerExecutor.cs:57-60 | one non-null task per job, in order |
| Executors.NonNullMembers | PortScanner/ScannerExecutor.cs:145 | removing the null tasks keeps exactly the non-null ones |
| Executors.NonNullAppend | PortScanner/ScannerExecutor.cs:145 | removal keeps the order of the list |
| Executors.NonNullKeepsStarted | PortScanner/ScannerExecutor.cs:145 | a list without a null task is left as it is |
| Executors.NonNullIdempotent | PortScanner/ScannerExecutor.cs:143-147 | a second GetRunningTasks removes nothing more |
| Executors.ScannerExecutor.constructor | PortScanner/ScannerExecutor.cs:26-32 | keeps the task count, with no tasks and an uncancelled source |
| Executors.ScannerExecutor.Create | PortScanner/ScannerExecutor.cs:26-32 | a negative task count makes `new List<Task>(n)` throw ArgumentOutOfRangeException; any other gives an executor with that count |
| Executors.ScannerExecutor.SplitWork | PortScanner/ScannerExecutor.cs:46-76 | the chunking and modes BuildExecutor computes give Plan of the addresses, the task count and the scan kind |
| Executors.ScannerExecutor.SplitAddresses | PortScanner/ScannerExecutor.cs:48-61 | address mode: one address job per chunk of count / tasks addresses |
| Executors.ScannerExecutor.SplitPorts | PortScanner/ScannerExecutor.cs:63-83 | port mode: one port job per chunk of the port space of PortChunkSize ports |
| Executors.ScannerExecutor.BuildExecutor | PortScanner/ScannerExecutor.cs:41-84 | the plan's DivideByZeroException with the task list unchanged, or one task per job appended after those already listed; the source stays as it was |
| Executors.ScannerExecutor.StartJobs | PortScanner/ScannerExecutor.cs:54-82 | one started task per job, appended in order |
| Executors.ScannerExecutor.StopAllTasks | PortScanner/ScannerExecutor.cs:137-141 | the source is cancelled and the tasks stay listed |
| Executors.ScannerExecutor.GetRunningTasks | PortScanner/ScannerExecutor.cs:143-147 | the null tasks are removed in place and the cleaned list is returned |
| MainWindows.TaskCount | PortScanner/MainWindow.xaml.cs:49-66 | the stored count is 0 exactly when the text does not parse, is the parsed value when that lies in 1..4000, and always lies in 0..4000 |
| MainWindows.TaskTextSettles | PortScanner/MainWindow.xaml.cs:49-66 | the text the handler writes back gives the same count and the same text again, so the TextChanged it raises changes nothing |
| MainWindows.SliderTextCount | PortScanner/MainWindow.xaml.cs:122-133 | a slider value written into the box is kept when in 1..4000 and becomes 1 otherwise, including the slider's maximum 4001 |
| MainWindows.EmptyTextUnparsed | PortScanner/MainWindow.xaml.cs:51-54 | an empty box does not parse |
| MainWindows.RangeCheck | PortScanner/MainWindow.xaml.cs:269-317 | accepted exactly when the text parses to a value in [min, max], and then that value is stored; the box is cleared exactly when the text does not parse |
| MainWindows.RangeCheckOfDecimal | PortScanner/MainWindow.xaml.cs:269-317 | an Int32 in decimal is accepted and stored exactly when it lies in [min, max]; any other stores the reset value and keeps the box |
| MainWindows.DefaultTimeoutAccepted | PortScanner/MainWindow.xaml.cs:44-45 | the timeout text the constructor writes passes the timeout check with 5000 |
| MainWindows.Gate | PortScanner/MainWindow.xaml.cs:147-177 | DoScan passes its checks only when the range parses and both the timeout and the connection count are accepted; a failed check never starts a scan |
| MainWindows.GatePasses | PortScanner/MainWindow.xaml.cs:147-177 | after the checks pass, the bounds have four octets and the timeout and connection count lie in their ranges |
| MainWindows.MainWindow.constructor | PortScanner/MainWindow.xaml.cs:35-46 | stop and clear disabled, the save button visible, the timeout set to its default and written into its box, no executor |
| MainWindows.MainWindow.NumberOfTaskInputTextChanged | PortScanner/MainWindow.xaml.cs:49-66 | the count becomes TaskCount of the box; the box is cleared or holds the count; the slider follows a parsed count |
| MainWindows.MainWindow.NumberOfTaskSliderValueChanged | PortScanner/MainWindow.xaml.cs:122-133 | the slider's value in decimal becomes the box's text |
| MainWindows.MainWindow.UpdateButtons | PortScanner/MainWindow.xaml.cs:68-74 | scan and clear enabled and stop disabled exactly when not scanning; save visible exactly when scanning |
| MainWindows.MainWindow.ClearButtonClick | PortScanner/MainWindow.xaml.cs:111-119 | the slider goes back to 1 and the range, connection and timeout boxes are emptied; a slider that moves writes "1" into the task box, and a task box that changes sets the task count to 1; otherwise the box and the count are kept |
| MainWindows.MainWindow.OnInputError | PortScanner/MainWindow.xaml.cs:253-260 | scanning stops and the buttons show an idle window |
| MainWindows.MainWindow.ValidateTimeOutInput | PortScanner/MainWindow.xaml.cs:269-291 | the answer, the stored timeout and whether the box is cleared are those of the timeout check (100..8000, reset 5000) |
| MainWindows.MainWindow.ValidateNumberOfConnectionInput | PortScanner/MainWindow.xaml.cs:293-317 | the answer, the stored count and whether the box is cleared are those of the connection check (0..20000, reset 10000) |
| MainWindows.MainWindow.CheckInputs | PortScanner/MainWindow.xaml.cs:147-177 | Gate decides the result; a rejected box runs OnInputError; a later box is not read once an earlier check fails; on success a new range object holds Gate's bounds |
| MainWindows.MainWindow.StartScan | PortScanner/MainWindow.xaml.cs:179-186 | scanning is set and the buttons follow; GetAllIP's exception leaves, or a new executor with the current task count holds one task per job of the plan, or the plan's exception with no task; a task count of 0 never starts; the timeout and connection fields are kept |
| MainWindows.MainWindow.DoScan | PortScanner/MainWindow.xaml.cs:139-186 | a failed check is the outcome, with the executor unchanged, the buttons idle after a rejection and unchanged after an escaping exception; the timeout and connection validators store what they read whenever DoScan reaches them, and the fields are kept otherwise; passed checks launch the scan over Gate's bounds; a task count of 0 never starts one |
| MainWindows.MainWindow.StopTasks | PortScanner/MainWindow.xaml.cs:227-240 | with no executor, a NullReferenceException and scanning unchanged; otherwise the executor's source is cancelled, scanning stops and the null tasks are removed |
| MainWindows.MainWindow.StopButtonClick | PortScanner/MainWindow.xaml.cs:96-108 | with no executor, stopTasks' NullReferenceException and scanning unchanged; otherwise the tasks are cancelled and cleaned and scanning stops; either way the buttons follow the scanning flag |
| MainWindows.MainWindow.SaveButtonClick | PortScanner/MainWindow.xaml.cs:87-94 | with no executor, stopTasks' NullReferenceException and scanning unchanged; otherwise the tasks are cancelled and cleaned and scanning stops; a failed report write is the handler's exception and leaves the buttons as they were; otherwise the buttons follow the scanning flag |
| MainWindows.MainWindow.ScanFinished | PortScanner/MainWindow.xaml.cs:187-207 | scanning stops, the buttons follow, the executor and its task list (cleaned before the await) are left as they are, and the report is written exactly when awaiting did not report a cancellation |
| MainWindows.SaveBeforeAnyScan | PortScanner/MainWindow.xaml.cs:227-230 | a new window shows the save button, and clicking it throws a NullReferenceException |
| MainWindows.ClearResetsTaskCount | PortScanner/MainWindow.xaml.cs:111-133 | a task box holding 50 gives 50 tasks, and after Clear the task count is 1 |

## Left out

- Sockets and timers. The outcome of `ConnectAsync` and of its race against the 5-second timer is a parameter of each probe (`Probe`). No connection is modelled.
- Concurrency. Tasks are `Job` values that record what they would run. `Task.Run`, `Task.WhenAll` and the thread pool are not modelled. `Parallel.ForEach` runs its iterations one after another in list order, so `Scanners.QuickCut` describes that order only. Each `ScanPortsAsync` call is started without being awaited, so probes overlap; `Scanners.Reports` lists the reports in probe order, which is their order only in the model.
- Event re-entrancy inside the task-box handler. Its own writes raise `TextChanged` and the slider's `ValueChanged` again; these are not replayed. They write back the same text (`TaskTextSettles`, `SliderTextCount`), so they change nothing. `ClearButtonClick` does replay the chain its slider assignment raises.
- Slider drags as one step. A drag is `NumberOfTaskSliderValueChanged` followed by `NumberOfTaskInputTextChanged` when the text changed. No member composes the two for a drag; `ClearButtonClick` composes them for its own slider assignment.
- What the dispatcher does with the exception of `stopTasks` once the handler returns. By default WPF ends the application; this is not modelled.
- The runtime version. `MaxListLength` is `Array.MaxLength` of .NET 6 and later; earlier runtimes stop arrays of references at 0x7FEFFFFF. Running out of memory below either limit is not modelled.
- Logging (NLog), message boxes, the cursor, focus and border colour, and the `_items` collection with `UpdateGui` and the dispatcher. They are front-end effects with no bearing on the values modelled.
- The report file (`WriteOnFile`): its path, its contents and the file system. Whether the write throws does matter, and it is the `writeFails` parameter of `MainWindow.SaveButtonClick`. A failed write there skips `UpdateButtons`. In DoScan the write is the last step, so `ScanFinished` only says whether it is attempted.
- The XAML initial state of the controls. `MainWindow.xaml` is not part of this model, so the constructor uses the WPF defaults: empty text, enabled buttons, a visible save button.
- The window's five-argument call of `BuildExecutor`. `ScannerExecutor.BuildExecutor` takes three arguments, and the model calls it with those three; the timeout and the connection count are stored by the window and read nowhere else.
- `Scanner.commonPorts`, which `BuildExecutor` reads in port mode. The `Scanner` class declares only the instance array `ports`, and the model uses that list.
- `Scanner.ScanPort`. It is private and never called.
- The lazy iterators of `SplitIPChunks` and `SplitPortChunks`. The chunks are built eagerly, in the same order.
- `IsCancellationRequested` races. The token is the `cancelAt` oracle, which is monotone by construction.
- Regular-expression engine details beyond the two patterns. Two of them are named here. In .NET, `$` also matches before a final newline, so "1.1.1.1/24\n" passes the CIDR pattern; the model's anchored scanner accepts only the end of the text. Without `RegexOptions.ECMAScript`, `\d` in the range pattern also matches non-ASCII Unicode decimal digits (Arabic-Indic digits, for instance); the model's `IsDigit` accepts only '0' to '9'.
- Culture-specific signs and digits, and trailing NUL characters, in the integer parsers.
- `TextBox.Text` is never null, so DoScan's `ArgumentNullException` catch is unreachable. The model passes the box's text as a non-null value.
- Whether awaiting the tasks reports a cancellation. This is the `isCancelled` parameter of `MainWindow.ScanFinished`.
- DoScan is modelled up to its first `await` (`DoScan`, split into `CheckInputs` and `StartScan`), and the rest is `ScanFinished`. An exception that leaves DoScan is its `Thrown` outcome.
- Scanners.QuickCut: states the order of a sequential run of the two `Parallel.ForEach` loops; any other interleaving the thread pool may choose is not covered.
- MainWindows.MainWindow.DoScan: the `_items` reset at its start is not modelled.
