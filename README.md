# Clocker core, modelled in Dafny

Clocker (`clocker.py`) is a Windows desktop tool that fakes the system clock
and machine identity. It can:

- set the date and time through the service and shell commands;
- change the computer name and timezone;
- override a network adapter's hardware (MAC) address in the registry;
- guard all of this behind a password screen.

Most of the program is OS plumbing and widgets. This project models the
decision logic between those calls and proves properties of it.

- **`MacAddress`** handles addresses:
  - the format check the address panel applies, shaped like its regular
    expression, including how Python's `$` behaves;
  - the normaliser that strips `-` and `:` before the registry write;
  - the formatter behind the random-address button.
- **`AdapterRegistry`** models the registry scans and the apply flow:
  - the bounded, first-match scans of `set_mac_address` and
    `reset_mac_address` over the network-adapter class key;
  - the panel's `apply_mac` flow, which refuses input without administrator
    rights and refuses empty or malformed addresses.
- **`ToolOutput`** parses OS tool output:
  - the CSV adapter table printed by `getmac /v /fo csv`;
  - the timezone filter over `tzutil /l`, with its 50-entry cap and its
    fallback list.
- **`DateTimeCmd`** covers setting the clock:
  - the date-time validity check, which is Python's `datetime`
    constructor: proleptic Gregorian calendar, years 1 to 9999;
  - the argument strings for `date`, `time` and PowerShell's `Set-Date`;
  - the order of the five commands `set_system_datetime` issues;
  - the panel's `apply_datetime` flow.
- **`LoginGate`** models the password screen:
  - a `LoginScreen` class whose handlers update its fields;
  - pure transition functions that specify those handlers, and lemmas
    about sessions of attempts.
- **`PyText`** gives the Python string operations the code relies on an
  exact meaning: `strip` with Python's whitespace set, `split` and `join`
  on one character, `replace(c, '')`, `lower`, substring `in`, `str(n)`,
  `f"{n:02d}"`, slicing `[:n]`, and filtered comprehensions.
- **`Wrappers`** holds the `Option` and `Result` types.

The OS is represented by values:

- The registry is a `ClassKey` value. Its subkeys say whether each one
  opens, its `DriverDesc`, its `NetworkAddress`, and whether writes to it
  succeed. An operation returns the registry as it leaves it.
- A `subprocess.run` result is given as its standard output, or `None`
  when the launch raised.
- `netsh` runs and clock commands are returned as the list of commands
  issued, in order.
- The step at which a clock command raises, and the exception's text, are
  parameters.
- `is_admin()` is a boolean parameter.
- SHA-256 is a function value given to the login screen.
- The random bytes of the address generator are parameters, within the
  ranges `random.randint` draws them from.

Where the model follows the code rather than what the program's comments
or UI suggest:

- The generated addresses start with `00-16-3E`. The locally-administered
  bit of the first octet is therefore clear. `MacAddress.RandomMacShape`
  proves that the bit is clear.
- The lockout disables only the Unlock button. Return in the password
  entry (clocker.py:528) still calls `verify_password`, so while locked:
  - the right password is still accepted;
  - wrong passwords keep being counted past five;
  - each further wrong password schedules another reset.

  `LoginGate.LockoutStillVerifies` states this.
- The date panel catches only `ValueError`. The `datetime` constructor
  first converts each field to a C `int`, and a field of 2^31 or more,
  or below −2^31, raises `OverflowError` before any range check. That
  exception escapes the handler, so the status label keeps its old text.
  `DateTimeCmd.ApplyDateTime` states this.
- The `MacAddress` pattern is applied with Python's `$`, which also
  matches just before a final newline. The panel strips the entry first,
  so on the text it validates, the pattern accepts exactly the two
  address forms.

## Model

| member | source | states |
|---|---|---|
| MacAddress.MacPatternMatches | clocker.py:1399-1401 | the `re.match` of the two-branch pattern with Python's `$`; a match is 12 or 17 characters plus at most one final newline |
| MacAddress.MacPatternIff | clocker.py:1400-1401 | the address pattern matches exactly six hex pairs separated by `-` or `:` (mixed allowed), or twelve hex digits, in either case optionally followed by one newline |
| MacAddress.ValidatorOnTrimmed | clocker.py:1393-1401 | on a stripped entry, the pattern accepts exactly the two address forms |
| MacAddress.AcceptedExamples | clocker.py:1400-1401 | upper-, lower-, mixed-separator and bare addresses are accepted |
| MacAddress.RejectedExamples | clocker.py:1400-1401 | five groups, and twelve characters with a non-hex one, are rejected |
| MacAddress.Normalise | clocker.py:240 | `replace('-', '').replace(':', '')`: the result holds no separator and is no longer than the input |
| MacAddress.NormaliseChars | clocker.py:240 | the normalised address holds every character of the input except `-` and `:`, and nothing else |
| MacAddress.NormaliseAppend | clocker.py:240 | normalising works piecewise, so the kept characters keep their order |
| MacAddress.NormaliseIdempotent | clocker.py:240 | normalising twice equals normalising once |
| MacAddress.NormaliseSeparated | clocker.py:240 | a separated address normalises to its six hex pairs, concatenated in order |
| MacAddress.NormaliseWellFormed | clocker.py:240 | every accepted address normalises to exactly twelve hex digits |
| MacAddress.FormatRandomMac | clocker.py:228-234 | the `%02X` octets `00`, `16`, `3E` and the three drawn bytes joined by `-`: 17 characters starting `00-16-3E-` |
| MacAddress.RandomMacChars | clocker.py:228-234 | the generated address, character by character: `00-16-3E-` then three upper-case hex pairs joined by `-` |
| MacAddress.RandomMacShape | clocker.py:228-234 | the generated address is 17 upper-case characters with `-` separators and the prefix `00-16-3E`; its octets read back as the six bytes, so the fourth is at most 0x7F; the locally-administered bit is clear |
| MacAddress.RandomMacValidates | clocker.py:228-234 | every generated address passes the panel's pattern |
| AdapterRegistry.ScanEndFrom | clocker.py:247-280 | the scan tries at most indices 0..99, never past the last subkey; it stops at the first subkey that cannot be opened |
| AdapterRegistry.FirstFrom | clocker.py:253-256 | the index found is the first in range whose subkey has a `DriverDesc` that contains the adapter name (both lower-cased, containment as `PyText.ContainsIff` defines it), and, for a write, accepts it; None only when no index in range qualifies |
| PyText.ContainsIff | clocker.py:256 | substring `in` holds exactly when the needle occurs at some position of the text |
| AdapterRegistry.SetMacEffect | clocker.py:236-282 | `set_mac_address` succeeds exactly when the class key opens and the scan finds a writable subkey describing the adapter; a success cycles the adapter (disable, then enable) and keeps the number of subkeys; a failure leaves the registry unchanged and runs no `netsh` |
| AdapterRegistry.ResetMacEffect | clocker.py:284-327 | `reset_mac_address` succeeds exactly when the class key opens and the scan finds a subkey describing the adapter, whether or not its delete succeeds; a success cycles the adapter; a failure leaves the registry unchanged and runs no `netsh` |
| AdapterRegistry.SetMacAddress | clocker.py:236-282 | the scan loop's outcome, registry and `netsh` runs equal those of the set specification (`SetMacEffect`) |
| AdapterRegistry.ResetMacAddress | clocker.py:284-327 | the scan loop's outcome, registry and `netsh` runs equal those of the reset specification (`ResetMacEffect`) |
| AdapterRegistry.SetMacWritesOnlyTarget | clocker.py:247-282 | a set succeeds exactly when the key opens and a tried subkey describes the adapter and accepts the write; it then writes the normalised address into the first such subkey (index below 100, every earlier index opened and not selected), changes no other field, subkey or class-key field, and cycles the adapter; a failed set changes nothing and runs no `netsh` |
| AdapterRegistry.ResetMacTouchesOnlyTarget | clocker.py:290-327 | reset succeeds exactly when the key opens and some tried subkey describes the adapter, whether or not an override was set; it acts on the first such subkey, removes its override when the delete is allowed and changes no other field, subkey or class-key field, and cycles the adapter; on failure nothing changes |
| AdapterRegistry.TargetsSameShape | clocker.py:247-280 | changing override values never changes which subkey a scan picks |
| AdapterRegistry.ResetMacIdempotent | clocker.py:284-327 | resetting twice leaves the registry as resetting once does |
| AdapterRegistry.SetThenResetRestores | clocker.py:236-327 | when the first matching subkey is writable and had no override, set then reset restores the registry exactly, and both report success |
| AdapterRegistry.ApplyMac | clocker.py:1386-1413 | it refuses without admin rights, or when the stripped entry is empty or malformed, with the panel's messages, changing nothing; otherwise it does exactly what `set_mac_address` does with the stripped entry; any subkey it changes holds twelve hex digits |
| ToolOutput.ParseAdapterLine | clocker.py:217-223 | a data line with quotes removed and split on `,` is kept when it has at least three fields and the third is not `N/A`; a kept address is never `N/A`, and a line without a comma is never kept |
| ToolOutput.GetNetworkAdapters | clocker.py:205-226 | the parsing loop yields the records of the lines after the header, in order; a failed launch yields no records |
| ToolOutput.ParseAdapterLineClean | clocker.py:217-223 | a kept line's name, transport and address are free of quotes and commas, and the address is not `N/A` |
| ToolOutput.AdapterRecordsExact | clocker.py:215-223 | there are no more records than lines; each record is the parse of some line, with clean fields; every line that parses yields a record |
| ToolOutput.AdapterRecordsAppend | clocker.py:216-223 | records keep line order: parsing two blocks of lines gives the first block's records followed by the second's |
| ToolOutput.ParseQuotedRow | clocker.py:217-223 | a quoted CSV row of at least three clean fields parses back to its first three fields, unless the third is `N/A` |
| PyText.StripEmpty | clocker.py:185 | `line.strip()` is falsy exactly when the line is all whitespace |
| ToolOutput.TimezoneEntriesExact | clocker.py:184-185 | every entry is the stripped form of a kept line, so none is empty or untrimmed and none comes from a line starting with `(`; every kept line yields an entry |
| ToolOutput.TimezoneEntriesAppend | clocker.py:185 | entries keep line order |
| ToolOutput.FallbackTimezonesTrimmed | clocker.py:187-188 | the fallback list has four non-empty, trimmed entries |
| ToolOutput.AvailableTimezones | clocker.py:175-188 | the fallback list when the tool fails, otherwise the filtered listing cut to 50; never more than 50 entries, nor more than the listing holds, and exactly 50 when the listing holds more |
| ToolOutput.AvailableTimezonesShape | clocker.py:175-188 | the list has at most 50 entries, none empty, each trimmed; it is the fallback list when the tool fails, otherwise a prefix of the filtered list, the whole list when it has 50 entries or fewer, and exactly its first 50 otherwise |
| DateTimeCmd.DaysInMonth | clocker.py:1233 | a month has 28 to 31 days, and 29 exactly for February of a leap year |
| DateTimeCmd.CheckDateTime | clocker.py:1233 | the constructor's outcome: it succeeds exactly on valid date-times, and raises `OverflowError` exactly when some argument is outside the C int range |
| DateTimeCmd.CheckDateTimeExact | clocker.py:1233 | the constructor passes exactly on valid date-times; an argument outside the C int range overflows before any range check; otherwise the check names a field exactly when that field is out of range and every earlier one is in range, for each of the six fields |
| DateTimeCmd.LeapDay | clocker.py:1233 | 29 February is valid exactly in leap years; 30 February never is |
| DateTimeCmd.YearLength | clocker.py:1233 | the months of a year add up to 366 days in a leap year and 365 otherwise |
| DateTimeCmd.CheckDateTimeExamples | clocker.py:1233 | 2025-02-30 and 1900-02-29 are rejected for the day, 2024-02-29 is accepted, year 0 and hour 24 are rejected; year 2^31 − 1 is a `ValueError`, while year 2^31, or hour 2^31 on 30 February, overflows |
| DateTimeCmd.DateArgument | clocker.py:82 | `f"{month:02d}-{day:02d}-{year}"`: for fields that fit the padding, two digits, `-`, two digits, `-`, then the year's digits |
| DateTimeCmd.TimeArgument | clocker.py:83 | `f"{hour:02d}:{minute:02d}:{second:02d}"`: for fields below 100, eight characters `HH:MM:SS` |
| DateTimeCmd.SetDateCommand | clocker.py:102 | the PowerShell command starts `Set-Date -Date '`, ends with a quote, and the `time` argument comes just before that quote |
| DateTimeCmd.SetSystemDateTime | clocker.py:66-111 | it issues the five commands in order (stop the time service, unregister it, `date`, `time`, `Set-Date`) and reports success; when a call raises, only the commands before it were issued and the message reports the exception |
| DateTimeCmd.DateArgumentRoundTrip | clocker.py:82 | for a valid date-time, the `date` argument splits on `-` into a two-digit month, a two-digit day and an unpadded year of one to four digits, which read back as the fields |
| DateTimeCmd.TimeArgumentRoundTrip | clocker.py:83 | for a valid date-time, the `time` argument is eight characters `HH:MM:SS`, and its pieces read back as the fields |
| DateTimeCmd.CommandsAgree | clocker.py:82-102 | the PowerShell command sets the same date as `date`, year first, and its time half is the `time` argument |
| DateTimeCmd.ReadEntries | clocker.py:1225-1230 | the fields are converted in order year to second: the first field that fails supplies the error reported, and any error reported is one of the six fields' |
| DateTimeCmd.ReadEntriesOk | clocker.py:1225-1230 | the six fields convert exactly when each converts, giving the six numbers |
| DateTimeCmd.ApplyDateTime | clocker.py:1218-1243 | it refuses without admin rights; a field that fails `int()`, or a `ValueError` of the constructor, is reported as an invalid date/time and issues nothing; a field outside the C int range lets the `OverflowError` escape the handler, leaving the label unchanged and issuing nothing; only a valid date-time reaches `set_system_datetime`, whose outcome the panel shows |
| LoginGate.AfterVerify | clocker.py:554-568 | a matching hash calls the success callback and leaves count, label, button, entry and timers alone; a mismatch adds one to the count, clears the entry, shows the message for the new count, and from the fifth on disables the button and schedules exactly one more reset (none before the fifth) |
| LoginGate.AfterReset | clocker.py:570-573 | from any state, the reset leaves the screen consistent, and keeps the entry and the callback and timer counters |
| LoginGate.InitialGateValid | clocker.py:464-468 | a fresh screen satisfies the invariant: no attempts, label empty, button enabled |
| LoginGate.TransitionsKeepInvariant | clocker.py:554-573 | verifying, resetting and typing keep the invariant: the button is enabled exactly while fewer than five attempts are counted, the label shows the message for the count, and every lockout has scheduled its reset |
| LoginGate.TransitionsKeepInvariantAlong | clocker.py:554-573 | a whole session of attempts keeps the invariant |
| LoginGate.WrongPasswordsCounted | clocker.py:554-568 | each wrong password adds exactly one to the count and never calls the success callback; the button is enabled exactly while the count is below five |
| LoginGate.FifthWrongPasswordLocks | clocker.py:554-568 | from a fresh screen, four wrong passwords leave the button enabled; the fifth disables it, shows the lockout text and schedules a reset |
| LoginGate.LockoutStillVerifies | clocker.py:528-568 | while locked, a submission of the built-in password, or of any entry with its hash, is still accepted; any other entry is counted past five, keeps the button disabled and schedules another reset |
| LoginGate.ResetUnlocks | clocker.py:570-573 | a reset zeroes the count, clears the label and re-enables the button, leaving the rest unchanged |
| LoginGate.LoginScreen.constructor | clocker.py:464-468 | a new screen stores the hash of the built-in password and starts from the initial state |
| LoginGate.LoginScreen.Type | clocker.py:524-528 | typing changes only the entry's text, and keeps the invariant |
| LoginGate.LoginScreen.VerifyPassword | clocker.py:554-568 | the handler's new state is the verify transition of the old state, given whether the old entry's hash equals the stored one; it keeps the invariant |
| LoginGate.LoginScreen.ResetAttempts | clocker.py:570-573 | the handler's new state is the reset transition of the old state, which satisfies the invariant |

## Left out

- Running the OS commands, in any form. This covers `subprocess`
  (`sc`, `w32tm`, `cmd date/time`, PowerShell, `tzutil`, `netsh`,
  `getmac`), `winreg` and `ctypes`. They become the inputs and effects
  described above. The commands this model covers (the clock commands,
  the `netsh` runs, `getmac` and `tzutil /l`) have their exit codes
  ignored by the program, so the model ignores them too.
- The one-second `time.sleep` between the `netsh` runs, and the 30-second
  timer delay. The timer becomes a count of scheduled resets plus an
  explicit reset event.
- AdapterRegistry.SetMacAddress: a `netsh` launch that raises inside the
  scan is not modelled. The program would swallow it, close the subkey
  and continue scanning.
- AdapterRegistry.ResetMacAddress: a `netsh` launch that raises inside
  the scan (clocker.py:305-315) is not modelled either. The program
  swallows it (clocker.py:318) and goes on scanning. It can then delete
  the override of later matching subkeys, and it can end with
  "Adapter not found" after the first override is already gone.
- DateTimeCmd.ApplyDateTime: `int()` itself is not modelled. Each field
  arrives already converted, or as the text of the `ValueError` it
  raised. When the `OverflowError` escapes the handler, Tk's reporting
  of the uncaught exception is not modelled. The model only records that
  the exception escaped.
- `DateTimeCmd.ErrorText` gives the wording of the `datetime`
  constructor's errors. That wording belongs to Python, not to this
  program.
- `lower()` folds ASCII letters only. Python also lower-cases non-ASCII
  letters in adapter names and descriptions.
- SHA-256 itself. Two passwords with equal digests are treated alike, as
  the program treats them.
- `restore_time_sync`, `get_computer_name`, `set_computer_name`,
  `get_timezone_info` and `set_timezone`. They contain no decisions beyond
  the OS calls they make:
  - `restore_time_sync` runs three commands (`w32tm /register`,
    `sc start w32time`, `w32tm /resync /nowait`) and reports success
    unless one raises.
  - `set_computer_name` writes the name under two registry keys.
  - `get_computer_name` and `get_timezone_info` return what the OS
    reports.
  - `set_timezone` runs `tzutil /s`. It reports success when the exit
    code is 0, and otherwise a failure message with the tool's error
    output.
- `load_config`/`save_config` (file I/O), `start_clock_update`/`stop` (a
  background thread) and `apply_offset` (depends on the current time).
- All widget classes, and the `MainApp`/`ClockerApp` wiring. Of the
  status labels, only their text is modelled.
- The colour of each status label.
- The `Applying MAC address...` interim text.
- `docs/script.js` is not part of this model.
