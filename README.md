# OneShot-Extended utilities, modelled in Dafny

This project models the utility layer of OneShot-Extended, a WPS attack tool for
wireless networks. The utilities live in `src/utils`:

- **`NetworkAddress`** (`network.py`) is the MAC address value type. The input has every
  `:` and `-` removed and is upper-cased. The result must be 12 characters long. It is
  then read as a base-16 integer.
- **Interface control** (`interface.py`):
  - `ifaceCtl` brings an interface up or down with `ip`, falling back to `ifconfig`.
  - `getInterface` discovers wireless interfaces from `iwconfig` output, or from
    `/sys/class/net`, and picks one of them, asking the user when there are several.
  - `checkInterface` tells whether an interface exists, is wireless and is up.
- **Platform checks** (`system.py`):
  - `isAndroid` recognises Android.
  - `getAndroidArch` classifies the CPU architecture.
  - `checkRoot` tests for root.
  - `checkDependencies` searches `PATH` for the external tools the program drives.

Files:

- `common.dfy`: `Option` and `Result`.
- `text.dfy` (module `Text`): the Python string and integer semantics the utilities depend
  on. It covers `str.isspace`, `str.strip`, ASCII `upper`/`lower`, `replace(c, '')`,
  `split`, the grammar `int(s, base)` accepts for bases 10 and 16, and decimal and
  hexadecimal formatting.
- `network.dfy` (module `Network`): `NetworkAddress` is a datatype, because the object is
  never changed after construction. Construction is a function returning a `Result`.
- `interface.dfy` (module `Interface`):
  - The operating system is an `Env` value. It records which paths exist, what the
    readable files hold, how each command line ends, what `os.listdir('/sys/class/net')`
    gives and which line `input()` returns.
  - `ifaceCtl` and `getInterface` are methods of a `Host` class. Its `trace` field records
    the effects in order: commands launched, sleeps, file reads and the printed menu.
  - Each method is proved equal to a specification function of the environment. The
    properties are lemmas about those functions.
  - `checkInterface` is a predicate.
- `system.dfy` (module `System`):
  - The answers of the foreign calls are a `Platform` value. These calls are
    `platform.system()`, `platform.machine()`, `os.getuid()`, `os.access`, `os.environ`
    and `os.path.exists`.
  - `checkDependencies` keeps its loops. It is a method proved against the predicate
    `DependenciesMet`.

Where the code and the design notes of the program disagree, the model follows the code:

- The `ifconfig` fallback of `ifaceCtl` reports success from the exit status alone.
  There is no read-back of `operstate`, for `up` as well as for `down`
  (`Interface.IfaceCtlFallsBack`).
- In `ifaceCtl`, failing to read `operstate` after a successful `ip link set … up` does
  not give `false`. It falls into the `ifconfig` fallback.
- The fallback scan of `getInterface` runs only when `iwconfig` exits non-zero or is not
  installed. An `iwconfig` that succeeds and lists nothing gives `''`.
- `getInterface` does not always return a name.
  - An end of input at the prompt raises `EOFError`.
  - Any error launching `iwconfig` other than `FileNotFoundError`, such as
    `PermissionError`, is not caught.
  - Both are `Err` results here.
- The design notes require 12 hexadecimal digits. The code only requires 12 characters
  and leaves the rest to `int(_, 16)`. That also accepts a `0x`/`0X` prefix, a leading
  `+`, single `_` between digits and surrounding whitespace. So `0XAABBCCDDEE` is
  accepted with the value `0xAABBCCDDEE` (`Network.PrefixAccepted`).
- The design notes define equality, ordering and hashing on `NetworkAddress` by its
  integer. The class defines none of them.
- Both construction errors are `ValueError`s: the length message, or the one `int()`
  raises.

## Model

| member | source | states |
|---|---|---|
| `Network.Normalize` | src/utils/network.py:10 | The normalised text is no longer than the input. Its full shape is stated by `NormalizeShape` and `NormalizeIsCanonicalize`. |
| `Network.Create` | src/utils/network.py:8-13 | Construction succeeds exactly when the normalised text has 12 characters and `int(_, 16)` accepts it. It fails with the length error exactly when the length is not 12. A built address satisfies `Valid`, and its string is the normalised input. |
| `Network.NormalizeShape` | src/utils/network.py:10 | The stored string has no `:`, no `-` and no lower-case ASCII letter. An input that already has none of them is stored unchanged. |
| `Network.NormalizeIsCanonicalize` | src/utils/network.py:10 | The chain `replace(':', '')`, `replace('-', '')`, `upper()` equals one left-to-right pass that drops each separator and upper-cases each other character. |
| `Network.NormalizeDropsSeparator` | src/utils/network.py:10 | A `:` or `-` at any position is dropped. |
| `Network.NormalizeIdempotent` | src/utils/network.py:10 | Normalising twice is normalising once. |
| `Network.CreateIgnoresSeparator` | src/utils/network.py:10 | Inserting a separator anywhere in the input builds the same address, or the same error. |
| `Network.CreateIgnoresCase` | src/utils/network.py:10 | Upper-casing the input first builds the same address, or the same error. |
| `Network.ViewsAgree` | src/utils/network.py:15-35 | `string`, `hex` and `str()` return the same text. |
| `Network.CreateIdempotent` | src/utils/network.py:8-13 | Constructing again from a built address's `string` gives the same address. |
| `Network.IntegerBound` | src/utils/network.py:30-32 | The integer of every built address lies in 0 .. 2^48 - 1. |
| `Network.HexRoundTrip` | src/utils/network.py:30-32 | When the string is 12 hex digits, `integer` is their big-endian value. Formatting it back as 12 zero-padded upper-case hex digits gives the string. |
| `Network.FromInteger` | src/utils/network.py:8-13 | Every 48-bit integer, written as 12 hex digits, builds the address with that integer. |
| `Network.ShortExample` | src/utils/network.py:11-12 | `AA:BB:CC` fails with the length error. |
| `Network.NonHexRejected` | src/utils/network.py:30-32 | A 12-character normalised text holding a letter from `G` to `Z`, other than `X`, fails with the error `int(_, 16)` raises. |
| `Network.PrefixAccepted` | src/utils/network.py:11-13 | `0X` followed by ten hex digits is accepted, with the value of those ten digits. That value written as 12 hex digits is not the stored string. |
| `Text.RemoveAll` | src/utils/network.py:10 | `replace(c, '')` leaves no `c`, is no longer than the input, and keeps a first character other than `c`. |
| `Text.RemoveAllAppend` | src/utils/network.py:10 | Removing a character distributes over concatenation. |
| `Text.RemoveAllSource` | src/utils/network.py:10 | Every character kept comes from the input. |
| `Text.Upper` | src/utils/network.py:10 | `upper()` keeps the length and maps each character to its ASCII upper case. |
| `Text.ParseInt` | src/utils/network.py:32 | An accepted literal has digits. Its value is at least 0 without a leading `-` and at most 0 with one. Surrounding whitespace, the `0X` prefix, a `-` sign and underscores are stated by `ParseTrimmed`, `ParsePrefixedHex`, `ParseNegativeDigits` and `ParseUnderscores`. |
| `Text.ParseTrimmed` | src/utils/network.py:32 | Whitespace that `int()` skips around a literal does not change what it parses to. |
| `Text.ParseUnderscores` | src/utils/network.py:32 | Digits grouped by single underscores are accepted, with the value of the digits alone. |
| `Text.IntSpaceIsSpace` | src/utils/network.py:32 | The whitespace `int()` skips is `str.isspace` whitespace, except that `int()` does not skip the four separators U+001C..U+001F. |
| `Text.ParsePlainDigits` | src/utils/network.py:32 | `int(s, base)` of a non-empty run of digits is their big-endian value. |
| `Text.ParsePrefixedHex` | src/utils/network.py:32 | `int('0X' + ds, 16)` is the value of the hex digits `ds`. |
| `Text.ParseRejects` | src/utils/network.py:32 | A character that is not whitespace, a sign, `0`, `x`, `X`, `_` or a hex digit makes `int(_, 16)` raise. |
| `Text.DigitPartKeeps` | src/utils/network.py:32 | Such a character survives stripping, the sign and the prefix, so it is read as a digit. |
| `Text.ParseBound` | src/utils/network.py:32 | A literal of n characters without `-` parses to a value in 0 .. base^n - 1. |
| `Text.ValueBound` | src/utils/network.py:32 | n digits have a value below base^n. |
| `Text.FormatHex` | src/utils/network.py:30-32 | The formatting has the requested width and holds only upper-case hex digits. |
| `Text.ValueOfFormatHex` | src/utils/network.py:30-32 | Reading back the hex formatting of a value that fits gives the value. |
| `Text.FormatHexOfValue` | src/utils/network.py:30-32 | Formatting the value of upper-case hex digits gives the digits back. |
| `Text.Strip` | src/utils/interface.py:35 | `strip()` is never longer than its input. What it keeps and drops is stated by `StripShape`. |
| `Text.StripShape` | src/utils/interface.py:35 | `strip()` keeps the run between the leading and the trailing whitespace. That run starts and ends with a non-space, and everything dropped is whitespace. |
| `Text.StripIdempotent` | src/utils/interface.py:35 | Stripping twice is stripping once. |
| `Text.StripSurrounded` | src/utils/interface.py:112 | Whitespace around a word that neither starts nor ends with whitespace is exactly what `strip()` removes. |
| `Text.ParseFormatInt` | src/utils/interface.py:84 | `int(str(k)) == k` for every integer `k`. |
| `Text.ParseNegativeDigits` | src/utils/interface.py:84 | A `-` before decimal digits negates their value. |
| `Text.Split` | src/utils/system.py:85 | `split(sep)` gives at least one piece, and no piece contains `sep`. |
| `Text.JoinSplit` | src/utils/system.py:85 | Joining the pieces of `split(sep)` with `sep` restores the text. |
| `Text.SplitJoin` | src/utils/system.py:85 | Splitting a join of pieces that do not contain the separator gives the pieces back. |
| `Text.LowerOfUpper` | src/utils/system.py:33 | Lower-casing forgets an earlier upper-casing. |
| `Interface.UsableState` | src/utils/interface.py:35-36 | Usable means `up` or `unknown` after stripping, so a usable text has at least two characters. `UsableStateSurrounded` shows surrounding whitespace does not matter. |
| `Interface.UsableStateSurrounded` | src/utils/interface.py:35-36 | `up` or `unknown` with any whitespace around it counts as usable. |
| `Interface.IfconfigFallback` | src/utils/interface.py:39-46 | The fallback launches `ifconfig` and reports its exit status as the result. |
| `Interface.IfaceCtlSpec` | src/utils/interface.py:9-46 | `true` needs a valid action and an existing interface. Nothing happens exactly when the action is invalid or the interface is missing. Otherwise the first effect is the `ip` command. |
| `Interface.IfaceCtlUpReadsBack` | src/utils/interface.py:28-36 | When `ip` succeeds for `up` and `operstate` can be read, the result is exactly whether the state is usable. `ifconfig` is never tried, even for a `down` state. |
| `Interface.IfaceCtlDownTrusted` | src/utils/interface.py:28-37 | When `ip` succeeds for `down`, the result is `true` and the `ip` command is the only effect. |
| `Interface.IfaceCtlFallsBack` | src/utils/interface.py:39-46 | A failing `ip`, or an unreadable `operstate` after `up`, hands over to `ifconfig`. Its exit status alone decides. The effects end with the `ifconfig` command, followed by the one-second sleep on success and by nothing on failure, so there is no read-back. |
| `Interface.IfaceCtlUpMatchesCheck` | src/utils/interface.py:30-36 | For a wireless interface, `up` through `ip` returns exactly what `checkInterface` returns. |
| `Interface.Host.IfaceCtl` | src/utils/interface.py:9-46 | The method's result and the effects it appends are those of `IfaceCtlSpec`. |
| `Interface.WordEnd` | src/utils/interface.py:62 | The word run found is maximal: all word characters, then a non-word character or the end. |
| `Interface.MatchAt` | src/utils/interface.py:62 | A match found at a position captures the maximal word run there. That run is followed by at least one blank, then `IEEE`, where the match ends. A match of the pattern at a position is the one found there. |
| `Interface.MatchAtComplete` | src/utils/interface.py:62 | Whenever `(\w+)\s+IEEE` matches at a position, `MatchAt` returns that match. |
| `Interface.WordEndOver` | src/utils/interface.py:62 | A word run that stops at a position ends there. |
| `Interface.FindAllMatched` | src/utils/interface.py:62 | Every name the scan returns is the word of such a match at some position of the output. |
| `Interface.FindAll` | src/utils/interface.py:62 | Every name `re.findall` returns is a non-empty run of word characters. |
| `Interface.Scan` | src/utils/interface.py:62 | The names scanned from the whole output are words, at most one per character. `FindAllMatched` shows each is followed by blanks and `IEEE`. |
| `Interface.FindAllEmpty` | src/utils/interface.py:62 | The scan finds nothing exactly when `MatchAt` finds nothing at every position. By `MatchAt` and `MatchAtComplete`, that is exactly when the pattern matches at no position. |
| `Interface.FilterWireless` | src/utils/interface.py:67-69 | The fallback scan keeps at most as many entries as there are. |
| `Interface.FilterWirelessAppend` | src/utils/interface.py:67-69 | The scan of a listing is the scan of its first part followed by the scan of the rest, so candidates keep the listing order. |
| `Interface.FilterWirelessFirst` | src/utils/interface.py:67-69 | The first candidate, which is returned without a prompt, is the first listed entry that has a `wireless` entry. |
| `Interface.FilterWirelessIff` | src/utils/interface.py:67-69 | An entry is kept exactly when it has a `wireless` entry. |
| `Interface.CollectWireless` | src/utils/interface.py:67-69 | The loop over the listing computes `FilterWireless`. |
| `Interface.Discover` | src/utils/interface.py:59-71 | A successful `iwconfig` yields the names scanned from its output, even none, and the listing is not consulted. |
| `Interface.Select` | src/utils/interface.py:73-90 | No candidate gives `''`, and one is returned as it is. Several without a prompt give the first. Any name returned is a candidate. The only failure is end of input while prompting. |
| `Interface.SelectTyped` | src/utils/interface.py:83-86 | Typing the decimal number `k` of a candidate, with `k` in 1..n, returns the `k`-th candidate. |
| `Interface.SelectParsed` | src/utils/interface.py:83-86 | Any line that `int()` reads as a number `k` in 1..n, whatever its spelling, returns the `k`-th candidate. |
| `Interface.SelectOtherwise` | src/utils/interface.py:83-90 | A line that is not a number, or a number outside 1..n, returns the first candidate. |
| `Interface.GetInterfaceResult` | src/utils/interface.py:48-90 | An unreadable `/sys/class/net` gives `''`. Any other name returned is a discovered candidate. It raises exactly when `iwconfig` cannot be launched, or when input ends at the prompt. |
| `Interface.GetInterfaceEvents` | src/utils/interface.py:59-84 | `iwconfig` is launched first. At most one more effect follows: the menu listing the candidates. It is shown exactly when there are several candidates and prompting is on. |
| `Interface.GetInterfaceFromListing` | src/utils/interface.py:65-90 | With discovery from `/sys/class/net`, the result is `''` or a listed interface with a `wireless` entry. |
| `Interface.CheckInterface` | src/utils/interface.py:92-116 | `true` needs the interface to exist and to be wireless, and its stripped `operstate` to be `up` or `unknown`. An unreadable `operstate` gives `false`. |
| `Interface.CheckedIsDiscovered` | src/utils/interface.py:92-116 | An interface `checkInterface` accepts, and `/sys/class/net` lists, is among the fallback candidates. |
| `Interface.Host.DiscoverCandidates` | src/utils/interface.py:59-71 | The discovery steps compute `Discover` and launch `iwconfig` once. |
| `Interface.Host.GetInterface` | src/utils/interface.py:48-90 | The method's result and effects are those of `GetInterfaceResult` and `GetInterfaceEvents`. |
| `System.Any` | src/utils/system.py:22 | `any(bs)` holds exactly when some element holds. |
| `System.Indicators` | src/utils/system.py:14-20 | There are five Android indicators. |
| `System.IsAndroid` | src/utils/system.py:7-22 | Android is recognised exactly when one of the five indicators holds. |
| `System.ClassifyArch` | src/utils/system.py:33-44 | The result is always one of `arm64`, `arm`, `x86_64`, `x86` or `''`. |
| `System.ClassifyArchIff` | src/utils/system.py:33-44 | Each result stands for exactly its machine names. `arm` is every other name starting with `arm`, so `arm64` never yields `arm`. `''` covers everything unmatched. |
| `System.ClassifyArchIgnoresCase` | src/utils/system.py:33 | The letter case of the machine name does not matter. |
| `System.GetAndroidArch` | src/utils/system.py:24-44 | Off Android the result is `''`. On Android it is the classification of the machine name. |
| `System.CheckRoot` | src/utils/system.py:46-60 | Off Android, root is exactly `uid == 0`. On Android it is `uid == 0` or a writable `/system`. A failing `os.access` reads as not writable. |
| `System.RequiredTools` | src/utils/system.py:68-81 | The five base tools always come first. `su` and `tsu` are required exactly on Android. |
| `System.PathJoin` | src/utils/system.py:84 | The joined path is at least as long as the name. Its three cases are stated by `PathJoinShape`. |
| `System.PathJoinShape` | src/utils/system.py:84 | `os.path.join` ends with the name. An absolute name replaces the directory. Otherwise the name follows the directory after one `/`. |
| `System.SearchDirs` | src/utils/system.py:85 | PATH, or `''` when unset, split on `:` gives at least one directory, none containing `:`. `DependenciesWithoutPath` covers an unset PATH. |
| `System.SearchPath` | src/utils/system.py:84-85 | The search over PATH finds the tool exactly when some directory holds it. |
| `System.CheckDependencies` | src/utils/system.py:62-88 | The result is `true` exactly when every required tool is in some directory of PATH. |
| `System.DependenciesMonotone` | src/utils/system.py:83-88 | More files never turn a `true` into `false`, unless they are Android markers, which add `su` and `tsu`. |
| `System.DependenciesWithoutPath` | src/utils/system.py:85 | Off Android with PATH unset, each base tool is looked for as a relative path. |

## Left out

- `src/utils/__init__.py` is not part of this model. It holds path constants, a debug flag, directory creation at import time and `die`, which prints and exits.
- Running processes, the filesystem, `time.sleep`, `print` and `input` are not modelled as such. They become the `Env` and `Platform` values and the `Host` trace.
  - The sleep is recorded as an event; its duration has no effect.
  - The printed menu text is reduced to the candidate list.
- `os.listdir` order is whatever order the `Env` lists. The operating system does not fix it.
- Upper- and lower-casing are ASCII only. Python maps the whole of Unicode, which can change a string's length.
- `\w` is ASCII letters, digits and `_`. Python's `\w` also matches non-ASCII letters and digits.
- `int()` reads ASCII digits only. Python also accepts other Unicode decimal digits.
- `Text.ParseInt` has no digit-count limit. CPython refuses a literal of more than 4300 digits in a base that is not a power of two. That concerns the decimal `int(input(...))` of `src/utils/interface.py:84`, not `int(_, 16)`.
- `Interface.FindAll`: every returned name is proved to be the word of a `(\w+)\s+IEEE` match (`Interface.FindAllMatched`). The scan is also proved to find something exactly when a match exists. It is not proved to return every match in order as the regular expression engine does.
- Decoding of command output and of `operstate` (a `UnicodeDecodeError` from `read()`) is not modelled. The texts are given as strings.
- `System.CheckDependencies`: that the loop stops at the first missing tool has no observable effect, because `os.path.exists` changes nothing. Only the result is stated.
- `Network.NetworkAddress.Repr` (`__repr__`) is defined but has no property of its own.
- Only POSIX paths are modelled. `os.pathsep` is `:` and `os.path.join` is `posixpath.join`. Windows' `;` and `ntpath.join` are not modelled.
- The default arguments `action='up'` of `ifaceCtl` and `prompt=True` of `getInterface` are not modelled. Both are explicit parameters: a call that omits them is `IfaceCtl(iface, "up")` or `GetInterface(true)`.
- `Env` is one snapshot of the system. The commands launched do not change it, so two calls see the same state. The real system may change an interface's state between two calls, for instance between `ifaceCtl` and `checkInterface` (`Interface.IfaceCtlUpMatchesCheck` holds within one snapshot).
- Interrupts (`KeyboardInterrupt`) and concurrency are not modelled.
