# Fenrir eyes launcher — a Dafny model

`streaming-scripts/fenrir-scripts/open_eyes.py` starts one event-streaming process per
attached DVXplorer Mini camera. It finds the cameras in the output of `lsusb`, builds a
shell command for the aestream capture binary for each camera from the `--stream`
arguments, gives the two cameras the UDP ports 4002 and 4001 (swapped by
`--invert_cameras`), and spawns the commands one after the other, keeping the handles
in a module-level `processes` list.

This project models that logic and proves what it does:

- `CameraDiscovery` (camera_discovery.dfy): reading cameras out of the `lsusb` text
  with the pattern `Bus (\d{3}) Device (\d{3}):.*DVXplorer Mini`. `FindAll` scans the whole
  text as `findall` does: it tries each position from left to right, lets `.*` run to
  the last product name before the end of the line, and goes on where a match ended.
  `FindAllByLines` proves that this gives the same cameras as matching each line of the
  text on its own. A match cannot span a newline, and the greedy `.*` makes a line match
  at most once, from its leftmost header that the product name follows. The other
  properties are stated line by line on that basis.
- `StreamCommand` (stream_command.dfy): the port list, the six stream kinds, the
  command builder with its `IndexError` and `ValueError` cases, and a reference
  reading of a command (`ReadCommand`). That reading splits the command into shell
  words and interprets them as aestream's `input … output …` arguments, so that the
  lemmas can say what each command asks the binary to do.
- `Launcher` (launcher.dfy): the launch loop as a method of a `Supervisor` class,
  whose fields are the `processes` list and the list of commands handed to the
  operating system. Spawning is an abstract method that returns a fresh handle.
- `Text` (text.dfy) and `Wrappers` (wrappers.dfy): ASCII decimal numerals (Python's
  `int()` and `str()`), substring search, cutting a text into its lines, shell word splitting, and
  `Option`/`Result`.

Each command is built as the list of the f-string's pieces joined with single blanks. An
f-string that puts one blank between its fields gives exactly that string, whatever the
fields contain, so `BuildCommand` returns the source's command string.

## Model

| member | source | states |
|---|---|---|
| CameraDiscovery.CameraAt | streaming-scripts/fenrir-scripts/open_eyes.py:13-19 | a record is built from two three-digit groups, so bus and device are both below 1000 |
| CameraDiscovery.MatchLineSpec | streaming-scripts/fenrir-scripts/open_eyes.py:13-16 | a line yields a camera exactly when `Bus NNN Device NNN:` is followed later on the line by `DVXplorer Mini`, and the camera comes from the leftmost such header |
| CameraDiscovery.NoMarkerNoCamera | streaming-scripts/fenrir-scripts/open_eyes.py:13 | a line without `DVXplorer Mini` yields nothing |
| CameraDiscovery.UsbLineRoundTrip | streaming-scripts/fenrir-scripts/open_eyes.py:13-19 | a device line printed as `lsusb` does, with zero-padded numbers and the product name, reads back as the bus and device it was printed from |
| CameraDiscovery.ParseLines | streaming-scripts/fenrir-scripts/open_eyes.py:16-19 | there are never more cameras than lines, and every bus and device number is in 0..999 |
| CameraDiscovery.GetListOfCameras | streaming-scripts/fenrir-scripts/open_eyes.py:8-21 | the cameras found in the whole `lsusb` text are those of its lines, split at newlines and matched one by one, in line order; every bus and device is in 0..999 |
| CameraDiscovery.MatchEndAt | streaming-scripts/fenrir-scripts/open_eyes.py:13 | one match attempt of the pattern: it succeeds only at a `Bus NNN Device NNN:` header, and the match it reports ends within the text at least 33 characters on (header and product name); `LastMarkerSpec` says where the product name is |
| CameraDiscovery.FindAllBound | streaming-scripts/fenrir-scripts/open_eyes.py:16 | `FindAll`, the `findall` scan, returns non-overlapping matches: at most one camera per 33 characters of the text it scans |
| CameraDiscovery.FindAllByLines | streaming-scripts/fenrir-scripts/open_eyes.py:13-19 | `findall` over the whole text finds exactly the cameras of the matching lines, one per line, in line order |
| CameraDiscovery.FindAllLine | streaming-scripts/fenrir-scripts/open_eyes.py:13-19 | on one line the search finds at most one match, the leftmost one; after it, which runs to the last product name, nothing on the line matches again |
| CameraDiscovery.FindAllFirstLine | streaming-scripts/fenrir-scripts/open_eyes.py:13-19 | no match crosses the first newline: the search over the text is the search over its first line followed by the search after the newline |
| CameraDiscovery.FindAllSame | streaming-scripts/fenrir-scripts/open_eyes.py:13-19 | the search depends only on the text from the current position on: two texts that agree from there to their ends give the same cameras |
| CameraDiscovery.LastMarkerSpec | streaming-scripts/fenrir-scripts/open_eyes.py:13 | the greedy `.*` stops at the last occurrence of the product name before the end of the line, and finds none only when there is none |
| CameraDiscovery.MatchingLinesSpec | streaming-scripts/fenrir-scripts/open_eyes.py:16-19 | the matching lines, listed in strictly increasing order, each one matching, and none missing |
| CameraDiscovery.ParseLinesOrder | streaming-scripts/fenrir-scripts/open_eyes.py:16-19 | one descriptor per matching line: the k-th descriptor is the camera of the k-th matching line |
| CameraDiscovery.ParseLinesAppend | streaming-scripts/fenrir-scripts/open_eyes.py:16-19 | parsing is compositional and order-preserving: the cameras of `a + b` are those of `a` followed by those of `b` |
| Text.Split | streaming-scripts/fenrir-scripts/open_eyes.py:13-16 | the text split at newlines gives newline-free lines that join back to the text: the lines that `FindAllByLines` compares the search with cover the whole text |
| Text.NatToString | streaming-scripts/fenrir-scripts/open_eyes.py:55 | `str()` of a bus, device or index is a canonical numeral with no leading zero that reads back as the number |
| Text.ParseIntIntToString | streaming-scripts/fenrir-scripts/open_eyes.py:54-55 | a port printed into the command reads back through `int()` as the same port |
| Text.WordsJoin | streaming-scripts/fenrir-scripts/open_eyes.py:81 | words joined with single blanks split back, as the shell splits them, into the same words |
| StreamCommand.PortList | streaming-scripts/fenrir-scripts/open_eyes.py:135-138 | the port list always has two entries and is a permutation of {4001, 4002} |
| StreamCommand.InvertSwapsPorts | streaming-scripts/fenrir-scripts/open_eyes.py:135-138 | inverting exchanges the two cameras' ports; by default camera 0 gets 4002 |
| Text.ParseInt | streaming-scripts/fenrir-scripts/open_eyes.py:54 | `int()` of a numeral is its decimal value, with a leading `-` negating it and a leading `+` ignored; a negative result always comes from a leading `-`; any string that is not an optional sign followed by digits gives `ValueError` |
| StreamCommand.StreamProblem | streaming-scripts/fenrir-scripts/open_eyes.py:48-77 | the stream arguments are bad exactly when the kind is missing or unknown (lines 76-77), `file` has no path (lines 72-73), or a udp port is given and is not a numeral (line 54); the exception is always a `ValueError` |
| StreamCommand.KindOf | streaming-scripts/fenrir-scripts/open_eyes.py:48 | a stream kind is recognised exactly when the first stream word is one of the six kind names, and the kind is the one named |
| StreamCommand.BuildCommand | streaming-scripts/fenrir-scripts/open_eyes.py:47-77 | building fails exactly when the index has no port (`IndexError`, checked first, for every kind) or the stream arguments are bad (an unknown or missing kind, `file` without a path, or a udp port that is not a numeral: `ValueError`) |
| StreamCommand.UdpCommandMeaning | streaming-scripts/fenrir-scripts/open_eyes.py:49-55 | a udp command captures from camera Bus/Device and sends to `stream[1]` (default 172.16.223.245) on port `int(stream[2])` (default `port_list[idx]`) |
| StreamCommand.StdoutCommandMeaning | streaming-scripts/fenrir-scripts/open_eyes.py:57-58 | a stdout command captures from camera Bus/Device and writes to standard output |
| StreamCommand.RecordingCommandMeaning | streaming-scripts/fenrir-scripts/open_eyes.py:59-70 | aedat4, aedat3 and csv commands record camera Bus/Device into `<stream[1] or empty>camera_<idx>.<ext>`, and only csv uses the second binary path |
| StreamCommand.ReplayCommandMeaning | streaming-scripts/fenrir-scripts/open_eyes.py:71-75 | a file command replays `stream[1]` to standard output and names no camera |
| StreamCommand.BuildCommandIgnoresExtraArgs | streaming-scripts/fenrir-scripts/open_eyes.py:47-77 | only the first three stream arguments are read, and only udp reads the third: appending more changes neither the command nor the exception |
| StreamCommand.ReplayIgnoresCamera | streaming-scripts/fenrir-scripts/open_eyes.py:71-75 | the file command is the same whichever camera it is built for |
| StreamCommand.RecordingNamesDistinct | streaming-scripts/fenrir-scripts/open_eyes.py:59-70 | two cameras with different indices never record into the same file |
| Launcher.FirstFailure | streaming-scripts/fenrir-scripts/open_eyes.py:141-146 | the first camera whose command fails is exactly the launch count: 0 for bad stream arguments, otherwise the smaller of the camera count and the port count |
| Launcher.Commands | streaming-scripts/fenrir-scripts/open_eyes.py:144-146 | the commands the loop hands out up to the launch count: exactly one per camera |
| Launcher.CommandsLaunched | streaming-scripts/fenrir-scripts/open_eyes.py:141-146 | every camera below the launch count builds without raising, and the launched commands are exactly those builds, one per camera in camera order |
| Launcher.Supervisor.Spawn | streaming-scripts/fenrir-scripts/open_eyes.py:80-81 | spawning hands exactly one command to the system and returns a new handle |
| Launcher.Supervisor.StartStreams | streaming-scripts/fenrir-scripts/open_eyes.py:135-146 | after the loop, `processes` holds one handle per started camera and the commands handed to the system are those cameras' commands in camera order; the loop stops at the first exception and returns it, so bad stream arguments spawn nothing and a third camera spawns two processes and then raises `IndexError` |

## Left out

- Running `lsusb` (line 10): its standard output is the input of `GetListOfCameras`.
- Spawning (lines 79-82): `subprocess.Popen` with `shell=True`, `os.setsid` and the `/dev/null` redirection are one abstract `Spawn` that records the command and returns a handle. Launch failures of the operating system are not modelled.
- StreamCommand.UdpCommandMeaning, StreamCommand.RecordingCommandMeaning, StreamCommand.ReplayCommandMeaning: the shell's reading of a command is modelled only for blank-separated plain words, so these lemmas require the one stream argument that enters the command (the udp host, the recording path prefix, which may also be empty, or the replay path) to be a word without blanks. Quoting, `$`, `;` and other metacharacters in user-supplied paths and hosts are not interpreted.
- The signal handler, `pkill -f aestream`, `os.killpg`, `signal.signal` (lines 84-99), and `process.wait()` with the `KeyboardInterrupt` path (lines 148-157): OS process-group control and blocking waits.
- Argument parsing, help text, `print` messages and exit codes (lines 23-45, 101-132), and the unused `--packet-size` and `--buffer-size` flags.
- CameraDiscovery.HeaderAt: `\d` matches only the ASCII digits 0-9 here. Python's `\d` on a `str` pattern also matches other Unicode decimal digits, which `int()` accepts.
- Text.ParseInt: models `int()` only on an optional sign followed by ASCII digits. Python's `int()` also accepts surrounding whitespace, `_` between digits and other Unicode digits; on those inputs the model reports `ValueError` where Python returns a number.
- StreamCommand.IntLiteralError: the message is not Python's exact text, which quotes the argument with `repr()`.
- `streaming-scripts/udp_viewer.py`: network reads through aestream, tensor scaling, rotation and display in a loop ended by a key press. None of it is logic that can be stated without the libraries.
