/**
 * The command line the launcher builds for one camera (`run_camera_stream` up to the
 * point where it spawns the process) and the UDP port assignment of the main program.
 *
 * The command is a shell string for the aestream capture binary. Its words are joined
 * here with explicit `" "` pieces; the string is the same one the source's f-strings give.
 * `ReadCommand` is a reference reading of such a string: the shell's blank-separated
 * words, read as aestream's `input ... output ...` arguments. The lemmas below state what
 * each command means in those terms.
 */
module StreamCommand {
  import opened Wrappers
  import opened Text
  import opened CameraDiscovery

  /** The six stream kinds the first `--stream` word selects. */
  datatype StreamKind = Udp | Stdout | Aedat4 | Aedat3 | Csv | FileReplay

  /** The exceptions `run_camera_stream` raises before spawning anything. */
  datatype Error =
    | IndexError                 // `port_list[idx]` with `idx` out of range
    | ValueError(message: string)

  const AESTREAM: string := "/opt/aestream/build/src/aestream"
  /** The csv branch runs a different build of the capture binary. */
  const AESTREAM_CSV: string := "/home/ncs/aestream/build/src/cpp/aestream"
  const DEFAULT_IP_OUT: string := "172.16.223.245"
  const INVALID_STREAM_TYPE: string := "Invalid stream type specified"
  const FILE_PATH_REQUIRED: string := "File stream requires an input file path"

  /** The message of the `ValueError` Python's `int()` raises on a string that is not a numeral. */
  function IntLiteralError(s: string): string {
    "invalid literal for int() with base 10: " + s
  }

  // ---------------------------------------------------------------------------
  // Port assignment
  // ---------------------------------------------------------------------------

  /** The UDP ports of cameras 0 and 1; `--invert_cameras` swaps them. */
  function PortList(invert: bool): (ports: seq<int>)
    ensures |ports| == 2
    ensures multiset(ports) == multiset{4001, 4002}
  {
    if invert then [4001, 4002] else [4002, 4001]
  }

  /** Inverting the cameras exchanges their default ports and changes nothing else. */
  lemma InvertSwapsPorts()
    ensures PortList(true) == [PortList(false)[1], PortList(false)[0]]
    ensures PortList(false)[0] == 4002
  {
  }

  // ---------------------------------------------------------------------------
  // Stream kinds
  // ---------------------------------------------------------------------------

  /** The `--stream` word that selects each kind. */
  function KindName(k: StreamKind): string {
    match k
    case Udp => "udp"
    case Stdout => "stdout"
    case Aedat4 => "aedat4"
    case Aedat3 => "aedat3"
    case Csv => "csv"
    case FileReplay => "file"
  }

  /** The kind the stream arguments select; `None` for a missing or unknown first word. */
  function KindOf(stream: seq<string>): (k: Option<StreamKind>)
    ensures k.Some? <==> |stream| > 0 && exists kind :: KindName(kind) == stream[0]
    ensures k.Some? ==> KindName(k.value) == stream[0]
  {
    assert KindName(Udp) == "udp" && KindName(Stdout) == "stdout" && KindName(Aedat4) == "aedat4";
    assert KindName(Aedat3) == "aedat3" && KindName(Csv) == "csv" && KindName(FileReplay) == "file";
    if |stream| == 0 then None
    else if stream[0] == "udp" then Some(Udp)
    else if stream[0] == "stdout" then Some(Stdout)
    else if stream[0] == "aedat4" then Some(Aedat4)
    else if stream[0] == "aedat3" then Some(Aedat3)
    else if stream[0] == "csv" then Some(Csv)
    else if stream[0] == "file" then Some(FileReplay)
    else None
  }

  /** What is wrong with the stream arguments, whatever the camera: the `ValueError` they cause. */
  function StreamProblem(stream: seq<string>): (p: Option<Error>)
    ensures p.Some? ==> p.value.ValueError?
    ensures p.None? <==>
      && KindOf(stream).Some?
      && (KindOf(stream) == Some(FileReplay) ==> |stream| >= 2)
      && (KindOf(stream) == Some(Udp) && |stream| > 2 ==> ParseInt(stream[2]).Some?)
    ensures p.Some? && KindOf(stream).None? ==> p.value.message == INVALID_STREAM_TYPE
  {
    match KindOf(stream)
    case None => Some(ValueError(INVALID_STREAM_TYPE))
    case Some(FileReplay) => if |stream| < 2 then Some(ValueError(FILE_PATH_REQUIRED)) else None
    case Some(Udp) =>
      if |stream| > 2 && ParseInt(stream[2]).None? then Some(ValueError(IntLiteralError(stream[2])))
      else None
    case Some(_) => None
  }

  // ---------------------------------------------------------------------------
  // The command builder
  // ---------------------------------------------------------------------------

  /** `<binary> input inivation <Bus> <Device> dvx 0`: the capture-source pieces of every camera command. */
  function CameraInput(binary: string, camera: Camera): seq<string> {
    [binary, "input", "inivation", NatToString(camera.bus), NatToString(camera.device), "dvx", "0"]
  }

  /** The file a recording camera writes: the path prefix joined directly to `camera_<idx>.<ext>`. */
  function RecordingName(prefix: string, idx: nat, ext: string): string {
    prefix + "camera_" + NatToString(idx) + "." + ext
  }

  /** The pieces of a camera command that sends the events to `host`:`port` over UDP. */
  function UdpArgs(binary: string, camera: Camera, host: string, port: int): seq<string> {
    CameraInput(binary, camera) + ["output"] + ["udp", host, IntToString(port)]
  }

  /** The pieces of a camera command that writes the events to standard output. */
  function StdoutArgs(binary: string, camera: Camera): seq<string> {
    CameraInput(binary, camera) + ["output"] + ["stdout"]
  }

  /** The pieces of a camera command that records the events into the file `name`. */
  function RecordingArgs(binary: string, camera: Camera, name: string): seq<string> {
    CameraInput(binary, camera) + ["output"] + ["file", name]
  }

  /** The pieces of a command that replays the recording at `path` to standard output. */
  function ReplayArgs(binary: string, path: string): seq<string> {
    [binary, "input", "file", path, "output", "stdout"]
  }

  /**
   * `run_camera_stream` up to the spawn: the command for camera number `idx`, or the
   * exception raised instead. `port_list[idx]` is read first, for every kind.
   */
  function BuildCommand(camera: Camera, idx: nat, stream: seq<string>, portList: seq<int>): (r: Result<string, Error>)
    ensures r.Err? <==> idx >= |portList| || StreamProblem(stream).Some?
    ensures r.Err? ==> r.error == if idx >= |portList| then IndexError else StreamProblem(stream).value
  {
    if idx >= |portList| then Err(IndexError)
    else
      var port := portList[idx];
      // The chain of comparisons of the first stream word is `KindOf`.
      match KindOf(stream)
      case Some(Udp) =>
        var ipOut := if |stream| > 1 then stream[1] else DEFAULT_IP_OUT;
        if |stream| > 2 && ParseInt(stream[2]).None? then Err(ValueError(IntLiteralError(stream[2])))
        else
          var port := if |stream| > 2 then ParseInt(stream[2]).value else port;
          Ok(Join(UdpArgs(AESTREAM, camera, ipOut, port), ' '))
      case Some(Stdout) =>
        Ok(Join(StdoutArgs(AESTREAM, camera), ' '))
      case Some(Aedat4) =>
        var filePath := if |stream| > 1 then stream[1] else "";
        Ok(Join(RecordingArgs(AESTREAM, camera, RecordingName(filePath, idx, "aedat4")), ' '))
      case Some(Aedat3) =>
        var filePath := if |stream| > 1 then stream[1] else "";
        Ok(Join(RecordingArgs(AESTREAM, camera, RecordingName(filePath, idx, "aedat3")), ' '))
      case Some(Csv) =>
        var filePath := if |stream| > 1 then stream[1] else "";
        Ok(Join(RecordingArgs(AESTREAM_CSV, camera, RecordingName(filePath, idx, "csv")), ' '))
      case Some(FileReplay) =>
        if |stream| < 2 then Err(ValueError(FILE_PATH_REQUIRED))
        else
          var filePath := stream[1];
          Ok(Join(ReplayArgs(AESTREAM, filePath), ' '))
      case None => Err(ValueError(INVALID_STREAM_TYPE))
  }

  // ---------------------------------------------------------------------------
  // Reading a command back
  // ---------------------------------------------------------------------------

  /** Where the capture binary reads events from. */
  datatype Source = CameraSource(bus: nat, device: nat) | FileSource(path: string)

  /** Where the capture binary sends events. */
  datatype Sink = UdpSink(host: string, port: int) | StdoutSink | FileSink(path: string)

  /** One run of the capture binary. */
  datatype Invocation = Invocation(binary: string, source: Source, sink: Sink)

  /** The `output ...` words, after `output`. */
  function ReadSink(ws: seq<string>): Option<Sink> {
    if |ws| == 1 && ws[0] == "stdout" then Some(StdoutSink)
    else if |ws| == 2 && ws[0] == "file" then Some(FileSink(ws[1]))
    else if |ws| == 3 && ws[0] == "udp" && ParseInt(ws[2]).Some? then Some(UdpSink(ws[1], ParseInt(ws[2]).value))
    else None
  }

  /** The invocation an argument vector describes, if it has one of the shapes the launcher uses. */
  function ReadArgv(argv: seq<string>): Option<Invocation> {
    if && |argv| >= 9
       && argv[1] == "input" && argv[2] == "inivation"
       && ParseNat(argv[3]).Some? && ParseNat(argv[4]).Some?
       && argv[5] == "dvx" && argv[6] == "0" && argv[7] == "output"
       && ReadSink(argv[8..]).Some?
    then
      Some(Invocation(argv[0], CameraSource(ParseNat(argv[3]).value, ParseNat(argv[4]).value), ReadSink(argv[8..]).value))
    else if |argv| == 6 && argv[1] == "input" && argv[2] == "file" && argv[4] == "output" && argv[5] == "stdout" then
      Some(Invocation(argv[0], FileSource(argv[3]), StdoutSink))
    else None
  }

  /** What a command string asks the capture binary to do, read through the shell's word splitting. */
  function ReadCommand(cmd: string): Option<Invocation> {
    ReadArgv(Words(cmd))
  }

  lemma NumeralIsWord(s: string)
    requires s != [] && AllDigits(s)
    ensures IsWord(s)
  {
    forall k | 0 <= k < |s| ensures s[k] != ' ' {
      assert IsDigit(s[k]);
    }
  }

  lemma IntToStringIsWord(i: int)
    ensures IsWord(IntToString(i))
  {
    var s := IntToString(i);
    if i < 0 {
      NumeralIsWord(NatToString(-i));
      assert forall k :: 1 <= k < |s| ==> s[k] == NatToString(-i)[k - 1];
    } else {
      NumeralIsWord(NatToString(i));
    }
  }

  lemma RecordingNameIsWord(prefix: string, idx: nat, ext: string)
    requires prefix == [] || IsWord(prefix)
    requires IsWord(ext)
    ensures IsWord(RecordingName(prefix, idx, ext))
  {
    var n := NatToString(idx);
    NumeralIsWord(n);
    var s := RecordingName(prefix, idx, ext);
    assert s == prefix + ("camera_" + n + "." + ext);
    assert IsWord("camera_");
    forall k | 0 <= k < |s| ensures s[k] != ' ' {
      if k < |prefix| {
        assert s[k] == prefix[k];
      } else if k < |prefix| + 7 {
        assert s[k] == "camera_"[k - |prefix|];
      } else if k < |prefix| + 7 + |n| {
        assert s[k] == n[k - |prefix| - 7];
      } else if k == |prefix| + 7 + |n| {
        assert s[k] == '.';
      } else {
        assert s[k] == ext[k - |prefix| - 8 - |n|];
      }
    }
  }

  /** The fixed words of the commands contain no blanks. */
  lemma FixedWordsAreWords()
    ensures IsWord(AESTREAM) && IsWord(AESTREAM_CSV)
    ensures IsWord("input") && IsWord("inivation") && IsWord("dvx") && IsWord("0")
    ensures IsWord("output") && IsWord("udp") && IsWord("stdout") && IsWord("file")
  {
  }

  /** Every piece of a camera command is a plain word when the sink words are. */
  lemma CameraArgvWords(binary: string, camera: Camera, sinkWords: seq<string>)
    requires IsWord(binary)
    requires forall k :: 0 <= k < |sinkWords| ==> IsWord(sinkWords[k])
    ensures forall k :: 0 <= k < |CameraInput(binary, camera) + ["output"] + sinkWords| ==>
      IsWord((CameraInput(binary, camera) + ["output"] + sinkWords)[k])
  {
    var argv := CameraInput(binary, camera) + ["output"] + sinkWords;
    FixedWordsAreWords();
    NumeralIsWord(NatToString(camera.bus));
    NumeralIsWord(NatToString(camera.device));
    forall k | 0 <= k < |argv| ensures IsWord(argv[k]) {
      if k >= 8 {
        assert argv[k] == sinkWords[k - 8];
      }
    }
  }

  /** The argument vector of a camera command describes a capture from that camera into the sink. */
  lemma ReadCameraArgv(binary: string, camera: Camera, sinkWords: seq<string>, sink: Sink)
    requires ReadSink(sinkWords) == Some(sink)
    ensures ReadArgv(CameraInput(binary, camera) + ["output"] + sinkWords)
      == Some(Invocation(binary, CameraSource(camera.bus, camera.device), sink))
  {
    var argv := CameraInput(binary, camera) + ["output"] + sinkWords;
    assert argv[8..] == sinkWords;
    ParseNatNatToString(camera.bus);
    ParseNatNatToString(camera.device);
  }

  /**
   * A camera command whose pieces are all plain words reads back as a run of `binary` that
   * captures from that camera and sends the events to the sink the words after `output` describe.
   */
  lemma CameraCommandRead(binary: string, camera: Camera, sinkWords: seq<string>, sink: Sink)
    requires IsWord(binary)
    requires forall k :: 0 <= k < |sinkWords| ==> IsWord(sinkWords[k])
    requires ReadSink(sinkWords) == Some(sink)
    ensures ReadCommand(Join(CameraInput(binary, camera) + ["output"] + sinkWords, ' '))
      == Some(Invocation(binary, CameraSource(camera.bus, camera.device), sink))
  {
    CameraArgvWords(binary, camera, sinkWords);
    WordsJoin(CameraInput(binary, camera) + ["output"] + sinkWords);
    ReadCameraArgv(binary, camera, sinkWords, sink);
  }

  /**
   * A udp command sends camera `Bus`/`Device` events to `stream[1]`, by default
   * 172.16.223.245, on port `int(stream[2])`, by default the camera's entry of the port list.
   */
  lemma UdpCommandMeaning(camera: Camera, idx: nat, stream: seq<string>, portList: seq<int>)
    requires idx < |portList| && KindOf(stream) == Some(Udp) && StreamProblem(stream).None?
    requires |stream| > 1 ==> IsWord(stream[1])
    ensures BuildCommand(camera, idx, stream, portList).Ok?
    ensures ReadCommand(BuildCommand(camera, idx, stream, portList).value) ==
      Some(Invocation(AESTREAM, CameraSource(camera.bus, camera.device),
        UdpSink(if |stream| > 1 then stream[1] else DEFAULT_IP_OUT,
                if |stream| > 2 then ParseInt(stream[2]).value else portList[idx])))
  {
    var ipOut := if |stream| > 1 then stream[1] else DEFAULT_IP_OUT;
    var port := if |stream| > 2 then ParseInt(stream[2]).value else portList[idx];
    assert BuildCommand(camera, idx, stream, portList) == Ok(Join(UdpArgs(AESTREAM, camera, ipOut, port), ' '));
    FixedWordsAreWords();
    UdpArgsRead(camera, ipOut, port);
  }

  /** The udp pieces, joined, read back as a capture from the camera sent to `host`:`port`. */
  lemma UdpArgsRead(camera: Camera, host: string, port: int)
    requires IsWord(host)
    ensures ReadCommand(Join(UdpArgs(AESTREAM, camera, host, port), ' ')) ==
      Some(Invocation(AESTREAM, CameraSource(camera.bus, camera.device), UdpSink(host, port)))
  {
    FixedWordsAreWords();
    IntToStringIsWord(port);
    ParseIntIntToString(port);
    CameraCommandRead(AESTREAM, camera, ["udp", host, IntToString(port)], UdpSink(host, port));
  }

  /** A stdout command streams camera `Bus`/`Device` events to standard output. */
  lemma StdoutCommandMeaning(camera: Camera, idx: nat, stream: seq<string>, portList: seq<int>)
    requires idx < |portList| && KindOf(stream) == Some(Stdout)
    ensures BuildCommand(camera, idx, stream, portList).Ok?
    ensures ReadCommand(BuildCommand(camera, idx, stream, portList).value) ==
      Some(Invocation(AESTREAM, CameraSource(camera.bus, camera.device), StdoutSink))
  {
    assert BuildCommand(camera, idx, stream, portList) == Ok(Join(StdoutArgs(AESTREAM, camera), ' '));
    FixedWordsAreWords();
    CameraCommandRead(AESTREAM, camera, ["stdout"], StdoutSink);
  }

  /** The file extension and binary of each recording kind. */
  function RecordingExt(k: StreamKind): string
    requires k == Aedat4 || k == Aedat3 || k == Csv
  {
    match k
    case Aedat4 => "aedat4"
    case Aedat3 => "aedat3"
    case Csv => "csv"
  }

  function RecordingBinary(k: StreamKind): string {
    if k == Csv then AESTREAM_CSV else AESTREAM
  }

  /**
   * An aedat4, aedat3 or csv command records camera `Bus`/`Device` events into
   * `<stream[1]>camera_<idx>.<kind>` (prefix empty by default); csv uses the other binary.
   */
  lemma RecordingCommandMeaning(camera: Camera, idx: nat, stream: seq<string>, portList: seq<int>, kind: StreamKind)
    requires kind == Aedat4 || kind == Aedat3 || kind == Csv
    requires idx < |portList| && KindOf(stream) == Some(kind)
    requires |stream| > 1 ==> stream[1] == [] || IsWord(stream[1])
    ensures BuildCommand(camera, idx, stream, portList).Ok?
    ensures ReadCommand(BuildCommand(camera, idx, stream, portList).value) ==
      Some(Invocation(RecordingBinary(kind), CameraSource(camera.bus, camera.device),
        FileSink(RecordingName(if |stream| > 1 then stream[1] else "", idx, RecordingExt(kind)))))
  {
    var binary := RecordingBinary(kind);
    var prefix := if |stream| > 1 then stream[1] else "";
    var name := RecordingName(prefix, idx, RecordingExt(kind));
    var cmd := Join(RecordingArgs(binary, camera, name), ' ');
    if kind == Aedat4 {
      assert BuildCommand(camera, idx, stream, portList) == Ok(cmd);
    } else if kind == Aedat3 {
      assert BuildCommand(camera, idx, stream, portList) == Ok(cmd);
    } else {
      assert BuildCommand(camera, idx, stream, portList) == Ok(cmd);
    }
    RecordingNameIsWord(prefix, idx, RecordingExt(kind));
    RecordingArgsRead(binary, camera, name);
  }

  /** The recording pieces, joined, read back as a capture from the camera into the file `name`. */
  lemma RecordingArgsRead(binary: string, camera: Camera, name: string)
    requires binary == AESTREAM || binary == AESTREAM_CSV
    requires IsWord(name)
    ensures ReadCommand(Join(RecordingArgs(binary, camera, name), ' ')) ==
      Some(Invocation(binary, CameraSource(camera.bus, camera.device), FileSink(name)))
  {
    FixedWordsAreWords();
    CameraCommandRead(binary, camera, ["file", name], FileSink(name));
  }

  /** A file command replays `stream[1]` to standard output; it names no camera at all. */
  lemma ReplayCommandMeaning(camera: Camera, idx: nat, stream: seq<string>, portList: seq<int>)
    requires idx < |portList| && KindOf(stream) == Some(FileReplay) && |stream| >= 2
    requires IsWord(stream[1])
    ensures BuildCommand(camera, idx, stream, portList).Ok?
    ensures ReadCommand(BuildCommand(camera, idx, stream, portList).value) ==
      Some(Invocation(AESTREAM, FileSource(stream[1]), StdoutSink))
  {
    var args := ReplayArgs(AESTREAM, stream[1]);
    assert BuildCommand(camera, idx, stream, portList) == Ok(Join(args, ' '));
    FixedWordsAreWords();
    assert IsWord(stream[1]);
    WordsJoin(args);
  }

  /**
   * Arguments after the third are never read, and only udp reads the third: the command and
   * the exception are the same without them.
   */
  lemma BuildCommandIgnoresExtraArgs(camera: Camera, idx: nat, stream: seq<string>, extra: seq<string>, portList: seq<int>)
    requires |stream| >= 3 || (|stream| >= 2 && KindOf(stream) != Some(Udp))
    ensures BuildCommand(camera, idx, stream + extra, portList) == BuildCommand(camera, idx, stream, portList)
  {
    var s := stream + extra;
    assert s[0] == stream[0] && s[1] == stream[1];
    if |stream| >= 3 {
      assert s[2] == stream[2];
    }
    assert KindOf(s) == KindOf(stream);
  }

  /** The replay command does not depend on which camera it is built for. */
  lemma ReplayIgnoresCamera(c1: Camera, c2: Camera, idx: nat, stream: seq<string>, portList: seq<int>)
    requires KindOf(stream) == Some(FileReplay)
    ensures BuildCommand(c1, idx, stream, portList) == BuildCommand(c2, idx, stream, portList)
  {
  }

  /** Two cameras of one recording session never write the same file. */
  lemma RecordingNamesDistinct(prefix: string, i: nat, j: nat, ext: string)
    requires i != j
    ensures RecordingName(prefix, i, ext) != RecordingName(prefix, j, ext)
  {
    var a, b := NatToString(i), NatToString(j);
    if RecordingName(prefix, i, ext) == RecordingName(prefix, j, ext) {
      var sa := prefix + "camera_" + a + "." + ext;
      var sb := prefix + "camera_" + b + "." + ext;
      assert |a| == |b|;
      var lo := |prefix| + 7;
      assert sa[lo..lo + |a|] == a;
      assert sb[lo..lo + |b|] == b;
      NatToStringInjective(i, j);
    }
  }
}
