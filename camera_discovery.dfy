/**
 * Camera discovery: reading the DVXplorer Mini cameras out of the text `lsusb` prints.
 *
 * The launcher searches that text with the pattern
 * `Bus (\d{3}) Device (\d{3}):.*DVXplorer Mini` and turns each match into a
 * `{Bus, Device}` record. `.` does not match a newline, so a match never spans two
 * lines; the greedy `.*` runs to the last `DVXplorer Mini` on the line, so a line gives
 * at most one match, and that match starts at the earliest `Bus NNN Device NNN:` on the
 * line that has `DVXplorer Mini` somewhere after it. The properties are stated line by
 * line (`MatchLine`, `ParseLines`); the search itself is modelled over the whole text
 * (`FindAll`), and `FindAllByLines` proves the two equal. Running `lsusb` itself is not
 * modelled: its output is the input here.
 */
module CameraDiscovery {
  import opened Wrappers
  import opened Text

  /** One attached camera, identified by the bus and device numbers `lsusb` reports. */
  datatype Camera = Camera(bus: nat, device: nat)

  /** The product name that must follow the bus/device header on the same line. */
  const MARKER: string := "DVXplorer Mini"

  /** The length of a `Bus NNN Device NNN:` header. */
  const HEADER_LEN: nat := 19

  /** `line` holds `Bus NNN Device NNN:` (three decimal digits each) starting at `i`. */
  predicate HeaderAt(line: string, i: nat) {
    && i + HEADER_LEN <= |line|
    && line[i..i + 4] == "Bus "
    && AllDigits(line[i + 4..i + 7])
    && line[i + 7..i + 15] == " Device "
    && AllDigits(line[i + 15..i + 18])
    && line[i + 18] == ':'
  }

  /** The pattern matches `line` starting at `i`: a header, then the product name later on the line. */
  predicate MatchAt(line: string, i: nat) {
    HeaderAt(line, i) && ContainsFrom(MARKER, line, i + HEADER_LEN)
  }

  /** The record built from the header at `i`: `int()` of each three-digit group. */
  function CameraAt(line: string, i: nat): (c: Camera)
    requires HeaderAt(line, i)
    ensures c.bus < 1000 && c.device < 1000
  {
    assert Pow10(3) == 1000;
    Camera(DecimalValue(line[i + 4..i + 7]), DecimalValue(line[i + 15..i + 18]))
  }

  /** The leftmost position at or after `i` where the pattern matches, as the regex search scans. */
  function FirstMatchFrom(line: string, i: nat): (r: Option<nat>)
    ensures r.Some? ==> i <= r.value && MatchAt(line, r.value)
    ensures forall j: nat :: i <= j && (r.None? || j < r.value) ==> !MatchAt(line, j)
    decreases |line| - i
  {
    if i + HEADER_LEN > |line| then None
    else if MatchAt(line, i) then Some(i)
    else FirstMatchFrom(line, i + 1)
  }

  /** The camera one line of `lsusb` output yields, if any. */
  function MatchLine(line: string): (r: Option<Camera>)
    ensures r.Some? ==> r.value.bus < 1000 && r.value.device < 1000
  {
    match FirstMatchFrom(line, 0)
    case None => None
    case Some(i) => Some(CameraAt(line, i))
  }

  /**
   * A line yields a camera exactly when the pattern matches somewhere on it, and the
   * camera is read from the leftmost match.
   */
  lemma MatchLineSpec(line: string)
    ensures MatchLine(line).Some? <==> exists i: nat :: MatchAt(line, i)
    ensures MatchLine(line).Some? ==>
      exists i: nat :: && MatchAt(line, i)
                       && (forall j: nat :: j < i ==> !MatchAt(line, j))
                       && MatchLine(line).value == CameraAt(line, i)
  {
  }

  /** What each line yields, in line order. */
  function LineResults(lines: seq<string>): (opts: seq<Option<Camera>>)
    ensures |opts| == |lines|
    ensures forall i :: 0 <= i < |lines| ==> opts[i] == MatchLine(lines[i])
  {
    seq(|lines|, i requires 0 <= i < |lines| => MatchLine(lines[i]))
  }

  /** The present values, in order: the list comprehension keeps one record per match. */
  function Present(opts: seq<Option<Camera>>): (cams: seq<Camera>)
    ensures |cams| <= |opts|
    ensures forall k :: 0 <= k < |cams| ==> Some(cams[k]) in opts
  {
    if opts == [] then []
    else
      var init := opts[..|opts| - 1];
      var last := opts[|opts| - 1];
      assert forall o :: o in init ==> o in opts;
      Present(init) + (if last.Some? then [last.value] else [])
  }

  /** The positions of the present values, in increasing order. */
  function PresentIndices(opts: seq<Option<Camera>>): (idx: seq<nat>)
    ensures |idx| <= |opts|
    ensures forall k :: 0 <= k < |idx| ==> idx[k] < |opts|
  {
    if opts == [] then []
    else PresentIndices(opts[..|opts| - 1]) + (if opts[|opts| - 1].Some? then [|opts| - 1] else [])
  }

  /** `PresentIndices` lists exactly the present positions, each once, in increasing order. */
  lemma {:induction false} PresentIndicesSpec(opts: seq<Option<Camera>>)
    ensures forall k :: 0 <= k < |PresentIndices(opts)| ==> opts[PresentIndices(opts)[k]].Some?
    ensures forall k, l :: 0 <= k < l < |PresentIndices(opts)| ==> PresentIndices(opts)[k] < PresentIndices(opts)[l]
    ensures forall i :: 0 <= i < |opts| && opts[i].Some? ==> i in PresentIndices(opts)
  {
    if opts != [] {
      var n := |opts| - 1;
      var init := opts[..n];
      var m := PresentIndices(init);
      var idx := PresentIndices(opts);
      PresentIndicesSpec(init);
      assert forall k :: 0 <= k < |m| ==> idx[k] == m[k];
      forall i | 0 <= i < |opts| && opts[i].Some?
        ensures i in idx
      {
        if i < n {
          assert init[i].Some?;
          var k :| 0 <= k < |m| && m[k] == i;
          assert idx[k] == i;
        } else {
          assert idx[|m|] == i;
        }
      }
    }
  }

  /** The k-th present value sits at the k-th present position. */
  lemma {:induction false} PresentOrder(opts: seq<Option<Camera>>)
    ensures |Present(opts)| == |PresentIndices(opts)|
    ensures forall k :: 0 <= k < |Present(opts)| ==> opts[PresentIndices(opts)[k]] == Some(Present(opts)[k])
  {
    if opts != [] {
      var n := |opts| - 1;
      var init := opts[..n];
      PresentOrder(init);
      assert forall i :: 0 <= i < n ==> opts[i] == init[i];
    }
  }

  lemma {:induction false} PresentAppend(a: seq<Option<Camera>>, b: seq<Option<Camera>>)
    ensures Present(a + b) == Present(a) + Present(b)
    decreases |b|
  {
    if b == [] {
      assert a + b == a;
    } else {
      var b' := b[..|b| - 1];
      assert (a + b)[..|a + b| - 1] == a + b';
      PresentAppend(a, b');
    }
  }

  /** The cameras of the given lines, in line order. */
  function ParseLines(lines: seq<string>): (cams: seq<Camera>)
    ensures |cams| <= |lines|
    ensures forall k :: 0 <= k < |cams| ==> cams[k].bus < 1000 && cams[k].device < 1000
  {
    var opts := LineResults(lines);
    var cams := Present(opts);
    assert forall k :: 0 <= k < |cams| ==> cams[k].bus < 1000 && cams[k].device < 1000 by {
      forall k | 0 <= k < |cams|
        ensures cams[k].bus < 1000 && cams[k].device < 1000
      {
        var i :| 0 <= i < |opts| && opts[i] == Some(cams[k]);
        assert MatchLine(lines[i]) == Some(cams[k]);
      }
    }
    cams
  }

  /** The indices of the lines on which the pattern matches, in increasing order. */
  function MatchingLines(lines: seq<string>): (idx: seq<nat>)
    ensures forall k :: 0 <= k < |idx| ==> idx[k] < |lines|
  {
    PresentIndices(LineResults(lines))
  }

  /** The listed lines are exactly the matching ones, each listed once, in increasing order. */
  lemma MatchingLinesSpec(lines: seq<string>)
    ensures forall k :: 0 <= k < |MatchingLines(lines)| ==> MatchLine(lines[MatchingLines(lines)[k]]).Some?
    ensures forall k, l :: 0 <= k < l < |MatchingLines(lines)| ==> MatchingLines(lines)[k] < MatchingLines(lines)[l]
    ensures forall i :: 0 <= i < |lines| && MatchLine(lines[i]).Some? ==> i in MatchingLines(lines)
  {
    PresentIndicesSpec(LineResults(lines));
  }

  /**
   * One camera per matching line, in the order of the lines: the k-th camera is the one
   * the k-th matching line describes.
   */
  lemma ParseLinesOrder(lines: seq<string>)
    ensures |ParseLines(lines)| == |MatchingLines(lines)|
    ensures forall k :: 0 <= k < |MatchingLines(lines)| ==>
      MatchLine(lines[MatchingLines(lines)[k]]) == Some(ParseLines(lines)[k])
  {
    PresentOrder(LineResults(lines));
  }

  /** Parsing two outputs one after the other gives the cameras of the first, then those of the second. */
  lemma ParseLinesAppend(a: seq<string>, b: seq<string>)
    ensures ParseLines(a + b) == ParseLines(a) + ParseLines(b)
  {
    assert LineResults(a + b) == LineResults(a) + LineResults(b);
    PresentAppend(LineResults(a), LineResults(b));
  }

  /** A line on which the product name does not appear yields no camera. */
  lemma NoMarkerNoCamera(line: string)
    requires !ContainsFrom(MARKER, line, 0)
    ensures MatchLine(line) == None
  {
    MatchLineSpec(line);
  }

  /** A device line as `lsusb` prints it: zero-padded bus and device numbers, then the rest. */
  function UsbLine(bus: nat, device: nat, rest: string): string
    requires bus < 1000 && device < 1000
  {
    "Bus " + Pad3(bus) + " Device " + Pad3(device) + ":" + rest
  }

  /** Reading a printed DVXplorer Mini line gives back the bus and device numbers it was printed from. */
  lemma UsbLineRoundTrip(bus: nat, device: nat, rest: string)
    requires bus < 1000 && device < 1000
    requires ContainsFrom(MARKER, rest, 0)
    ensures MatchLine(UsbLine(bus, device, rest)) == Some(Camera(bus, device))
  {
    var line := UsbLine(bus, device, rest);
    assert line[0..4] == "Bus ";
    assert line[4..7] == Pad3(bus);
    assert line[7..15] == " Device ";
    assert line[15..18] == Pad3(device);
    assert line[18] == ':';
    assert line[HEADER_LEN..] == rest;
    var j: nat :| OccursAt(MARKER, rest, j);
    assert line[HEADER_LEN + j..HEADER_LEN + j + |MARKER|] == rest[j..j + |MARKER|];
    assert OccursAt(MARKER, line, HEADER_LEN + j);
    assert MatchAt(line, 0);
    MatchLineSpec(line);
  }

  // ---------------------------------------------------------------------------
  // The search over the whole output, as the regex engine runs it
  // ---------------------------------------------------------------------------

  /** The end of the line holding position `i`: the first newline at or after `i`, or the end of the text. */
  function LineEnd(t: string, i: nat): (k: nat)
    requires i <= |t|
    ensures i <= k <= |t|
    ensures forall m :: i <= m < k ==> t[m] != '\n'
    ensures k < |t| ==> t[k] == '\n'
    decreases |t| - i
  {
    if i == |t| || t[i] == '\n' then i else LineEnd(t, i + 1)
  }

  /**
   * The last start of the product name in `t[from..end]`: where the greedy `.*` stops
   * when it backtracks from the end of the line.
   */
  function LastMarker(t: string, from: nat, end: nat): (r: Option<nat>)
    requires end <= |t|
    ensures r.Some? ==> from <= r.value && r.value + |MARKER| <= end
    decreases end
  {
    if end < from + |MARKER| then None
    else if OccursAt(MARKER, t, end - |MARKER|) then Some(end - |MARKER|)
    else LastMarker(t, from, end - 1)
  }

  /** `LastMarker` finds the last occurrence of the product name in `t[from..end]`, and none means there is none. */
  lemma {:induction false} LastMarkerSpec(t: string, from: nat, end: nat)
    requires end <= |t|
    ensures var r := LastMarker(t, from, end);
      && (r.Some? ==> OccursAt(MARKER, t, r.value))
      && (r.Some? ==> forall j :: r.value < j && j + |MARKER| <= end ==> !OccursAt(MARKER, t, j))
      && (r.None? ==> forall j :: from <= j && j + |MARKER| <= end ==> !OccursAt(MARKER, t, j))
    decreases end
  {
    if end >= from + |MARKER| && !OccursAt(MARKER, t, end - |MARKER|) {
      LastMarkerSpec(t, from, end - 1);
    }
  }

  /**
   * The match attempt at `p`: the header, then `.*` up to the last product name on the
   * line. The result is where the match ends.
   */
  function MatchEndAt(t: string, p: nat): (r: Option<nat>)
    requires p <= |t|
    ensures r.Some? ==> HeaderAt(t, p) && p + HEADER_LEN + |MARKER| <= r.value <= |t|
  {
    if HeaderAt(t, p) then
      match LastMarker(t, p + HEADER_LEN, LineEnd(t, p + HEADER_LEN))
      case Some(j) => Some(j + |MARKER|)
      case None => None
    else None
  }

  /**
   * `pattern.findall` from position `pos`: try a match at each position from left to
   * right; after a match, go on where it ended. Each match gives the camera of its header.
   */
  function FindAll(t: string, pos: nat): seq<Camera>
    requires pos <= |t|
    decreases |t| - pos
  {
    if pos == |t| then []
    else
      match MatchEndAt(t, pos)
      case Some(e) => [CameraAt(t, pos)] + FindAll(t, e)
      case None => FindAll(t, pos + 1)
  }

  /** Matches do not overlap, and each spans at least the header and the product name: 33 characters. */
  lemma {:induction false} FindAllBound(t: string, pos: nat)
    requires pos <= |t|
    ensures 33 * |FindAll(t, pos)| <= |t| - pos
    decreases |t| - pos
  {
    if pos < |t| {
      var m := MatchEndAt(t, pos);
      if m.Some? {
        FindAllBound(t, m.value);
        assert |FindAll(t, pos)| == 1 + |FindAll(t, m.value)|;
        assert pos + 33 <= m.value;
      } else {
        FindAllBound(t, pos + 1);
        assert FindAll(t, pos) == FindAll(t, pos + 1);
      }
    }
  }

  /** `get_list_of_cameras` applied to the text `lsusb` printed. */
  function GetListOfCameras(stdout: string): (cams: seq<Camera>)
    ensures cams == ParseLines(Split(stdout, '\n'))
    ensures forall k :: 0 <= k < |cams| ==> cams[k].bus < 1000 && cams[k].device < 1000
  {
    FindAllByLines(stdout);
    FindAll(stdout, 0)
  }

  // Two texts that agree on a window agree on every match made inside it.

  /** `t` from `a` and `u` from `b` hold the same `n` characters. */
  predicate Same(t: string, a: nat, u: string, b: nat, n: nat) {
    && a + n <= |t| && b + n <= |u|
    && forall i :: a <= i < a + n ==> t[i] == u[i - a + b]
  }

  /** Agreeing texts hold the same `len` characters at corresponding positions `i` and `j`. */
  lemma SameSlice(t: string, a: nat, u: string, b: nat, n: nat, i: nat, j: nat, len: nat)
    requires Same(t, a, u, b, n) && a <= i && i + len <= a + n && j - b == i - a
    ensures t[i..i + len] == u[j..j + len]
  {
    var ts := t[i..i + len];
    var us := u[j..j + len];
    forall m | 0 <= m < len
      ensures ts[m] == us[m]
    {
      assert ts[m] == t[i + m];
    }
  }

  lemma HeaderSame(t: string, a: nat, u: string, b: nat, n: nat, i: nat, j: nat)
    requires Same(t, a, u, b, n) && a <= i && i + HEADER_LEN <= a + n && j - b == i - a
    ensures HeaderAt(t, i) <==> HeaderAt(u, j)
    ensures HeaderAt(t, i) ==> CameraAt(t, i) == CameraAt(u, j)
  {
    SameSlice(t, a, u, b, n, i, j, 4);
    SameSlice(t, a, u, b, n, i + 4, j + 4, 3);
    SameSlice(t, a, u, b, n, i + 7, j + 7, 8);
    SameSlice(t, a, u, b, n, i + 15, j + 15, 3);
    assert t[i + 18] == u[j + 18];
  }

  lemma {:induction false} LastMarkerSame(t: string, a: nat, u: string, b: nat, n: nat, ft: nat, et: nat, fu: nat, eu: nat)
    requires Same(t, a, u, b, n) && a <= ft && et <= a + n
    requires fu - b == ft - a && eu - b == et - a
    ensures LastMarker(t, ft, et).Some? <==> LastMarker(u, fu, eu).Some?
    ensures LastMarker(t, ft, et).Some? ==> LastMarker(t, ft, et).value - a == LastMarker(u, fu, eu).value - b
    decreases et
  {
    if et >= ft + |MARKER| {
      SameSlice(t, a, u, b, n, et - |MARKER|, eu - |MARKER|, |MARKER|);
      if !OccursAt(MARKER, t, et - |MARKER|) {
        LastMarkerSame(t, a, u, b, n, ft, et - 1, fu, eu - 1);
      }
    }
  }

  /** A text and its suffix from `s` agree from there on. */
  lemma SuffixSame(t: string, s: nat)
    requires s <= |t|
    ensures Same(t, s, t[s..], 0, |t| - s)
  {
  }

  /** Two texts that agree from `a` and from `b` to their ends have the same line ends there. */
  lemma {:induction false} LineEndSame(t: string, a: nat, u: string, b: nat, i: nat, j: nat)
    requires a <= i <= |t| && |t| - a == |u| - b && Same(t, a, u, b, |t| - a) && j - b == i - a
    ensures LineEnd(t, i) - a == LineEnd(u, j) - b
    decreases |t| - i
  {
    if i < |t| {
      assert t[i] == u[j];
      if t[i] != '\n' {
        LineEndSame(t, a, u, b, i + 1, j + 1);
      }
    }
  }

  /** A match attempt at a header ends after the last product name on the rest of the line. */
  lemma MatchEndAtHeader(t: string, p: nat)
    requires p + HEADER_LEN <= |t| && HeaderAt(t, p)
    ensures var l := LastMarker(t, p + HEADER_LEN, LineEnd(t, p + HEADER_LEN));
      MatchEndAt(t, p) == if l.Some? then Some(l.value + |MARKER|) else None
  {
  }

  /** Two texts that agree from `a` and from `b` to their ends make the same match attempts there. */
  lemma MatchEndAtSame(t: string, a: nat, u: string, b: nat, p: nat, r: nat)
    requires a <= p <= |t| && |t| - a == |u| - b && Same(t, a, u, b, |t| - a) && r - b == p - a
    ensures MatchEndAt(t, p).Some? <==> MatchEndAt(u, r).Some?
    ensures MatchEndAt(t, p).Some? ==>
      MatchEndAt(t, p).value - a == MatchEndAt(u, r).value - b && CameraAt(t, p) == CameraAt(u, r)
  {
    if p + HEADER_LEN <= |t| {
      HeaderSame(t, a, u, b, |t| - a, p, r);
      if HeaderAt(t, p) {
        var ft := p + HEADER_LEN;
        var fu := r + HEADER_LEN;
        LineEndSame(t, a, u, b, ft, fu);
        LastMarkerSame(t, a, u, b, |t| - a, ft, LineEnd(t, ft), fu, LineEnd(u, fu));
        MatchEndAtHeader(t, p);
        MatchEndAtHeader(u, r);
      }
    }
  }

  /** Two texts that agree from `a` and from `b` to their ends give the same search results from there. */
  lemma {:induction false} FindAllSame(t: string, a: nat, u: string, b: nat, p: nat, r: nat)
    requires a <= p <= |t| && |t| - a == |u| - b && Same(t, a, u, b, |t| - a) && r - b == p - a
    ensures FindAll(t, p) == FindAll(u, r)
    decreases |t| - p
  {
    if p < |t| {
      MatchEndAtSame(t, a, u, b, p, r);
      var mt := MatchEndAt(t, p);
      var mu := MatchEndAt(u, r);
      if mt.Some? {
        FindAllSame(t, a, u, b, mt.value, mu.value);
        assert FindAll(t, p) == [CameraAt(t, p)] + FindAll(t, mt.value);
        assert FindAll(u, r) == [CameraAt(u, r)] + FindAll(u, mu.value);
      } else {
        FindAllSame(t, a, u, b, p + 1, r + 1);
      }
    }
  }

  // The first line of a text.

  /** The characters of a header are never newlines. */
  lemma HeaderHasNoNewline(t: string, p: nat, m: nat)
    requires p <= m < p + HEADER_LEN && m < |t|
    ensures HeaderAt(t, p) ==> t[m] != '\n'
  {
    if HeaderAt(t, p) {
      if m < p + 4 {
        assert t[m] == t[p..p + 4][m - p];
      } else if m < p + 7 {
        assert t[m] == t[p + 4..p + 7][m - p - 4];
      } else if m < p + 15 {
        assert t[m] == t[p + 7..p + 15][m - p - 7];
      } else if m < p + 18 {
        assert t[m] == t[p + 15..p + 18][m - p - 15];
      }
    }
  }

  /** A newline-free line is one line: every match attempt on it looks at the rest of the line. */
  lemma MatchEndAtLine(line: string, p: nat)
    requires '\n' !in line && p <= |line|
    ensures MatchEndAt(line, p).Some? <==> MatchAt(line, p)
  {
    if HeaderAt(line, p) {
      var end := LineEnd(line, p + HEADER_LEN);
      assert end == |line|;
      LastMarkerSpec(line, p + HEADER_LEN, end);
      if ContainsFrom(MARKER, line, p + HEADER_LEN) {
        var j :| p + HEADER_LEN <= j && OccursAt(MARKER, line, j);
        assert LastMarker(line, p + HEADER_LEN, end).Some?;
      }
    }
  }

  /** When no match starts at or after `pos`, the search finds nothing more. */
  lemma {:induction false} FindAllNone(t: string, pos: nat)
    requires pos <= |t|
    requires forall p :: pos <= p <= |t| ==> MatchEndAt(t, p).None?
    ensures FindAll(t, pos) == []
    decreases |t| - pos
  {
    if pos < |t| {
      FindAllNone(t, pos + 1);
    }
  }

  /** On one line nothing matches after the end of a match, which ran to the last product name. */
  lemma NoMatchAfterEnd(line: string, pos: nat, p: nat)
    requires '\n' !in line && pos <= |line| && MatchEndAt(line, pos).Some?
    requires MatchEndAt(line, pos).value <= p <= |line|
    ensures MatchEndAt(line, p).None?
  {
    if HeaderAt(line, p) {
      assert LineEnd(line, pos + HEADER_LEN) == |line|;
      assert LineEnd(line, p + HEADER_LEN) == |line|;
      LastMarkerSpec(line, pos + HEADER_LEN, |line|);
      LastMarkerSpec(line, p + HEADER_LEN, |line|);
    }
  }

  /** On one line the search finds at most one match: the leftmost one, which runs to the last product name. */
  lemma {:induction false} FindAllLine(line: string, pos: nat)
    requires '\n' !in line && pos <= |line|
    ensures FindAll(line, pos) == match FirstMatchFrom(line, pos) case None => [] case Some(p) => [CameraAt(line, p)]
    decreases |line| - pos
  {
    if pos < |line| {
      MatchEndAtLine(line, pos);
      match MatchEndAt(line, pos)
      case Some(e) =>
        forall p | e <= p <= |line|
          ensures MatchEndAt(line, p).None?
        {
          NoMatchAfterEnd(line, pos, p);
        }
        FindAllNone(line, e);
      case None =>
        FindAllLine(line, pos + 1);
    }
  }

  /** Before the first newline, every line end is that newline. */
  lemma LineEndInFirstLine(t: string, k: nat, x: nat)
    requires k < |t| && t[k] == '\n' && x <= k
    requires forall m :: 0 <= m < k ==> t[m] != '\n'
    ensures LineEnd(t, x) == k && LineEnd(t[..k], x) == k
  {
  }

  /** Before the first newline, a match attempt on the text is a match attempt on its first line. */
  lemma MatchEndAtFirstLine(t: string, k: nat, pos: nat)
    requires k < |t| && t[k] == '\n' && pos <= k
    requires forall m :: 0 <= m < k ==> t[m] != '\n'
    ensures MatchEndAt(t, pos) == MatchEndAt(t[..k], pos)
    ensures MatchEndAt(t, pos).Some? ==> CameraAt(t, pos) == CameraAt(t[..k], pos)
  {
    var line := t[..k];
    assert Same(t, 0, line, 0, k);
    if pos + HEADER_LEN <= k {
      HeaderSame(t, 0, line, 0, k, pos, pos);
      if HeaderAt(t, pos) {
        LineEndInFirstLine(t, k, pos + HEADER_LEN);
        LastMarkerSame(t, 0, line, 0, k, pos + HEADER_LEN, k, pos + HEADER_LEN, k);
      }
    } else {
      HeaderHasNoNewline(t, pos, k);
    }
  }

  /**
   * The search over a text whose first line ends with the newline at `k`: the matches of
   * that line, then those of the rest.
   */
  lemma {:induction false} FindAllFirstLine(t: string, k: nat, pos: nat)
    requires k < |t| && t[k] == '\n' && pos <= k
    requires forall m :: 0 <= m < k ==> t[m] != '\n'
    ensures FindAll(t, pos) == FindAll(t[..k], pos) + FindAll(t, k + 1)
    decreases k - pos
  {
    MatchEndAtFirstLine(t, k, pos);
    if pos < k {
      match MatchEndAt(t, pos)
      case Some(e) =>
        FindAllFirstLine(t, k, e);
      case None =>
        FindAllFirstLine(t, k, pos + 1);
    }
  }

  /** Splitting at the first newline gives the first line, then the pieces of the rest. */
  lemma {:induction false} SplitFirstLine(s: string, k: nat)
    requires k < |s| && s[k] == '\n'
    requires forall m :: 0 <= m < k ==> s[m] != '\n'
    ensures Split(s, '\n') == [s[..k]] + Split(s[k + 1..], '\n')
    decreases k
  {
    if k > 0 {
      assert s[1..][..k - 1] == s[1..k];
      SplitFirstLine(s[1..], k - 1);
      assert s[1..][k..] == s[k + 1..];
      assert [s[0]] + s[1..k] == s[..k];
    }
  }

  /** A text without a newline is one piece. */
  lemma {:induction false} SplitOneLine(s: string)
    requires '\n' !in s
    ensures Split(s, '\n') == [s]
    decreases |s|
  {
    if s != [] {
      assert forall c :: c in s[1..] ==> c in s;
      SplitOneLine(s[1..]);
      assert [s[0]] + s[1..] == s;
    }
  }

  /** The search over one line finds that line's camera, if any. */
  lemma FindAllOneLine(line: string)
    requires '\n' !in line
    ensures FindAll(line, 0) == ParseLines([line])
  {
    FindAllLine(line, 0);
    assert LineResults([line]) == [MatchLine(line)];
    assert [MatchLine(line)][..0] == [];
  }

  /**
   * Searching the whole output finds exactly the cameras of its lines, one per matching
   * line and in line order: no match crosses a newline, and a line holds at most one match.
   */
  lemma {:induction false} FindAllByLines(t: string)
    ensures FindAll(t, 0) == ParseLines(Split(t, '\n'))
    decreases |t|
  {
    var k := LineEnd(t, 0);
    var line := t[..k];
    assert '\n' !in line;
    if k == |t| {
      assert line == t;
      SplitOneLine(t);
      FindAllOneLine(t);
    } else {
      var rest := t[k + 1..];
      calc {
        FindAll(t, 0);
        { FindAllFirstLine(t, k, 0); }
        FindAll(line, 0) + FindAll(t, k + 1);
        { SuffixSame(t, k + 1); FindAllSame(t, k + 1, rest, 0, k + 1, 0); }
        FindAll(line, 0) + FindAll(rest, 0);
        { FindAllOneLine(line); FindAllByLines(rest); }
        ParseLines([line]) + ParseLines(Split(rest, '\n'));
        { ParseLinesAppend([line], Split(rest, '\n')); }
        ParseLines([line] + Split(rest, '\n'));
        { SplitFirstLine(t, k); }
        ParseLines(Split(t, '\n'));
      }
    }
  }
}
