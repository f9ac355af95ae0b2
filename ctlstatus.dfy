// `calicoctl status`: the runtime check, the rkt container status choice
// and the parser of BIRD's "show protocols" table.

module CtlStatus {
  import opened Wrappers
  import opened StrUtil

  // ---------------------------------------------------------------------
  // Runtime check.

  datatype Runtime = Docker | Rkt

  function RuntimeName(rt: Runtime): string
  {
    match rt
    case Docker => "docker"
    case Rkt => "rkt"
  }

  datatype RuntimeError = InvalidRuntime

  /** `--runtime` must be "docker" or "rkt"; anything else (or nothing) exits. */
  function CheckRuntime(runtime: Option<string>): (r: Result<Runtime, RuntimeError>)
    ensures r.Ok? <==> runtime == Some("docker") || runtime == Some("rkt")
    ensures r.Ok? ==> runtime == Some(RuntimeName(r.value))
  {
    if runtime == Some("docker") then Ok(Docker)
    else if runtime == Some("rkt") then Ok(Rkt)
    else Err(InvalidRuntime)
  }

  /** Every runtime's own name is accepted as that runtime. */
  lemma CheckRuntimeOfName(rt: Runtime)
    ensures CheckRuntime(Some(RuntimeName(rt))) == Ok(rt)
  {
  }

  // ---------------------------------------------------------------------
  // rkt container status.

  /** One match of the `rkt list` pattern: id, calico/node version, state. */
  datatype RktContainer = RktContainer(id: string, version: string, state: string)

  datatype RktError = ListFailed | NodeNotRunning

  function Statuses(containers: seq<RktContainer>): (r: seq<string>)
    ensures |r| == |containers|
    ensures forall k :: 0 <= k < |r| ==> r[k] == containers[k].state
  {
    if containers == [] then [] else [containers[0].state] + Statuses(containers[1..])
  }

  /** A failing `rkt list` exits first; no calico/node container exits
      next; otherwise the status is "running" if any container runs, else
      the first container's state. */
  function RktStatus(returnCode: int, containers: seq<RktContainer>): (r: Result<string, RktError>)
    ensures returnCode != 0 ==> r == Err(ListFailed)
    ensures returnCode == 0 && containers == [] ==> r == Err(NodeNotRunning)
    ensures r.Ok? ==> containers != []
    ensures r.Ok? ==> (r.value == "running" <==> exists k :: 0 <= k < |containers| && containers[k].state == "running")
    ensures r.Ok? && r.value != "running" ==> r.value == containers[0].state
  {
    if returnCode != 0 then Err(ListFailed)
    else if containers == [] then Err(NodeNotRunning)
    else
      var statuses := Statuses(containers);
      if "running" in statuses then
        assert exists k :: 0 <= k < |statuses| && statuses[k] == "running";
        Ok("running")
      else Ok(statuses[0])
  }

  // ---------------------------------------------------------------------
  // BIRD "show protocols" table.

  /** A text without whitespace. */
  predicate NoSpace(s: string)
  {
    forall j :: 0 <= j < |s| ==> !IsSpace(s[j])
  }

  /** Index of the first whitespace character. */
  function FirstSpace(s: string): (r: Option<nat>)
    ensures r.Some? ==> r.value < |s| && IsSpace(s[r.value])
    ensures r.Some? ==> NoSpace(s[..r.value])
    ensures r.None? <==> NoSpace(s)
  {
    if s == [] then None
    else if IsSpace(s[0]) then Some(0)
    else
      match FirstSpace(s[1..])
      case None => None
      case Some(i) => Some(i + 1)
  }

  /** `re.split("\s+", s)` with at most `n` cuts: cut at the first run of
      whitespace while cuts remain; the last piece keeps the rest of the text. */
  function SplitAtMost(s: string, n: nat): (r: seq<string>)
    ensures 1 <= |r| <= n + 1
    ensures forall k :: 0 <= k < |r| - 1 ==> NoSpace(r[k])
    ensures NoSpace(s) ==> r == [s]
    ensures n >= |s| ==> NoSpace(r[|r| - 1])
    decreases |s|
  {
    match FirstSpace(s)
    case None => [s]
    case Some(i) =>
      if n == 0 then [s]
      else
        var t := LStrip(s[i + 1..]);
        var rest := SplitAtMost(t, n - 1);
        ConsPiece(s[..i], rest, n);
        [s[..i]] + rest
  }

  /** A whitespace-free piece put before the pieces of the rest. */
  lemma ConsPiece(head: string, rest: seq<string>, n: nat)
    requires NoSpace(head) && 1 <= |rest| <= n
    requires forall k :: 0 <= k < |rest| - 1 ==> NoSpace(rest[k])
    ensures var r := [head] + rest;
      2 <= |r| <= n + 1 && r[|r| - 1] == rest[|rest| - 1] &&
      forall k :: 0 <= k < |r| - 1 ==> NoSpace(r[k])
  {
    var r := [head] + rest;
    forall k | 0 <= k < |r| - 1
      ensures NoSpace(r[k])
    {
      if k > 0 { assert r[k] == rest[k - 1]; }
    }
  }

  /** `re.split("\s+", s, maxsplit)`: at most `maxsplit` cuts, where 0 means
      no limit, so that every piece is then free of whitespace. */
  function WsSplit(s: string, maxsplit: nat): (r: seq<string>)
    ensures |r| >= 1 && forall k :: 0 <= k < |r| - 1 ==> NoSpace(r[k])
    ensures maxsplit > 0 ==> |r| <= maxsplit + 1
    ensures maxsplit == 0 ==> NoSpace(r[|r| - 1])
    ensures NoSpace(s) ==> r == [s]
  {
    SplitAtMost(s, if maxsplit == 0 then |s| else maxsplit)
  }

  const HEADING: seq<string> := ["name", "proto", "table", "state", "since", "info"]

  /** A line with the `bird>` prompt dropped, then stripped. */
  function CleanLine(line: string): (r: string)
    ensures r == [] || (!IsSpace(r[0]) && !IsSpace(r[|r| - 1]))
  {
    Strip(if StartsWith(line, "bird>") then line[5..] else line)
  }

  /** A leading prompt is dropped before stripping; other lines are just stripped. */
  lemma CleanLinePrompt(t: string)
    ensures CleanLine("bird>" + t) == Strip(t)
    ensures !StartsWith(t, "bird>") ==> CleanLine(t) == Strip(t)
  {
    assert ("bird>" + t)[..5] == "bird>" && ("bird>" + t)[5..] == t;
  }

  datatype PeerType = Mesh | NodeSpecific | GlobalPeer

  function PeerTypeName(t: PeerType): string
  {
    match t
    case Mesh => "node-to-node mesh"
    case NodeSpecific => "node specific"
    case GlobalPeer => "global"
  }

  /** The separator of an IP address of the version. */
  function IpSep(version: int): (c: char)
    ensures c != '_'
  {
    if version == 4 then '.' else ':'
  }

  /** A BGP peer named Mesh_, Node_ or Global_ followed by its address with
      '_' for the address separator; other protocols are not peers. */
  function PeerOf(combined: string, sep: char): (r: Option<(string, PeerType)>)
    requires sep != '_'
    ensures r.Some? ==> '_' !in r.value.0
    ensures r.Some? <==> StartsWith(combined, "Mesh_") || StartsWith(combined, "Node_") || StartsWith(combined, "Global_")
    ensures StartsWith(combined, "Mesh_") ==> r == Some((ReplaceChar(combined[5..], '_', sep), Mesh))
    ensures StartsWith(combined, "Node_") ==> r == Some((ReplaceChar(combined[5..], '_', sep), NodeSpecific))
    ensures StartsWith(combined, "Global_") ==> r == Some((ReplaceChar(combined[7..], '_', sep), GlobalPeer))
  {
    if StartsWith(combined, "Mesh_") then Some((ReplaceChar(combined[5..], '_', sep), Mesh))
    else if StartsWith(combined, "Node_") then
      assert !StartsWith(combined, "Global_") by { assert combined[0] == 'N'; }
      Some((ReplaceChar(combined[5..], '_', sep), NodeSpecific))
    else if StartsWith(combined, "Global_") then Some((ReplaceChar(combined[7..], '_', sep), GlobalPeer))
    else None
  }

  datatype BirdRow = BirdRow(peerAddress: string, peerType: PeerType, state: string, since: string, info: string)

  /** A table row from a row of 5 or 6 columns whose name is a peer. */
  function RowOf(cols: seq<string>, sep: char): (r: Option<BirdRow>)
    requires 5 <= |cols| <= 6 && sep != '_'
    ensures r.Some? <==> PeerOf(cols[0], sep).Some?
    ensures r.Some? ==> r.value.state == cols[3] && r.value.since == cols[4]
    ensures r.Some? ==> r.value.info == (if |cols| == 6 then cols[5] else "")
    ensures r.Some? ==> '_' !in r.value.peerAddress
  {
    match PeerOf(cols[0], sep)
    case None => None
    case Some((name, t)) => Some(BirdRow(name, t, cols[3], cols[4], if |cols| == 6 then cols[5] else ""))
  }

  /** The scan state: whether the heading has been seen, and the rows so far. */
  datatype Scan = Scan(found: bool, rows: seq<BirdRow>)

  /** Every row's address is free of underscores. */
  predicate AddrsClean(rows: seq<BirdRow>)
  {
    forall k :: 0 <= k < |rows| ==> '_' !in rows[k].peerAddress
  }

  /** What one line does to the scan: Stop when a row of other than 5 or 6
      columns after the heading abandons the table. */
  datatype Step = Next(st: Scan) | Stop(st: Scan)

  /** One line of the parse loop, from state `st`. */
  function ScanLine(line: string, st: Scan, sep: char): (r: Step)
    requires sep != '_'
    ensures st.rows <= r.st.rows && |r.st.rows| <= |st.rows| + 1
    ensures AddrsClean(st.rows) ==> AddrsClean(r.st.rows)
    ensures r.Stop? ==> r.st == Scan(false, st.rows)
  {
    var clean := CleanLine(line);
    if clean == "" then Next(st)
    else
      var cols := WsSplit(clean, 5);
      if cols == HEADING then Next(Scan(true, st.rows))
      else if !st.found then Next(st)
      else if !(5 <= |cols| <= 6) then Stop(Scan(false, st.rows))
      else
        match RowOf(cols, sep)
        case None => Next(st)
        case Some(row) => Next(Scan(true, st.rows + [row]))
  }

  /** The parse loop over the remaining lines, from state `st`. */
  function ScanLines(lines: seq<string>, st: Scan, sep: char): (r: Scan)
    requires sep != '_'
    ensures st.rows <= r.rows
    ensures AddrsClean(st.rows) ==> AddrsClean(r.rows)
    decreases |lines|
  {
    if lines == [] then st
    else
      match ScanLine(lines[0], st, sep)
      case Stop(s) => s
      case Next(s) => ScanLines(lines[1..], s, sep)
  }

  datatype BirdOutput = Table(rows: seq<BirdRow>) | RawOutput(text: string)

  /** The printed result: the table when it was found and not abandoned,
      otherwise BIRD's raw output. */
  function BirdProtocols(results: string, version: int): (r: BirdOutput)
    ensures r.RawOutput? ==> r.text == results
    ensures r.Table? ==> AddrsClean(r.rows)
  {
    var st := ScanLines(Split(results, '\n'), Scan(false, []), IpSep(version));
    if st.found then Table(st.rows) else RawOutput(results)
  }

  /** The loop of `pprint_bird_protocols` over the lines of BIRD's output. */
  method PprintBirdProtocols(results: string, version: int) returns (out: BirdOutput)
    ensures out == BirdProtocols(results, version)
  {
    var sep := IpSep(version);
    var lines := Split(results, '\n');
    var foundTable := false;
    var rows: seq<BirdRow> := [];
    var i := 0;
    while i < |lines|
      invariant 0 <= i <= |lines|
      invariant ScanLines(lines, Scan(false, []), sep) == ScanLines(lines[i..], Scan(foundTable, rows), sep)
    {
      assert lines[i..][1..] == lines[i + 1..];
      var line := CleanLine(lines[i]);
      if line == "" {
        i := i + 1;
        continue;
      }
      var columns := WsSplit(line, 5);
      if columns == HEADING {
        foundTable := true;
        i := i + 1;
        continue;
      } else if !foundTable {
        i := i + 1;
        continue;
      }
      if !(5 <= |columns| <= 6) {
        foundTable := false;
        break;
      }
      var row := RowOf(columns, sep);
      if row.Some? {
        rows := rows + [row.value];
      }
      i := i + 1;
    }
    if foundTable {
      out := Table(rows);
    } else {
      out := RawOutput(results);
    }
  }

  /** Until the exact heading row appears, no line contributes: lines
      without a heading leave an unfound scan unchanged. */
  lemma {:induction false} NoHeadingNoTable(lines: seq<string>, rows: seq<BirdRow>, sep: char)
    requires sep != '_'
    requires forall k :: 0 <= k < |lines| ==> WsSplit(CleanLine(lines[k]), 5) != HEADING
    ensures ScanLines(lines, Scan(false, rows), sep) == Scan(false, rows)
    decreases |lines|
  {
    if lines != [] {
      assert forall k :: 0 <= k < |lines[1..]| ==> lines[1..][k] == lines[k + 1];
      NoHeadingNoTable(lines[1..], rows, sep);
    }
  }

  /** Output without the heading row is printed raw. */
  lemma NoHeadingPrintsRaw(results: string, version: int)
    requires forall k :: 0 <= k < |Split(results, '\n')| ==> WsSplit(CleanLine(Split(results, '\n')[k]), 5) != HEADING
    ensures BirdProtocols(results, version) == RawOutput(results)
  {
    NoHeadingNoTable(Split(results, '\n'), [], IpSep(version));
  }

  /** After the heading, a non-blank row of other than 5 or 6 columns
      abandons the table whatever follows. */
  lemma BadRowAbandons(line: string, rest: seq<string>, rows: seq<BirdRow>, sep: char)
    requires sep != '_'
    requires CleanLine(line) != "" && WsSplit(CleanLine(line), 5) != HEADING
    requires !(5 <= |WsSplit(CleanLine(line), 5)| <= 6)
    ensures ScanLines([line] + rest, Scan(true, rows), sep) == Scan(false, rows)
  {
    assert ([line] + rest)[1..] == rest;
  }

  /** Each cut takes one whitespace-free column and the whitespace after
      it; once the cuts are used up, the rest is one column, inner
      whitespace included (so the info column keeps its spaces). */
  lemma SplitAtMostCut(col: string, rest: string, n: nat)
    requires NoSpace(col)
    ensures SplitAtMost(col + " " + rest, n + 1) == [col] + SplitAtMost(LStrip(rest), n)
    ensures SplitAtMost(col + " " + rest, 0) == [col + " " + rest]
  {
    var s := col + " " + rest;
    assert s[|col|] == ' ';
    assert FirstSpace(s) == Some(|col|);
    assert s[..|col|] == col && s[|col| + 1..] == rest;
  }
}
