/** The table display of tui.go: the row `updateTable` derives from a
    snapshot of one session (status overlay, colours, average latency,
    bandwidth), and the sessions and initial rows `initializeTable` builds.
    Drawing through tview is not modelled: a row is the list of cell texts
    and colours it would set. */
module Tui {
  import opened Wrappers
  import opened Format
  import opened Proxies
  import opened Tracking
  import opened Sessions
  import opened ByteUnits

  /** The tcell colours the table uses; `Default` is the zero value a missing
      map key yields. */
  datatype Color = Default | White | Green | Yellow | Red | Blue | Gray

  /** A cell's text: a string, or the bandwidth value `formatBytes` renders. */
  datatype Content = Text(s: string) | Amount(b: ByteText)

  /** One cell update: its text and, when the code sets one, its colour. */
  datatype Cell = Cell(content: Content, color: Option<Color>)

  const StatusDupe: string := "Stable (Dupe)"

  /** The status constants of tui.go. */
  function StatusText(s: Status): string
  {
    match s
    case Starting => "Starting"
    case Stable => "Stable"
    case Rotated => "Rotated"
    case Dead => "DEAD"
  }

  /** The shown status: "Stable (Dupe)" over a Stable session whose IP the
      tracker also lists for another session. */
  function DisplayStatus(status: Status, dup: bool): string
  {
    if dup && status == Stable then StatusDupe else StatusText(status)
  }

  /** The overlay applies exactly to a Stable, duplicated session; every
      other session shows its stored status, and distinct statuses show
      distinct texts. */
  lemma DisplayStatusOverlay(status: Status, dup: bool)
    ensures DisplayStatus(status, dup) == StatusDupe <==> status == Stable && dup
    ensures DisplayStatus(status, dup) != StatusDupe ==> DisplayStatus(status, dup) == StatusText(status)
    ensures forall other: Status :: StatusText(other) == StatusText(status) ==> other == status
  {
  }

  /** The `statusColors` map. */
  const StatusColors: map<string, Color> := map[
    "Stable" := Green, StatusDupe := Yellow, "Rotated" := Red,
    "Starting" := Blue, "DEAD" := Gray]

  /** `statusColors[status]`, with the zero colour for a missing key. */
  function StatusColor(text: string): Color
  {
    if text in StatusColors then StatusColors[text] else Default
  }

  /** Stable green, Dupe yellow, Rotated red, Starting blue, DEAD gray; no
      shown status falls through to the zero colour. */
  lemma StatusColorTable(status: Status, dup: bool)
    ensures StatusColor(StatusText(Stable)) == Green
    ensures StatusColor(StatusDupe) == Yellow
    ensures StatusColor(StatusText(Rotated)) == Red
    ensures StatusColor(StatusText(Starting)) == Blue
    ensures StatusColor(StatusText(Dead)) == Gray
    ensures DisplayStatus(status, dup) in StatusColors
  {
  }

  const NanosPerMilli: nat := 1000000

  /** `(totalLatency / time.Duration(checkCount)).Milliseconds()` when there
      is something to average. Go's division truncates toward zero, which for
      the positive operands here is Dafny's division. */
  function AverageLatencyMs(totalLatency: int, checkCount: nat): Option<nat>
  {
    if checkCount > 0 && totalLatency > 0 then Some(totalLatency / checkCount / NanosPerMilli) else None
  }

  /** The average exists exactly when there are checks and positive total
      latency, and it is the whole number of milliseconds in the mean. */
  lemma AverageLatencyExact(totalLatency: int, checkCount: nat)
    ensures AverageLatencyMs(totalLatency, checkCount).None? <==> checkCount == 0 || totalLatency <= 0
    ensures AverageLatencyMs(totalLatency, checkCount).Some? ==>
      var ms, d := AverageLatencyMs(totalLatency, checkCount).value, checkCount * NanosPerMilli;
      && ms == totalLatency / d
      && ms * d <= totalLatency < (ms + 1) * d
  {
    if checkCount > 0 && totalLatency > 0 {
      var d := checkCount * NanosPerMilli;
      DivDiv(totalLatency, checkCount, NanosPerMilli);
      DivMod(totalLatency, d);
      var ms := totalLatency / d;
      assert ms * d + totalLatency % d == totalLatency;
    }
  }

  /** The colour bucket of an average latency. */
  function LatencyColor(ms: int): Color
  {
    if ms < 1000 then Green else if ms <= 2000 then Yellow else Red
  }

  /** The latency cell: `"-"` in white, or the average in decimal in its bucket colour. */
  function LatencyCell(totalLatency: int, checkCount: nat): Cell
  {
    match AverageLatencyMs(totalLatency, checkCount)
    case None => Cell(Text("-"), Some(White))
    case Some(ms) => Cell(Text(Decimal(ms)), Some(LatencyColor(ms)))
  }

  /** Reading the latency cell back in decimal gives the mean in whole
      milliseconds, and its colour is that value's bucket; without data it
      shows `"-"`. */
  lemma LatencyCellReadsBack(totalLatency: int, checkCount: nat)
    ensures checkCount == 0 || totalLatency <= 0 ==> LatencyCell(totalLatency, checkCount) == Cell(Text("-"), Some(White))
    ensures checkCount > 0 && totalLatency > 0 ==>
      var c, ms := LatencyCell(totalLatency, checkCount), totalLatency / (checkCount * NanosPerMilli);
      && c.content.Text?
      && TextToNat(c.content.s, 10) == ms
      && c.color == Some(LatencyColor(ms))
  {
    AverageLatencyExact(totalLatency, checkCount);
    if checkCount > 0 && totalLatency > 0 {
      TextRoundTrip(totalLatency / (checkCount * NanosPerMilli), 10);
    }
  }

  /** The rotations cell's colour. */
  function RotationColor(rotationCount: nat): Color
  {
    if rotationCount > 0 then Red else White
  }

  /** Go's `uint64(x)` of an `int64`: the two's-complement bits read as unsigned. */
  function ToUint64(x: int): (u: nat)
    ensures u < Uint64Limit
    ensures 0 <= x < Uint64Limit ==> u == x
  {
    x % Uint64Limit
  }

  /** The ten cells `updateTable` sets from a snapshot. `dup` is the
      tracker's answer for the snapshot's IP, and `duration` the rounded
      time since the first sighting, which depends on the clock. */
  function View(host: string, id: string, s: Snapshot, dup: bool, duration: string): (cells: seq<Cell>)
  {
    var status := DisplayStatus(s.status, dup);
    [ Cell(Text(host), None),
      Cell(Text(id), None),
      Cell(Text(status), Some(StatusColor(status))),
      Cell(Text(s.currentIP), None),
      Cell(Text(s.location), None),
      Cell(Text(if s.firstSeen then duration else "-"), None),
      Cell(Text(Decimal(s.checkCount)), None),
      Cell(Text(Decimal(s.rotationCount)), Some(RotationColor(s.rotationCount))),
      LatencyCell(s.totalLatency, s.checkCount),
      Cell(Amount(Formatted(ToUint64(s.totalBandwidth))), None) ]
  }

  /** `updateTable`: reads a snapshot of the session and the tracker's
      duplicate answer and derives the row; it changes neither. */
  method Render(session: ProxySession, tracker: IPTracker, duration: string) returns (cells: seq<Cell>)
    ensures cells == View(session.proxy.ip, session.id, session.State(),
                          Duplicate(tracker.ipToIDs, session.currentIP, session.id), duration)
  {
    var id, host, s := session.id, session.proxy.ip, session.State();
    var dup := tracker.IsDuplicate(s.currentIP, id);
    var status := StatusText(s.status);
    if dup && s.status == Stable {
      status := StatusDupe;
    }
    assert status == DisplayStatus(s.status, dup);
    var sessionDuration := "-";
    if s.firstSeen {
      sessionDuration := duration;
    }
    var latency, latencyColor := "-", White;
    if s.checkCount > 0 && s.totalLatency > 0 {
      var ms := s.totalLatency / s.checkCount / NanosPerMilli;
      latency := Decimal(ms);
      if ms < 1000 {
        latencyColor := Green;
      } else if ms <= 2000 {
        latencyColor := Yellow;
      } else {
        latencyColor := Red;
      }
    }
    assert Cell(Text(latency), Some(latencyColor)) == LatencyCell(s.totalLatency, s.checkCount);
    var bandwidth := FormatBytes(ToUint64(s.totalBandwidth));
    cells := [ Cell(Text(host), None),
               Cell(Text(id), None),
               Cell(Text(status), Some(StatusColor(status))),
               Cell(Text(s.currentIP), None),
               Cell(Text(s.location), None),
               Cell(Text(sessionDuration), None),
               Cell(Text(Decimal(s.checkCount)), None),
               Cell(Text(Decimal(s.rotationCount)), Some(if s.rotationCount > 0 then Red else White)),
               Cell(Text(latency), Some(latencyColor)),
               Cell(Amount(bandwidth), None) ];
  }

  /** `check()` as a whole: the check cycle followed by `updateTable`. */
  method CheckAndRefresh(session: ProxySession, tracker: IPTracker, probe: nat -> Probe, duration: string)
    returns (cells: seq<Cell>)
    modifies session, tracker
    ensures session.State() == AfterCheck(old(session.State()), FirstSuccess(probe, 0, MaxRetries))
    ensures tracker.ipToIDs ==
      TrackerAfterCheck(old(tracker.ipToIDs), old(session.State()), FirstSuccess(probe, 0, MaxRetries), session.id)
    ensures cells == View(session.proxy.ip, session.id, session.State(),
                          Duplicate(tracker.ipToIDs, session.currentIP, session.id), duration)
  {
    session.Check(tracker, probe);
    cells := Render(session, tracker, duration);
  }

  /** A session the tracker agrees with, after its first sighting, shows
      "Stable (Dupe)" exactly when it is Stable and at least one other session
      is listed under the same IP. */
  lemma DupeShownIffShared(s: Snapshot, m: Table, id: string)
    requires Agrees(s, m, id) && s.firstSeen
    ensures s.currentIP in m
    ensures DisplayStatus(s.status, Duplicate(m, s.currentIP, id)) == StatusDupe <==>
      s.status == Stable && |m[s.currentIP]| >= 2
  {
    assert id in Lookup(m, s.currentIP);
    DuplicateMeansShared(m, s.currentIP, id);
    DisplayStatusOverlay(s.status, Duplicate(m, s.currentIP, id));
  }

  // ---------------------------------------------------------------------------
  // initializeTable

  const Header: seq<string> := ["Host", "Session ID", "Status", "IP Address", "Location",
                                "Duration", "Checks", "Rotations", "Avg Latency (ms)", "Bandwidth"]

  /** The placeholder of an initial data cell from column 3 on. */
  function Placeholder(col: int): string
  {
    if col == 6 || col == 7 then "0" else "-"
  }

  /** The cells of a proxy's row before its first check: its host, its
      session identifier, "Starting" in white, then a placeholder per column. */
  function InitialCells(host: string, id: string): (cells: seq<Cell>)
  {
    [Cell(Text(host), None), Cell(Text(id), None), Cell(Text(StatusText(Starting)), Some(White)),
     Cell(Text(Placeholder(3)), None), Cell(Text(Placeholder(4)), None),
     Cell(Text(Placeholder(5)), None), Cell(Text(Placeholder(6)), None),
     Cell(Text(Placeholder(7)), None), Cell(Text(Placeholder(8)), None),
     Cell(Text(Placeholder(9)), None)]
  }

  /** The initial row has ten cells: host, identifier, "Starting" in white,
      "0" under Checks and Rotations, "-" elsewhere. The first refresh, which
      follows the first check, keeps the host and identifier cells and
      replaces "Starting". */
  lemma InitialCellsShape(host: string, id: string, outcome: Option<CheckResult>, dup: bool, duration: string)
    ensures var cells := InitialCells(host, id);
      && |cells| == |Header| == 10
      && cells[2] == Cell(Text("Starting"), Some(White))
      && (forall col :: 3 <= col < 10 ==>
            cells[col] == Cell(Text(if col == 6 || col == 7 then "0" else "-"), None))
    ensures var cells, view := InitialCells(host, id), View(host, id, AfterCheck(Initial, outcome), dup, duration);
      && cells[0] == view[0] && cells[1] == view[1]
      && view[2].content != cells[2].content
  {
  }

  /** `updateTable` runs only after a check, and a check never leaves a
      session Starting: a refreshed row never shows "Starting", so the blue
      `statusColors` entry for it is never drawn. */
  lemma RefreshNeverStarting(s: Snapshot, outcome: Option<CheckResult>, dup: bool)
    ensures AfterCheck(s, outcome).status != Starting
    ensures var shown := DisplayStatus(AfterCheck(s, outcome).status, dup);
      shown != StatusText(Starting) && StatusColor(shown) != Blue
  {
  }

  /** The inner loop of `initializeTable`, filling one row. */
  method InitialRow(host: string, id: string) returns (cells: seq<Cell>)
    ensures cells == InitialCells(host, id)
  {
    cells := [Cell(Text(host), None), Cell(Text(id), None), Cell(Text(StatusText(Starting)), Some(White))];
    for col := 3 to 10
      invariant |cells| == col
      invariant forall c :: 0 <= c < col ==> cells[c] == InitialCells(host, id)[c]
    {
      var text := "-";
      if col == 6 || col == 7 {
        text := "0";
      }
      cells := cells + [Cell(Text(text), None)];
    }
  }

  /** `session` is the one `initializeTable` creates for `proxy` on `row`, and
      `cells` are its initial cells. */
  predicate Created(session: ProxySession, proxy: Proxy, row: nat, cells: seq<Cell>)
    reads session
  {
    && session.proxy == proxy && session.id == ShortID(proxy) && session.row == row
    && session.State() == Initial
    && cells == InitialCells(proxy.ip, session.id)
  }

  /** `initializeTable`: the header row, then one new session per proxy, in
      order, on row `i + 1`, with its initial cells. */
  method InitializeTable(proxies: seq<Proxy>)
    returns (sessions: seq<ProxySession>, header: seq<Cell>, rows: seq<seq<Cell>>)
    ensures |header| == |Header| && forall col :: 0 <= col < |Header| ==> header[col] == Cell(Text(Header[col]), Some(Yellow))
    ensures |sessions| == |proxies| && |rows| == |proxies|
    ensures forall i :: 0 <= i < |proxies| ==> fresh(sessions[i])
    ensures forall i :: 0 <= i < |proxies| ==> Created(sessions[i], proxies[i], i + 1, rows[i])
    ensures forall i, j :: 0 <= i < j < |sessions| ==> sessions[i] != sessions[j]
  {
    header := [];
    for col := 0 to |Header|
      invariant |header| == col
      invariant forall c :: 0 <= c < col ==> header[c] == Cell(Text(Header[c]), Some(Yellow))
    {
      header := header + [Cell(Text(Header[col]), Some(Yellow))];
    }
    sessions, rows := [], [];
    for i := 0 to |proxies|
      invariant |sessions| == i && |rows| == i
      invariant forall k :: 0 <= k < i ==> fresh(sessions[k])
      invariant forall k :: 0 <= k < i ==> Created(sessions[k], proxies[k], k + 1, rows[k])
      invariant forall k, j :: 0 <= k < j < i ==> sessions[k] != sessions[j]
    {
      var session := new ProxySession(proxies[i], i + 1);
      var cells := InitialRow(proxies[i].ip, session.id);
      ghost var before := sessions;
      sessions, rows := sessions + [session], rows + [cells];
      assert forall k :: 0 <= k < i ==> sessions[k] == before[k];
    }
  }
}
