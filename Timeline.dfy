/** The 24-hour multi-camera timeline of src/components/Timeline.tsx: the
    colour and icon lookups, bar, row and tick geometry, and the scrubber that
    snaps to incident boundaries while it is dragged. */
module Timeline {
  import opened Types
  import opened Formatters

  const MinutesInDay: int := 1440
  const MajorTickInterval: int := 10
  const TotalMajorTicks: int := 144
  const Scale: int := 5
  const LeftPanelWidth: int := 140
  const CameraRowHeight: int := 35
  const IncidentBarHeight: int := 30
  /** Snap window in seconds, inclusive. */
  const SnapThreshold: int := 120
  /** Width of the SVG canvas. */
  const SvgWidth: int := MinutesInDay * Scale + LeftPanelWidth + 20

  const NeutralColor: string := "#6B7280"
  const UnknownIcon: string := "/icons/unknown.svg"

  // ---------------------------------------------------------------------------
  // Colour and icon of an incident type
  // ---------------------------------------------------------------------------

  /** Fill colour of a bar; unrecognised types fall back to a neutral grey. */
  function IncidentColor(kind: IncidentKind): (color: string)
    ensures color == NeutralColor <==> kind.Unrecognised?
  {
    match kind
    case UnauthorizedAccess => "#431407"
    case GunThreat => "#450A0A"
    case FaceRecognised => "#172554"
    case Unrecognised(_) => NeutralColor
  }

  /** Icon drawn in the middle of a bar; unrecognised types get the unknown icon. */
  function IncidentIcon(kind: IncidentKind): (icon: string)
    ensures icon == UnknownIcon <==> kind.Unrecognised?
  {
    match kind
    case UnauthorizedAccess => "/icons/door.svg"
    case GunThreat => "/icons/alert.svg"
    case FaceRecognised => "/icons/people.svg"
    case Unrecognised(_) => UnknownIcon
  }

  /** Colour and icon each tell the recognised types apart, and all
      unrecognised types share one colour and one icon. */
  lemma ColorAndIconIdentifyKind(a: IncidentKind, b: IncidentKind)
    ensures !a.Unrecognised? && !b.Unrecognised? ==>
      (IncidentColor(a) == IncidentColor(b) <==> a == b) && (IncidentIcon(a) == IncidentIcon(b) <==> a == b)
    ensures a.Unrecognised? && b.Unrecognised? ==>
      IncidentColor(a) == IncidentColor(b) && IncidentIcon(a) == IncidentIcon(b)
  {
  }

  // ---------------------------------------------------------------------------
  // Geometry
  // ---------------------------------------------------------------------------

  /** Screen x of a (possibly fractional) minute of the day. */
  function MinuteToX(minutes: real): (x: real)
    ensures 0.0 <= minutes <= MinutesInDay as real ==>
      LeftPanelWidth as real <= x <= (LeftPanelWidth + MinutesInDay * Scale) as real < SvgWidth as real
  {
    minutes * Scale as real + LeftPanelWidth as real
  }

  /** Top of camera row i. */
  function RowY(i: nat): int
  {
    i * CameraRowHeight + 60
  }

  /** Later cameras are drawn strictly lower, and their bars never overlap. */
  lemma RowsDoNotOverlap(i: nat, j: nat)
    requires i < j
    ensures RowY(i) < RowY(j) && RowY(i) + IncidentBarHeight < RowY(j)
  {
  }

  /** Height of the SVG: the last row's bar ends exactly at the bottom. */
  function TimelineHeight(cameraCount: nat): (h: int)
    ensures forall i: nat :: i < cameraCount ==> RowY(i) + IncidentBarHeight <= h
    ensures cameraCount > 0 ==> RowY(cameraCount - 1) + IncidentBarHeight == h
  {
    cameraCount * CameraRowHeight + 55
  }

  /** A drawn incident bar: its rectangle and its fill and icon. */
  datatype Bar = Bar(x: real, y: int, width: real, color: string, icon: string)

  /** The bar of one incident in camera row `row`. The width is
      `Math.max(duration * scale)`, which with one argument is just
      `duration * scale`: no minimum width is imposed. */
  function IncidentBar(row: nat, incident: Incident): (bar: Bar)
    ensures LeftPanelWidth as real <= bar.x <= (LeftPanelWidth + (MinutesInDay - 1) * Scale) as real
    ensures bar.x == MinuteToX(TimeToMinutes(incident.tsStart) as real)
    ensures bar.x + bar.width == MinuteToX(TimeToMinutes(incident.tsEnd) as real)
    ensures bar.width == 0.0 <==>
      incident.tsStart.hours == incident.tsEnd.hours && incident.tsStart.minutes == incident.tsEnd.minutes
    ensures bar.width < 0.0 <==> MinuteBefore(incident.tsEnd, incident.tsStart)
    ensures bar.y == RowY(row) + 5 && bar.y + IncidentBarHeight - 10 <= RowY(row) + IncidentBarHeight
    ensures bar.color == IncidentColor(incident.kind) && bar.icon == IncidentIcon(incident.kind)
  {
    var startMinutes := TimeToMinutes(incident.tsStart);
    var duration := IncidentDuration(incident.tsStart, incident.tsEnd);
    Bar(MinuteToX(startMinutes as real), RowY(row) + 5, (duration * Scale) as real,
        IncidentColor(incident.kind), IncidentIcon(incident.kind))
  }

  /** The bars of every camera, row by row, in camera and incident order. */
  function Layout(cameras: seq<Camera>): (rows: seq<seq<Bar>>)
    ensures |rows| == |cameras|
    ensures forall i :: 0 <= i < |rows| ==> |rows[i]| == |cameras[i].incidents|
    ensures forall i, k :: 0 <= i < |rows| && 0 <= k < |rows[i]| ==>
      rows[i][k] == IncidentBar(i, cameras[i].incidents[k])
  {
    seq(|cameras|, i requires 0 <= i < |cameras| =>
      seq(|cameras[i].incidents|, k requires 0 <= k < |cameras[i].incidents| =>
        IncidentBar(i, cameras[i].incidents[k])))
  }

  /** Bars of different cameras lie in disjoint horizontal bands, the later camera below. */
  lemma LayoutRowsSeparate(cameras: seq<Camera>, i: nat, j: nat, k: nat, l: nat)
    requires i < j < |cameras|
    requires k < |cameras[i].incidents| && l < |cameras[j].incidents|
    ensures var rows := Layout(cameras);
      rows[i][k].y + IncidentBarHeight - 10 < rows[j][l].y
  {
    RowsDoNotOverlap(i, j);
  }

  // ---------------------------------------------------------------------------
  // Ticks
  // ---------------------------------------------------------------------------

  /** Minutes of the labelled major ticks: every ten minutes from 00:00 to 23:50. */
  function MajorTicks(): (ticks: seq<int>)
    ensures |ticks| == TotalMajorTicks
    ensures forall i :: 0 <= i < |ticks| ==> 0 <= ticks[i] < MinutesInDay && ticks[i] % MajorTickInterval == 0
    ensures forall i, j :: 0 <= i < j < |ticks| ==> ticks[i] < ticks[j]
    ensures forall m :: 0 <= m < MinutesInDay && m % MajorTickInterval == 0 ==> ticks[m / MajorTickInterval] == m
  {
    seq(TotalMajorTicks, i => i * MajorTickInterval)
  }

  /** The nine minor ticks after major tick i; none once its minute reaches 24:00. */
  function MinorTicksAfter(i: int): (ticks: seq<int>)
    ensures |ticks| == if i * MajorTickInterval >= MinutesInDay then 0 else 9
    ensures forall j :: 0 <= j < |ticks| ==> ticks[j] / 10 == i && ticks[j] % 10 == j + 1
  {
    var baseMinutes := i * MajorTickInterval;
    if baseMinutes >= MinutesInDay then [] else seq(9, j => baseMinutes + j + 1)
  }

  /** Minutes of the minor ticks drawn for the first n major ticks, in drawing order. */
  function MinorTicks(n: nat): (ticks: seq<int>)
    requires n <= TotalMajorTicks
    ensures |ticks| == 9 * n
    ensures forall k :: 0 <= k < |ticks| ==> ticks[k] == 10 * (k / 9) + k % 9 + 1
  {
    if n == 0 then []
    else
      var before := MinorTicks(n - 1);
      var block := MinorTicksAfter(n - 1);
      assert |block| == 9;
      assert forall k :: |before| <= k < |before| + 9 ==> k / 9 == n - 1 && k % 9 == k - |before|;
      before + block
  }

  /** The 144 blocks hold 1296 minor ticks, each strictly inside the day and
      off the ten-minute grid. */
  lemma MinorTicksOffGrid()
    ensures var minor := MinorTicks(TotalMajorTicks);
      |minor| == 1296
      && forall k :: 0 <= k < |minor| ==> 1 <= minor[k] <= MinutesInDay - 1 && minor[k] % 10 != 0
  {
    var minor := MinorTicks(TotalMajorTicks);
    forall k | 0 <= k < |minor|
      ensures 1 <= minor[k] <= MinutesInDay - 1 && minor[k] % 10 != 0
    {
      assert minor[k] == 10 * (k / 9) + k % 9 + 1;
    }
  }

  /** Minor ticks are drawn in increasing order, so no minute gets two. */
  lemma MinorTicksIncrease()
    ensures var minor := MinorTicks(TotalMajorTicks);
      forall k, l :: 0 <= k < l < |minor| ==> minor[k] < minor[l]
  {
    var minor := MinorTicks(TotalMajorTicks);
    forall k, l | 0 <= k < l < |minor|
      ensures minor[k] < minor[l]
    {
      assert minor[k] == 10 * (k / 9) + k % 9 + 1;
      assert minor[l] == 10 * (l / 9) + l % 9 + 1;
    }
  }

  /** Every minute of the day off the ten-minute grid gets a minor tick, at
      a position fixed by its block and its offset in the block. */
  lemma MinorTicksCoverOffGrid()
    ensures var minor := MinorTicks(TotalMajorTicks);
      forall m :: 0 < m < MinutesInDay && m % 10 != 0 ==>
        0 <= 9 * (m / 10) + m % 10 - 1 < |minor| && minor[9 * (m / 10) + m % 10 - 1] == m
  {
    var minor := MinorTicks(TotalMajorTicks);
    forall m | 0 < m < MinutesInDay && m % 10 != 0
      ensures 0 <= 9 * (m / 10) + m % 10 - 1 < |minor| && minor[9 * (m / 10) + m % 10 - 1] == m
    {
      var k := 9 * (m / 10) + m % 10 - 1;
      assert k / 9 == m / 10 && k % 9 == m % 10 - 1;
    }
  }

  /** No minor tick coincides with a major one, and neither set reaches the
      final 24:00 tick; with the two lemmas above, every minute of [0, 1440]
      gets exactly one tick. */
  lemma TicksPartitionTheDay()
    ensures var minor := MinorTicks(TotalMajorTicks);
      (forall m :: m in MajorTicks() ==> m !in minor)
      && MinutesInDay !in MajorTicks() && MinutesInDay !in minor
  {
    var minor := MinorTicks(TotalMajorTicks);
    var major := MajorTicks();
    MinorTicksOffGrid();
    forall m | m in major
      ensures m !in minor
    {
      var i :| 0 <= i < |major| && major[i] == m;
      assert m % 10 == 0;
    }
  }
  /** Every tick the axis draws, by minute: the major ticks, the minor ticks
      and the final tick at 24:00, which is drawn on its own with the fixed
      label "24:00". */
  function AxisTicks(): seq<int>
  {
    MajorTicks() + MinorTicks(TotalMajorTicks) + [MinutesInDay]
  }

  /** The axis is the 144 major ticks, the 1296 minor ticks and the final tick. */
  lemma AxisTicksParts()
    ensures var ticks := AxisTicks();
      |ticks| == 1441 && ticks[1440] == MinutesInDay
      && (forall i :: 0 <= i < 144 ==> ticks[i] == MajorTicks()[i])
      && (forall i :: 144 <= i < 1440 ==> ticks[i] == MinorTicks(TotalMajorTicks)[i - 144])
  {
    MinorTicksOffGrid();
  }

  /** Every tick lies in [0, 1440]. */
  lemma AxisTicksInRange()
    ensures forall i :: 0 <= i < |AxisTicks()| ==> 0 <= AxisTicks()[i] <= MinutesInDay
  {
    var major, minor, ticks := MajorTicks(), MinorTicks(TotalMajorTicks), AxisTicks();
    AxisTicksParts();
    MinorTicksOffGrid();
    forall i | 0 <= i < |ticks|
      ensures 0 <= ticks[i] <= MinutesInDay
    {
      if i < 144 {
        assert ticks[i] == major[i];
      } else if i < 1440 {
        assert ticks[i] == minor[i - 144];
      }
    }
  }

  /** Every minute of [0, 1440] has a tick. */
  lemma EveryMinuteTicked()
    ensures forall m :: 0 <= m <= MinutesInDay ==> m in AxisTicks()
  {
    var major, minor, ticks := MajorTicks(), MinorTicks(TotalMajorTicks), AxisTicks();
    AxisTicksParts();
    MinorTicksCoverOffGrid();
    forall m | 0 <= m <= MinutesInDay
      ensures m in ticks
    {
      if m == MinutesInDay {
        assert ticks[1440] == m;
      } else if m % 10 == 0 {
        assert ticks[m / 10] == major[m / 10] == m;
      } else {
        var k := 9 * (m / 10) + m % 10 - 1;
        assert ticks[144 + k] == minor[k] == m;
      }
    }
  }

  /** No minute has two ticks. */
  lemma AxisTicksDistinct()
    ensures forall i, j :: 0 <= i < j < |AxisTicks()| ==> AxisTicks()[i] != AxisTicks()[j]
  {
    var major, minor, ticks := MajorTicks(), MinorTicks(TotalMajorTicks), AxisTicks();
    AxisTicksParts();
    MinorTicksIncrease();
    TicksPartitionTheDay();
    forall i, j | 0 <= i < j < |ticks|
      ensures ticks[i] != ticks[j]
    {
      if j == 1440 {
        if i < 144 {
          assert ticks[i] == major[i] && major[i] in major;
        } else {
          assert ticks[i] == minor[i - 144] && minor[i - 144] in minor;
        }
      } else if j < 144 {
        assert ticks[i] == major[i] && ticks[j] == major[j];
      } else if i >= 144 {
        assert ticks[i] == minor[i - 144] && ticks[j] == minor[j - 144];
      } else {
        assert ticks[i] == major[i] && major[i] in major;
        assert ticks[j] == minor[j - 144] && minor[j - 144] in minor;
      }
    }
  }

  /** Every minute of [0, 1440] has exactly one tick on the axis, and the
      axis draws nothing outside that range. */
  lemma EveryMinuteHasOneTick(m: int)
    requires 0 <= m <= MinutesInDay
    ensures exists i :: 0 <= i < |AxisTicks()| && AxisTicks()[i] == m
    ensures forall i, j :: 0 <= i < |AxisTicks()| && 0 <= j < |AxisTicks()| && AxisTicks()[i] == m && AxisTicks()[j] == m ==> i == j
  {
    EveryMinuteTicked();
    AxisTicksDistinct();
    assert m in AxisTicks();
  }



  // ---------------------------------------------------------------------------
  // Snap resolution
  // ---------------------------------------------------------------------------

  /** Start then end second of each incident, in list order. */
  function IncidentBoundaries(incidents: seq<Incident>): (bs: seq<int>)
    ensures |bs| == 2 * |incidents|
    ensures forall k :: 0 <= k < |incidents| ==>
      bs[2 * k] == TimeToSeconds(incidents[k].tsStart) && bs[2 * k + 1] == TimeToSeconds(incidents[k].tsEnd)
    ensures forall b :: b in bs ==> 0 <= b < 86400
    decreases |incidents|
  {
    if incidents == [] then []
    else
      var last := incidents[|incidents| - 1];
      IncidentBoundaries(incidents[..|incidents| - 1]) + [TimeToSeconds(last.tsStart), TimeToSeconds(last.tsEnd)]
  }

  /** Every incident boundary, cameras in list order and each camera's
      incidents in list order. */
  function Boundaries(cameras: seq<Camera>): (bs: seq<int>)
    ensures forall b :: b in bs ==> 0 <= b < 86400
    decreases |cameras|
  {
    if cameras == [] then []
    else Boundaries(cameras[..|cameras| - 1]) + IncidentBoundaries(cameras[|cameras| - 1].incidents)
  }

  /** b is the start or the end second of the incident. */
  predicate IsBoundaryOf(b: int, inc: Incident)
  {
    b == TimeToSeconds(inc.tsStart) || b == TimeToSeconds(inc.tsEnd)
  }

  /** The boundaries of a list of incidents are exactly their start and end seconds. */
  lemma IncidentBoundariesMembers(incidents: seq<Incident>, b: int)
    ensures b in IncidentBoundaries(incidents) <==> exists inc :: inc in incidents && IsBoundaryOf(b, inc)
  {
    var bs := IncidentBoundaries(incidents);
    if b in bs {
      var i :| 0 <= i < |bs| && bs[i] == b;
      var k := i / 2;
      assert i == 2 * k || i == 2 * k + 1;
      assert incidents[k] in incidents && IsBoundaryOf(b, incidents[k]);
    }
    if exists inc :: inc in incidents && IsBoundaryOf(b, inc) {
      var inc :| inc in incidents && IsBoundaryOf(b, inc);
      var k :| 0 <= k < |incidents| && incidents[k] == inc;
      assert bs[2 * k] == b || bs[2 * k + 1] == b;
    }
  }

  /** The boundaries of the cameras are exactly the start and end seconds of
      their incidents. */
  lemma {:induction false} BoundariesMembers(cameras: seq<Camera>, b: int)
    ensures b in Boundaries(cameras) <==>
      exists c, inc :: c in cameras && inc in c.incidents && IsBoundaryOf(b, inc)
    decreases |cameras|
  {
    if cameras != [] {
      var init := cameras[..|cameras| - 1];
      var last := cameras[|cameras| - 1];
      assert Boundaries(cameras) == Boundaries(init) + IncidentBoundaries(last.incidents);
      BoundariesMembers(init, b);
      IncidentBoundariesMembers(last.incidents, b);
      if b in Boundaries(cameras) {
        if b in Boundaries(init) {
          var c, inc :| c in init && inc in c.incidents && IsBoundaryOf(b, inc);
          assert c in cameras;
        } else {
          var inc :| inc in last.incidents && IsBoundaryOf(b, inc);
          assert last in cameras;
        }
      }
      if exists c, inc :: c in cameras && inc in c.incidents && IsBoundaryOf(b, inc) {
        var c, inc :| c in cameras && inc in c.incidents && IsBoundaryOf(b, inc);
        var i :| 0 <= i < |cameras| && cameras[i] == c;
        if i < |cameras| - 1 {
          assert c == init[i];
        } else {
          assert c == last;
        }
      }
    }
  }

  function Abs(x: real): real
  {
    if x < 0.0 then -x else x
  }

  /** `Math.abs(dragSeconds - boundary) <= SNAP_THRESHOLD`. */
  predicate WithinSnap(dragSeconds: real, boundary: int)
  {
    Abs(dragSeconds - boundary as real) <= SnapThreshold as real
  }

  /** The boundary the scan settles on: the LAST one within the threshold. */
  function LastWithin(bs: seq<int>, dragSeconds: real): (snap: Option<int>)
    ensures snap.None? <==> forall k :: 0 <= k < |bs| ==> !WithinSnap(dragSeconds, bs[k])
    ensures snap.Some? ==> exists k :: (0 <= k < |bs| && bs[k] == snap.value && WithinSnap(dragSeconds, bs[k])
      && forall j :: k < j < |bs| ==> !WithinSnap(dragSeconds, bs[j]))
    decreases |bs|
  {
    if bs == [] then None
    else if WithinSnap(dragSeconds, bs[|bs| - 1]) then Some(bs[|bs| - 1])
    else LastWithin(bs[..|bs| - 1], dragSeconds)
  }

  /** One more boundary: it wins if it qualifies, else the earlier result stands. */
  lemma LastWithinSnoc(bs: seq<int>, b: int, dragSeconds: real)
    ensures LastWithin(bs + [b], dragSeconds)
         == if WithinSnap(dragSeconds, b) then Some(b) else LastWithin(bs, dragSeconds)
  {
    assert (bs + [b])[..|bs|] == bs;
  }

  /** A later run of boundaries overrides an earlier one whenever it has a
      qualifying boundary at all. */
  lemma {:induction false} LastWithinAppend(xs: seq<int>, ys: seq<int>, dragSeconds: real)
    ensures LastWithin(xs + ys, dragSeconds)
         == if LastWithin(ys, dragSeconds).Some? then LastWithin(ys, dragSeconds) else LastWithin(xs, dragSeconds)
    decreases |ys|
  {
    if ys == [] {
      assert xs + ys == xs;
    } else {
      var init, b := ys[..|ys| - 1], ys[|ys| - 1];
      assert ys == init + [b];
      assert xs + ys == (xs + init) + [b];
      LastWithinSnoc(xs + init, b, dragSeconds);
      LastWithinSnoc(init, b, dragSeconds);
      LastWithinAppend(xs, init, dragSeconds);
    }
  }

  /** Precedence inside one camera: a later incident's qualifying boundary beats
      all earlier ones, and an incident's qualifying end beats its own start. */
  lemma LaterIncidentWins(incidents: seq<Incident>, incident: Incident, dragSeconds: real)
    ensures var startSec, endSec := TimeToSeconds(incident.tsStart), TimeToSeconds(incident.tsEnd);
      LastWithin(IncidentBoundaries(incidents + [incident]), dragSeconds)
      == if WithinSnap(dragSeconds, endSec) then Some(endSec)
         else if WithinSnap(dragSeconds, startSec) then Some(startSec)
         else LastWithin(IncidentBoundaries(incidents), dragSeconds)
  {
    var all := incidents + [incident];
    assert all[..|all| - 1] == incidents;
    var startSec, endSec := TimeToSeconds(incident.tsStart), TimeToSeconds(incident.tsEnd);
    var before := IncidentBoundaries(incidents);
    assert IncidentBoundaries(all) == (before + [startSec]) + [endSec];
    LastWithinSnoc(before + [startSec], endSec, dragSeconds);
    LastWithinSnoc(before, startSec, dragSeconds);
  }

  /** Precedence across cameras: a later camera with any qualifying boundary
      beats every earlier camera. */
  lemma LaterCameraWins(cameras: seq<Camera>, camera: Camera, dragSeconds: real)
    ensures var own := LastWithin(IncidentBoundaries(camera.incidents), dragSeconds);
      LastWithin(Boundaries(cameras + [camera]), dragSeconds)
      == if own.Some? then own else LastWithin(Boundaries(cameras), dragSeconds)
  {
    var all := cameras + [camera];
    assert all[..|all| - 1] == cameras;
    LastWithinAppend(Boundaries(cameras), IncidentBoundaries(camera.incidents), dragSeconds);
  }

  /** The threshold is inclusive: 120 s away snaps, 121 s away does not. */
  lemma ThresholdIsInclusive(boundary: int)
    ensures WithinSnap(boundary as real - 120.0, boundary) && WithinSnap(boundary as real + 120.0, boundary)
    ensures !WithinSnap(boundary as real - 121.0, boundary) && !WithinSnap(boundary as real + 121.0, boundary)
  {
  }

  /** One camera with one incident from 08:00:00 to 08:05:00: its bar starts
      at x = 8 * 60 * 5 + 140 and is 25 wide; a drag 90 s before the start
      snaps to 08:00 exactly, and one 150 s before stays where it is. */
  lemma SnapNearIncidentStart(camera: Camera)
    requires camera.incidents == [Incident(1, UtcTime(8, 0, 0), UtcTime(8, 5, 0), GunThreat)]
    ensures IncidentBar(0, camera.incidents[0]).x == 2540.0 && IncidentBar(0, camera.incidents[0]).width == 25.0
    ensures SnappedPosition([camera], 478.5) == 480.0
    ensures SnappedPosition([camera], 477.5) == 477.5
  {
    assert [28800] + [29100] == [28800, 29100];
    assert [] + [28800] == [28800];
    var cameras := [camera];
    assert cameras[..0] == [];
    assert Boundaries(cameras) == IncidentBoundaries(camera.incidents);
    assert camera.incidents[..0] == [];
    assert Boundaries(cameras) == [28800, 29100];
    LastWithinSnoc([28800], 29100, 478.5 * 60.0);
    LastWithinSnoc([], 28800, 478.5 * 60.0);
    LastWithinSnoc([28800], 29100, 477.5 * 60.0);
    LastWithinSnoc([], 28800, 477.5 * 60.0);
  }

  /** One step of the scan: the incident's start is checked, then its end. */
  lemma ScanStep(before: seq<int>, incidents: seq<Incident>, k: nat, dragSeconds: real)
    requires k < |incidents|
    ensures var startSec, endSec := TimeToSeconds(incidents[k].tsStart), TimeToSeconds(incidents[k].tsEnd);
      var afterStart := if WithinSnap(dragSeconds, startSec) then Some(startSec)
                        else LastWithin(before + IncidentBoundaries(incidents[..k]), dragSeconds);
      LastWithin(before + IncidentBoundaries(incidents[..k + 1]), dragSeconds)
      == if WithinSnap(dragSeconds, endSec) then Some(endSec) else afterStart
  {
    var prefix := incidents[..k + 1];
    assert prefix[..|prefix| - 1] == incidents[..k];
    var startSec, endSec := TimeToSeconds(incidents[k].tsStart), TimeToSeconds(incidents[k].tsEnd);
    var done := before + IncidentBoundaries(incidents[..k]);
    assert before + IncidentBoundaries(prefix) == (done + [startSec]) + [endSec];
    LastWithinSnoc(done + [startSec], endSec, dragSeconds);
    LastWithinSnoc(done, startSec, dragSeconds);
  }

  /** The nested scan of `handleMouseMove`: every camera, every incident,
      start then end, keeping the last boundary within the threshold. */
  method ScanSnap(cameras: seq<Camera>, dragSeconds: real) returns (snapSeconds: Option<int>)
    ensures snapSeconds == LastWithin(Boundaries(cameras), dragSeconds)
  {
    snapSeconds := None;
    var c := 0;
    while c < |cameras|
      invariant 0 <= c <= |cameras|
      invariant snapSeconds == LastWithin(Boundaries(cameras[..c]), dragSeconds)
    {
      var incidents := cameras[c].incidents;
      var k := 0;
      assert Boundaries(cameras[..c]) + IncidentBoundaries(incidents[..k]) == Boundaries(cameras[..c]);
      while k < |incidents|
        invariant 0 <= k <= |incidents|
        invariant snapSeconds == LastWithin(Boundaries(cameras[..c]) + IncidentBoundaries(incidents[..k]), dragSeconds)
      {
        ScanStep(Boundaries(cameras[..c]), incidents, k, dragSeconds);
        var startSec := TimeToSeconds(incidents[k].tsStart);
        var endSec := TimeToSeconds(incidents[k].tsEnd);
        if Abs(dragSeconds - startSec as real) <= SnapThreshold as real {
          snapSeconds := Some(startSec);
        }
        if Abs(dragSeconds - endSec as real) <= SnapThreshold as real {
          snapSeconds := Some(endSec);
        }
        k := k + 1;
      }
      var upTo := cameras[..c + 1];
      assert upTo[..|upTo| - 1] == cameras[..c];
      assert incidents[..k] == incidents;
      c := c + 1;
    }
    assert cameras[..c] == cameras;
  }

  // ---------------------------------------------------------------------------
  // Pointer position to scrubber position
  // ---------------------------------------------------------------------------

  /** The raw drag minute of a pointer at `clientX` over an SVG whose left edge is at `boundsLeft`. */
  function PointerToMinutes(clientX: real, boundsLeft: real): real
  {
    (clientX - boundsLeft - LeftPanelWidth as real) / Scale as real
  }

  function Min(a: real, b: real): real
  {
    if a <= b then a else b
  }

  function Max(a: real, b: real): real
  {
    if a >= b then a else b
  }

  /** `Math.max(0, Math.min(x, minutesInDay))`. */
  function ClampToDay(x: real): (r: real)
    ensures 0.0 <= r <= MinutesInDay as real
    ensures 0.0 <= x <= MinutesInDay as real ==> r == x
    ensures x < 0.0 ==> r == 0.0
    ensures x > MinutesInDay as real ==> r == MinutesInDay as real
  {
    Max(0.0, Min(x, MinutesInDay as real))
  }

  /** A pointer exactly on the drawn scrubber line maps back to the scrubber's minute. */
  lemma PointerRoundTrip(scrubberX: real, boundsLeft: real)
    requires 0.0 <= scrubberX <= MinutesInDay as real
    ensures ClampToDay(PointerToMinutes(boundsLeft + MinuteToX(scrubberX), boundsLeft)) == scrubberX
  {
  }

  /** Where the scrubber goes for a clamped drag minute x: the last qualifying
      boundary (seconds over 60), or x itself when none qualifies. */
  function SnappedPosition(cameras: seq<Camera>, x: real): (r: real)
    requires 0.0 <= x <= MinutesInDay as real
    ensures 0.0 <= r <= MinutesInDay as real
    ensures Abs(r - x) <= 2.0
    ensures (forall k :: 0 <= k < |Boundaries(cameras)| ==> !WithinSnap(x * 60.0, Boundaries(cameras)[k])) ==> r == x
    ensures (exists k :: 0 <= k < |Boundaries(cameras)| && WithinSnap(x * 60.0, Boundaries(cameras)[k])) ==>
      exists k :: 0 <= k < |Boundaries(cameras)| && WithinSnap(x * 60.0, Boundaries(cameras)[k])
        && r == Boundaries(cameras)[k] as real / 60.0
  {
    match LastWithin(Boundaries(cameras), x * 60.0)
    case Some(snapSeconds) =>
      assert snapSeconds in Boundaries(cameras);
      snapSeconds as real / 60.0
    case None => x
  }

  /** A scrubber that moves lands on the start or the end of a real incident,
      within the threshold of the drag. */
  lemma SnapLandsOnIncident(cameras: seq<Camera>, x: real)
    requires 0.0 <= x <= MinutesInDay as real
    ensures SnappedPosition(cameras, x) != x ==>
      exists c, inc, b :: c in cameras && inc in c.incidents && IsBoundaryOf(b, inc)
        && WithinSnap(x * 60.0, b) && SnappedPosition(cameras, x) == b as real / 60.0
  {
    match LastWithin(Boundaries(cameras), x * 60.0)
    case Some(b) =>
      BoundariesMembers(cameras, b);
    case None =>
  }

  /** The body of the move handler after clamping: scan for a boundary in
      reach of the pointer and move onto it, or stay at the pointer. */
  method SnapTarget(cameras: seq<Camera>, x: real) returns (pos: real)
    requires 0.0 <= x <= MinutesInDay as real
    ensures pos == SnappedPosition(cameras, x)
  {
    var snapSeconds := ScanSnap(cameras, x * 60.0);
    if snapSeconds.Some? {
      pos := snapSeconds.value as real / 60.0;
    } else {
      pos := x;
    }
  }

  // ---------------------------------------------------------------------------
  // The drag state machine
  // ---------------------------------------------------------------------------

  datatype ScrubberState = ScrubberState(scrubberX: real, dragging: bool)

  /** Pointer events; `boundsLeft` is None while the SVG is not mounted. */
  datatype PointerEvent =
    | MouseDown
    | MouseUp
    | MouseMove(clientX: real, boundsLeft: Option<real>)

  /** One pointer event: down and up only toggle dragging; a move while
      dragging clamps and snaps; any other move changes nothing. */
  function Step(cameras: seq<Camera>, st: ScrubberState, ev: PointerEvent): (next: ScrubberState)
    ensures !ev.MouseMove? ==> next.scrubberX == st.scrubberX
    ensures ev.MouseDown? ==> next.dragging
    ensures ev.MouseUp? ==> !next.dragging
    ensures ev.MouseMove? ==> next.dragging == st.dragging
    ensures ev.MouseMove? && (!st.dragging || ev.boundsLeft.None?) ==> next == st
    ensures 0.0 <= st.scrubberX <= MinutesInDay as real ==> 0.0 <= next.scrubberX <= MinutesInDay as real
    ensures ev.MouseMove? && st.dragging && ev.boundsLeft.Some? ==>
      Abs(next.scrubberX - ClampToDay(PointerToMinutes(ev.clientX, ev.boundsLeft.value))) <= 2.0
  {
    match ev
    case MouseDown => st.(dragging := true)
    case MouseUp => st.(dragging := false)
    case MouseMove(clientX, boundsLeft) =>
      if !st.dragging || boundsLeft.None? then st
      else st.(scrubberX := SnappedPosition(cameras, ClampToDay(PointerToMinutes(clientX, boundsLeft.value))))
  }

  /** A sequence of pointer events, in order. */
  function Run(cameras: seq<Camera>, st: ScrubberState, events: seq<PointerEvent>): ScrubberState
    decreases |events|
  {
    if events == [] then st else Run(cameras, Step(cameras, st, events[0]), events[1..])
  }

  /** Whatever the events, the scrubber never leaves [0, 1440]. */
  lemma {:induction false} RunStaysInDay(cameras: seq<Camera>, st: ScrubberState, events: seq<PointerEvent>)
    requires 0.0 <= st.scrubberX <= MinutesInDay as real
    ensures 0.0 <= Run(cameras, st, events).scrubberX <= MinutesInDay as real
    decreases |events|
  {
    if events != [] {
      RunStaysInDay(cameras, Step(cameras, st, events[0]), events[1..]);
    }
  }

  /** Once the pointer is released, moves alone change nothing. */
  lemma {:induction false} MovesWhileReleasedIgnored(cameras: seq<Camera>, st: ScrubberState, events: seq<PointerEvent>)
    requires !st.dragging
    requires forall e :: e in events ==> e.MouseMove?
    ensures Run(cameras, st, events) == st
    decreases |events|
  {
    if events != [] {
      assert events[0] in events;
      assert forall e :: e in events[1..] ==> e in events;
      MovesWhileReleasedIgnored(cameras, st, events[1..]);
    }
  }

  /** The timeline component's state: scrubber, drag flag and the fetched cameras. */
  class TimelineController {
    var scrubberX: real
    var dragging: bool
    var incidentsData: seq<Camera>

    ghost predicate Valid()
      reads this
    {
      0.0 <= scrubberX <= MinutesInDay as real
    }

    function State(): ScrubberState
      reads this
    {
      ScrubberState(scrubberX, dragging)
    }

    constructor ()
      ensures Valid()
      ensures scrubberX == 0.0 && !dragging && incidentsData == []
    {
      scrubberX := 0.0;
      dragging := false;
      incidentsData := [];
    }

    /** The camera fetch resolved with `data`. */
    method SetIncidentsData(data: seq<Camera>)
      requires Valid()
      modifies this
      ensures Valid()
      ensures incidentsData == data
      ensures scrubberX == old(scrubberX) && dragging == old(dragging)
    {
      incidentsData := data;
    }

    method HandleMouseDown()
      requires Valid()
      modifies this
      ensures Valid()
      ensures State() == Step(incidentsData, old(State()), MouseDown)
      ensures dragging && scrubberX == old(scrubberX) && incidentsData == old(incidentsData)
    {
      dragging := true;
    }

    method HandleMouseUp()
      requires Valid()
      modifies this
      ensures Valid()
      ensures State() == Step(incidentsData, old(State()), MouseUp)
      ensures !dragging && scrubberX == old(scrubberX) && incidentsData == old(incidentsData)
    {
      dragging := false;
    }

    method HandleMouseMove(clientX: real, boundsLeft: Option<real>)
      requires Valid()
      modifies this
      ensures Valid()
      ensures State() == Step(incidentsData, old(State()), MouseMove(clientX, boundsLeft))
      ensures incidentsData == old(incidentsData)
    {
      if !dragging || boundsLeft.None? {
        return;
      }
      var x := ClampToDay(PointerToMinutes(clientX, boundsLeft.value));
      scrubberX := SnapTarget(incidentsData, x);
    }
  }
}

/** The text drawn on the timeline's axis, kept apart from the geometry so
    that the clock-string proofs see only the definitions they need. */
module TimelineLabels {
  import opened Types
  import opened JsNumbers
  import opened Formatters
  import ClockReadback
  import Timeline

  /** Each major tick sits on the ten-minute grid and is labelled "HH:MM"
      with its own hour and minute. */
  lemma MajorTickLabel(m: int)
    requires m in Timeline.MajorTicks()
    ensures m % Timeline.MajorTickInterval == 0
    ensures var text := MinutesToTime(m);
      |text| == 5 && text[2] == ':' && AllDigits(text[..2]) && AllDigits(text[3..])
      && DigitsValue(text[..2]) == m / 60 && DigitsValue(text[3..]) == m % 60
  {
    ClockReadback.MinutesToTimeFields(m);
  }
}
