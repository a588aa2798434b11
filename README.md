# Secure-Sight timeline, camera feed, dashboard and navbar — a Dafny model

Secure-Sight is a surveillance dashboard. Cameras report incidents such as an
unauthorised access, a gun threat or a recognised face. This project models
the logic behind its screens and proves what that logic guarantees:

- **Formatters** (`Formatters.dfy`, `JsNumbers.dfy`)
  - A timestamp's UTC clock fields become a minute or second of the day.
  - An incident's duration is computed in minutes.
  - Minutes are rendered as `"HH:MM"` and `"HH:MM:SS"` strings.
  - JavaScript's `String(n)`, `padStart(2, "0")`, truncating `%` and
    `Math.round` are written out in `JsNumbers`.
  - `ClockReadback` proves what the strings display: each field reads back as
    the number it was built from.
- **Timeline** (`Timeline.dfy`): the 24-hour multi-camera timeline.
  - Lookups: the colour and icon of each incident type.
  - Geometry: bar, row and tick positions.
  - The scrubber: a pointer position becomes a minute, is clamped to the day,
    and is then snapped to an incident boundary.
    - The snap scan `ScanSnap` is a method with nested loops, as in the source.
    - It is proved equal to `LastWithin`, the last boundary within 120 s.
  - The drag state machine, both as a pure `Step`/`Run` and as the class
    `TimelineController`, whose handlers update its fields.
- **Camera feed** (`CamerasRoute.dfy`): the success path of `GET /api/cameras`.
  - The query keeps each camera's unresolved incidents.
  - The post-processing drops cameras left with no incident and renames the
    camera fields.
- **Dashboard** (`Dashboard.dfy`): the incident list page.
  - The resolve reducer, and the optimistic overlay of resolves still in
    flight, replayed over the confirmed list.
  - The load transitions.
  - The choice between the loading, list and empty views.
  - The class `DashboardPage` holds the page's state.
- **Navbar** (`Navbar.dfy`): the route table, the active item, each link's
  href and the highlight rule.

Timestamps are pre-decomposed UTC records (`Types.TimeOfDay`: hours < 24,
minutes < 60, seconds < 60). Pixel and minute quantities are exact `real`s.

### Behaviour of the code worth noting

- **Bar width.** The width is `Math.max(duration * scale)`. With one argument
  `Math.max` imposes no minimum. A bar whose start and end fall in the same
  minute has width 0. An incident that crosses midnight has a negative width.
  `Timeline.IncidentBar` states both.
- **Constants.** The scale, left panel width, row height and snap threshold
  are fixed constants in the component.
- **Timestamps.** No timestamp is rejected. An incident whose end precedes its
  start still takes part in snapping.
- **Snap tie-break.** Snapping is last-match-wins in camera-then-incident
  order, with an incident's end checked after its start. The closest boundary
  does not win.
- **Midnight.** Midnight is minute 0. `minutesToTime(1440)` is `"24:00"`,
  because hours are not wrapped. The axis draws its final 24:00 tick on its
  own, with that label written out.

## Model

| member | source | states |
|---|---|---|
| Formatters.TimeToMinutes | src/utils/formatters.ts:23-29 | result lies in [0, 1439]; its quotient and remainder by 60 are the UTC hour and minute (seconds are dropped) |
| Formatters.TimeToSeconds | src/utils/formatters.ts:55-60 | result lies in [0, 86399] and decomposes into exactly the UTC hour, minute and second |
| Formatters.MinutesAreWholeSeconds | src/utils/formatters.ts:23-60 | the minute count equals the second count divided by 60 |
| Formatters.MinutesIgnoreSeconds | src/utils/formatters.ts:26-28 | timestamps in the same UTC minute have equal minute counts, whatever their seconds |
| Formatters.IncidentDuration | src/utils/formatters.ts:32-36 | duration lies in (-1440, 1440); it is 0 iff start and end share hour and minute, negative iff the end's clock time precedes the start's (midnight crossing), positive iff it follows |
| JsNumbers.NatToString | src/utils/formatters.ts:40-41 | `String(n)` of a natural is a non-empty digit string, one digit iff n < 10, at most two iff n < 100 |
| JsNumbers.NatToStringReadsBack | src/utils/formatters.ts:40-41 | the digits of `String(n)` denote n, with no leading zero |
| JsNumbers.IntToString | src/utils/formatters.ts:40 | `String(i)` is non-empty and starts with '-' iff i is negative |
| JsNumbers.PadStart2 | src/utils/formatters.ts:40-41 | `padStart(2, "0")` never truncates: length max(2, len), the original string fills the last positions, the added prefix is zeros |
| JsNumbers.PadKeepsValue | src/utils/formatters.ts:40-41 | padding a digit string keeps its value |
| JsNumbers.FieldReadsBack | src/utils/formatters.ts:40-41 | a padded field reads back as its number; two characters below 100, all digits kept from 100 on |
| JsNumbers.TwoDigitField | src/utils/formatters.ts:40-41 | a padded field below 100 is its tens digit then its units digit |
| JsNumbers.JsRem | src/utils/formatters.ts:41 | JavaScript `%` by a positive divisor: equals the floor remainder in [0, b) for a non-negative dividend, lies in (-b, 0] for a negative one |
| JsNumbers.JsRound | src/utils/formatters.ts:47 | `Math.round(x)` is within half a unit of x, halves rounding up |
| Formatters.MinutesToTime | src/utils/formatters.ts:39-43 | definition (floor division, truncating `%`, `String`, `padStart`); its contract is carried by `ClockReadback.MinutesToTimeIsFields`, `MinutesToTimeFields`, `MinutesToTimeInDay` and `MinutesToTimeDigits` |
| Formatters.MinutesToTimeWithSeconds | src/utils/formatters.ts:46-52 | definition (`Math.round` to whole seconds, then three padded fields); its contract is carried by `ClockReadback.WithSecondsIsFields` and `MinutesToTimeWithSecondsFields` |
| ClockReadback.MinutesToTimeIsFields | src/utils/formatters.ts:39-43 | for m >= 0, "HH:MM" is the padded field of m div 60, a colon, and the padded field of m mod 60 |
| ClockReadback.MinutesToTimeFields | src/utils/formatters.ts:39-43 | for m >= 0 the hour part reads back as m div 60 and the minute part as m mod 60; length 5 below 6000 minutes, a hour field of 3+ digits from 6000 on |
| ClockReadback.MinutesToTimeInDay | src/utils/formatters.ts:39-43 | for m in [0, 1439]: five characters, colon at index 2, hours < 24, minutes < 60, and 60 * HH + MM == m |
| ClockReadback.MinutesToTimeDigits | src/utils/formatters.ts:39-43 | for m in [0, 1439] each character of "HH:MM" is the matching decimal digit of the hour or minute |
| ClockReadback.MinutesToTimeMidnight | src/utils/formatters.ts:39-43 | minute 0 prints as "00:00" |
| ClockReadback.MinutesToTimeEndOfDay | src/utils/formatters.ts:39-43 | minute 1440 prints as "24:00" (hours are not wrapped) |
| ClockReadback.WithSecondsIsFields | src/utils/formatters.ts:46-52 | for minutes >= 0, with T the rounded total seconds, "HH:MM:SS" is the padded fields of T div 3600, (T mod 3600) div 60 and T mod 60 |
| ClockReadback.MinutesToTimeWithSecondsFields | src/utils/formatters.ts:46-52 | the three fields read back as T div 3600, a minute < 60 and a second < 60, and 3600 * HH + 60 * MM + SS == T |
| ClockReadback.SecondsRecompose | src/utils/formatters.ts:48-50 | the hour, minute and second split of whole seconds is in range and recomposes to them |
| ClockReadback.SnappedTimeDisplaysExactly | src/utils/formatters.ts:46-60 | a scrubber at a timestamp's second count over 60 displays exactly that timestamp's UTC h:m:s, in eight characters |
| Timeline.IncidentColor | src/components/Timeline.tsx:106-117 | the neutral grey is returned exactly for an unrecognised type |
| Timeline.IncidentIcon | src/components/Timeline.tsx:119-130 | the unknown icon is returned exactly for an unrecognised type |
| Timeline.ColorAndIconIdentifyKind | src/components/Timeline.tsx:106-130 | colour and icon each tell the three known types apart; all unrecognised types share one colour and one icon |
| Timeline.MinuteToX | src/components/Timeline.tsx:309-311 | a minute of [0, 1440] is drawn at x in [140, 7340], inside the 7360-wide canvas |
| Timeline.RowY | src/components/Timeline.tsx:160 | definition (i * 35 + 60); its contract is carried by `Timeline.RowsDoNotOverlap` and `Timeline.TimelineHeight` |
| Timeline.RowsDoNotOverlap | src/components/Timeline.tsx:161-169 | a later camera row starts strictly below the end of an earlier row's 30-high band |
| Timeline.TimelineHeight | src/components/Timeline.tsx:132 | every row's band fits in the height, and the last row's band ends exactly at it |
| Timeline.IncidentBar | src/components/Timeline.tsx:246-272 | the bar starts at x >= 140 at its start minute and ends at its end minute; width 0 iff same minute, negative iff the incident crosses midnight; y is row top + 5; colour and icon follow the type |
| Timeline.Layout | src/components/Timeline.tsx:242-272 | one row per camera and one bar per incident, each the incident's bar in its camera's row |
| Timeline.LayoutRowsSeparate | src/components/Timeline.tsx:242-272 | bars of different cameras lie in disjoint horizontal bands, the later camera lower |
| Timeline.MajorTicks | src/components/Timeline.tsx:198-200 | 144 increasing ticks in [0, 1440), all multiples of 10, every multiple of 10 in the day present |
| Timeline.MinorTicks | src/components/Timeline.tsx:219-226 | 9 ticks per major tick; the k-th sits at 10 * (k div 9) + k mod 9 + 1 |
| Timeline.MinorTicksOffGrid | src/components/Timeline.tsx:219-239 | 1296 minor ticks, each in [1, 1439] and off the ten-minute grid |
| Timeline.MinorTicksCoverOffGrid | src/components/Timeline.tsx:219-239 | every minute of the day off the ten-minute grid has its minor tick, at position 9 * (m div 10) + m mod 10 - 1 |
| Timeline.MinorTicksAfter | src/components/Timeline.tsx:219-226 | the block after major tick i holds 9 ticks, or none once i's minute reaches 24:00; its j-th tick lies in ten-minute block i at offset j + 1 |
| Timeline.MinorTicksIncrease | src/components/Timeline.tsx:219-239 | minor ticks are strictly increasing, so no minute gets two |
| Timeline.TicksPartitionTheDay | src/components/Timeline.tsx:198-239 | no minor tick is a major tick, and neither set holds 24:00 |
| Timeline.AxisTicksParts | src/components/Timeline.tsx:198-376 | the axis is the 144 major ticks, then the 1296 minor ticks, then the final tick at minute 1440 |
| Timeline.AxisTicksInRange | src/components/Timeline.tsx:198-376 | every tick drawn lies in [0, 1440] |
| Timeline.EveryMinuteTicked | src/components/Timeline.tsx:198-376 | every minute of [0, 1440] has a tick, 24:00 being the final tick |
| Timeline.AxisTicksDistinct | src/components/Timeline.tsx:198-376 | no two ticks fall on the same minute |
| Timeline.EveryMinuteHasOneTick | src/components/Timeline.tsx:198-376 | each minute of [0, 1440] has exactly one tick on the axis |
| Timeline.AxisTicks | src/components/Timeline.tsx:198-376 | definition (major ticks, minor ticks, then the final 24:00 tick); its contract is carried by `Timeline.AxisTicksParts` and `Timeline.EveryMinuteHasOneTick` |
| TimelineLabels.MajorTickLabel | src/components/Timeline.tsx:198-212 | every major tick is on the ten-minute grid and its label reads back as its hour and minute |
| Timeline.IncidentBoundaries | src/components/Timeline.tsx:72-74 | two boundaries per incident, start then end in seconds, each in [0, 86399] |
| Timeline.Boundaries | src/components/Timeline.tsx:71-74 | every boundary of every camera, each in [0, 86399] |
| Timeline.IncidentBoundariesMembers | src/components/Timeline.tsx:72-74 | a second is a boundary of a list of incidents exactly when it is the start or the end of one of them |
| Timeline.BoundariesMembers | src/components/Timeline.tsx:71-74 | a second is a boundary of the cameras exactly when it is the start or the end of an incident of one of them |
| Timeline.WithinSnap | src/components/Timeline.tsx:75-78 | definition (`Math.abs(dragSeconds - boundary) <= 120`); its contract is carried by `Timeline.ThresholdIsInclusive` and `Timeline.LastWithin` |
| Timeline.LastWithin | src/components/Timeline.tsx:66-82 | None iff no boundary is within 120 s; otherwise a qualifying boundary after which none qualifies |
| Timeline.LastWithinSnoc | src/components/Timeline.tsx:75-80 | one more boundary wins if it qualifies, else the earlier result stands |
| Timeline.LastWithinAppend | src/components/Timeline.tsx:71-82 | a later run of boundaries with any qualifying boundary overrides everything before it |
| Timeline.LaterIncidentWins | src/components/Timeline.tsx:72-80 | within a camera, a qualifying end beats its own start and a later incident beats all earlier ones |
| Timeline.LaterCameraWins | src/components/Timeline.tsx:71-82 | a later camera with a qualifying boundary beats every earlier camera |
| Timeline.ThresholdIsInclusive | src/components/Timeline.tsx:68-78 | a boundary 120 s away snaps and one 121 s away does not, on either side |
| Timeline.SnapNearIncidentStart | src/components/Timeline.tsx:58-89 | for an 08:00-08:05 incident: bar at x 2540, width 25; a drag 90 s before the start snaps to 480, one 150 s before stays put |
| Timeline.ScanStep | src/components/Timeline.tsx:73-80 | one incident of the scan checks its start, then its end, in the LastWithin order |
| Timeline.ScanSnap | src/components/Timeline.tsx:64-82 | the nested scan returns exactly the last boundary within the threshold |
| Timeline.PointerToMinutes | src/components/Timeline.tsx:61 | definition; its contract is carried by `Timeline.PointerRoundTrip` |
| Timeline.ClampToDay | src/components/Timeline.tsx:62 | result in [0, 1440], unchanged inside, 0 below, 1440 above |
| Timeline.PointerRoundTrip | src/components/Timeline.tsx:61-62 | a pointer on the drawn scrubber line maps back to the scrubber's minute, for every minute of [0, 1440] |
| Timeline.SnapTarget | src/components/Timeline.tsx:64-89 | the scan followed by the move onto its result gives exactly the snapped position |
| Timeline.SnappedPosition | src/components/Timeline.tsx:84-89 | result in [0, 1440] and within 2 minutes of the drag minute; the drag minute when nothing qualifies, else a qualifying boundary over 60 |
| Timeline.SnapLandsOnIncident | src/components/Timeline.tsx:71-89 | a scrubber that moves lands on the start or the end second of a real incident of a shown camera, within 120 s of the drag |
| Timeline.Step | src/components/Timeline.tsx:52-90 | down/up set/clear dragging and keep the scrubber; a move while released or unmounted changes nothing; a move keeps the scrubber in the day and within 2 minutes of the pointer's clamped minute |
| Timeline.Run | src/components/Timeline.tsx:52-90 | definition (the events applied in order by `Step`); its contract is carried by `Timeline.RunStaysInDay` and `Timeline.MovesWhileReleasedIgnored` |
| Timeline.RunStaysInDay | src/components/Timeline.tsx:43-90 | no event sequence moves the scrubber out of [0, 1440] |
| Timeline.MovesWhileReleasedIgnored | src/components/Timeline.tsx:58-59 | once released, any number of moves changes nothing |
| Timeline.TimelineController.constructor | src/components/Timeline.tsx:43-46 | scrubber at 0, not dragging, no cameras |
| Timeline.TimelineController.SetIncidentsData | src/components/Timeline.tsx:48-50 | the fetched cameras replace the data; scrubber and drag flag unchanged |
| Timeline.TimelineController.HandleMouseDown | src/components/Timeline.tsx:52 | the new state is Step on mouse-down: dragging, scrubber unchanged |
| Timeline.TimelineController.HandleMouseUp | src/components/Timeline.tsx:54-56 | the new state is Step on mouse-up: released, scrubber unchanged |
| Timeline.TimelineController.HandleMouseMove | src/components/Timeline.tsx:58-90 | the new state is Step on the move, and the scrubber stays in [0, 1440] |
| CamerasRoute.SelectUnresolved | src/app/api/cameras/route.ts:9-20 | keeps exactly the unresolved rows (as selected columns), never more rows; empty iff every row is resolved |
| CamerasRoute.SelectColumns | src/app/api/cameras/route.ts:14-19 | definition (id, tsStart, tsEnd and type of the row); its contract is carried by `CamerasRoute.SelectUnresolved` |
| CamerasRoute.Query | src/app/api/cameras/route.ts:8-22 | definition (every camera, in table order, with its unresolved incidents); its contract is carried by `CamerasRoute.SelectUnresolved`, `ServedIncidentsAreUnresolved` and `ServedIffSomeUnresolved` |
| CamerasRoute.ToApiCamera | src/app/api/cameras/route.ts:26-31 | definition; its contract is carried by `CamerasRoute.RenameKeepsEveryField` |
| CamerasRoute.RenameKeepsEveryField | src/app/api/cameras/route.ts:26-31 | `cameraId` is the id, `cameraName` the name, location and incidents pass through unchanged; so the renaming is injective |
| CamerasRoute.PostProcess | src/app/api/cameras/route.ts:24-31 | the output is no longer than its input |
| CamerasRoute.PostProcessMembers | src/app/api/cameras/route.ts:24-31 | every output camera has incidents and is a renamed input camera with incidents; every input camera with incidents appears renamed |
| CamerasRoute.KeptIndices | src/app/api/cameras/route.ts:24-25 | strictly increasing positions of exactly the cameras with incidents |
| CamerasRoute.PostProcessKeepsOrder | src/app/api/cameras/route.ts:24-31 | the output is the kept cameras, renamed, in input order (an order-preserving subsequence) |
| CamerasRoute.GetCameras | src/app/api/cameras/route.ts:8-31 | definition (the query, then the post-processing); its contract is carried by `CamerasRoute.ServedIncidentsAreUnresolved` and `ServedIffSomeUnresolved` |
| CamerasRoute.ServedIncidentsAreUnresolved | src/app/api/cameras/route.ts:8-31 | every served incident is an unresolved incident of the camera it is served under, whose id, name and location it carries |
| CamerasRoute.ServedIffSomeUnresolved | src/app/api/cameras/route.ts:8-31 | with unique camera ids, a camera with an unresolved incident is served with exactly those incidents, and one with all incidents resolved is not served |
| Dashboard.WithoutId | src/app/dashboard/page.tsx:57 | the filtered list is never longer than the list |
| Dashboard.WithoutIdMembers | src/app/dashboard/page.tsx:57 | an incident remains exactly when it was in the list and its id differs from the resolved id |
| Dashboard.WithoutIdLength | src/app/dashboard/page.tsx:57 | the length drops by the number of incidents carrying the id |
| Dashboard.WithoutIdCons | src/app/dashboard/page.tsx:57 | the filter decides the first incident alone and filters the rest the same way |
| Dashboard.WithoutIdAppend | src/app/dashboard/page.tsx:57 | the filter works piecewise over a concatenation, so kept incidents stay in order |
| Dashboard.WithoutAbsentId | src/app/dashboard/page.tsx:57 | resolving an absent id leaves the list unchanged |
| Dashboard.WithoutIdIdempotent | src/app/dashboard/page.tsx:57 | resolving the same id twice gives the same list as once |
| Dashboard.WithoutIdCommutes | src/app/dashboard/page.tsx:55-58 | two resolves give the same list in either order |
| Dashboard.UniqueIdCountsOnce | src/app/dashboard/page.tsx:34-35 | with unique ids an id occurs once if present, else not at all |
| Dashboard.ResolveConservesTotal | src/app/dashboard/page.tsx:97-98 | with unique ids and the id present, list length plus resolved count is conserved by a resolve |
| Dashboard.ApplyResolves | src/app/dashboard/page.tsx:55-58 | definition (the resolves in flight replayed over the confirmed list); its contract is carried by `Dashboard.ApplyResolvesMembers`, `ApplyResolvesPick` and `ApplyResolvesSnoc` |
| Dashboard.ApplyResolvesMembers | src/app/dashboard/page.tsx:55-58 | the optimistic list holds exactly the confirmed incidents whose id is not in flight |
| Dashboard.ApplyResolvesPick | src/app/dashboard/page.tsx:55-58 | any resolve in flight can be applied first without changing the optimistic list |
| Dashboard.ApplyResolvesSnoc | src/app/dashboard/page.tsx:88 | a new resolve filters the optimistic list already shown |
| Dashboard.ChooseView | src/app/dashboard/page.tsx:190-252 | loading view iff loading; list view iff loaded and non-empty, showing exactly that list; empty view iff loaded and empty |
| Dashboard.Heading | src/app/dashboard/page.tsx:176 | definition; its contract is carried by `Dashboard.HeadingCountsShown` |
| Dashboard.HeadingCountsShown | src/app/dashboard/page.tsx:176 | the heading is a number followed by " Unresolved Incidents", and the number reads back as the count of incidents shown |
| Dashboard.DashboardPage.HeadingText | src/app/dashboard/page.tsx:176 | the page's heading counts the optimistic list: its number reads back as the length of `OptimisticIncidents()` |
| Dashboard.DashboardPage.OptimisticIncidents | src/app/dashboard/page.tsx:55-58 | definition (the resolves in flight applied to the confirmed list); its contract is carried by `Dashboard.ApplyResolvesMembers` and `Dashboard.DashboardPage.BeginResolve` |
| Dashboard.DashboardPage.OptimisticResolvedCount | src/app/dashboard/page.tsx:60-63 | definition (the reducer `state + increment` once per resolve in flight); its contract is carried by `Dashboard.DashboardPage.BeginResolve` and `Dashboard.DashboardPage.CompleteResolve` |
| Dashboard.DashboardPage.CurrentView | src/app/dashboard/page.tsx:190-192 | definition; its contract is carried by `Dashboard.DashboardPage.constructor` and `Dashboard.ChooseView` |
| Dashboard.DashboardPage.constructor | src/app/dashboard/page.tsx:51-53 | empty list, count 0, loading, nothing in flight; the loading view is shown |
| Dashboard.DashboardPage.LoadIncidents | src/app/dashboard/page.tsx:66-75 | loading ends whether the fetch succeeds or fails; the list becomes the data on success and stays as it was on failure |
| Dashboard.DashboardPage.BeginResolve | src/app/dashboard/page.tsx:86-89 | the optimistic list drops the id and the optimistic count rises by 1; the confirmed state is untouched |
| Dashboard.DashboardPage.CompleteResolve | src/app/dashboard/page.tsx:90-106 | on success the confirmed list drops the id and the count rises by 1, so what is shown does not change; on failure the confirmed state is kept and the optimistic change rolls back |
| Navbar.RouteNameMap | src/components/Navbar.tsx:20-27 | definition (five page paths to their items, the root path to none); its contract is carried by `Navbar.HrefMapsBack` and `Navbar.ActiveIffHref` |
| Navbar.Href | src/components/Navbar.tsx:72 | definition; its contract is carried by `Navbar.HrefMapsBack` and `Navbar.ActiveIffHref` |
| Navbar.LowerCase | src/components/Navbar.tsx:72 | definition (`toLowerCase` on the ASCII labels); its contract is carried by `Navbar.HrefMapsBack` |
| Navbar.IconColor | src/components/Navbar.tsx:31-55 | definition; its contract is carried by `Navbar.NoActiveItemOffTable` and `Navbar.HighlightFollowsPath` |
| Navbar.ActiveRoute | src/components/Navbar.tsx:29 | an unknown path has no active item; an active item is the table's entry for the path |
| Navbar.HrefMapsBack | src/components/Navbar.tsx:20-27 | every item's href (`/` + lower-cased label) is a table key mapping back to that item |
| Navbar.NoActiveItemOffTable | src/components/Navbar.tsx:26-29 | the root path and unknown paths have no active item and no highlighted icon |
| Navbar.ActiveIffHref | src/components/Navbar.tsx:20-29 | an item is active exactly when the current path equals its href |
| Navbar.HighlightFollowsPath | src/components/Navbar.tsx:29-55 | an icon is highlighted exactly when its href is the current path, so at most one icon is highlighted |

## Left out

- Network and database I/O are not modelled. This covers the Prisma query
  engine, the fetch wrappers of `src/utils/api.ts`, the incidents and resolve
  routes, and the HTTP 500 path of the camera route. The query is modelled by
  its meaning (`CamerasRoute.SelectUnresolved`, `CamerasRoute.Query`), and a
  fetch outcome is a parameter (`LoadIncidents`, `CompleteResolve`).
- `prisma/seed.ts` is not modelled: it writes fixtures using randomness and
  the clock.
- ISO-8601 parsing by the JavaScript `Date` object is not modelled.
  Timestamps arrive as their decomposed UTC fields.
- `formatRange` is not modelled: it depends on locale formatting.
- React plumbing is not modelled:
  - the `useEffect` listener wiring;
  - `startTransition` scheduling;
  - the moment at which `useOptimistic` rolls back;
  - toasts and `console` output.
  - The optimistic overlay is modelled as the list of resolves in flight,
    replayed over the confirmed state.
- `Timeline.TimelineController.HandleMouseMove` reads the current
  `incidentsData`. The window listener registered by the effect in the source
  captures the value from the render in which `dragging` last changed, so data
  arriving mid-drag is not seen until the next drag. This stale capture is not
  modelled.
- The SVG's bounding box is a parameter of the move event (`None` while the
  SVG is not mounted). Layout measurement itself is not modelled.
- IEEE-754 arithmetic is not modelled: numbers are exact integers and reals.
  So `String(n)` is plain decimal (no exponent form for huge values), and
  `Math.round` ties are exact.
- JSX and SVG markup are not modelled: text, fonts, Bézier paths, hover
  areas, and colours other than the type lookups.
- The dashboard's type-to-icon fallback is not modelled.
- `Navbar.LowerCase` lower-cases ASCII letters only. The labels contain no
  other letters.
- `JsNumbers.JsRem`: for a negative dividend only the range (-b, 0] is
  stated. Every lemma that uses it passes a non-negative dividend.
- `Formatters.MinutesToTime` is characterised only for m >= 0. For a negative
  m it follows JavaScript (`Math.floor` and truncating `%`), but no lemma
  describes that output. The source never passes a negative m.
- `Timeline.SnappedPosition`: its contract names *a* qualifying boundary.
  Which one is fixed by `Timeline.LastWithin` and the precedence lemmas
  beside it; `Timeline.SnapLandsOnIncident` ties it to a real incident.
