/** GET /api/cameras (src/app/api/cameras/route.ts): the database query that
    keeps each camera's unresolved incidents, followed by the post-processing
    that drops cameras left without incidents and renames the camera fields. */
module CamerasRoute {
  import opened Types

  /** An incident row as stored, with its resolved flag. */
  datatype IncidentRow = IncidentRow(id: int, tsStart: TimeOfDay, tsEnd: TimeOfDay, kind: IncidentKind, resolved: bool)

  /** A camera row as stored, with all of its incidents. */
  datatype CameraRow = CameraRow(id: int, name: string, location: string, incidents: seq<IncidentRow>)

  /** A camera as the query returns it: the camera's own columns and its
      unresolved incidents, each cut down to the selected columns. */
  datatype QueriedCamera = QueriedCamera(id: int, name: string, location: string, incidents: seq<Incident>)

  /** `select: { id, tsStart, tsEnd, type }`. */
  function SelectColumns(row: IncidentRow): Incident
  {
    Incident(row.id, row.tsStart, row.tsEnd, row.kind)
  }

  /** `where: { resolved: false }` followed by the column selection, in row order. */
  function SelectUnresolved(rows: seq<IncidentRow>): (incidents: seq<Incident>)
    ensures |incidents| <= |rows|
    ensures forall inc :: inc in incidents ==> exists row :: row in rows && !row.resolved && inc == SelectColumns(row)
    ensures forall row :: row in rows && !row.resolved ==> SelectColumns(row) in incidents
    ensures (forall row :: row in rows ==> row.resolved) <==> incidents == []
  {
    if rows == [] then []
    else (if rows[0].resolved then [] else [SelectColumns(rows[0])]) + SelectUnresolved(rows[1..])
  }

  /** `prisma.camera.findMany` with the unresolved incidents included: every
      camera, in table order. */
  function Query(cameras: seq<CameraRow>): seq<QueriedCamera>
  {
    seq(|cameras|, i requires 0 <= i < |cameras| =>
      QueriedCamera(cameras[i].id, cameras[i].name, cameras[i].location, SelectUnresolved(cameras[i].incidents)))
  }

  /** The `.map` step: `id` becomes `cameraId`, `name` becomes `cameraName`. */
  function ToApiCamera(camera: QueriedCamera): Camera
  {
    Camera(camera.id, camera.name, camera.location, camera.incidents)
  }

  /** Renaming keeps every field: `cameraId` is the id, `cameraName` the
      name, and location and incidents pass through unchanged, so distinct
      queried cameras stay distinct. */
  lemma RenameKeepsEveryField(a: QueriedCamera, b: QueriedCamera)
    ensures ToApiCamera(a).cameraId == a.id && ToApiCamera(a).cameraName == a.name
      && ToApiCamera(a).location == a.location && ToApiCamera(a).incidents == a.incidents
    ensures ToApiCamera(a) == ToApiCamera(b) <==> a == b
  {
  }

  /** The `.filter(...).map(...)` chain. */
  function PostProcess(cameras: seq<QueriedCamera>): (out: seq<Camera>)
    ensures |out| <= |cameras|
    decreases |cameras|
  {
    if cameras == [] then []
    else
      var last := cameras[|cameras| - 1];
      PostProcess(cameras[..|cameras| - 1]) + (if last.incidents != [] then [ToApiCamera(last)] else [])
  }

  /** Positions of the cameras the filter keeps, in increasing order. */
  function KeptIndices(cameras: seq<QueriedCamera>): (idx: seq<nat>)
    ensures forall k :: 0 <= k < |idx| ==> idx[k] < |cameras| && cameras[idx[k]].incidents != []
    ensures forall i :: 0 <= i < |cameras| && cameras[i].incidents != [] ==> i in idx
    ensures forall k, l :: 0 <= k < l < |idx| ==> idx[k] < idx[l]
    decreases |cameras|
  {
    if cameras == [] then []
    else
      var n := |cameras| - 1;
      KeptIndices(cameras[..n]) + (if cameras[n].incidents != [] then [n] else [])
  }

  /** The output is the kept cameras, renamed, in their input order: an
      order-preserving subsequence that misses no camera with incidents. */
  lemma {:induction false} PostProcessKeepsOrder(cameras: seq<QueriedCamera>)
    ensures var out, idx := PostProcess(cameras), KeptIndices(cameras);
      |out| == |idx| && forall k :: 0 <= k < |out| ==> out[k] == ToApiCamera(cameras[idx[k]])
    decreases |cameras|
  {
    if cameras != [] {
      var n := |cameras| - 1;
      var init := cameras[..n];
      PostProcessKeepsOrder(init);
      var out0, idx0 := PostProcess(init), KeptIndices(init);
      var kept := cameras[n].incidents != [];
      assert PostProcess(cameras) == out0 + (if kept then [ToApiCamera(cameras[n])] else []);
      assert KeptIndices(cameras) == idx0 + (if kept then [n] else []);
      forall k | 0 <= k < |out0|
        ensures PostProcess(cameras)[k] == ToApiCamera(cameras[KeptIndices(cameras)[k]])
      {
        assert init[idx0[k]] == cameras[idx0[k]];
      }
    }
  }

  /** The filter keeps exactly the cameras with incidents: every output camera
      has incidents and is a renamed input camera, and no camera with
      incidents is dropped. */
  lemma PostProcessMembers(cameras: seq<QueriedCamera>)
    ensures forall c :: c in PostProcess(cameras) ==> c.incidents != []
    ensures forall c :: c in cameras && c.incidents != [] ==> ToApiCamera(c) in PostProcess(cameras)
    ensures forall o :: o in PostProcess(cameras) ==> exists c :: c in cameras && c.incidents != [] && o == ToApiCamera(c)
  {
    PostProcessKeepsOrder(cameras);
    var out, idx := PostProcess(cameras), KeptIndices(cameras);
    forall o | o in out
      ensures o.incidents != [] && exists c :: c in cameras && c.incidents != [] && o == ToApiCamera(c)
    {
      var k :| 0 <= k < |out| && out[k] == o;
      assert cameras[idx[k]] in cameras;
    }
    forall c | c in cameras && c.incidents != []
      ensures ToApiCamera(c) in out
    {
      var i :| 0 <= i < |cameras| && cameras[i] == c;
      var k :| 0 <= k < |idx| && idx[k] == i;
      assert out[k] == ToApiCamera(c);
    }
  }

  /** The whole handler on its success path. */
  function GetCameras(cameras: seq<CameraRow>): seq<Camera>
  {
    PostProcess(Query(cameras))
  }

  /** Every served incident is an unresolved incident of the camera it is served under. */
  lemma ServedIncidentsAreUnresolved(cameras: seq<CameraRow>, served: Camera, inc: Incident)
    requires served in GetCameras(cameras) && inc in served.incidents
    ensures exists cam :: (cam in cameras && served.cameraId == cam.id && served.cameraName == cam.name
      && served.location == cam.location
      && exists row :: row in cam.incidents && !row.resolved && inc == SelectColumns(row))
  {
    var q := Query(cameras);
    PostProcessMembers(q);
    var c :| c in q && c.incidents != [] && served == ToApiCamera(c);
    var i :| 0 <= i < |q| && q[i] == c;
    assert cameras[i] in cameras;
  }

  /** A camera with an unresolved incident is served with exactly its unresolved
      incidents; a camera whose incidents are all resolved is not served at all
      (camera ids being unique, as the table's primary key makes them). */
  lemma ServedIffSomeUnresolved(cameras: seq<CameraRow>, i: nat)
    requires i < |cameras|
    requires forall j, k :: 0 <= j < k < |cameras| ==> cameras[j].id != cameras[k].id
    ensures (exists row :: row in cameras[i].incidents && !row.resolved) ==>
      Camera(cameras[i].id, cameras[i].name, cameras[i].location, SelectUnresolved(cameras[i].incidents)) in GetCameras(cameras)
    ensures (forall row :: row in cameras[i].incidents ==> row.resolved) ==>
      forall served :: served in GetCameras(cameras) ==> served.cameraId != cameras[i].id
  {
    var q := Query(cameras);
    PostProcessMembers(q);
    assert q[i] in q;
    if forall row :: row in cameras[i].incidents ==> row.resolved {
      forall served | served in GetCameras(cameras)
        ensures served.cameraId != cameras[i].id
      {
        var c :| c in q && c.incidents != [] && served == ToApiCamera(c);
        var j :| 0 <= j < |q| && q[j] == c;
        assert j != i;
      }
    }
  }
}
