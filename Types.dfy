/** Records shared by the timeline, the camera API and the dashboard. */
module Types {

  datatype Option<T> = None | Some(value: T)

  /** A timestamp, already decomposed into its UTC clock fields
      (the `getUTCHours`/`getUTCMinutes`/`getUTCSeconds` of a JS `Date`). */
  datatype UtcTime = UtcTime(hours: nat, minutes: nat, seconds: nat)

  /** The clock fields of a real instant are always in range. */
  type TimeOfDay = t: UtcTime | t.hours < 24 && t.minutes < 60 && t.seconds < 60
    witness UtcTime(0, 0, 0)

  /** The incident categories; any other type name stored in the database is `Unrecognised`. */
  datatype IncidentKind =
    | UnauthorizedAccess
    | GunThreat
    | FaceRecognised
    | Unrecognised(name: string)

  /** An incident as the camera API serves it: id, start, end and type. */
  datatype Incident = Incident(id: int, tsStart: TimeOfDay, tsEnd: TimeOfDay, kind: IncidentKind)

  /** A camera as the camera API serves it, with its incidents in arrival order. */
  datatype Camera = Camera(cameraId: int, cameraName: string, location: string, incidents: seq<Incident>)
}
