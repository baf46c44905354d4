/** End devices attached to the network: UAVs, which move, and cameras, which do not. */
module NetworkDevice {
  import Decimal
  import opened NetworkNode

  /** The device kinds (enum values UAV = 1, CAM = 2). */
  datatype DeviceType = UAV | CAM

  /** Id, name, type, delay and throughput requirements are fixed at construction;
      position and the active flag are the only mutable fields. */
  datatype Device = Device(id: int, name: string, deviceType: DeviceType,
                           delayReq: real, throughputReq: real,
                           position: Position, isActive: bool)

  /** The fields without a setter are equal in `d` and `d'`. */
  predicate SameIdentity(d: Device, d': Device) {
    && d'.id == d.id && d'.name == d.name && d'.deviceType == d.deviceType
    && d'.delayReq == d.delayReq && d'.throughputReq == d.throughputReq
  }

  /** The device constructor. Defaults: a UAV needing 10 ms and 100 Gb/s at (0, 0). An
      empty name becomes the decimal text of the id. Every new device is inactive. */
  function NewDevice(id: int, name: string := "", deviceType: DeviceType := UAV,
                     delayReq: real := 10.0, throughputReq: real := 100.0,
                     position: Position := (0, 0)): (d: Device)
    ensures !d.isActive
    ensures d.id == id && d.deviceType == deviceType && d.delayReq == delayReq
    ensures d.throughputReq == throughputReq && d.position == position
    ensures name != "" ==> d.name == name
    ensures name == "" ==> d.name == Decimal.IntToString(id)
  {
    Device(id, if name == "" then Decimal.IntToString(id) else name, deviceType,
           delayReq, throughputReq, position, false)
  }

  /** The `position` setter. It refuses (returns false, changes nothing) for a camera. For
      a UAV it stores the new position and returns true. */
  function SetPosition(d: Device, p: Position): (r: (Device, bool))
    ensures SameIdentity(d, r.0) && r.0.isActive == d.isActive
    ensures r.1 <==> d.deviceType.UAV?
    ensures r.1 ==> r.0.position == p
    ensures !r.1 ==> r.0 == d
  {
    if d.deviceType.CAM? then (d, false) else (d.(position := p), true)
  }

  /** The `is_active` setter. It stores any flag and changes nothing else. */
  function SetActive(d: Device, active: bool): (r: Device)
    ensures SameIdentity(d, r) && r.position == d.position
    ensures r.isActive == active
  {
    d.(isActive := active)
  }

  /** One call of a device setter. */
  datatype SetterCall = WritePosition(p: Position) | WriteActive(b: bool)

  /** Applies the setter calls in order. */
  function ApplySetters(d: Device, calls: seq<SetterCall>): Device
    decreases |calls|
  {
    if |calls| == 0 then d
    else
      var d' := match calls[0]
        case WritePosition(p) => SetPosition(d, p).0
        case WriteActive(b) => SetActive(d, b);
      ApplySetters(d', calls[1..])
  }

  /** No sequence of setter calls, in any interleaving, changes what has no setter. */
  lemma {:induction false} SettersKeepIdentity(d: Device, calls: seq<SetterCall>)
    ensures SameIdentity(d, ApplySetters(d, calls))
    decreases |calls|
  {
    if |calls| > 0 {
      match calls[0]
      case WritePosition(p) => SettersKeepIdentity(SetPosition(d, p).0, calls[1..]);
      case WriteActive(b) => SettersKeepIdentity(SetActive(d, b), calls[1..]);
    }
  }

  /** A camera never moves, whatever setter calls it receives. */
  lemma {:induction false} CameraNeverMoves(d: Device, calls: seq<SetterCall>)
    requires d.deviceType.CAM?
    ensures ApplySetters(d, calls).position == d.position
    decreases |calls|
  {
    if |calls| > 0 {
      match calls[0]
      case WritePosition(p) => CameraNeverMoves(SetPosition(d, p).0, calls[1..]);
      case WriteActive(b) => CameraNeverMoves(SetActive(d, b), calls[1..]);
    }
  }
}
