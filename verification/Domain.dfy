/** The records the hub stores. Times are integers in nanoseconds; an absent pointer is None. */
module Domain {
  import opened Seqs

  type Time = int

  newtype Byte = b: int | 0 <= b < 256
  type Bytes = seq<Byte>

  /** `Unset` is the empty string of a record that was decoded without the field. */
  datatype Status = Unset | Pending | Acked | OtherStatus(text: string)
  datatype Priority = NoPriority | Normal | High | OtherPriority(text: string)

  datatype Weather = Weather(location: string, condition: string, updatedAt: Time)

  datatype User = User(id: string, name: string, email: string, tokenHash: string, createdAt: Time)

  datatype Device = Device(
    id: string,
    ownerId: string,
    name: string,
    secretHash: string,
    bindCode: string,
    bindCodeExpiresAt: Option<Time>,
    boundAt: Option<Time>,
    lastSeenAt: Option<Time>,
    createdAt: Time)

  datatype DeviceHello = DeviceHello(
    deviceId: string,
    bound: bool,
    name: string,
    bindCode: string,
    bindCodeTtl: int,
    serverTime: Time,
    boundAt: Option<Time>)

  datatype Message = Message(
    id: int,
    ownerId: string,
    deviceId: string,
    authorId: string,
    body: string,
    priority: Priority,
    status: Status,
    createdAt: Time,
    ackedAt: Option<Time>)

  datatype Todo = Todo(
    id: int,
    ownerId: string,
    text: string,
    status: int,
    version: int,
    createdAt: Time,
    updatedAt: Time)

  datatype TodoPatch = TodoPatch(text: Option<string>, status: Option<int>)

  /** Server fields, the reported time (0 is Go's zero time), and the rest of the report
      as one opaque text. */
  datatype Telemetry = Telemetry(
    id: int,
    deviceId: string,
    reportTimestamp: Time,
    app: Option<map<string, string>>,
    receivedAt: Time,
    report: string)

  datatype Snapshot = Snapshot(
    weather: Weather,
    messages: seq<Message>,
    todos: seq<Todo>,
    telemetry: seq<Telemetry>)
}
