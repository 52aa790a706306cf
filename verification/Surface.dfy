/** Boundary surfaces and their printed identity (`types.rs`, `surface.rs`,
    `channel.rs`). */
module Surface {
  import opened Text

  datatype ChannelKind =
    | UnixSocket | NamedPipe | AnonymousPipe | SharedMemory | MessageQueue
    | Semaphore | ProcessSignal | TcpSocket | UdpSocket | SharedArrayBuffer
    | GrpcChannel | ProtobufStream | ErpcChannel | Http | SerialPort
    | CanMessage | InterCoreChannel | AmqpQueue | KafkaTopic | NatsSubject
    | MqttTopic | DbusInterface | ZeromqSocket | I2cDevice | SpiDevice
    | UsbEndpoint | BleCharacteristic | ModbusRegister | CustomProtocol
  {
    function AsStr(): string {
      match this
      case UnixSocket => "unix_socket"
      case NamedPipe => "named_pipe"
      case AnonymousPipe => "anonymous_pipe"
      case SharedMemory => "shared_memory"
      case MessageQueue => "message_queue"
      case Semaphore => "semaphore"
      case ProcessSignal => "process_signal"
      case TcpSocket => "tcp_socket"
      case UdpSocket => "udp_socket"
      case SharedArrayBuffer => "shared_array_buffer"
      case GrpcChannel => "grpc_channel"
      case ProtobufStream => "protobuf_stream"
      case ErpcChannel => "erpc_channel"
      case Http => "http"
      case AmqpQueue => "amqp_queue"
      case KafkaTopic => "kafka_topic"
      case NatsSubject => "nats_subject"
      case SerialPort => "serial_port"
      case CanMessage => "can_message"
      case InterCoreChannel => "inter_core_channel"
      case MqttTopic => "mqtt_topic"
      case DbusInterface => "dbus_interface"
      case ZeromqSocket => "zeromq_socket"
      case I2cDevice => "i2c_device"
      case SpiDevice => "spi_device"
      case UsbEndpoint => "usb_endpoint"
      case BleCharacteristic => "ble_characteristic"
      case ModbusRegister => "modbus_register"
      case CustomProtocol => "custom_protocol"
    }

    predicate RequiresDualProjection() {
      this == SharedMemory || this == SharedArrayBuffer
    }
  }

  datatype Direction = Provider | Consumer | Bidirectional {
    function AsStr(): string {
      match this
      case Provider => "provider"
      case Consumer => "consumer"
      case Bidirectional => "bidirectional"
    }
  }

  // ---- Printed names determine their values --------------------------------

  /** A kind is recovered from the length and first character of its name. */
  function KindNamed(length: nat, first: char): ChannelKind {
    match length
    case 4 => Http
    case 9 => Semaphore
    case 10 =>
      if first == 'n' then NamedPipe else if first == 't' then TcpSocket
      else if first == 'u' then UdpSocket else if first == 'a' then AmqpQueue
      else if first == 'm' then MqttTopic else if first == 'i' then I2cDevice else SpiDevice
    case 11 =>
      if first == 'u' then UnixSocket else if first == 's' then SerialPort
      else if first == 'k' then KafkaTopic else CanMessage
    case 12 =>
      if first == 'g' then GrpcChannel else if first == 'e' then ErpcChannel
      else if first == 'n' then NatsSubject else UsbEndpoint
    case 13 =>
      if first == 's' then SharedMemory else if first == 'm' then MessageQueue else ZeromqSocket
    case 14 =>
      if first == 'a' then AnonymousPipe else if first == 'p' then ProcessSignal else DbusInterface
    case 15 =>
      if first == 'p' then ProtobufStream else if first == 'm' then ModbusRegister else CustomProtocol
    case 18 => if first == 'i' then InterCoreChannel else BleCharacteristic
    case _ => SharedArrayBuffer
  }

  lemma KindNameRoundTrip(kind: ChannelKind)
    ensures kind.AsStr() != "" && KindNamed(|kind.AsStr()|, kind.AsStr()[0]) == kind
  {
  }

  lemma KindNameHasNoColon(kind: ChannelKind)
    ensures ':' !in kind.AsStr()
  {
    hide *;
    match kind {
      case UnixSocket | NamedPipe | AnonymousPipe | SharedMemory | MessageQueue => ProcessKinds(kind);
      case Semaphore | ProcessSignal | TcpSocket | UdpSocket | SharedArrayBuffer => MemoryAndSocketKinds(kind);
      case GrpcChannel | ProtobufStream | ErpcChannel | Http | SerialPort => StreamKinds(kind);
      case CanMessage | InterCoreChannel | AmqpQueue | KafkaTopic | NatsSubject => QueueKinds(kind);
      case MqttTopic | DbusInterface | ZeromqSocket | I2cDevice | SpiDevice => DeviceKinds(kind);
      case UsbEndpoint | BleCharacteristic | ModbusRegister | CustomProtocol => FieldKinds(kind);
    }
  }

  lemma ProcessKinds(kind: ChannelKind)
    requires kind in {UnixSocket, NamedPipe, AnonymousPipe, SharedMemory, MessageQueue}
    ensures ':' !in kind.AsStr()
  {
  }

  lemma MemoryAndSocketKinds(kind: ChannelKind)
    requires kind in {Semaphore, ProcessSignal, TcpSocket, UdpSocket, SharedArrayBuffer}
    ensures ':' !in kind.AsStr()
  {
  }

  lemma StreamKinds(kind: ChannelKind)
    requires kind in {GrpcChannel, ProtobufStream, ErpcChannel, Http, SerialPort}
    ensures ':' !in kind.AsStr()
  {
  }

  lemma QueueKinds(kind: ChannelKind)
    requires kind in {CanMessage, InterCoreChannel, AmqpQueue, KafkaTopic, NatsSubject}
    ensures ':' !in kind.AsStr()
  {
  }

  lemma DeviceKinds(kind: ChannelKind)
    requires kind in {MqttTopic, DbusInterface, ZeromqSocket, I2cDevice, SpiDevice}
    ensures ':' !in kind.AsStr()
  {
  }

  lemma FieldKinds(kind: ChannelKind)
    requires kind in {UsbEndpoint, BleCharacteristic, ModbusRegister, CustomProtocol}
    ensures ':' !in kind.AsStr()
  {
  }

  lemma DirectionNames(d: Direction, e: Direction)
    ensures ':' !in d.AsStr()
    ensures d.AsStr() == e.AsStr() ==> d == e
  {
    assert d.AsStr()[0] == match d case Provider => 'p' case Consumer => 'c' case Bidirectional => 'b';
    assert e.AsStr()[0] == match e case Provider => 'p' case Consumer => 'c' case Bidirectional => 'b';
  }

  lemma DecimalHasNoColon(n: nat)
    ensures ':' !in Decimal(n)
  {
  }

  // ---- Surface and channel uids --------------------------------------------

  /** `bi:<repo>:<file>:<line>:<col>:<kind>:<direction>`. */
  function BuildUid(repo: string, file: string, line: nat, col: nat, kind: ChannelKind, direction: Direction): string {
    "bi:" + repo + ":" + file + ":" + Decimal(line) + ":" + Decimal(col) + ":" + kind.AsStr() + ":" + direction.AsStr()
  }

  /** For one repository the uid determines what it prints, whatever characters
      the file path holds. */
  lemma UidInjective(repo: string,
                     file: string, line: nat, col: nat, kind: ChannelKind, direction: Direction,
                     file': string, line': nat, col': nat, kind': ChannelKind, direction': Direction)
    requires BuildUid(repo, file, line, col, kind, direction) == BuildUid(repo, file', line', col', kind', direction')
    ensures file == file' && line == line' && col == col' && kind == kind' && direction == direction'
  {
    var a0, b0 := "bi:" + repo + ":" + file, "bi:" + repo + ":" + file';
    var a1, b1 := a0 + ":" + Decimal(line), b0 + ":" + Decimal(line');
    var a2, b2 := a1 + ":" + Decimal(col), b1 + ":" + Decimal(col');
    var a3, b3 := a2 + ":" + kind.AsStr(), b2 + ":" + kind'.AsStr();
    DirectionNames(direction, direction');
    DirectionNames(direction', direction);
    LastSeparator(a3, direction.AsStr(), b3, direction'.AsStr(), ':');
    KindNameRoundTrip(kind);
    KindNameRoundTrip(kind');
    KindNameHasNoColon(kind);
    KindNameHasNoColon(kind');
    LastSeparator(a2, kind.AsStr(), b2, kind'.AsStr(), ':');
    DecimalHasNoColon(col);
    DecimalHasNoColon(col');
    LastSeparator(a1, Decimal(col), b1, Decimal(col'), ':');
    DecimalInjective(col, col');
    DecimalHasNoColon(line);
    DecimalHasNoColon(line');
    LastSeparator(a0, Decimal(line), b0, Decimal(line'), ':');
    DecimalInjective(line, line');
    var prefix := "bi:" + repo + ":";
    assert a0 == prefix + file && b0 == prefix + file';
    assert file == a0[|prefix|..] && file' == b0[|prefix|..];
  }

  /** All a surface uid prints besides the repository. */
  datatype Place = Place(file: string, line: nat, col: nat, kind: ChannelKind, direction: Direction) {
    function Facing(towards: Direction): Place {
      this.(direction := towards)
    }

    /** Alike in everything but the direction. */
    predicate SameSpot(other: Place) {
      Facing(other.direction) == other
    }
  }

  function PlaceUid(repo: string, p: Place): string {
    BuildUid(repo, p.file, p.line, p.col, p.kind, p.direction)
  }

  lemma PlaceUidInjective(repo: string, p: Place, q: Place)
    requires PlaceUid(repo, p) == PlaceUid(repo, q)
    ensures p == q
  {
    UidInjective(repo, p.file, p.line, p.col, p.kind, p.direction, q.file, q.line, q.col, q.kind, q.direction);
  }

  /** Two repository names can print alike: only a fixed repository makes the uid
      injective. */
  lemma UidNeedsFixedRepo()
    ensures BuildUid("r", "a:b", 1, 0, Http, Provider) == BuildUid("r:a", "b", 1, 0, Http, Provider)
  {
    assert "bi:" + "r" + ":" + "a:b" == "bi:" + "r:a" + ":" + "b";
  }

  /** Hexadecimal digits of `n`, exactly `width` of them. */
  function Hex(n: nat, width: nat): string {
    if width == 0 then ""
    else
      var d := n % 16;
      Hex(n / 16, width - 1) + [if d < 10 then Digit(d) else ('a' as int + d - 10) as char]
  }

  /** The UTF-8 bytes of a code point. */
  function Utf8(c: char): seq<nat> {
    var n := c as int;
    if n < 0x80 then [n]
    else if n < 0x800 then [0xC0 + n / 0x40, 0x80 + n % 0x40]
    else if n < 0x1_0000 then [0xE0 + n / 0x1000, 0x80 + n / 0x40 % 0x40, 0x80 + n % 0x40]
    else [0xF0 + n / 0x4_0000, 0x80 + n / 0x1000 % 0x40, 0x80 + n / 0x40 % 0x40, 0x80 + n % 0x40]
  }

  /** The bytes are the shortest UTF-8 sequence that carries the code point: a lead byte
      that tells the length, then six bits a byte. */
  lemma Utf8Meaning(c: char)
    ensures var b, n := Utf8(c), c as int;
      && |b| == CharLen(c) && (forall i :: 1 <= i < |b| ==> 0x80 <= b[i] < 0xC0)
      && (|b| == 1 <==> n < 0x80) && (|b| <= 2 <==> n < 0x800) && (|b| <= 3 <==> n < 0x1_0000)
      && (|b| == 1 ==> n == b[0])
      && (|b| == 2 ==> 0xC0 <= b[0] < 0xE0 && n == (b[0] - 0xC0) * 64 + (b[1] - 0x80))
      && (|b| == 3 ==> 0xE0 <= b[0] < 0xF0 && n == (b[0] - 0xE0) * 4096 + (b[1] - 0x80) * 64 + (b[2] - 0x80))
      && (|b| == 4 ==>
        && 0xF0 <= b[0] < 0xF8
        && n == (b[0] - 0xF0) * 262144 + (b[1] - 0x80) * 4096 + (b[2] - 0x80) * 64 + (b[3] - 0x80))
  {
    var n := c as int;
    assert n / 0x1000 == n / 0x40 / 0x40 && n / 0x4_0000 == n / 0x1000 / 0x40;
  }

  /** The wrapping 64-bit polynomial hash of a channel identity. */
  function IdentityHash(identity: string, acc: nat): nat {
    if identity == "" then acc else IdentityHash(identity[1..], HashBytes(Utf8(identity[0]), acc))
  }

  function HashBytes(bytes: seq<nat>, acc: nat): nat {
    if bytes == [] then acc else HashBytes(bytes[1..], (acc * 31 + bytes[0]) % 0x1_0000_0000_0000_0000)
  }

  /** `ChannelDetail::build_uid`: `ch:<surface uid>:<hash of the identity>`. */
  function BuildChannelUid(surfaceUid: string, identity: string): string {
    "ch:" + surfaceUid + ":" + Hex(IdentityHash(identity, 0), 16)
  }

  lemma {:induction false} HexWidth(n: nat, width: nat)
    ensures |Hex(n, width)| == width
  {
    if width > 0 {
      HexWidth(n / 16, width - 1);
    }
  }

  /** A channel uid names its surface: the hash has a fixed width. */
  lemma ChannelUidNamesSurface(a: string, identity: string, b: string, other: string)
    requires BuildChannelUid(a, identity) == BuildChannelUid(b, other)
    ensures a == b
  {
    hide Hex, IdentityHash;
    HexWidth(IdentityHash(identity, 0), 16);
    HexWidth(IdentityHash(other, 0), 16);
    Unwrapped(a, Hex(IdentityHash(identity, 0), 16));
    Unwrapped(b, Hex(IdentityHash(other, 0), 16));
  }

  lemma Unwrapped(a: string, hash: string)
    requires |hash| == 16
    ensures var s := "ch:" + a + ":" + hash; |s| >= 20 && s[3..|s| - 17] == a
  {
  }
}
