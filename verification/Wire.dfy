/** The requests and responses of the sector protocol as bytes (client/psvemmc/EmmcClient.h, packed structures
    of server/src/main.c). Commands 8-15 repeat 4-7 for two more devices. */
module Wire {
  import opened Words

  const SECTOR: nat := 0x200

  type Sector = s: seq<byte> | |s| == SECTOR witness seq(SECTOR, _ => 0)

  datatype Device = Emmc | Ms | Gc

  datatype Request =
    | Ping
    | Terminate
    | Init(bytesPerSector: int32, sectorsPerCluster: int32)
    | Deinit
    | ReadSector(dev: Device, sector: int32)
    | ReadCluster(dev: Device, cluster: int32)
    | WriteSector(dev: Device, sector: int32, content: Sector)
    | WriteCluster(dev: Device, cluster: int32, data: seq<byte>)

  /** The device's four command codes follow each other. */
  function Base(dev: Device): int { match dev case Emmc => 4 case Ms => 8 case Gc => 12 }

  function Code(r: Request): (c: int)
    ensures 0 <= c < 16
  {
    match r
    case Ping => 0
    case Terminate => 1
    case Init(_, _) => 2
    case Deinit => 3
    case ReadSector(dev, _) => Base(dev)
    case ReadCluster(dev, _) => Base(dev) + 1
    case WriteSector(dev, _, _) => Base(dev) + 2
    case WriteCluster(dev, _, _) => Base(dev) + 3
  }

  /** What follows the command word. */
  function Body(r: Request): seq<byte> {
    match r
    case Ping => []
    case Terminate => []
    case Init(b, s) => Le32(b) + Le32(s)
    case Deinit => []
    case ReadSector(_, sector) => Le32(sector)
    case ReadCluster(_, cluster) => Le32(cluster)
    case WriteSector(_, sector, content) => Le32(sector) + content
    case WriteCluster(_, cluster, data) => Le32(cluster) + data
  }

  function Encode(r: Request): (b: seq<byte>)
    ensures |b| >= 4
  {
    Le32(Code(r)) + Body(r)
  }

  function EncodeAll(rs: seq<Request>): seq<byte> {
    if rs == [] then [] else Encode(rs[0]) + EncodeAll(rs[1..])
  }

  lemma {:induction false} EncodeAllAppend(a: seq<Request>, b: seq<Request>)
    ensures EncodeAll(a + b) == EncodeAll(a) + EncodeAll(b)
  {
    if a == [] {
      assert a + b == b;
    } else {
      assert (a + b)[1..] == a[1..] + b;
      EncodeAllAppend(a[1..], b);
    }
  }

  lemma EncodeAllSnoc(a: seq<Request>, r: Request)
    ensures EncodeAll(a + [r]) == EncodeAll(a) + Encode(r)
  {
    EncodeAllAppend(a, [r]);
    assert EncodeAll([r]) == Encode(r) + EncodeAll([r][1..]) && [r][1..] == [];
  }

  // ---------- responses ----------

  /** Three words: the command, the server's own error, the driver's error. */
  function Header(command: int, vitaErr: int32, proxyErr: int32): (b: seq<byte>)
    ensures |b| == 12
  {
    Le32(command) + Le32(vitaErr) + Le32(proxyErr)
  }

  /** "emmcproxy" and a zero byte. */
  const GREETING: seq<byte> := [101, 109, 109, 99, 112, 114, 111, 120, 121, 0]

  /** A sector buffer after memset(0). */
  function Zeros(): Sector { seq(SECTOR, _ => 0) }

  // ---------- the command word ----------

  /** What "int command = -1" holds after the first |got| bytes of it have been received over it. */
  function CommandWord(got: seq<byte>): int32
    requires |got| <= 4
  {
    I32(FromLe32(got + [255, 255, 255, 255][|got|..]))
  }

  /** A command word that arrives whole is the code that was sent. */
  lemma WholeWord(code: int32)
    ensures CommandWord(Le32(code)) == code
  {
    assert Le32(code) + [255, 255, 255, 255][4..] == Le32(code);
    Le32RoundTrip(code);
    WordsAgree(code);
  }

  /** One that arrives short is negative whatever its bytes are, and so is no command. */
  lemma ShortWord(got: seq<byte>)
    requires |got| < 4
    ensures CommandWord(got) < 0
  {
    var b := got + [255, 255, 255, 255][|got|..];
    assert b[3] == 255;
    assert FromLe32(b) >= 0xFF00_0000;
  }
}
