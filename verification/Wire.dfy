/** The 64-byte messages between heaters and base station, as both ends build and read
    them. */
module Wire {
  import opened Text
  import opened StateFile

  type byte = b: int | 0 <= b < 0x100

  const MESSAGE_SIZE: nat := 64
  const HEADER_SIZE: nat := 16
  const REQ_HEATER_STATE: byte := 1
  const HEATER_STATE_REPLY: byte := 2
  const WORD64: nat := 0x1_0000_0000_0000_0000

  type Word64 = v: nat | v < WORD64

  // ------------------------------------------------------------------ integers

  /** The n bytes of v in memory order on both little-endian machines. */
  function LittleEndian(v: nat, n: nat): (r: seq<byte>)
    ensures |r| == n
    decreases n
  {
    if n == 0 then [] else [v % 0x100] + LittleEndian(v / 0x100, n - 1)
  }

  function FromLittleEndian(s: seq<byte>): nat {
    if s == [] then 0 else s[0] + 0x100 * FromLittleEndian(s[1..])
  }

  function Power256(n: nat): nat {
    if n == 0 then 1 else 0x100 * Power256(n - 1)
  }

  lemma {:induction false} LittleEndianRoundTrip(v: nat, n: nat)
    requires v < Power256(n)
    ensures FromLittleEndian(LittleEndian(v, n)) == v
    decreases n
  {
    if n > 0 {
      LittleEndianRoundTrip(v / 0x100, n - 1);
      assert LittleEndian(v, n)[1..] == LittleEndian(v / 0x100, n - 1);
    }
  }

  lemma {:induction false} LittleEndianSurjective(s: seq<byte>)
    ensures FromLittleEndian(s) < Power256(|s|)
    ensures LittleEndian(FromLittleEndian(s), |s|) == s
  {
    if s != [] {
      LittleEndianSurjective(s[1..]);
      var v := FromLittleEndian(s);
      assert v % 0x100 == s[0] && v / 0x100 == FromLittleEndian(s[1..]);
      assert s == [s[0]] + s[1..];
    }
  }

  lemma CounterFits(v: nat)
    requires v < WORD64
    ensures FromLittleEndian(LittleEndian(v, 8)) == v
  {
    assert Power256(2) == 0x1_0000 && Power256(4) == 0x1_0000 * Power256(2);
    assert Power256(6) == 0x1_0000 * Power256(4) && Power256(8) == 0x1_0000 * Power256(6);
    LittleEndianRoundTrip(v, 8);
  }

  /** The number in eight bytes from an offset on, the lowest first. */
  function Number64(m: seq<byte>, at: nat): int
    requires at + 8 <= |m|
  {
    m[at] as int + m[at + 1] as int * 0x100 + m[at + 2] as int * 0x1_0000 + m[at + 3] as int * 0x100_0000
    + m[at + 4] as int * 0x1_0000_0000 + m[at + 5] as int * 0x100_0000_0000
    + m[at + 6] as int * 0x1_0000_0000_0000 + m[at + 7] as int * 0x100_0000_0000_0000
  }

  lemma EightBytesSum(m: seq<byte>, at: nat)
    requires at + 8 <= |m|
    ensures FromLittleEndian(m[at..at + 8]) == Number64(m, at)
  {
    var s := m[at..at + 8];
    assert s[1..][1..] == s[2..] && s[2..][1..] == s[3..] && s[3..][1..] == s[4..] && s[4..][1..] == s[5..];
    assert s[5..][1..] == s[6..] && s[6..][1..] == s[7..] && s[7..][1..] == [];
    assert FromLittleEndian(s[7..]) == s[7] as int + 0x100 * FromLittleEndian([]);
    assert FromLittleEndian(s[6..]) == s[6] as int + 0x100 * FromLittleEndian(s[7..]);
    assert FromLittleEndian(s[5..]) == s[5] as int + 0x100 * FromLittleEndian(s[6..]);
    assert FromLittleEndian(s[4..]) == s[4] as int + 0x100 * FromLittleEndian(s[5..]);
    assert FromLittleEndian(s[3..]) == s[3] as int + 0x100 * FromLittleEndian(s[4..]);
    assert FromLittleEndian(s[2..]) == s[2] as int + 0x100 * FromLittleEndian(s[3..]);
    assert FromLittleEndian(s[1..]) == s[1] as int + 0x100 * FromLittleEndian(s[2..]);
  }

  lemma EightBytes(s: seq<byte>)
    requires |s| == 8
    ensures FromLittleEndian(s) < WORD64
  {
    assert Power256(2) == 0x1_0000 && Power256(4) == 0x1_0000 * Power256(2);
    assert Power256(6) == 0x1_0000 * Power256(4) && Power256(8) == 0x1_0000 * Power256(6);
    LittleEndianSurjective(s);
  }

  // ---------------------------------------------------------------- MAC addresses

  type Mac = m: seq<byte> | |m| == 6 witness [0, 0, 0, 0, 0, 0]

  /** The six shifted bytes or-ed together; they do not overlap, so this is their sum. */
  function PackMac(m: Mac): nat {
    m[0] as int * 0x100_0000_0000 + m[1] as int * 0x1_0000_0000 + m[2] as int * 0x100_0000
    + m[3] as int * 0x1_0000 + m[4] as int * 0x100 + m[5] as int
  }

  /** Six right shifts, each cut to a byte. */
  function UnpackMac(v: nat): Mac {
    [v / 0x100_0000_0000 % 0x100, v / 0x1_0000_0000 % 0x100, v / 0x100_0000 % 0x100,
     v / 0x1_0000 % 0x100, v / 0x100 % 0x100, v % 0x100]
  }

  lemma ByteShift(hi: nat, lo: byte)
    ensures (hi * 0x100 + lo) / 0x100 == hi && (hi * 0x100 + lo) % 0x100 == lo
  {
  }

  lemma NestedShifts(v: nat)
    ensures v / 0x1_0000 == v / 0x100 / 0x100
    ensures v / 0x100_0000 == v / 0x1_0000 / 0x100
    ensures v / 0x1_0000_0000 == v / 0x100_0000 / 0x100
    ensures v / 0x100_0000_0000 == v / 0x1_0000_0000 / 0x100
  {
  }

  /** Packing and unpacking are inverse; a packed address has 48 bits. */
  lemma {:induction false} MacRoundTrip(m: Mac)
    ensures UnpackMac(PackMac(m)) == m
    ensures PackMac(m) < 0x1_0000_0000_0000
  {
    var a1 := m[0] as int * 0x100 + m[1];
    var a2 := a1 * 0x100 + m[2];
    var a3 := a2 * 0x100 + m[3];
    var a4 := a3 * 0x100 + m[4];
    var v := a4 * 0x100 + m[5];
    assert v == PackMac(m);
    ByteShift(m[0], m[1]);
    ByteShift(a1, m[2]);
    ByteShift(a2, m[3]);
    ByteShift(a3, m[4]);
    ByteShift(a4, m[5]);
    NestedShifts(v);
  }

  /** Devices are filed under packed addresses: two addresses never share an entry. */
  lemma {:induction false} MacDistinct(a: Mac, b: Mac)
    requires PackMac(a) == PackMac(b)
    ensures a == b
  {
    MacRoundTrip(a);
    MacRoundTrip(b);
  }

  lemma {:induction false} MacRepack(v: nat)
    requires v < 0x1_0000_0000_0000
    ensures PackMac(UnpackMac(v)) == v
  {
    NestedShifts(v);
  }

  // -------------------------------------------------------------------- messages

  predicate ByteText(s: string) {
    forall i :: 0 <= i < |s| ==> s[i] as int < 0x100
  }

  function Bytes(s: string): seq<byte>
    requires ByteText(s)
  {
    seq(|s|, i requires 0 <= i < |s| => s[i] as int)
  }

  function Fill(b: byte, n: nat): seq<byte> {
    seq(n, i => b)
  }

  /** A C string in a fixed field of zeroed memory. */
  function NameField(name: string): (r: seq<byte>)
    requires ByteText(name) && |name| < 32
    ensures |r| == 32
  {
    Bytes(name) + Fill(0, 32 - |name|)
  }

  function Header(kind: byte, mac: Mac, counter: nat): (r: seq<byte>)
    ensures |r| == HEADER_SIZE
  {
    [1, kind] + mac + LittleEndian(counter, 8)
  }

  function EncodeRequest(mac: Mac, counter: nat, field: seq<byte>): (r: seq<byte>)
    requires |field| == 32
    ensures |r| == MESSAGE_SIZE
  {
    Header(REQ_HEATER_STATE, mac, counter) + field + Fill(0xFF, 16)
  }

  function EncodeReply(mac: Mac, counter: nat, state: byte): (r: seq<byte>)
    ensures |r| == MESSAGE_SIZE
  {
    Header(HEATER_STATE_REPLY, mac, counter) + [state] + Fill(0xFF, 47)
  }

  function Version(m: seq<byte>): byte requires |m| == MESSAGE_SIZE { m[0] }
  function Kind(m: seq<byte>): byte requires |m| == MESSAGE_SIZE { m[1] }
  function SenderMac(m: seq<byte>): nat requires |m| == MESSAGE_SIZE { PackMac(m[2..8]) }

  function Counter(m: seq<byte>): Word64
    requires |m| == MESSAGE_SIZE
  {
    EightBytes(m[8..16]);
    FromLittleEndian(m[8..16])
  }

  function Payload(m: seq<byte>): seq<byte> requires |m| == MESSAGE_SIZE { m[16..] }

  lemma HeaderRead(kind: byte, mac: Mac, counter: nat, rest: seq<byte>)
    requires counter < WORD64 && |rest| == 48
    ensures var m := Header(kind, mac, counter) + rest;
            && Version(m) == 1 && Kind(m) == kind && SenderMac(m) == PackMac(mac)
            && Counter(m) == counter && Payload(m) == rest
  {
    var m := Header(kind, mac, counter) + rest;
    assert m[2..8] == mac;
    assert m[8..16] == LittleEndian(counter, 8);
    CounterFits(counter);
  }

  // -------------------------------------------------- the base reading a request

  /** Where the name scan stops: at the first 0x00 or 0xFF. */
  function NameEnd(data: seq<byte>): (n: nat)
    ensures n <= |data|
    ensures n < |data| ==> data[n] in {0, 0xFF}
    ensures forall i :: 0 <= i < n ==> data[i] !in {0, 0xFF}
  {
    if data == [] || data[0] == 0 || data[0] == 0xFF then 0
    else
      var n := NameEnd(data[1..]);
      assert forall i :: 0 < i < n + 1 ==> data[i] == data[1..][i - 1];
      n + 1
  }

  /** The scan stops inside the message. The source does not check this. */
  predicate Terminated(data: seq<byte>) {
    NameEnd(data) < |data|
  }

  /** The scan stays inside exactly when the payload has a 0x00 or a 0xFF in it. */
  lemma TerminatedExactly(data: seq<byte>)
    ensures Terminated(data) <==> 0 in data || 0xFF in data
  {
    if Terminated(data) {
      assert data[NameEnd(data)] in data;
    }
  }

  /** There are messages that the base receives and takes for requests, and whose scan runs
      past their end: a payload of 48 letters. */
  lemma RunawayScan(mac: Mac, counter: nat)
    requires counter < WORD64
    ensures var m := Header(REQ_HEATER_STATE, mac, counter) + Fill('A' as int, 48);
            && |m| == MESSAGE_SIZE && Version(m) == 1 && Kind(m) == REQ_HEATER_STATE
            && SenderMac(m) == PackMac(mac) && Counter(m) == counter
            && !Terminated(Payload(m))
  {
    HeaderRead(REQ_HEATER_STATE, mac, counter, Fill('A' as int, 48));
    TerminatedExactly(Fill('A' as int, 48));
  }

  function ScannedName(data: seq<byte>): string {
    seq(NameEnd(data), i requires 0 <= i < NameEnd(data) => ToUpper(data[i] as char))
  }

  /** The name the base goes by: empty when there is none or when it is not a valid one. */
  function RequestName(data: seq<byte>): string {
    if ValidName(ScannedName(data)) then ScannedName(data) else ""
  }

  lemma FieldScan(name: string, rest: seq<byte>)
    requires ValidName(name) && |name| < 32
    ensures ByteText(name)
    ensures NameEnd(NameField(name) + rest) == |name|
    ensures RequestName(NameField(name) + rest) == Upper(name)
  {
    var data := NameField(name) + rest;
    assert forall i :: 0 <= i < |name| ==> data[i] == name[i] as int;
    assert data[|name|] == 0;
    assert NameEnd(data) == |name|;
    assert ScannedName(data) == Upper(name);
    UpperOfName(name);
  }

  /** Whatever a commissioned heater sends, the base reads back: version, type, packed MAC,
      counter, and the upper-cased name, with the scan inside the payload. */
  lemma RequestRoundTrip(mac: Mac, counter: nat, name: string)
    requires ValidName(name) && |name| < 32 && counter < WORD64
    ensures ByteText(name)
    ensures var m := EncodeRequest(mac, counter, NameField(name));
            && Version(m) == 1 && Kind(m) == REQ_HEATER_STATE
            && SenderMac(m) == PackMac(mac) && Counter(m) == counter
            && Terminated(Payload(m)) && RequestName(Payload(m)) == Upper(name)
  {
    FieldScan(name, Fill(0xFF, 16));
    var rest := NameField(name) + Fill(0xFF, 16);
    HeaderRead(REQ_HEATER_STATE, mac, counter, rest);
    assert EncodeRequest(mac, counter, NameField(name)) == Header(REQ_HEATER_STATE, mac, counter) + rest;
  }

  /** The bytes of a message that do not depend on its type, as the protocol lays them out:
      version 1, type, MAC address, counter with its lowest byte first. */
  predicate HasHeader(m: seq<byte>, kind: byte, mac: Mac, counter: nat) {
    && |m| == 64
    && m[0] == 1 && m[1] == kind
    && m[2] == mac[0] && m[3] == mac[1] && m[4] == mac[2] && m[5] == mac[3] && m[6] == mac[4] && m[7] == mac[5]
    && counter == Number64(m, 8)
  }

  lemma HeaderLayout(kind: byte, mac: Mac, counter: nat, rest: seq<byte>)
    requires counter < WORD64 && |rest| == 48
    ensures HasHeader(Header(kind, mac, counter) + rest, kind, mac, counter)
  {
    var m := Header(kind, mac, counter) + rest;
    assert m[2..8] == mac && forall i :: 0 <= i < 6 ==> m[2..8][i] == m[2 + i];
    HeaderRead(kind, mac, counter, rest);
    EightBytesSum(m, 8);
    hide FromLittleEndian, Number64, PackMac;
  }

  /** A request, byte by byte: type 1, the name, a NUL after it, and 0xFF in the last 16. */
  lemma RequestLayout(mac: Mac, counter: nat, name: string)
    requires ByteText(name) && |name| < 32 && counter < WORD64
    ensures var m := EncodeRequest(mac, counter, NameField(name));
            && HasHeader(m, 1, mac, counter)
            && (forall i :: 0 <= i < |name| ==> m[16 + i] == name[i] as int)
            && m[16 + |name|] == 0
            && (forall i :: 48 <= i < 64 ==> m[i] == 0xFF)
  {
    var rest := NameField(name) + Fill(0xFF, 16);
    HeaderLayout(1, mac, counter, rest);
    assert EncodeRequest(mac, counter, NameField(name)) == Header(1, mac, counter) + rest;
    hide HasHeader, Header;
  }

  // ------------------------------------------------- the heater reading a reply

  function StateCode(s: HeaterState): byte {
    match s
    case Off => 0
    case Defrost => 1
    case Eco => 2
    case Comfort => 3
  }

  /** What a complete reply amounts to. */
  datatype Verdict = BadVersion | BadType | BadState | Accepted(state: byte)

  function Judge(m: seq<byte>): Verdict
    requires |m| == MESSAGE_SIZE
  {
    if Version(m) != 1 then BadVersion
    else if Kind(m) == REQ_HEATER_STATE then BadType
    else if Kind(m) != HEATER_STATE_REPLY then BadType
    else if Payload(m)[0] <= 3 then Accepted(Payload(m)[0])
    else BadState
  }

  /** What a heater makes of a message, by its bytes. */
  lemma JudgeExactly(m: seq<byte>)
    requires |m| == 64
    ensures Judge(m) == BadVersion <==> m[0] != 1
    ensures Judge(m) == BadType <==> m[0] == 1 && m[1] != 2
    ensures Judge(m) == BadState <==> m[0] == 1 && m[1] == 2 && m[16] > 3
    ensures forall s :: Judge(m) == Accepted(s) <==> m[0] == 1 && m[1] == 2 && m[16] == s && s <= 3
  {
  }

  /** A reply, byte by byte: type 2, then 0 for off, 1 for defrost, 2 for eco and 3 for
      comfort, and 0xFF in the rest. */
  lemma ReplyLayout(mac: Mac, counter: nat, s: HeaterState)
    requires counter < WORD64
    ensures var m := EncodeReply(mac, counter, StateCode(s));
            && HasHeader(m, 2, mac, counter)
            && m[16] == (match s case Off => 0 case Defrost => 1 case Eco => 2 case Comfort => 3)
            && (forall i :: 17 <= i < 64 ==> m[i] == 0xFF)
  {
    var rest := [StateCode(s)] + Fill(0xFF, 47);
    HeaderLayout(2, mac, counter, rest);
    assert EncodeReply(mac, counter, StateCode(s)) == Header(2, mac, counter) + rest;
    hide HasHeader, Header;
  }

  /** Any reply of the base is accepted by the heater as the state that was sent. */
  lemma ReplyRoundTrip(mac: Mac, counter: nat, s: HeaterState)
    requires counter < WORD64
    ensures Judge(EncodeReply(mac, counter, StateCode(s)))
            == Accepted(match s case Off => 0 case Defrost => 1 case Eco => 2 case Comfort => 3)
    ensures Judge(EncodeReply(mac, counter, StateCode(s))) == Accepted(StateCode(s))
    ensures Counter(EncodeReply(mac, counter, StateCode(s))) == counter
  {
    var rest := [StateCode(s)] + Fill(0xFF, 47);
    HeaderRead(HEATER_STATE_REPLY, mac, counter, rest);
    assert EncodeReply(mac, counter, StateCode(s)) == Header(HEATER_STATE_REPLY, mac, counter) + rest;
  }

  // -------------------------------------------------------- building in place

  /** A message with every byte 0xFF, as both ends start from. */
  method NewMessage() returns (m: array<byte>)
    ensures fresh(m) && m[..] == Fill(0xFF, MESSAGE_SIZE)
  {
    m := new byte[MESSAGE_SIZE];
    var i := 0;
    while i < MESSAGE_SIZE
      invariant 0 <= i <= MESSAGE_SIZE && forall k :: 0 <= k < i ==> m[k] == 0xFF
    {
      m[i] := 0xFF;
      i := i + 1;
    }
  }

  /** memcpy into a buffer. */
  method Store(m: array<byte>, at: nat, src: seq<byte>)
    requires at + |src| <= m.Length
    modifies m
    ensures m[..] == old(m[..at]) + src + old(m[at + |src|..])
  {
    var i := 0;
    while i < |src|
      invariant 0 <= i <= |src|
      invariant forall k :: at <= k < at + i ==> m[k] == src[k - at]
      invariant forall k :: 0 <= k < m.Length && !(at <= k < at + i) ==> m[k] == old(m[k])
    {
      m[at + i] := src[i];
      i := i + 1;
    }
  }

  /** The firmware stores the header fields and the name one by one. */
  method BuildRequest(mac: Mac, counter: nat, field: seq<byte>) returns (m: array<byte>)
    requires |field| == 32
    ensures fresh(m) && m[..] == EncodeRequest(mac, counter, field)
  {
    m := NewMessage();
    Store(m, 0, [1, REQ_HEATER_STATE]);
    assert m[..2] == [1, REQ_HEATER_STATE] && m[2..] == Fill(0xFF, 62);
    Store(m, 2, mac);
    assert m[..8] == [1, REQ_HEATER_STATE] + mac && m[8..] == Fill(0xFF, 56);
    Store(m, 8, LittleEndian(counter, 8));
    assert m[..16] == Header(REQ_HEATER_STATE, mac, counter) && m[16..] == Fill(0xFF, 48);
    Store(m, 16, field);
    assert m[48..] == Fill(0xFF, 16);
  }

  /** The base stores a whole header and the state after it. */
  method BuildReply(mac: Mac, counter: nat, state: byte) returns (m: array<byte>)
    ensures fresh(m) && m[..] == EncodeReply(mac, counter, state)
  {
    m := NewMessage();
    Store(m, 0, Header(HEATER_STATE_REPLY, mac, counter));
    m[HEADER_SIZE] := state;
  }
}
