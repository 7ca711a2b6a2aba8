/** The settings of a heater: their 200-byte record, its life in the EEPROM, and the
    registration that fills it. */
module Settings {
  import opened Text
  import opened StateFile
  import opened Wire

  const EEPROM_LEN: nat := 512
  const RECORD_LEN: nat := 200
  const MAGIC0: nat := 0xf177_2e9a
  const MAGIC1: nat := 0x86b8_1fcb

  // ------------------------------------------------------------------ the record

  /** A text up to its first NUL. */
  function UpToNul(text: seq<byte>): (r: seq<byte>)
    ensures r <= text
    ensures 0 !in r
    ensures |r| < |text| ==> text[|r|] == 0
  {
    if text == [] || text[0] == 0 then [] else [text[0]] + UpToNul(text[1..])
  }

  function Take(text: seq<byte>, n: nat): seq<byte> {
    if |text| <= n then text else text[..n]
  }

  /** String::toCharArray into a zeroed field: cut at the first NUL and to leave room for
      one. */
  function Field(text: seq<byte>, size: nat): (r: seq<byte>)
    requires size > 0
    ensures |r| == size
  {
    var s := UpToNul(Take(text, size - 1));
    s + Fill(0, size - |s|)
  }

  /** The packed record, one magic word at each end. */
  function Image(name: seq<byte>, ssid: seq<byte>, password: seq<byte>, basestation: seq<byte>): (r: seq<byte>)
    ensures |r| == RECORD_LEN
  {
    LittleEndian(MAGIC0, 4) + Field(name, 32) + Field(ssid, 64) + Field(password, 64) + Field(basestation, 32)
    + LittleEndian(MAGIC1, 4)
  }

  function NameOf(r: seq<byte>): seq<byte> requires |r| == RECORD_LEN { r[4..36] }
  function SsidOf(r: seq<byte>): seq<byte> requires |r| == RECORD_LEN { r[36..100] }
  function PasswordOf(r: seq<byte>): seq<byte> requires |r| == RECORD_LEN { r[100..164] }
  function BasestationOf(r: seq<byte>): seq<byte> requires |r| == RECORD_LEN { r[164..196] }

  /** is_valid */
  predicate IsValid(r: seq<byte>)
    requires |r| == RECORD_LEN
  {
    FromLittleEndian(r[0..4]) == MAGIC0 && FromLittleEndian(r[196..200]) == MAGIC1
  }

  function Zeroed(): (r: seq<byte>)
    ensures |r| == RECORD_LEN && !IsValid(r)
  {
    var r := Fill(0, RECORD_LEN);
    assert r[0..4] == LittleEndian(0, 4);
    LittleEndianRoundTrip(0, 4);
    r
  }

  lemma FieldShape(text: seq<byte>, size: nat)
    requires |text| < size
    ensures var s := UpToNul(text); |s| < size && Field(text, size)[..|s|] == s && Field(text, size)[|s|] == 0
  {
  }

  lemma {:induction false} FieldReads(text: seq<byte>, size: nat)
    requires |text| < size
    ensures UpToNul(Field(text, size)) == UpToNul(text)
  {
    FieldShape(text, size);
    CutAt(Field(text, size), UpToNul(text));
  }

  lemma {:induction false} CutAt(field: seq<byte>, s: seq<byte>)
    requires |s| < |field| && field[..|s|] == s && field[|s|] == 0 && 0 !in s
    ensures UpToNul(field) == s
  {
    if s != [] {
      assert field[0] == s[0];
      assert field[1..][..|s| - 1] == s[1..];
      CutAt(field[1..], s[1..]);
    }
  }

  lemma MagicBytes()
    ensures LittleEndian(MAGIC0, 4) == [0x9a, 0x2e, 0x77, 0xf1]
    ensures LittleEndian(MAGIC1, 4) == [0xcb, 0x1f, 0xb8, 0x86]
    ensures FromLittleEndian([0x9a, 0x2e, 0x77, 0xf1]) == MAGIC0
    ensures FromLittleEndian([0xcb, 0x1f, 0xb8, 0x86]) == MAGIC1
  {
    assert LittleEndian(0xf1, 1) == [0xf1] && LittleEndian(0xf177, 2) == [0x77, 0xf1];
    assert LittleEndian(0xf1_772e, 3) == [0x2e, 0x77, 0xf1];
    assert LittleEndian(0x86, 1) == [0x86] && LittleEndian(0x86b8, 2) == [0xb8, 0x86];
    assert LittleEndian(0x86_b81f, 3) == [0x1f, 0xb8, 0x86];
    assert Power256(4) == 0x1_0000_0000 by { assert Power256(2) == 0x1_0000; }
    LittleEndianRoundTrip(MAGIC0, 4);
    LittleEndianRoundTrip(MAGIC1, 4);
  }

  lemma Slices(a: seq<byte>, b: seq<byte>, c: seq<byte>, d: seq<byte>, e: seq<byte>, f: seq<byte>)
    requires |a| == 4 && |b| == 32 && |c| == 64 && |d| == 64 && |e| == 32 && |f| == 4
    ensures var r := a + b + c + d + e + f;
            && r[0..4] == a && r[4..36] == b && r[36..100] == c && r[100..164] == d && r[164..196] == e
            && r[196..200] == f
  {
  }

  lemma ImageParts(name: seq<byte>, ssid: seq<byte>, password: seq<byte>, basestation: seq<byte>)
    ensures var r := Image(name, ssid, password, basestation);
            && IsValid(r)
            && r[0..4] == [0x9a, 0x2e, 0x77, 0xf1] && r[196..200] == [0xcb, 0x1f, 0xb8, 0x86]
            && NameOf(r) == Field(name, 32) && SsidOf(r) == Field(ssid, 64)
            && PasswordOf(r) == Field(password, 64) && BasestationOf(r) == Field(basestation, 32)
  {
    MagicBytes();
    hide Field, LittleEndian, FromLittleEndian;
    Slices(LittleEndian(MAGIC0, 4), Field(name, 32), Field(ssid, 64), Field(password, 64), Field(basestation, 32),
           LittleEndian(MAGIC1, 4));
  }

  // --------------------------------------------------------------- torn writes

  /** The EEPROM after the first k bytes of a record were written over the erased image. */
  function Torn(record: seq<byte>, k: nat): (r: seq<byte>)
    requires |record| == RECORD_LEN && k <= RECORD_LEN
    ensures |r| == EEPROM_LEN
  {
    record[..k] + Fill(0xFF, EEPROM_LEN - k)
  }

  /** A write of the record that stops after k bytes is loaded exactly when k is all of
      them. */
  lemma TornWriteRejected(name: seq<byte>, ssid: seq<byte>, password: seq<byte>, basestation: seq<byte>, k: nat)
    requires k <= RECORD_LEN
    ensures IsValid(Torn(Image(name, ssid, password, basestation), k)[..RECORD_LEN]) <==> k == RECORD_LEN
  {
    var image := Image(name, ssid, password, basestation);
    var read := Torn(image, k)[..RECORD_LEN];
    ImageParts(name, ssid, password, basestation);
    if k == RECORD_LEN {
      assert read == image;
    } else {
      assert read[199] == 0xFF;
      LastByteDecides(read[196..200]);
    }
  }

  lemma LastByteDecides(s: seq<byte>)
    requires |s| == 4 && s[3] == 0xFF
    ensures FromLittleEndian(s) != MAGIC1
  {
    var s1, s2, s3 := s[1..], s[2..], s[3..];
    assert s1[1..] == s2 && s2[1..] == s3 && s3[1..] == [];
    assert FromLittleEndian(s3) == 0xFF;
    assert FromLittleEndian(s2) >= 0x100 * 0xFF;
    assert FromLittleEndian(s1) >= 0x100 * (0x100 * 0xFF);
  }

  // ----------------------------------------------------------- checks on records

  predicate IsAlnumByte(b: byte) {
    'a' as int <= b <= 'z' as int || 'A' as int <= b <= 'Z' as int || '0' as int <= b <= '9' as int
  }

  predicate AllAlnum(text: seq<byte>) {
    forall i :: 0 <= i < |text| ==> IsAlnumByte(text[i])
  }

  /** What strlen sees from an offset: to the first NUL, wherever that is. */
  function CString(record: seq<byte>, at: nat): seq<byte>
    requires at <= |record|
  {
    UpToNul(record[at..])
  }

  /** strlen stays inside the record for the fields it is asked about. */
  predicate Terminates(record: seq<byte>)
    requires |record| == RECORD_LEN
  {
    0 in record[164..]
  }

  /** settings_check */
  predicate Checked(record: seq<byte>)
    requires |record| == RECORD_LEN
  {
    && CString(record, 4) != [] && CString(record, 36) != [] && CString(record, 164) != []
    && AllAlnum(CString(record, 4))
    && IsValid(record)
  }

  /** check_params on the four registration strings. */
  predicate CheckParams(name: seq<byte>, ssid: seq<byte>, password: seq<byte>, basestation: seq<byte>) {
    && |name| < 31 && |ssid| < 63 && |password| < 63 && |basestation| < 31
    && name != [] && ssid != [] && basestation != []
    && AllAlnum(name)
  }

  predicate AsciiAlnum(b: int) {
    48 <= b <= 57 || 65 <= b <= 90 || 97 <= b <= 122
  }

  /** The registrations that pass, by their bytes: a name of 1 to 30 ASCII letters and digits,
      a network name of 1 to 62 bytes, a password of at most 62, and so of none at all, and a
      base address of 1 to 30. */
  lemma ParamsExactly(name: seq<byte>, ssid: seq<byte>, password: seq<byte>, basestation: seq<byte>)
    ensures CheckParams(name, ssid, password, basestation)
            <==> 1 <= |name| <= 30 && (forall b :: b in name ==> AsciiAlnum(b))
                 && 1 <= |ssid| <= 62 && |password| <= 62 && 1 <= |basestation| <= 30
  {
    if forall b :: b in name ==> AsciiAlnum(b) {
      forall i | 0 <= i < |name| ensures IsAlnumByte(name[i]) { assert name[i] in name; }
    }
  }

  /** An ordinary registration on an open network: kitchen, net, no password, 10.0.0.2. */
  lemma OrdinaryPasses()
    ensures CheckParams(
              [107, 105, 116, 99, 104, 101, 110], [110, 101, 116], [], [49, 48, 46, 48, 46, 48, 46, 50])
  {
  }

  lemma {:induction false} FieldString(record: seq<byte>, at: nat, text: seq<byte>, size: nat)
    requires |text| < size && at + size <= |record| && record[at..at + size] == Field(text, size)
    ensures CString(record, at) == UpToNul(text)
    ensures 0 in record[at..]
  {
    hide Field;
    FieldShape(text, size);
    var s := UpToNul(text);
    var rest := record[at..];
    assert rest[..size] == Field(text, size);
    assert rest[..|s|] == rest[..size][..|s|] && rest[|s|] == rest[..size][|s|];
    hide UpToNul;
    CutAt(rest, s);
  }

  lemma AlnumHasNoNul(text: seq<byte>)
    requires AllAlnum(text)
    ensures UpToNul(text) == text
  {
    var s := UpToNul(text);
    assert |s| == |text|;
  }

  lemma {:induction false} RecordStrings(r: seq<byte>, name: seq<byte>, ssid: seq<byte>, basestation: seq<byte>)
    requires |r| == RECORD_LEN && IsValid(r)
    requires |name| < 32 && |ssid| < 64 && |basestation| < 32
    requires NameOf(r) == Field(name, 32) && SsidOf(r) == Field(ssid, 64) && BasestationOf(r) == Field(basestation, 32)
    ensures Terminates(r)
    ensures Checked(r) <==> UpToNul(name) != [] && UpToNul(ssid) != [] && UpToNul(basestation) != []
                            && AllAlnum(UpToNul(name))
  {
    hide Field, IsValid, UpToNul, AllAlnum;
    FieldString(r, 4, name, 32);
    FieldString(r, 36, ssid, 64);
    FieldString(r, 164, basestation, 32);
  }

  /** A registration that passes the check and is stored in full is found after a reboot:
      the record is valid, the name is read back, the other strings up to a NUL they may
      contain; and settings_check accepts it exactly when neither the network name nor the
      base address begins with a NUL. */
  lemma RegistrationSurvives(name: seq<byte>, ssid: seq<byte>, password: seq<byte>, basestation: seq<byte>)
    requires CheckParams(name, ssid, password, basestation)
    ensures var r := Torn(Image(name, ssid, password, basestation), RECORD_LEN)[..RECORD_LEN];
            && IsValid(r) && Terminates(r)
            && r[0..4] == [0x9a, 0x2e, 0x77, 0xf1] && r[196..200] == [0xcb, 0x1f, 0xb8, 0x86]
            && UpToNul(r[4..36]) == name
            && UpToNul(r[36..100]) == UpToNul(ssid)
            && UpToNul(r[100..164]) == UpToNul(password)
            && UpToNul(r[164..196]) == UpToNul(basestation)
            && (Checked(r) <==> ssid[0] != 0 && basestation[0] != 0)
  {
    var image := Image(name, ssid, password, basestation);
    assert Torn(image, RECORD_LEN)[..RECORD_LEN] == image;
    hide Image, Torn, IsValid, Field, Checked, Terminates;
    ImageParts(name, ssid, password, basestation);
    AlnumHasNoNul(name);
    FieldReads(name, 32);
    FieldReads(ssid, 64);
    FieldReads(password, 64);
    FieldReads(basestation, 32);
    RecordStrings(image, name, ssid, basestation);
  }

  function TextOf(text: seq<byte>): string {
    seq(|text|, i requires 0 <= i < |text| => text[i] as char)
  }

  /** What settings_get_name copies out of a record: the name field, or zeros. */
  function NameCopied(record: seq<byte>): (r: seq<byte>)
    requires |record| == RECORD_LEN
    ensures |r| == 32
  {
    if IsValid(record) then NameOf(record) else Fill(0, 32)
  }

  lemma NameText(name: seq<byte>)
    requires AllAlnum(name) && name != []
    ensures ValidName(TextOf(name)) && ByteText(TextOf(name)) && Bytes(TextOf(name)) == name
  {
    var s := TextOf(name);
    forall i | 0 <= i < |s| ensures IsAlnum(s[i]) { assert IsAlnumByte(name[i]); }
  }

  /** After a registration that passes the check, what is copied out is the name it was
      given, as a zero-padded string: nothing is cut off and nothing left over. */
  lemma {:induction false} NameIsKept(name: seq<byte>, ssid: seq<byte>, password: seq<byte>, basestation: seq<byte>)
    requires CheckParams(name, ssid, password, basestation)
    ensures var s := TextOf(name);
            && ValidName(s) && |s| < 31 && ByteText(s)
            && NameCopied(Image(name, ssid, password, basestation)) == NameField(s)
  {
    NameText(name);
    ImageParts(name, ssid, password, basestation);
    hide Image, IsValid, IsAlnumByte;
    AlnumHasNoNul(name);
    assert Take(name, 31) == name;
  }

  /** And it travels: copied into a request, it is read by the base as that name in
      capitals, under the address of the heater. */
  lemma {:induction false} NameReachesBase(
      name: seq<byte>, ssid: seq<byte>, password: seq<byte>, basestation: seq<byte>, mac: Mac, counter: nat)
    requires CheckParams(name, ssid, password, basestation) && counter < WORD64
    ensures var m := EncodeRequest(mac, counter, NameCopied(Image(name, ssid, password, basestation)));
            && SenderMac(m) == PackMac(mac) && Terminated(Payload(m)) && RequestName(Payload(m)) == Upper(TextOf(name))
  {
    NameIsKept(name, ssid, password, basestation);
    hide *;
    RequestRoundTrip(mac, counter, TextOf(name));
  }

  // ------------------------------------------------------------ EEPROM and RAM

  /** The EEPROM and the settings record in memory. */
  class Store {
    var eeprom: array<byte>
    var record: array<byte>

    ghost predicate Valid()
      reads this
    {
      eeprom.Length == EEPROM_LEN && record.Length == RECORD_LEN && eeprom != record
    }

    /** Power-on: the EEPROM as it was left, the memory zeroed. */
    constructor (image: seq<byte>)
      requires |image| == EEPROM_LEN
      ensures Valid() && fresh(eeprom) && fresh(record) && eeprom[..] == image && record[..] == Zeroed()
    {
      eeprom := new byte[EEPROM_LEN](i requires 0 <= i < |image| => image[i]);
      record := new byte[RECORD_LEN](i => 0);
    }

    method Load() returns (valid: bool)
      requires Valid()
      modifies record
      ensures valid == IsValid(eeprom[..RECORD_LEN])
      ensures record[..] == if valid then eeprom[..RECORD_LEN] else Zeroed()
    {
      var addr := 0;
      while addr < RECORD_LEN
        invariant 0 <= addr <= RECORD_LEN && record[..addr] == eeprom[..addr]
      {
        record[addr] := eeprom[addr];
        addr := addr + 1;
      }
      assert record[..] == eeprom[..RECORD_LEN];
      valid := IsValid(record[..]);
      if !valid {
        ClearRecord();
      }
    }

    /** memset of the record. */
    method ClearRecord()
      requires Valid()
      modifies record
      ensures record[..] == Zeroed()
    {
      var i := 0;
      while i < RECORD_LEN
        invariant 0 <= i <= RECORD_LEN && forall k :: 0 <= k < i ==> record[k] == 0
      {
        record[i] := 0;
        i := i + 1;
      }
    }

    method EraseEeprom()
      requires Valid()
      modifies eeprom
      ensures eeprom[..] == Fill(0xFF, EEPROM_LEN)
    {
      var i := 0;
      while i < EEPROM_LEN
        invariant 0 <= i <= EEPROM_LEN && forall k :: 0 <= k < i ==> eeprom[k] == 0xFF
      {
        eeprom[i] := 0xFF;
        i := i + 1;
      }
    }

    method Erase()
      requires Valid()
      modifies eeprom, record
      ensures eeprom[..] == Fill(0xFF, EEPROM_LEN) && record[..] == Zeroed()
      ensures !IsValid(eeprom[..RECORD_LEN])
    {
      EraseEeprom();
      ClearRecord();
      assert eeprom[..RECORD_LEN][196..200][3] == 0xFF;
      LastByteDecides(eeprom[..RECORD_LEN][196..200]);
    }

    /** Writes the record byte by byte; the power may fail after any number of bytes. */
    method WriteRecord(upTo: nat)
      requires Valid() && upTo <= RECORD_LEN && eeprom[..] == Fill(0xFF, EEPROM_LEN)
      modifies eeprom
      ensures eeprom[..] == Torn(record[..], upTo)
    {
      var addr := 0;
      while addr < upTo
        invariant 0 <= addr <= upTo
        invariant eeprom[..] == Torn(record[..], addr)
      {
        eeprom[addr] := record[addr];
        addr := addr + 1;
      }
    }

    /** settings_create, cut short when upTo is below the record length. */
    method Create(name: seq<byte>, ssid: seq<byte>, password: seq<byte>, basestation: seq<byte>, upTo: nat)
      requires Valid() && upTo <= RECORD_LEN
      modifies eeprom, record
      ensures eeprom[..] == Torn(Image(name, ssid, password, basestation), upTo)
      ensures record[..] == Image(name, ssid, password, basestation)
    {
      hide Field, LittleEndian;
      EraseEeprom();
      ClearRecord();
      Wire.Store(record, 0, LittleEndian(MAGIC0, 4));
      ghost var done := LittleEndian(MAGIC0, 4);
      assert record[..4] == done;
      Wire.Store(record, 4, Field(name, 32));
      done := done + Field(name, 32);
      assert record[..36] == done;
      Wire.Store(record, 36, Field(ssid, 64));
      done := done + Field(ssid, 64);
      assert record[..100] == done;
      Wire.Store(record, 100, Field(password, 64));
      done := done + Field(password, 64);
      assert record[..164] == done;
      Wire.Store(record, 164, Field(basestation, 32));
      done := done + Field(basestation, 32);
      assert record[..196] == done;
      Wire.Store(record, 196, LittleEndian(MAGIC1, 4));
      assert record[..] == Image(name, ssid, password, basestation);
      WriteRecord(upTo);
    }

    /** settings_get_name: a memcpy or a memset of 32 bytes of the caller's buffer. */
    method GetName(buf: array<byte>, at: nat)
      requires Valid() && at + 32 <= buf.Length && buf != record
      modifies buf
      ensures buf[..] == old(buf[..at]) + NameCopied(record[..]) + old(buf[at + 32..])
    {
      if IsValid(record[..]) {
        Wire.Store(buf, at, record[4..36]);
      } else {
        Wire.Store(buf, at, Fill(0, 32));
      }
    }

    /** settings_check on the record in memory. */
    method Check() returns (ok: bool)
      requires Valid() && Terminates(record[..])
      ensures ok == Checked(record[..])
    {
      var name := CString(record[..], 4);
      if name == [] || CString(record[..], 36) == [] || CString(record[..], 164) == [] {
        return false;
      }
      var i := 0;
      while i < |name|
        invariant 0 <= i <= |name| && AllAlnum(name[..i])
      {
        if !IsAlnumByte(name[i]) {
          return false;
        }
        i := i + 1;
      }
      assert name[..|name|] == name;
      ok := IsValid(record[..]);
    }
  }

  // ----------------------------------------------------------- commissioning

  /** The uncommissioned heater: the strings of the last registration and whether it is
      joining. */
  class Registration {
    var name: seq<byte>
    var ssid: seq<byte>
    var password: seq<byte>
    var basestation: seq<byte>
    var joining: bool
    var joinStart: nat

    /** What is being joined with has passed the check. */
    ghost predicate Valid()
      reads this
    {
      joining ==> CheckParams(name, ssid, password, basestation)
    }

    constructor ()
      ensures Valid() && !joining
    {
      name, ssid, password, basestation, joining, joinStart := [], [], [], [], false, 0;
    }

    /** The /register handler: a registration is taken only while none is under way. */
    method Register(n: seq<byte>, s: seq<byte>, p: seq<byte>, b: seq<byte>, millis: nat)
      requires Valid()
      modifies this
      ensures Valid()
      ensures old(joining) ==> joining && name == old(name) && ssid == old(ssid) && password == old(password)
                               && basestation == old(basestation) && joinStart == old(joinStart)
      ensures !old(joining) ==> name == n && ssid == s && password == p && basestation == b
      ensures !old(joining) ==> (joining <==> CheckParams(n, s, p, b)) && (joining ==> joinStart == millis)
    {
      if !joining {
        name, ssid, password, basestation := n, s, p, b;
        if CheckParams(name, ssid, password, basestation) {
          joinStart := millis;
          joining := true;
        }
      }
    }

    /** The wait for the network: it ends at the first look that is connected or ten seconds
        in, after at most 20 rounds, also when the clock wraps meanwhile. looks are what each
        look would see, and the time since the registration. */
    method Await(looks: nat -> (bool, nat)) returns (waited: nat)
      requires HalfSecondsApart(looks)
      ensures waited <= 20 && (looks(waited).0 || looks(waited).1 >= 10000)
      ensures forall k :: 0 <= k < waited ==> !looks(k).0 && looks(k).1 < 10000
    {
      waited := 0;
      while !looks(waited).0 && Elapsed32(joinStart, joinStart + looks(waited).1) < JOIN_NETWORK_TIMEOUT
        invariant 500 * waited <= looks(waited).1 < WORD32 && waited <= 20
        invariant forall k :: 0 <= k < waited ==> !looks(k).0 && looks(k).1 < JOIN_NETWORK_TIMEOUT
        decreases 20 - waited
      {
        ElapsedIsTrue(joinStart, looks(waited).1);
        waited := waited + 1;
      }
      ElapsedIsTrue(joinStart, looks(waited).1);
    }

    /** The join step of the loop: the settings are created only when the look after the wait
        finds the network joined, and then from a registration that passed the check. */
    method Join(store: Store, looks: nat -> (bool, nat), last: bool) returns (created: bool)
      requires Valid() && joining && store.Valid()
      requires HalfSecondsApart(looks)
      modifies store.eeprom, store.record
      ensures created == last
      ensures store.Valid() && store.eeprom == old(store.eeprom) && store.record == old(store.record)
      ensures created ==> store.eeprom[..] == Torn(Image(name, ssid, password, basestation), RECORD_LEN)
      ensures !created ==> store.eeprom[..] == old(store.eeprom[..])
    {
      var _ := Await(looks);
      if last {
        store.Create(name, ssid, password, basestation, RECORD_LEN);
      }
      created := last;
    }
  }

  const WORD32: nat := 0x1_0000_0000
  const JOIN_NETWORK_TIMEOUT: nat := 10000    // milliseconds

  /** The difference of two readings of the 32-bit millisecond clock. */
  function Elapsed32(start: nat, now: nat): nat {
    (now % WORD32 - start % WORD32) % WORD32
  }

  lemma ElapsedIsTrue(start: nat, elapsed: nat)
    requires elapsed < WORD32
    ensures Elapsed32(start, start + elapsed) == elapsed
  {
    var r := start % WORD32;
    assert start == start / WORD32 * WORD32 + r;
    if r + elapsed < WORD32 {
      assert (start + elapsed) % WORD32 == r + elapsed;
    } else {
      assert (start + elapsed) % WORD32 == r + elapsed - WORD32;
    }
  }

  /** The looks are half a second apart or more, and not so far that the clock hides it. */
  ghost predicate HalfSecondsApart(looks: nat -> (bool, nat)) {
    looks(0).1 < WORD32
    && forall k: nat :: looks(k).1 + 500 <= looks(k + 1).1 < looks(k).1 + 0x1_0000_0000 - 10000
  }

  /** The first request of a heater on these settings. */
  method FirstRequest(store: Store, mac: Mac, counter: nat) returns (request: seq<byte>)
    requires store.Valid()
    ensures request == EncodeRequest(mac, counter, NameCopied(store.record[..]))
  {
    hide NameCopied;
    var field := new byte[32];
    store.GetName(field, 0);
    assert field[..] == NameCopied(store.record[..]);
    var m := BuildRequest(mac, counter, field[..]);
    request := m[..];
  }

  /** Commissioning end to end: register, join, reboot on the EEPROM that was left, load, and
      the first request. The heater comes up commissioned, settings_check accepts it exactly
      when two strings do not begin with a NUL, and the base reads the name it was given. */
  method Commission(image: seq<byte>, name: seq<byte>, ssid: seq<byte>, password: seq<byte>, basestation: seq<byte>,
                    millis: nat, looks: nat -> (bool, nat), joined: bool, mac: Mac, counter: nat)
    returns (commissioned: bool, ok: bool, request: seq<byte>)
    requires |image| == EEPROM_LEN && CheckParams(name, ssid, password, basestation)
    requires HalfSecondsApart(looks) && counter < WORD64
    ensures joined ==> commissioned && (ok <==> ssid[0] != 0 && basestation[0] != 0)
    ensures joined ==> |request| == MESSAGE_SIZE && SenderMac(request) == PackMac(mac)
                       && RequestName(Payload(request)) == Upper(TextOf(name))
    ensures !joined ==> (commissioned <==> IsValid(image[..RECORD_LEN]))
  {
    hide Field, Checked, Terminates, SenderMac, RequestName, Payload, NameCopied, PackMac, TextOf, Upper;
    var registration := new Registration();
    registration.Register(name, ssid, password, basestation, millis);
    var before := new Store(image);
    var created := registration.Join(before, looks, joined);
    var after := new Store(before.eeprom[..]);
    commissioned := after.Load();
    ok, request := false, [];
    if joined {
      RegistrationSurvives(name, ssid, password, basestation);
      NameReachesBase(name, ssid, password, basestation, mac, counter);
      ok := after.Check();
      assert after.record[..] == Image(name, ssid, password, basestation);
      request := FirstRequest(after, mac, counter);
    }
  }
}
