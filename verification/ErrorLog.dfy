/** The last errors of a heater and the page that lists them. */
module ErrorLog {

  datatype ErrorCode =
    | CannotConnect | ReplyTimeout | ProtocolNotSupported | InvalidType | InvalidState
    | ReadFailure | WriteFailure

  /** The timestamp is an unsigned long, 32 bits on the ESP8266. */
  datatype ErrorRecord = ErrorRecord(code: ErrorCode, timestamp: nat)

  const MAX_ERROR_RECORDED: nat := 5

  /** record_error on the queue: when it is full the oldest entry is dropped first. */
  function Pushed(errors: seq<ErrorRecord>, rec: ErrorRecord): seq<ErrorRecord> {
    (if |errors| == MAX_ERROR_RECORDED then errors[1..] else errors) + [rec]
  }

  function PushedAll(recs: seq<ErrorRecord>): seq<ErrorRecord> {
    if recs == [] then [] else Pushed(PushedAll(recs[..|recs| - 1]), recs[|recs| - 1])
  }

  /** The queue holds exactly the last five records, or all when there are fewer. */
  lemma {:induction false} LastFive(recs: seq<ErrorRecord>)
    ensures PushedAll(recs)
            == if |recs| <= 5 then recs else recs[|recs| - 5..]
  {
    if recs != [] {
      var front, last := recs[..|recs| - 1], recs[|recs| - 1];
      LastFive(front);
      assert recs == front + [last];
      if |front| >= 5 {
        var from := |front| - 5;
        assert front[from..][1..] + [last] == recs[from + 1..];
      }
    }
  }

  // ------------------------------------------------------------------ the page

  function Describe(code: ErrorCode): (s: string)
    ensures |s| <= 43
  {
    match code
    case CannotConnect => "Cannot connect to base station"
    case ReplyTimeout => "Timeout waiting for reply from base station"
    case ProtocolNotSupported => "Message protocol not supported"
    case InvalidType => "Received invalid message type"
    case InvalidState => "Received invalid heater state"
    case ReadFailure => "Failed to read message from client"
    case WriteFailure => "Failed to send message to base station"
  }

  function Digit(n: nat): char
    requires n < 10
  {
    (n + '0' as int) as char
  }

  /** %lu */
  function Decimal(n: nat): (s: string)
    ensures s != ""
  {
    if n < 10 then [Digit(n)] else Decimal(n / 10) + [Digit(n % 10)]
  }

  function Power10(k: nat): (p: nat)
    ensures p > 0
  {
    if k == 0 then 1 else 10 * Power10(k - 1)
  }

  lemma {:induction false} DecimalLength(n: nat, k: nat)
    requires 0 < k
    ensures |Decimal(n)| <= k <==> n < Power10(k)
  {
    if n >= 10 {
      if k > 1 {
        DecimalLength(n / 10, k - 1);
      } else {
        assert |Decimal(n / 10)| >= 1 && Power10(1) == 10 * Power10(0);
      }
    }
  }

  function Stamp(timestamp: nat): string {
    ", timestamp=" + Decimal(timestamp)
  }

  function Entry(rec: ErrorRecord): string {
    Describe(rec.code) + Stamp(rec.timestamp)
  }

  function Separator(rest: seq<ErrorRecord>): string {
    if rest == [] then "" else "<br>"
  }

  /** The entries with <br> between them. */
  function Listing(errors: seq<ErrorRecord>): string {
    if errors == [] then ""
    else Entry(errors[0]) + Separator(errors[1..]) + Listing(errors[1..])
  }

  predicate Stamped(errors: seq<ErrorRecord>) {
    forall i :: 0 <= i < |errors| ==> errors[i].timestamp < 0x1_0000_0000
  }

  lemma StampLength(timestamp: nat)
    requires timestamp < 0x1_0000_0000
    ensures |Stamp(timestamp)| <= 22
  {
    assert Power10(2) == 100 && Power10(4) == 100 * Power10(2) && Power10(6) == 100 * Power10(4);
    assert Power10(8) == 100 * Power10(6) && Power10(10) == 100 * Power10(8);
    DecimalLength(timestamp, 10);
  }

  lemma EntryLength(rec: ErrorRecord)
    requires rec.timestamp < 0x1_0000_0000
    ensures |Entry(rec)| <= 65
  {
    hide Describe, Stamp;
    StampLength(rec.timestamp);
  }

  lemma {:induction false} ListingLength(errors: seq<ErrorRecord>)
    requires Stamped(errors)
    ensures |Listing(errors)| <= if errors == [] then 0 else 69 * |errors| - 4
  {
    hide Entry;
    if errors != [] {
      EntryLength(errors[0]);
      ListingLength(errors[1..]);
    }
  }

  /** With five 32-bit timestamps the list never exceeds 341 characters. */
  lemma PageFits(errors: seq<ErrorRecord>)
    requires |errors| <= MAX_ERROR_RECORDED && Stamped(errors)
    ensures |Listing(errors)| <= 341
  {
    ListingLength(errors);
  }

  /** The bound is reached: five timeouts with ten-digit timestamps. */
  lemma {:induction false} PageBoundIsTight(rec: ErrorRecord)
    requires rec == ErrorRecord(ReplyTimeout, 0xFFFF_FFFF)
    ensures |Listing([rec, rec, rec, rec, rec])| == 341
  {
    assert Power10(3) == 1000 && Power10(6) == 1000 * Power10(3) && Power10(9) == 1000 * Power10(6);
    DecimalLength(rec.timestamp, 9);
    StampLength(rec.timestamp);
    assert |Entry(rec)| == 65;
    hide Entry;
    var one, two, three, four := [rec], [rec, rec], [rec, rec, rec], [rec, rec, rec, rec];
    assert |Listing(one)| == 65 && one[1..] == [];
    assert two[1..] == one && |Listing(two)| == 134;
    assert three[1..] == two && |Listing(three)| == 203;
    assert four[1..] == three && |Listing(four)| == 272;
    assert [rec, rec, rec, rec, rec][1..] == four;
  }

  // ------------------------------------------------------- the buffer, in place

  /** The buffer holds this text as a C string. */
  ghost predicate Holds(buf: array<char>, text: string)
    reads buf
  {
    |text| < buf.Length && buf[..|text|] == text && buf[|text|] == '\0'
  }

  /** strcat: from the terminator, which is at end as no text here contains a NUL. */
  method StrCat(buf: array<char>, src: string, end: nat) returns (newEnd: nat)
    requires end + |src| < buf.Length && buf[end] == '\0'
    modifies buf
    ensures newEnd == end + |src| && Holds(buf, old(buf[..end]) + src)
  {
    var i := 0;
    while i < |src|
      invariant 0 <= i <= |src|
      invariant buf[..end + i] == old(buf[..end]) + src[..i]
    {
      buf[end + i] := src[i];
      i := i + 1;
    }
    buf[end + i] := '\0';
    newEnd := end + i;
    assert buf[..newEnd] == old(buf[..end]) + src;
  }

  lemma Extend(text: string, entry: string, separator: string, rest: string)
    ensures text + (entry + separator + rest) == text + entry + separator + rest
  {
  }

  /** build_errors_webpage, in the 512-byte buffer it is called with: no write leaves it. */
  method BuildErrorsWebpage(buf: array<char>, errors: seq<ErrorRecord>)
    requires buf.Length == 512 && |errors| <= MAX_ERROR_RECORDED && Stamped(errors)
    modifies buf
    ensures Holds(buf, if errors == [] then "No errors" else Listing(errors))
  {
    hide Entry, Describe;
    buf[0] := '\0';
    if errors == [] {
      var _ := StrCat(buf, "No errors", 0);
      assert buf[..0] + "No errors" == "No errors";
      return;
    }
    var i, end := 0, 0;
    assert errors[0..] == errors && buf[..0] + Listing(errors) == Listing(errors);
    while i < |errors|
      invariant 0 <= i <= |errors| && 0 <= end <= 69 * i && buf[end] == '\0'
      invariant buf[..end] + Listing(errors[i..]) == Listing(errors)
    {
      ghost var text, rest := buf[..end], errors[i + 1..];
      assert errors[i..][1..] == rest;
      EntryLength(errors[i]);
      Extend(text, Entry(errors[i]), Separator(rest), Listing(rest));
      end := StrCat(buf, Entry(errors[i]), end);
      i := i + 1;
      if i < |errors| {
        end := StrCat(buf, "<br>", end);
      }
      assert rest == [] ==> buf[..end] + "" == buf[..end];
      assert buf[..end] == text + Entry(errors[i - 1]) + Separator(rest);
    }
    assert buf[..end] + "" == buf[..end];
  }
}
