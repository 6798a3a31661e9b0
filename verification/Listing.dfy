/** A directory listing as it travels: file sizes as decimal text, and the packet that carries it. */
module Listing {
  import opened Options
  import opened CStrings
  import opened Wire

  const MAX_PACKET_SIZE: nat := 4096

  const LS: Byte := 3

  type Int32 = x: int | -0x8000_0000 <= x < 0x8000_0000

  datatype File = File(name: seq<Byte>, size: Int32)

  /** Conversion to a 32-bit int */
  function ToInt(x: int): Int32 {
    (x + 0x8000_0000) % 0x1_0000_0000 - 0x8000_0000
  }

  /** The conversion is the one number of 32 bits that differs by a multiple of 2 to the 32. */
  lemma ToIntExactly(x: int, r: Int32)
    ensures r == ToInt(x) <==> (x - r) % 0x1_0000_0000 == 0
  {
    var d := x - ToInt(x);
    assert d == (x + 0x8000_0000) / 0x1_0000_0000 * 0x1_0000_0000;
  }

  // ------------------------------------------------ numbers in decimal

  function Digits(n: nat): (s: seq<Byte>)
    ensures |s| > 0
  {
    if n < 10 then ['0' as int + n] else Digits(n / 10) + ['0' as int + n % 10]
  }

  function Decimal(n: int): seq<Byte> {
    if n < 0 then ['-' as int] + Digits(-n) else Digits(n)
  }

  predicate IsDigit(b: Byte) {
    '0' as int <= b <= '9' as int
  }

  predicate IsSpace(b: Byte) {
    b == ' ' as int || 9 <= b <= 13
  }

  /** The number the leading digits make after the digits read so far */
  function Value(s: seq<Byte>, read: nat): nat
    decreases |s|
  {
    if s == [] || !IsDigit(s[0]) then read else Value(s[1..], 10 * read + (s[0] - '0' as int))
  }

  function Atoi(s: seq<Byte>): int
    decreases |s|
  {
    if s == [] then 0
    else if IsSpace(s[0]) then Atoi(s[1..])
    else if s[0] == '-' as int then 0 - Value(s[1..], 0)
    else if s[0] == '+' as int then Value(s[1..], 0)
    else Value(s, 0)
  }

  predicate AllDigits(s: seq<Byte>) {
    forall k :: 0 <= k < |s| ==> IsDigit(s[k])
  }

  lemma {:induction false} ValueOfOneMore(s: seq<Byte>, b: Byte, read: nat)
    requires AllDigits(s) && IsDigit(b)
    ensures Value(s + [b], read) == 10 * Value(s, read) + (b - '0' as int)
    decreases |s|
  {
    if s == [] {
      assert (s + [b])[1..] == [];
    } else {
      assert (s + [b])[1..] == s[1..] + [b];
      ValueOfOneMore(s[1..], b, 10 * read + (s[0] - '0' as int));
    }
  }

  lemma {:induction false} DigitsReadBack(n: nat)
    ensures AllDigits(Digits(n)) && Value(Digits(n), 0) == n
  {
    if n < 10 {
      assert Digits(n)[1..] == [];
    } else {
      DigitsReadBack(n / 10);
      ValueOfOneMore(Digits(n / 10), '0' as int + n % 10, 0);
    }
  }

  /** Reading a printed number gives it back, negative ones included. */
  lemma AtoiOfDecimal(n: int)
    ensures Atoi(Decimal(n)) == n
  {
    if n < 0 {
      DigitsReadBack(-n);
      assert Decimal(n)[1..] == Digits(-n);
    } else {
      DigitsReadBack(n);
      assert IsDigit(Digits(n)[0]);
    }
  }

  /** Digits without a leading zero, unless they are a single zero */
  predicate Plain(s: seq<Byte>) {
    s != [] && AllDigits(s) && (s[0] == '0' as int ==> |s| == 1)
  }

  /** An optional minus sign, not before zero, and plain digits */
  predicate Canonical(s: seq<Byte>) {
    if s != [] && s[0] == '-' as int then Plain(s[1..]) && s[1] != '0' as int else Plain(s)
  }

  lemma {:induction false} DigitsArePlain(n: nat)
    ensures Plain(Digits(n)) && (n > 0 ==> Digits(n)[0] != '0' as int)
  {
    if n >= 10 {
      DigitsArePlain(n / 10);
    }
  }

  lemma {:induction false} PlainIsDigits(s: seq<Byte>)
    requires Plain(s)
    ensures s == Digits(Value(s, 0))
    decreases |s|
  {
    var init, last := s[..|s| - 1], s[|s| - 1];
    assert s == init + [last];
    ValueOfOneMore(init, last, 0);
    if init == [] {
      assert Value(init, 0) == 0;
    } else {
      PlainIsDigits(init);
      assert Value(init, 0) > 0;
    }
  }

  /** A number is printed as the one canonical text that is read as the number: digits after at most a minus
      sign, and no leading zeros. */
  lemma DecimalExactly(n: int, s: seq<Byte>)
    ensures Canonical(s) && Atoi(s) == n <==> s == Decimal(n)
  {
    AtoiOfDecimal(n);
    DigitsArePlain(if n < 0 then -n else n);
    if n < 0 {
      assert Decimal(n)[1..] == Digits(-n);
    }
    if Canonical(s) {
      if s[0] == '-' as int {
        PlainIsDigits(s[1..]);
        assert s == ['-' as int] + s[1..];
        if Value(s[1..], 0) == 0 { DigitsOfZero(s[1..]); }
      } else {
        PlainIsDigits(s);
      }
    }
  }

  /** Plain digits that stand for zero are a zero. */
  lemma DigitsOfZero(s: seq<Byte>)
    requires Plain(s) && Value(s, 0) == 0
    ensures s[0] == '0' as int
  {
    PlainIsDigits(s);
  }

  lemma {:induction false} DigitCount(n: nat, k: nat, bound: nat)
    requires k > 0 && bound == Power10(k) && n < bound
    ensures |Digits(n)| <= k
    decreases k
  {
    if n >= 10 {
      assert k > 1;
      DigitCount(n / 10, k - 1, Power10(k - 1));
    }
  }

  function Power10(k: nat): nat {
    if k == 0 then 1 else 10 * Power10(k - 1)
  }

  /** A printed 32-bit number fits any of the string buffers, and holds no zero byte. */
  lemma DecimalIsShort(n: Int32)
    ensures 0 < |Decimal(n)| <= 11 && NulFree(Decimal(n))
  {
    var k: int := n;
    var m: nat := if k < 0 then -k else k;
    assert Power10(10) == 10_000_000_000 by {
      assert Power10(4) == 10_000;
      assert Power10(8) == 100_000_000;
    }
    DigitCount(m, 10, Power10(10));
    DigitsReadBack(m);
  }

  // ------------------------------------------------ files and their records

  predicate ValidName(name: seq<Byte>) {
    name != [] && ShortString(name)
  }

  /** A file as the server writes it */
  function Written(f: File): Record {
    Record(f.name, Decimal(f.size))
  }

  /** A file as the client shows it */
  function Shown(r: Record): File {
    File(r.name, ToInt(Atoi(r.digits)))
  }

  lemma ShownAsWritten(f: File)
    requires ValidName(f.name)
    ensures ValidRecord(Written(f)) && Shown(Written(f)) == f
  {
    DecimalIsShort(f.size);
    AtoiOfDecimal(f.size);
  }

  function AllWritten(files: seq<File>): (records: seq<Record>)
    ensures |records| == |files|
  {
    seq(|files|, i requires 0 <= i < |files| => Written(files[i]))
  }

  function AllShown(records: seq<Record>): (files: seq<File>)
    ensures |files| == |records|
  {
    seq(|records|, i requires 0 <= i < |records| => Shown(records[i]))
  }

  predicate ValidFiles(files: seq<File>) {
    forall i :: 0 <= i < |files| ==> ValidName(files[i].name)
  }

  lemma AllShownAsWritten(files: seq<File>)
    requires ValidFiles(files)
    ensures ValidRecords(AllWritten(files)) && AllShown(AllWritten(files)) == files
  {
    forall i | 0 <= i < |files| ensures ValidRecord(Written(files[i])) && Shown(Written(files[i])) == files[i] {
      ShownAsWritten(files[i]);
    }
  }

  // ------------------------------------------------ packets

  /** Bytes of the packet the answer takes, its two leading bytes included */
  function AnswerSize(records: seq<Record>): nat
    requires ValidRecords(records)
  {
    2 + |EncodeRecords(records)|
  }

  /** The answer to a listing request, when the listing fits the packet */
  function Packet(records: seq<Record>): (packet: seq<Byte>)
    requires ValidRecords(records) && AnswerSize(records) <= MAX_PACKET_SIZE
    ensures |packet| == MAX_PACKET_SIZE && packet[0] == LS && packet[1] == 0
  {
    [LS, 0] + EncodeRecords(records) + seq(MAX_PACKET_SIZE - AnswerSize(records), _ => 0)
  }

  /** What the client shows of an answer; None when it would read outside the packet */
  function Read(packet: seq<Byte>): Option<seq<File>> {
    var records := DecodeRecords(packet, 2);
    if records.None? then None else Some(AllShown(records.value))
  }

  lemma PacketLayout(records: seq<Record>)
    requires ValidRecords(records) && AnswerSize(records) <= MAX_PACKET_SIZE
    ensures StandsAt(Packet(records), 2, EncodeRecords(records))
    ensures forall k :: AnswerSize(records) <= k < MAX_PACKET_SIZE ==> Packet(records)[k] == 0
  {
    assert Packet(records)[2..AnswerSize(records)] == EncodeRecords(records);
    StandsAtIsSlice(Packet(records), 2, EncodeRecords(records));
  }

  lemma RecordsArrive(records: seq<Record>)
    requires ValidRecords(records) && AnswerSize(records) <= MAX_PACKET_SIZE
    ensures DecodeRecords(Packet(records), 2)
         == if AnswerSize(records) < MAX_PACKET_SIZE then Some(records) else None
  {
    var packet, end := Packet(records), AnswerSize(records);
    PacketLayout(records);
    RecordsReadBack(packet, 2, records, end);
    if end < MAX_PACKET_SIZE {
      assert DecodeRecords(packet, end) == Some([]);
      assert records + [] == records;
    }
  }

  /** The bytes of the packet a list of files takes */
  function ListingSize(files: seq<File>): nat
    requires ValidFiles(files)
  {
    AllShownAsWritten(files);
    AnswerSize(AllWritten(files))
  }

  /** The server's packet; None when it would write outside of it, which it does not check. */
  function Sent(files: seq<File>): (packet: Option<seq<Byte>>)
    requires ValidFiles(files)
    ensures packet.Some? <==> ListingSize(files) <= MAX_PACKET_SIZE
  {
    AllShownAsWritten(files);
    if ListingSize(files) <= MAX_PACKET_SIZE then Some(Packet(AllWritten(files))) else None
  }

  /** What reaches the client's screen; None when one of the two ends leaves the packet */
  function Received(files: seq<File>): Option<seq<File>>
    requires ValidFiles(files)
  {
    if Sent(files).Some? then Read(Sent(files).value) else None
  }

  /** The client shows exactly the files the server listed if and only if the listing leaves a byte of the
      packet free. */
  lemma RoundTrip(files: seq<File>)
    requires ValidFiles(files)
    ensures Received(files) == if ListingSize(files) < MAX_PACKET_SIZE then Some(files) else None
  {
    AllShownAsWritten(files);
    if ListingSize(files) <= MAX_PACKET_SIZE {
      RecordsArrive(AllWritten(files));
    }
  }

  /** Two listings that fit share a packet only when they are the same. */
  lemma PacketsDiffer(a: seq<File>, b: seq<File>)
    requires ValidFiles(a) && ListingSize(a) < MAX_PACKET_SIZE
    requires ValidFiles(b) && ListingSize(b) < MAX_PACKET_SIZE
    ensures Sent(a) == Sent(b) ==> a == b
  {
    RoundTrip(a);
    RoundTrip(b);
  }
}
