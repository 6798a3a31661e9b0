/** Records of two strings in a packet, each string preceded by its length, and how they are read back. */
module Wire {
  import opened Options
  import opened CStrings

  const MAX_STRING_SIZE: nat := 128

  /** A file's name and its size as text */
  datatype Record = Record(name: seq<Byte>, digits: seq<Byte>)

  predicate ShortString(s: seq<Byte>) {
    |s| < MAX_STRING_SIZE && NulFree(s)
  }

  predicate ValidRecord(r: Record) {
    r.name != [] && ShortString(r.name) && ShortString(r.digits)
  }

  predicate ValidRecords(records: seq<Record>) {
    forall i :: 0 <= i < |records| ==> ValidRecord(records[i])
  }

  /** A string after its length */
  function Prefixed(s: seq<Byte>): seq<Byte>
    requires |s| < MAX_STRING_SIZE
  {
    [|s|] + s
  }

  function EncodeRecord(r: Record): seq<Byte>
    requires ValidRecord(r)
  {
    Prefixed(r.name) + Prefixed(r.digits)
  }

  function EncodeRecords(records: seq<Record>): seq<Byte>
    requires ValidRecords(records)
  {
    if records == [] then [] else EncodeRecord(records[0]) + EncodeRecords(records[1..])
  }

  /** The string after the length at `off`, and where the next one starts; None when the length is no length
      or the string does not end inside the packet */
  function DecodeString(packet: seq<Byte>, off: nat): (r: Option<(seq<Byte>, nat)>)
    ensures r.Some? ==> off < r.value.1 <= |packet|
  {
    if off >= |packet| then None
    else
      var size := Signed(packet[off]);
      if size < 0 || off + 1 + size > |packet| then None
      else Some((Cut(packet[off + 1..off + 1 + size]), off + 1 + size))
  }

  /** A string is read where a length of at most 127 stands that does not lead out of the packet: the bytes
      behind the length, up to the first zero if there is one. Reading goes on behind the length's bytes. */
  lemma StringReadExactly(packet: seq<Byte>, off: nat, s: seq<Byte>, next: nat)
    ensures DecodeString(packet, off) == Some((s, next)) <==>
              && off < |packet| && packet[off] <= 127 && next == off + 1 + packet[off] <= |packet|
              && NulFree(s) && s <= packet[off + 1..next] && (off + 1 + |s| < next ==> packet[off + 1 + |s|] == 0)
  {
    if off < |packet| && packet[off] <= 127 && off + 1 + packet[off] <= |packet| {
      CutExactly(packet[off + 1..off + 1 + packet[off]], s);
    }
  }

  /** A name and a size, and where the next record starts */
  function DecodeRecord(packet: seq<Byte>, off: nat): (r: Option<(Record, nat)>)
    ensures r.Some? ==> off < r.value.1 <= |packet|
  {
    var name := DecodeString(packet, off);
    if name.None? then None
    else
      var digits := DecodeString(packet, name.value.1);
      if digits.None? then None else Some((Record(name.value.0, digits.value.0), digits.value.1))
  }

  /** The records read from `off` on, until a length of zero; None when the reader would leave the packet */
  function DecodeRecords(packet: seq<Byte>, off: nat): Option<seq<Record>>
    decreases |packet| - off
  {
    if off >= |packet| then None
    else if packet[off] == 0 then Some([])
    else
      var record := DecodeRecord(packet, off);
      if record.None? then None else Prepend(record.value.0, DecodeRecords(packet, record.value.1))
  }

  function Prepend<T>(item: T, rest: Option<seq<T>>): Option<seq<T>> {
    if rest.None? then None else Some([item] + rest.value)
  }

  // ------------------------------------------------ the round trip

  /** The bytes of s stand in the packet from `off` on. */
  predicate StandsAt(packet: seq<Byte>, off: nat, s: seq<Byte>)
    decreases |s|
  {
    if s == [] then off <= |packet|
    else off < |packet| && packet[off] == s[0] && StandsAt(packet, off + 1, s[1..])
  }

  lemma {:induction false} StandsAtIsSlice(packet: seq<Byte>, off: nat, s: seq<Byte>)
    ensures StandsAt(packet, off, s) <==> off + |s| <= |packet| && packet[off..off + |s|] == s
    decreases |s|
  {
    if s != [] && off < |packet| {
      StandsAtIsSlice(packet, off + 1, s[1..]);
      if off + |s| <= |packet| {
        assert packet[off..off + |s|] == [packet[off]] + packet[off + 1..off + |s|];
        assert s == [s[0]] + s[1..];
      }
    }
  }

  lemma SplitStandsAt(packet: seq<Byte>, off: nat, a: seq<Byte>, b: seq<Byte>)
    requires StandsAt(packet, off, a + b)
    ensures StandsAt(packet, off, a) && StandsAt(packet, off + |a|, b)
  {
    StandsAtIsSlice(packet, off, a + b);
    var whole := packet[off..off + |a + b|];
    assert packet[off..off + |a|] == whole[..|a|] == a;
    assert packet[off + |a|..off + |a| + |b|] == whole[|a|..] == b;
    StandsAtIsSlice(packet, off, a);
    StandsAtIsSlice(packet, off + |a|, b);
  }

  lemma StringReadBack(packet: seq<Byte>, off: nat, s: seq<Byte>)
    requires |s| < MAX_STRING_SIZE && NulFree(s) && StandsAt(packet, off, Prefixed(s))
    ensures packet[off] == |s| && DecodeString(packet, off) == Some((s, off + 1 + |s|))
  {
    assert Prefixed(s)[1..] == s;
    StandsAtIsSlice(packet, off + 1, s);
  }

  lemma TwoStringsReadBack(packet: seq<Byte>, off: nat, a: seq<Byte>, b: seq<Byte>)
    requires |a| < MAX_STRING_SIZE && NulFree(a) && |b| < MAX_STRING_SIZE && NulFree(b)
    requires StandsAt(packet, off, Prefixed(a) + Prefixed(b))
    ensures off < |packet| && packet[off] == |a|
    ensures DecodeString(packet, off) == Some((a, off + 1 + |a|))
    ensures DecodeString(packet, off + 1 + |a|) == Some((b, off + 1 + |a| + 1 + |b|))
  {
    SplitStandsAt(packet, off, Prefixed(a), Prefixed(b));
    StringReadBack(packet, off, a);
    StringReadBack(packet, off + 1 + |a|, b);
  }

  lemma RecordReadBack(packet: seq<Byte>, off: nat, r: Record)
    requires ValidRecord(r) && StandsAt(packet, off, EncodeRecord(r))
    ensures off < |packet| && packet[off] != 0
    ensures DecodeRecord(packet, off) == Some((r, off + |EncodeRecord(r)|))
  {
    TwoStringsReadBack(packet, off, r.name, r.digits);
  }

  lemma DecodeStep(packet: seq<Byte>, off: nat, r: Record, next: nat)
    requires off < |packet| && packet[off] != 0 && DecodeRecord(packet, off) == Some((r, next))
    ensures DecodeRecords(packet, off) == Prepend(r, DecodeRecords(packet, next))
  {}

  function Append<T>(items: seq<T>, rest: Option<seq<T>>): Option<seq<T>> {
    if rest.None? then None else Some(items + rest.value)
  }

  lemma AppendFirst<T>(items: seq<T>, rest: Option<seq<T>>)
    requires items != []
    ensures Prepend(items[0], Append(items[1..], rest)) == Append(items, rest)
  {
    if rest.Some? {
      assert [items[0]] + (items[1..] + rest.value) == items + rest.value;
    }
  }

  lemma FirstReadBack(packet: seq<Byte>, off: nat, records: seq<Record>) returns (next: nat)
    requires ValidRecords(records) && records != [] && StandsAt(packet, off, EncodeRecords(records))
    ensures DecodeRecords(packet, off) == Prepend(records[0], DecodeRecords(packet, next))
    ensures StandsAt(packet, next, EncodeRecords(records[1..]))
    ensures next + |EncodeRecords(records[1..])| == off + |EncodeRecords(records)|
  {
    var first, others := EncodeRecord(records[0]), EncodeRecords(records[1..]);
    next := off + |first|;
    SplitStandsAt(packet, off, first, others);
    RecordReadBack(packet, off, records[0]);
    DecodeStep(packet, off, records[0], next);
  }

  /** The reader reads the records that were written, and goes on behind them. */
  lemma {:induction false} RecordsReadBack(packet: seq<Byte>, off: nat, records: seq<Record>, end: nat)
    requires ValidRecords(records) && StandsAt(packet, off, EncodeRecords(records))
    requires end == off + |EncodeRecords(records)|
    ensures DecodeRecords(packet, off) == Append(records, DecodeRecords(packet, end))
    decreases |records|
  {
    var rest := DecodeRecords(packet, end);
    if records == [] {
      assert rest.Some? ==> records + rest.value == rest.value;
    } else {
      var next := FirstReadBack(packet, off, records);
      RecordsReadBack(packet, next, records[1..], end);
      AppendFirst(records, rest);
    }
  }
}
