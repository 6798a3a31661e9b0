/** The two ends of a listing request: the server fills its packet buffer in place, and the client walks the
    packet it received. */
module FilesServer {
  import opened Options
  import opened CStrings
  import opened Wire
  import opened Listing
  import opened Directory

  /** Writes a string and its length at `at`, and says where the next one goes */
  method StringConvert(buffer: array<Byte>, at: nat, s: seq<Byte>) returns (next: nat)
    requires |s| < MAX_STRING_SIZE && at + 1 + |s| <= buffer.Length
    modifies buffer
    ensures next == at + 1 + |s|
    ensures buffer[at] == |s| && forall k :: 0 <= k < |s| ==> buffer[at + 1 + k] == s[k]
    ensures buffer[..next] == old(buffer[..at]) + Prefixed(s)
    ensures forall k :: next <= k < buffer.Length ==> buffer[k] == old(buffer[k])
  {
    buffer[at] := |s|;
    for k := 0 to |s|
      invariant buffer[at] == |s|
      invariant forall j :: 0 <= j < buffer.Length && !(at <= j <= at + k) ==> buffer[j] == old(buffer[j])
      invariant forall j :: at < j <= at + k ==> buffer[j] == s[j - at - 1]
    {
      buffer[at + 1 + k] := s[k];
    }
    next := at + 1 + |s|;
  }

  lemma Assoc(a: seq<Byte>, b: seq<Byte>, c: seq<Byte>)
    ensures a + (b + c) == a + b + c
  {}

  lemma {:induction false} EncodeAppend(records: seq<Record>, r: Record)
    requires ValidRecords(records) && ValidRecord(r)
    ensures ValidRecords(records + [r])
    ensures EncodeRecords(records + [r]) == EncodeRecords(records) + EncodeRecord(r)
    decreases |records|
  {
    var longer := records + [r];
    if records == [] {
      assert longer[1..] == [];
    } else {
      var rest := records[1..];
      EncodeAppend(rest, r);
      assert longer[0] == records[0] && longer[1..] == rest + [r];
      Assoc(EncodeRecord(records[0]), EncodeRecords(rest), EncodeRecord(r));
    }
  }

  /** One more entry whose full name fits and is found is one more file. */
  lemma NextListed(path: Name, dir: seq<Name>, sizes: Sizes, i: nat)
    requires i < |dir| && FullNamesFit(path, dir[..i]) && AllFound(path, dir[..i], sizes)
    requires |path| + |dir[i]| < MAX_STRING_SIZE && path + dir[i] in sizes
    ensures FullNamesFit(path, dir[..i + 1]) && AllFound(path, dir[..i + 1], sizes)
    ensures Listed(path, dir[..i + 1], sizes) == Listed(path, dir[..i], sizes) + [FileAt(path, dir[i], sizes)]
  {
    assert forall j :: 0 <= j < i ==> dir[..i + 1][j] == dir[..i][j];
    assert dir[..i + 1][i] == dir[i];
  }

  lemma WrittenAppend(files: seq<File>, f: File)
    ensures AllWritten(files + [f]) == AllWritten(files) + [Written(f)]
  {}

  /** One more file is one more valid record. */
  lemma NextRecord(files: seq<File>, f: File)
    requires ValidFiles(files) && ValidName(f.name)
    ensures var before, r := AllWritten(files), Written(f);
            && ValidRecords(before) && ValidRecord(r)
            && AllWritten(files + [f]) == before + [r] && ValidRecords(before + [r])
            && EncodeRecords(before + [r]) == EncodeRecords(before) + EncodeRecord(r)
  {
    AllShownAsWritten(files);
    ShownAsWritten(f);
    WrittenAppend(files, f);
    EncodeAppend(AllWritten(files), Written(f));
  }

  function FileAt(path: Name, name: Name, sizes: Sizes): File
    requires path + name in sizes
  {
    File(name, ToInt(sizes[path + name]))
  }

  method Clear(buffer: array<Byte>)
    modifies buffer
    ensures forall k :: 0 <= k < buffer.Length ==> buffer[k] == 0
  {
    for i := 0 to buffer.Length
      invariant forall k :: 0 <= k < i ==> buffer[k] == 0
    {
      buffer[i] := 0;
    }
  }

  lemma RunFirst(path: Name, name: Name, sizes: Sizes, at: nat, rest: seq<Name>)
    ensures Run(path, [name] + rest, sizes, at) ==
            if |path| + |name| >= MAX_STRING_SIZE || at + 1 + |name| > MAX_PACKET_SIZE then Outside
            else if path + name !in sizes then NoFile
            else
              var next := at + 1 + |name| + 1 + |Decimal(ToInt(sizes[path + name]))|;
              if next > MAX_PACKET_SIZE then Outside else Run(path, rest, sizes, next)
  {
    assert ([name] + rest)[1..] == rest;
  }

  lemma TwoStrings(before: seq<Byte>, middle: seq<Byte>, after: seq<Byte>, r: Record)
    requires ValidRecord(r) && middle == before + Prefixed(r.name) && after == middle + Prefixed(r.digits)
    ensures after == before + EncodeRecord(r)
  {}

  /** Writes one entry and says where the next one goes: the name, then the size that stat finds under path
      and name joined. `fate` says where the source would write behind a buffer instead, or end because there is
      no such file. */
  method AddEntry(path: Name, name: Name, sizes: Sizes, buffer: array<Byte>, at: nat, ghost rest: seq<Name>)
    returns (fate: Fate, next: nat)
    requires buffer.Length == MAX_PACKET_SIZE && at <= buffer.Length && name != [] && NulFree(name)
    modifies buffer
    ensures fate.Fine? ==>
              && |path| + |name| < MAX_STRING_SIZE && path + name in sizes
              && ValidRecord(Written(FileAt(path, name, sizes)))
              && next == at + |EncodeRecord(Written(FileAt(path, name, sizes)))| <= buffer.Length
              && buffer[..next] == old(buffer[..at]) + EncodeRecord(Written(FileAt(path, name, sizes)))
              && forall k :: next <= k < buffer.Length ==> buffer[k] == old(buffer[k])
    ensures Run(path, [name] + rest, sizes, at) == if fate.Fine? then Run(path, rest, sizes, next) else fate
  {
    next := at;
    RunFirst(path, name, sizes, at, rest);
    if |path| + |name| >= MAX_STRING_SIZE || at + 1 + |name| > buffer.Length {
      return Outside, at;
    }
    var middle := StringConvert(buffer, at, name);
    if path + name !in sizes {
      return NoFile, at;
    }
    var digits := Decimal(ToInt(sizes[path + name]));
    ShownAsWritten(FileAt(path, name, sizes));
    if middle + 1 + |digits| > buffer.Length {
      return Outside, at;
    }
    ghost var before, named := old(buffer[..at]), buffer[..middle];
    next := StringConvert(buffer, middle, digits);
    TwoStrings(before, named, buffer[..next], Record(name, digits));
    return Fine, next;
  }

  /** The first entries stand in the packet, behind its two leading bytes and in front of zeros. */
  ghost predicate Progress(path: Name, dir: seq<Name>, sizes: Sizes, i: nat, packet: seq<Byte>, at: nat, head: seq<Byte>) {
    && i <= |dir| && FullNamesFit(path, dir[..i]) && AllFound(path, dir[..i], sizes)
    && var records := AllWritten(Listed(path, dir[..i], sizes));
       && ValidRecords(records) && at == AnswerSize(records) <= |packet|
       && packet[..at] == head + EncodeRecords(records)
       && forall k :: at <= k < |packet| ==> packet[k] == 0
  }

  lemma ProgressStep(path: Name, dir: seq<Name>, sizes: Sizes, i: nat, packet: seq<Byte>, longer: seq<Byte>,
                     at: nat, next: nat, head: seq<Byte>)
    requires i < |dir| && RealNames(dir) && |path| + |dir[i]| < MAX_STRING_SIZE && path + dir[i] in sizes
    requires Progress(path, dir, sizes, i, packet, at, head) && |longer| == |packet|
    requires ValidRecord(Written(FileAt(path, dir[i], sizes)))
    requires var bytes := EncodeRecord(Written(FileAt(path, dir[i], sizes)));
             next == at + |bytes| <= |packet| && longer[..next] == packet[..at] + bytes
    requires forall k :: next <= k < |packet| ==> longer[k] == packet[k]
    ensures Progress(path, dir, sizes, i + 1, longer, next, head)
  {
    NextListed(path, dir, sizes, i);
    NextRecord(Listed(path, dir[..i], sizes), FileAt(path, dir[i], sizes));
  }

  /** The listing half of the answer, behind the two leading bytes of a cleared buffer */
  method WriteListing(path: Name, dir: seq<Name>, sizes: Sizes, buffer: array<Byte>) returns (fate: Fate)
    requires buffer.Length == MAX_PACKET_SIZE && RealNames(dir)
    requires forall k :: 2 <= k < buffer.Length ==> buffer[k] == 0
    modifies buffer
    ensures fate == Run(path, dir, sizes, 2)
    ensures fate.Fine? ==> exists at :: Progress(path, dir, sizes, |dir|, buffer[..], at, old(buffer[..2]))
  {
    ghost var head := buffer[..2];
    var at := 2;
    assert dir[..0] == [] && dir[0..] == dir;
    for i := 0 to |dir|
      invariant Progress(path, dir, sizes, i, buffer[..], at, head)
      invariant Run(path, dir, sizes, 2) == Run(path, dir[i..], sizes, at)
    {
      ghost var before := buffer[..];
      var next;
      assert dir[i..] == [dir[i]] + dir[i + 1..];
      fate, next := AddEntry(path, dir[i], sizes, buffer, at, dir[i + 1..]);
      if !fate.Fine? {
        return;
      }
      ProgressStep(path, dir, sizes, i, before, buffer[..], at, next, head);
      at := next;
    }
    assert dir[|dir|..] == [];
    return Fine;
  }

  lemma AnswerWritten(path: Name, dir: seq<Name>, sizes: Sizes, written: seq<Byte>, packet: seq<Byte>, at: nat, head: seq<Byte>)
    requires RealNames(dir) && Run(path, dir, sizes, 2) == Fine
    requires |written| == MAX_PACKET_SIZE && packet == written[0 := LS] && |head| == 2 && head[1] == 0
    requires Progress(path, dir, sizes, |dir|, written, at, head)
    ensures ServerAnswer(path, dir, sizes) == Reply(packet)
  {
    FineExactly(path, dir, sizes, 2);
    BytesOfListing(path, dir, sizes);
    assert dir[..|dir|] == dir;
    var records := AllWritten(Listed(path, dir, sizes));
    assert written[1] == written[..at][1] == head[1];
    assert written[..at][2..] == EncodeRecords(records);
    forall k | 2 <= k < at ensures written[k] == EncodeRecords(records)[k - 2] {
      assert written[k] == written[..at][k];
    }
    PacketIs(written, packet, records);
  }

  /** The server's answer: a listing, or the mark that the directory could not be opened; and how it ended */
  method AnswerLs(path: Name, dir: Option<seq<Name>>, sizes: Sizes, buffer: array<Byte>) returns (fate: Fate)
    requires buffer.Length == MAX_PACKET_SIZE && (dir.Some? ==> RealNames(dir.value))
    modifies buffer
    ensures dir.None? ==> fate == Fine && buffer[..] == [LS, 1] + seq(MAX_PACKET_SIZE - 2, _ => 0)
    ensures dir.Some? ==> ServerAnswer(path, dir.value, sizes) ==
                          match fate case Fine => Reply(buffer[..]) case Outside => Overrun case NoFile => Aborted
  {
    Clear(buffer);
    buffer[1] := 1;
    fate := Fine;
    ghost var head := buffer[..2];
    if dir.Some? {
      buffer[1] := 0;
      head := buffer[..2];
      fate := WriteListing(path, dir.value, sizes, buffer);
    }
    ghost var written := buffer[..];
    buffer[0] := LS;
    if fate.Fine? && dir.Some? {
      ghost var at :| Progress(path, dir.value, sizes, |dir.value|, written, at, head);
      AnswerWritten(path, dir.value, sizes, written, buffer[..], at, head);
    }
  }

  /** A packet is what stands in a cleared buffer behind the marks, once the first of them is set. */
  lemma PacketIs(written: seq<Byte>, packet: seq<Byte>, records: seq<Record>)
    requires ValidRecords(records) && AnswerSize(records) <= |written| == MAX_PACKET_SIZE
    requires written[1] == 0 && packet == written[0 := LS]
    requires forall k :: 2 <= k < AnswerSize(records) ==> written[k] == EncodeRecords(records)[k - 2]
    requires forall k :: AnswerSize(records) <= k < |written| ==> written[k] == 0
    ensures packet == Packet(records)
  {}

  lemma {:induction false} CutAt(text: seq<Byte>, k: nat)
    requires k <= |text| && (k == |text| || text[k] == 0)
    requires forall j :: 0 <= j < k ==> text[j] != 0
    ensures Cut(text) == text[..k]
    decreases k
  {
    if k > 0 {
      CutAt(text[1..], k - 1);
      assert text[..k] == [text[0]] + text[1..][..k - 1];
    }
  }

  /** strncpy of `size` bytes, as the string it leaves */
  method CopyString(buffer: array<Byte>, at: nat, size: nat) returns (s: seq<Byte>)
    requires at + size <= buffer.Length
    ensures s == Cut(buffer[at..at + size])
  {
    ghost var text := buffer[at..at + size];
    var k := 0;
    s := [];
    while k < size && buffer[at + k] != 0
      invariant 0 <= k <= size && s == text[..k]
      invariant forall j :: 0 <= j < k ==> text[j] != 0
    {
      assert text[k] == buffer[at + k];
      s := s + [buffer[at + k]];
      k := k + 1;
    }
    CutAt(text, k);
  }

  /** Reads a string and where the next one starts; None where the source would read outside the packet or
      take a negative length */
  method StringConvertReverse(buffer: array<Byte>, off: nat) returns (r: Option<(seq<Byte>, nat)>)
    ensures r == DecodeString(buffer[..], off)
  {
    if off >= buffer.Length {
      return None;
    }
    var size := Signed(buffer[off]);
    if size < 0 || off + 1 + size > buffer.Length {
      return None;
    }
    var s := CopyString(buffer, off + 1, size);
    assert buffer[..][off + 1..off + 1 + size] == buffer[off + 1..off + 1 + size];
    return Some((s, off + 1 + size));
  }

  /** One name and one size */
  method ReadRecord(buffer: array<Byte>, off: nat) returns (r: Option<(Record, nat)>)
    ensures r == DecodeRecord(buffer[..], off)
  {
    var name := StringConvertReverse(buffer, off);
    if name.None? {
      return None;
    }
    var digits := StringConvertReverse(buffer, name.value.1);
    if digits.None? {
      return None;
    }
    return Some((Record(name.value.0, digits.value.0), digits.value.1));
  }

  lemma AppendNext<T>(items: seq<T>, item: T, rest: Option<seq<T>>)
    ensures Append(items, Prepend(item, rest)) == Append(items + [item], rest)
  {
    if rest.Some? {
      assert items + ([item] + rest.value) == (items + [item]) + rest.value;
    }
  }

  lemma AppendToNothing<T>(rest: Option<seq<T>>)
    ensures Append([], rest) == rest
  {
    if rest.Some? {
      assert [] + rest.value == rest.value;
    }
  }

  /** The client's walk through an answer, which an assertion ends when the first byte is not the command's */
  method CommandLs(buffer: array<Byte>) returns (screen: Screen)
    requires buffer.Length == MAX_PACKET_SIZE
    ensures buffer[0] != LS ==> screen == ClientGone
    ensures buffer[0] == LS ==> screen == if buffer[1] == 1 then Refused
                                          else if Read(buffer[..]).None? then Lost
                                          else Shows(Read(buffer[..]).value)
  {
    if buffer[0] != LS {
      return ClientGone;
    }
    if buffer[1] == 1 {
      return Refused;
    }
    ghost var records: seq<Record> := [];
    var files, off := [], 2;
    AppendToNothing(DecodeRecords(buffer[..], 2));
    while off < buffer.Length && buffer[off] != 0
      invariant off <= buffer.Length
      invariant DecodeRecords(buffer[..], 2) == Append(records, DecodeRecords(buffer[..], off))
      invariant files == AllShown(records)
      decreases buffer.Length - off
    {
      var read := ReadRecord(buffer, off);
      if read.None? {
        return Lost;
      }
      var record, next := read.value.0, read.value.1;
      DecodeStep(buffer[..], off, record, next);
      AppendNext(records, record, DecodeRecords(buffer[..], next));
      files := files + [Shown(record)];
      records := records + [record];
      off := next;
    }
    if off >= buffer.Length {
      return Lost;
    }
    assert records + [] == records;
    return Shows(files);
  }

  /** A listing request, for any path, directory and file system: the client shows what the server listed
      exactly when the directory is listable. */
  method ListDirectory(path: Name, dir: Option<seq<Name>>, sizes: Sizes) returns (screen: Screen)
    requires dir.Some? ==> RealNames(dir.value)
    ensures (screen.Refused? <==> dir.None?) && !screen.ClientGone?
    ensures dir.Some? ==> screen == OnScreen(path, dir.value, sizes)
    ensures dir.Some? ==> (screen.Shows? <==> Listable(path, dir.value, sizes))
    ensures dir.Some? && Listable(path, dir.value, sizes) ==> screen == Shows(Listed(path, dir.value, sizes))
  {
    var buffer := new Byte[MAX_PACKET_SIZE];
    if dir.Some? {
      ListedExactly(path, dir.value, sizes);
    }
    AnswersAreMarked(path, dir, sizes);
    var fate := AnswerLs(path, dir, sizes, buffer);
    match fate
    case Outside =>
      return Lost;
    case NoFile =>
      return ServerGone;
    case Fine =>
      assert buffer[..][0] == buffer[0] && buffer[..][1] == buffer[1];
      screen := CommandLs(buffer);
  }
}
