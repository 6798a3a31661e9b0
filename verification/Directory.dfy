/** What becomes of a listing request: the server asks for the size of every entry by path and name joined
    as they are, and stops where that names no file. */
module Directory {
  import opened Options
  import opened CStrings
  import opened Wire
  import opened Listing

  type Name = seq<Byte>

  /** The sizes stat finds, by the name it is given */
  type Sizes = map<Name, int>

  // ------------------------------------------------ what the server lists

  /** What readdir yields: names of any length, none of them empty */
  predicate RealNames(dir: seq<Name>) {
    forall i :: 0 <= i < |dir| ==> dir[i] != [] && NulFree(dir[i])
  }

  /** The server puts path and name together in a string buffer. */
  predicate FullNamesFit(path: Name, dir: seq<Name>) {
    forall i :: 0 <= i < |dir| ==> |path| + |dir[i]| < MAX_STRING_SIZE
  }

  /** Path and name put together name a file for every entry. */
  predicate AllFound(path: Name, dir: seq<Name>, sizes: Sizes) {
    forall i :: 0 <= i < |dir| ==> path + dir[i] in sizes
  }

  function Listed(path: Name, dir: seq<Name>, sizes: Sizes): (files: seq<File>)
    requires AllFound(path, dir, sizes)
    ensures |files| == |dir|
    ensures forall i :: 0 <= i < |dir| ==> files[i] == File(dir[i], ToInt(sizes[path + dir[i]]))
  {
    seq(|dir|, i requires 0 <= i < |dir| => File(dir[i], ToInt(sizes[path + dir[i]])))
  }

  /** No buffer of the server is left, every name is found, and a byte of the packet is free. */
  predicate Listable(path: Name, dir: seq<Name>, sizes: Sizes)
    requires RealNames(dir)
  {
    && FullNamesFit(path, dir) && AllFound(path, dir, sizes)
    && ListingSize(Listed(path, dir, sizes)) < MAX_PACKET_SIZE
  }

  /** The client shows the sizes stat found exactly when they all fit a 32-bit int. */
  lemma TrueSizesShown(path: Name, dir: seq<Name>, sizes: Sizes)
    requires AllFound(path, dir, sizes)
    ensures (forall i :: 0 <= i < |dir| ==> Listed(path, dir, sizes)[i].size == sizes[path + dir[i]]) <==>
              forall i :: 0 <= i < |dir| ==> -0x8000_0000 <= sizes[path + dir[i]] < 0x8000_0000
  {
    forall i | 0 <= i < |dir|
      ensures Listed(path, dir, sizes)[i].size == sizes[path + dir[i]] <==>
                -0x8000_0000 <= sizes[path + dir[i]] < 0x8000_0000
    {}
  }

  // ------------------------------------------------ entry by entry

  /** How writing the listing ends: well, with a write behind a buffer, or by the assertion on stat */
  datatype Fate = Fine | Outside | NoFile

  /** The fate of the entries still to come when `at` bytes of the packet are taken; for each the name is
      written, path and name are joined, the size is asked for and written. */
  function Run(path: Name, dir: seq<Name>, sizes: Sizes, at: nat): Fate
    decreases |dir|
  {
    if dir == [] then Fine
    else
      var name := dir[0];
      if |path| + |name| >= MAX_STRING_SIZE || at + 1 + |name| > MAX_PACKET_SIZE then Outside
      else if path + name !in sizes then NoFile
      else
        var next := at + 1 + |name| + 1 + |Decimal(ToInt(sizes[path + name]))|;
        if next > MAX_PACKET_SIZE then Outside else Run(path, dir[1..], sizes, next)
  }

  /** The bytes of the packet a list of entries takes */
  function Bytes(path: Name, dir: seq<Name>, sizes: Sizes): nat
    requires AllFound(path, dir, sizes)
    decreases |dir|
  {
    if dir == [] then 0
    else 1 + |dir[0]| + 1 + |Decimal(ToInt(sizes[path + dir[0]]))| + Bytes(path, dir[1..], sizes)
  }

  lemma {:induction false} BytesOfListing(path: Name, dir: seq<Name>, sizes: Sizes)
    requires RealNames(dir) && FullNamesFit(path, dir) && AllFound(path, dir, sizes)
    ensures ListingSize(Listed(path, dir, sizes)) == 2 + Bytes(path, dir, sizes)
    decreases |dir|
  {
    var files := Listed(path, dir, sizes);
    AllShownAsWritten(files);
    if dir != [] {
      BytesOfListing(path, dir[1..], sizes);
      assert files[1..] == Listed(path, dir[1..], sizes);
      assert AllWritten(files)[1..] == AllWritten(files[1..]);
    }
  }

  /** All goes well exactly when every full name fits, every one is found, and the packet has room. */
  lemma {:induction false} FineExactly(path: Name, dir: seq<Name>, sizes: Sizes, at: nat)
    requires at <= MAX_PACKET_SIZE
    ensures Run(path, dir, sizes, at) == Fine <==>
              FullNamesFit(path, dir) && AllFound(path, dir, sizes) && at + Bytes(path, dir, sizes) <= MAX_PACKET_SIZE
    decreases |dir|
  {
    if dir != [] {
      var name := dir[0];
      TailsOf(path, dir, sizes);
      if path + name in sizes {
        var next := at + 1 + |name| + 1 + |Decimal(ToInt(sizes[path + name]))|;
        if next <= MAX_PACKET_SIZE {
          FineExactly(path, dir[1..], sizes, next);
        }
      }
    }
  }

  lemma TailsOf(path: Name, dir: seq<Name>, sizes: Sizes)
    requires dir != []
    ensures FullNamesFit(path, dir) <==> |path| + |dir[0]| < MAX_STRING_SIZE && FullNamesFit(path, dir[1..])
    ensures AllFound(path, dir, sizes) <==> path + dir[0] in sizes && AllFound(path, dir[1..], sizes)
  {
    assert forall i :: 1 <= i < |dir| ==> dir[i] == dir[1..][i - 1];
  }

  /** The assertion on stat ends the server at entry i: all before it went well and its name is written. */
  ghost predicate DiesAt(path: Name, dir: seq<Name>, sizes: Sizes, at: nat, i: nat) {
    && i < |dir| && path + dir[i] !in sizes
    && FullNamesFit(path, dir[..i + 1]) && AllFound(path, dir[..i], sizes)
    && at + Bytes(path, dir[..i], sizes) + 1 + |dir[i]| <= MAX_PACKET_SIZE
  }

  lemma HeadOfPrefix(path: Name, dir: seq<Name>, sizes: Sizes, i: nat)
    requires 0 < i <= |dir|
    ensures dir[..i][0] == dir[0] && dir[..i][1..] == dir[1..][..i - 1]
    ensures FullNamesFit(path, dir[..i]) <==>
              |path| + |dir[0]| < MAX_STRING_SIZE && FullNamesFit(path, dir[1..][..i - 1])
    ensures AllFound(path, dir[..i], sizes) <==> path + dir[0] in sizes && AllFound(path, dir[1..][..i - 1], sizes)
  {
    assert dir[..i][1..] == dir[1..][..i - 1];
    TailsOf(path, dir[..i], sizes);
  }

  lemma DiesLater(path: Name, dir: seq<Name>, sizes: Sizes, at: nat, i: nat)
    requires 0 < i < |dir| && path + dir[0] in sizes
    ensures var next := at + 1 + |dir[0]| + 1 + |Decimal(ToInt(sizes[path + dir[0]]))|;
            DiesAt(path, dir, sizes, at, i) <==>
              |path| + |dir[0]| < MAX_STRING_SIZE && DiesAt(path, dir[1..], sizes, next, i - 1)
  {
    HeadOfPrefix(path, dir, sizes, i);
    HeadOfPrefix(path, dir, sizes, i + 1);
  }

  lemma {:induction false} NoFileExactly(path: Name, dir: seq<Name>, sizes: Sizes, at: nat)
    ensures Run(path, dir, sizes, at) == NoFile <==> exists i: nat :: DiesAt(path, dir, sizes, at, i)
    decreases |dir|
  {
    if dir != [] {
      var name := dir[0];
      if path + name !in sizes {
        assert dir[..1] == [name] && dir[..0] == [];
        assert DiesAt(path, dir, sizes, at, 0) <==>
          |path| + |name| < MAX_STRING_SIZE && at + 1 + |name| <= MAX_PACKET_SIZE;
        forall i | 0 < i < |dir| ensures !DiesAt(path, dir, sizes, at, i) {
          HeadOfPrefix(path, dir, sizes, i);
        }
      } else {
        var next := at + 1 + |name| + 1 + |Decimal(ToInt(sizes[path + name]))|;
        NoFileExactly(path, dir[1..], sizes, next);
        forall i | 0 < i < |dir|
          ensures DiesAt(path, dir, sizes, at, i) <==>
                    |path| + |name| < MAX_STRING_SIZE && DiesAt(path, dir[1..], sizes, next, i - 1)
        {
          DiesLater(path, dir, sizes, at, i);
        }
        if exists j: nat :: DiesAt(path, dir[1..], sizes, next, j) {
          var j: nat :| DiesAt(path, dir[1..], sizes, next, j);
          assert DiesAt(path, dir, sizes, at, j + 1) <==> |path| + |name| < MAX_STRING_SIZE;
        }
      }
    }
  }

  // ------------------------------------------------ the request

  /** A whole packet, a write behind a buffer, or the end of the server by its assertion */
  datatype Answer = Reply(packet: seq<Byte>) | Overrun | Aborted

  function ServerAnswer(path: Name, dir: seq<Name>, sizes: Sizes): (answer: Answer)
    requires RealNames(dir)
    ensures answer.Reply? ==> |answer.packet| == MAX_PACKET_SIZE && answer.packet[0] == LS && answer.packet[1] == 0
  {
    match Run(path, dir, sizes, 2)
    case Outside => Overrun
    case NoFile => Aborted
    case Fine =>
      FineExactly(path, dir, sizes, 2);
      BytesOfListing(path, dir, sizes);
      Reply(Sent(Listed(path, dir, sizes)).value)
  }

  /** The answer for a directory that cannot be opened */
  function Refusal(): (packet: seq<Byte>)
    ensures |packet| == MAX_PACKET_SIZE
  {
    [LS, 1] + seq(MAX_PACKET_SIZE - 2, _ => 0)
  }

  /** What the user sees: a message that the directory could not be opened, the files, or nothing, because one
      of the two ends left a buffer, or an assertion ended the server or the client */
  datatype Screen = Refused | Shows(files: seq<File>) | Lost | ServerGone | ClientGone

  /** The client insists that the answer repeats the command. */
  function ClientScreen(packet: seq<Byte>): Screen
    requires |packet| >= 2
  {
    if packet[0] != LS then ClientGone
    else if packet[1] == 1 then Refused
    else
      match Read(packet)
      case None => Lost
      case Some(files) => Shows(files)
  }

  function OnScreen(path: Name, dir: seq<Name>, sizes: Sizes): Screen
    requires RealNames(dir)
  {
    match ServerAnswer(path, dir, sizes)
    case Overrun => Lost
    case Aborted => ServerGone
    case Reply(packet) => ClientScreen(packet)
  }

  /** Whatever is asked for, the answer repeats the command; it is marked as a refusal exactly when the
      directory could not be opened. */
  lemma AnswersAreMarked(path: Name, dir: Option<seq<Name>>, sizes: Sizes)
    requires dir.Some? ==> RealNames(dir.value)
    ensures var screen := if dir.None? then ClientScreen(Refusal()) else OnScreen(path, dir.value, sizes);
            !screen.ClientGone? && (screen.Refused? <==> dir.None?)
  {}

  /** For every path, directory and file system: the client shows files if and only if the directory is
      listable, and then they are the ones the server listed. */
  lemma ListedExactly(path: Name, dir: seq<Name>, sizes: Sizes)
    requires RealNames(dir)
    ensures OnScreen(path, dir, sizes).Shows? <==> Listable(path, dir, sizes)
    ensures Listable(path, dir, sizes) ==> OnScreen(path, dir, sizes) == Shows(Listed(path, dir, sizes))
  {
    FineExactly(path, dir, sizes, 2);
    if FullNamesFit(path, dir) && AllFound(path, dir, sizes) {
      BytesOfListing(path, dir, sizes);
      RoundTrip(Listed(path, dir, sizes));
    }
  }

  /** The server ends if and only if some name is not found before any buffer is left. */
  lemma GoneExactly(path: Name, dir: seq<Name>, sizes: Sizes)
    requires RealNames(dir)
    ensures OnScreen(path, dir, sizes).ServerGone? <==> exists i: nat :: DiesAt(path, dir, sizes, 2, i)
  {
    NoFileExactly(path, dir, sizes, 2);
  }

  // ------------------------------------------------ what the directory holds

  predicate EndsInSlash(path: Name) {
    path != [] && path[|path| - 1] == '/' as int
  }

  /** The name of an entry of the directory */
  function Within(path: Name, name: Name): Name {
    if EndsInSlash(path) then path + name else path + ['/' as int] + name
  }

  /** Every entry of the directory has a size. */
  predicate RealDirectory(path: Name, dir: seq<Name>, sizes: Sizes) {
    RealNames(dir) && forall i :: 0 <= i < |dir| ==> Within(path, dir[i]) in sizes
  }

  function Held(path: Name, dir: seq<Name>, sizes: Sizes): (files: seq<File>)
    requires RealDirectory(path, dir, sizes)
    ensures |files| == |dir|
    ensures forall i :: 0 <= i < |dir| ==> files[i] == File(dir[i], ToInt(sizes[Within(path, dir[i])]))
  {
    seq(|dir|, i requires 0 <= i < |dir| => File(dir[i], ToInt(sizes[Within(path, dir[i])])))
  }

  /** The client shows what the directory holds if and only if the directory is listable and every file the
      server asked for has the size of the directory's own. */
  lemma HeldExactly(path: Name, dir: seq<Name>, sizes: Sizes)
    requires RealDirectory(path, dir, sizes)
    ensures OnScreen(path, dir, sizes) == Shows(Held(path, dir, sizes)) <==>
              && Listable(path, dir, sizes)
              && forall i :: 0 <= i < |dir| ==> ToInt(sizes[path + dir[i]]) == ToInt(sizes[Within(path, dir[i])])
  {
    ListedExactly(path, dir, sizes);
    if Listable(path, dir, sizes) {
      var listed, held := Listed(path, dir, sizes), Held(path, dir, sizes);
      if listed == held {
        forall i | 0 <= i < |dir| ensures ToInt(sizes[path + dir[i]]) == ToInt(sizes[Within(path, dir[i])]) {
          assert listed[i] == held[i];
        }
      }
    }
  }

  /** With a slash at the end of the path nothing but the buffers can go wrong. */
  lemma SlashIsEnough(path: Name, dir: seq<Name>, sizes: Sizes)
    requires RealDirectory(path, dir, sizes) && EndsInSlash(path)
    ensures AllFound(path, dir, sizes) && Listed(path, dir, sizes) == Held(path, dir, sizes)
    ensures OnScreen(path, dir, sizes) == Shows(Held(path, dir, sizes)) <==>
              FullNamesFit(path, dir) && ListingSize(Held(path, dir, sizes)) < MAX_PACKET_SIZE
  {
    forall i | 0 <= i < |dir| ensures path + dir[i] in sizes {
      assert Within(path, dir[i]) in sizes;
    }
    HeldExactly(path, dir, sizes);
  }

  // ------------------------------------------------ requests that fail

  const TMP: Name := ['/' as int, 't' as int, 'm' as int, 'p' as int]

  const DOT: Name := ['.' as int]

  /** Every directory has an entry for itself; without a slash at the end of the path it is looked for under
      the path with a dot appended. */
  lemma NoSlashFails(path: Name, dir: seq<Name>, sizes: Sizes)
    requires RealNames(dir) && DOT in dir && path + DOT !in sizes
    ensures !Listable(path, dir, sizes) && !OnScreen(path, dir, sizes).Shows?
  {
    ListedExactly(path, dir, sizes);
  }

  /** A request for /tmp, whose first entry is its own, ends the server unless there is a file /tmp. beside it. */
  lemma TmpEndsTheServer(rest: seq<Name>, sizes: Sizes)
    requires RealNames(rest) && TMP + DOT !in sizes
    ensures RealNames([DOT] + rest) && OnScreen(TMP, [DOT] + rest, sizes) == ServerGone
  {
    assert ([DOT] + rest)[0] == DOT;
  }

  /** Forty names of 100 bytes */
  function ManyNames(): (dir: seq<Name>)
    ensures |dir| == 40 && RealNames(dir) && forall i :: 0 <= i < 40 ==> |dir[i]| == 100
    ensures forall i, j :: 0 <= i < j < 40 ==> dir[i] != dir[j]
  {
    var dir := seq(40, i requires 0 <= i < 40 => ['A' as int + i] + seq(99, _ => 'a' as int));
    assert forall i :: 0 <= i < 40 ==> dir[i][0] == 'A' as int + i;
    dir
  }

  lemma {:induction false} BytesAtLeast(path: Name, dir: seq<Name>, sizes: Sizes, length: nat)
    requires AllFound(path, dir, sizes) && forall i :: 0 <= i < |dir| ==> |dir[i]| >= length
    ensures Bytes(path, dir, sizes) >= |dir| * (length + 3)
    decreases |dir|
  {
    if dir != [] {
      BytesAtLeast(path, dir[1..], sizes, length);
      DecimalIsShort(ToInt(sizes[path + dir[0]]));
      assert |dir| * (length + 3) == (length + 3) + (|dir| - 1) * (length + 3);
    }
  }

  lemma TooManyBytes(path: Name, dir: seq<Name>, sizes: Sizes)
    requires RealNames(dir) && AllFound(path, dir, sizes) && 2 + Bytes(path, dir, sizes) > MAX_PACKET_SIZE
    ensures ServerAnswer(path, dir, sizes) == Overrun
  {
    FineExactly(path, dir, sizes, 2);
    NoFileExactly(path, dir, sizes, 2);
  }

  lemma FortyLongNames(path: Name, dir: seq<Name>, sizes: Sizes)
    requires |path| == 3 && |dir| == 40 && RealNames(dir) && forall i :: 0 <= i < |dir| ==> |dir[i]| == 100
    requires AllFound(path, dir, sizes)
    ensures FullNamesFit(path, dir) && ServerAnswer(path, dir, sizes) == Overrun
  {
    BytesAtLeast(path, dir, sizes, 100);
    TooManyBytes(path, dir, sizes);
  }

  /** In a directory /d/ all of whose files exist, with full names that fit, the packet is left. */
  lemma ManyNamesOverrun(sizes: Sizes)
    requires AllFound(['/' as int, 'd' as int, '/' as int], ManyNames(), sizes)
    ensures var path := ['/' as int, 'd' as int, '/' as int];
            FullNamesFit(path, ManyNames()) && ServerAnswer(path, ManyNames(), sizes) == Overrun
  {
    FortyLongNames(['/' as int, 'd' as int, '/' as int], ManyNames(), sizes);
  }
}
