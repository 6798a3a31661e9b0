/** Two replicas of every sector, each with a CRC stored in the area behind the data: what a write that
    stops half-way leaves behind, and what reads make of it. */
module Mirror {
  import opened Crc32
  import opened CrcBursts
  import opened CrcResidue

  const KERNEL_SECTOR_SIZE: nat := 512
  const LOGICAL_DISK_SIZE: nat := 95 * 1024 * 1024
  const LOGICAL_DISK_SECTORS: nat := 194560
  const CRC_PER_SECTOR: nat := 128
  const CRC_SECTORS: nat := 1520

  /** The sector counts are those of the sizes: whole sectors of data, whole sectors of CRCs. */
  lemma Geometry()
    ensures LOGICAL_DISK_SECTORS == LOGICAL_DISK_SIZE / KERNEL_SECTOR_SIZE
    ensures CRC_PER_SECTOR == KERNEL_SECTOR_SIZE / 4
    ensures CRC_SECTORS * CRC_PER_SECTOR == LOGICAL_DISK_SECTORS
  {
  }

  type Disk = seq<seq<byte>>

  predicate IsSector(s: seq<byte>) {
    |s| == KERNEL_SECTOR_SIZE
  }

  /** A disk holds the data sectors, then the CRC sectors, then whatever it likes. */
  ghost predicate IsDisk(d: Disk) {
    |d| >= LOGICAL_DISK_SECTORS + CRC_SECTORS && forall k :: 0 <= k < |d| ==> IsSector(d[k])
  }

  // ------------------------------------------------ where a CRC is kept

  function CrcSector(k: nat): nat {
    LOGICAL_DISK_SECTORS + k / CRC_PER_SECTOR
  }

  function CrcByte(k: nat): nat {
    k % CRC_PER_SECTOR * 4
  }

  lemma CrcSlotInArea(k: nat)
    requires k < LOGICAL_DISK_SECTORS
    ensures LOGICAL_DISK_SECTORS <= CrcSector(k) < LOGICAL_DISK_SECTORS + CRC_SECTORS
    ensures CrcByte(k) + 4 <= KERNEL_SECTOR_SIZE
  {
  }

  /** The CRCs of the sectors follow each other, four bytes each, from the end of the data on. */
  lemma CrcByteAddress(k: nat)
    ensures CrcSector(k) * KERNEL_SECTOR_SIZE + CrcByte(k) == LOGICAL_DISK_SIZE + 4 * k
  {
    assert k == k / CRC_PER_SECTOR * CRC_PER_SECTOR + k % CRC_PER_SECTOR;
  }

  lemma SameQuotient(k: nat, j: nat)
    requires k / CRC_PER_SECTOR == j / CRC_PER_SECTOR && k % CRC_PER_SECTOR == j % CRC_PER_SECTOR
    ensures k == j
  {
    assert k == k / CRC_PER_SECTOR * CRC_PER_SECTOR + k % CRC_PER_SECTOR;
    assert j == j / CRC_PER_SECTOR * CRC_PER_SECTOR + j % CRC_PER_SECTOR;
  }

  /** CRC slots lie behind the data, inside the CRC area, inside one sector, and never overlap. */
  lemma CrcSlotsDisjoint(k: nat, j: nat)
    requires k < LOGICAL_DISK_SECTORS && j < LOGICAL_DISK_SECTORS
    ensures LOGICAL_DISK_SECTORS <= CrcSector(k) < LOGICAL_DISK_SECTORS + CRC_SECTORS
    ensures CrcByte(k) + 4 <= KERNEL_SECTOR_SIZE
    ensures k != j ==> CrcSector(k) != CrcSector(j) || CrcByte(k) + 4 <= CrcByte(j) || CrcByte(j) + 4 <= CrcByte(k)
  {
    CrcSlotInArea(k);
    if CrcSector(k) == CrcSector(j) && k % CRC_PER_SECTOR == j % CRC_PER_SECTOR {
      SameQuotient(k, j);
    }
  }

  function WordAt(s: seq<byte>, at: nat): bv32
    requires at + 4 <= |s|
  {
    Word(s[at], s[at + 1], s[at + 2], s[at + 3])
  }

  function Patch(s: seq<byte>, at: nat, c: bv32): seq<byte>
    requires at + 4 <= |s|
  {
    s[at := Bytes(c)[0]][at + 1 := Bytes(c)[1]][at + 2 := Bytes(c)[2]][at + 3 := Bytes(c)[3]]
  }

  /** The CRC stored for data sector k */
  function CrcAt(d: Disk, k: nat): bv32
    requires IsDisk(d) && k < LOGICAL_DISK_SECTORS
  {
    CrcSlotsDisjoint(k, k);
    WordAt(d[CrcSector(k)], CrcByte(k))
  }

  function PutCrc(d: Disk, k: nat, c: bv32): Disk
    requires IsDisk(d) && k < LOGICAL_DISK_SECTORS
  {
    CrcSlotsDisjoint(k, k);
    d[CrcSector(k) := Patch(d[CrcSector(k)], CrcByte(k), c)]
  }

  lemma PatchedWord(s: seq<byte>, at: nat, c: bv32, other: nat)
    requires at + 4 <= |s| && other + 4 <= |s|
    ensures WordAt(Patch(s, at, c), at) == c
    ensures other + 4 <= at || at + 4 <= other ==> WordAt(Patch(s, at, c), other) == WordAt(s, other)
  {
    BytesWord(c);
  }

  // ------------------------------------------------ one replica of one sector

  datatype Replica = Replica(data: seq<byte>, crc: bv32)

  function At(d: Disk, k: nat): Replica
    requires IsDisk(d) && k < LOGICAL_DISK_SECTORS
  {
    Replica(d[k], CrcAt(d, k))
  }

  predicate Valid(r: Replica) {
    r.crc == Crc(0, r.data)
  }

  function Good(data: seq<byte>): Replica {
    Replica(data, Crc(0, data))
  }

  /** Data first, then its CRC; done is how many of the two writes reach the disk. */
  function Store(d: Disk, k: nat, data: seq<byte>, crc: bv32, done: nat): Disk
    requires IsDisk(d) && k < LOGICAL_DISK_SECTORS && IsSector(data)
  {
    if done == 0 then d
    else if done == 1 then d[k := data]
    else PutCrc(d[k := data], k, crc)
  }

  /** Storing changes one replica of one sector and nothing else. */
  lemma StoreEffect(d: Disk, k: nat, data: seq<byte>, crc: bv32, done: nat, j: nat)
    requires IsDisk(d) && k < LOGICAL_DISK_SECTORS && IsSector(data) && j < LOGICAL_DISK_SECTORS
    ensures IsDisk(Store(d, k, data, crc, done)) && |Store(d, k, data, crc, done)| == |d|
    ensures At(Store(d, k, data, crc, done), j) ==
            if j != k || done == 0 then At(d, j)
            else Replica(data, if done == 1 then CrcAt(d, k) else crc)
  {
    CrcSlotsDisjoint(k, j);
    CrcSlotsDisjoint(j, k);
    PatchedWord(d[CrcSector(k)], CrcByte(k), crc, CrcByte(j));
  }

  lemma StoreIsDisk(d: Disk, k: nat, data: seq<byte>, crc: bv32, done: nat)
    requires IsDisk(d) && k < LOGICAL_DISK_SECTORS && IsSector(data)
    ensures IsDisk(Store(d, k, data, crc, done)) && |Store(d, k, data, crc, done)| == |d|
  {
    CrcSlotsDisjoint(k, k);
  }

  // ------------------------------------------------ both replicas

  datatype Pair = Pair(first: Disk, second: Disk)

  ghost predicate IsPair(m: Pair) {
    IsDisk(m.first) && IsDisk(m.second)
  }

  /** MyWrite when only the first `done` of its four disk writes take place */
  function Write(m: Pair, k: nat, data: seq<byte>, done: nat): Pair
    requires IsPair(m) && k < LOGICAL_DISK_SECTORS && IsSector(data)
  {
    Pair(Store(m.first, k, data, Crc(0, data), done),
         if done <= 2 then m.second else Store(m.second, k, data, Crc(0, data), done - 2))
  }

  datatype Verdict = Agree | RepairSecond | RepairFirst | Broken

  /** What MyRead concludes from the two replicas */
  function Judge(r0: Replica, r1: Replica): Verdict {
    if Valid(r0) && Valid(r1) && Crc(0, r0.data) == Crc(0, r1.data) then Agree
    else if Valid(r0) then RepairSecond
    else if Valid(r1) then RepairFirst
    else Broken
  }

  /** MyRead when only the first `done` of the disk writes of its repair take place */
  function Read(m: Pair, k: nat, done: nat): Pair
    requires IsPair(m) && k < LOGICAL_DISK_SECTORS
  {
    var r0, r1 := At(m.first, k), At(m.second, k);
    match Judge(r0, r1)
    case Agree => m
    case RepairSecond => m.(second := Store(m.second, k, r0.data, r0.crc, done))
    case RepairFirst => m.(first := Store(m.first, k, r1.data, r1.crc, done))
    case Broken => m
  }

  /** Both replicas hold x with its CRC. */
  ghost predicate Healthy(m: Pair, k: nat, x: seq<byte>)
    requires IsPair(m) && k < LOGICAL_DISK_SECTORS
  {
    At(m.first, k) == Good(x) && At(m.second, k) == Good(x)
  }

  /** From here every completed read of the sector settles both replicas on x. */
  ghost predicate SettlesOn(r0: Replica, r1: Replica, x: seq<byte>) {
    || (r0 == Good(x) && (Valid(r1) && Crc(0, r1.data) == Crc(0, x) ==> r1.data == x))
    || (!Valid(r0) && r1 == Good(x))
  }

  lemma ReadEffect(m: Pair, k: nat, done: nat, j: nat)
    requires IsPair(m) && k < LOGICAL_DISK_SECTORS && j < LOGICAL_DISK_SECTORS
    ensures IsPair(Read(m, k, done))
    ensures j != k ==>
              && At(Read(m, k, done).first, j) == At(m.first, j)
              && At(Read(m, k, done).second, j) == At(m.second, j)
  {
    var r0, r1 := At(m.first, k), At(m.second, k);
    StoreEffect(m.second, k, r0.data, r0.crc, done, j);
    StoreEffect(m.first, k, r1.data, r1.crc, done, j);
  }

  lemma WriteEffect(m: Pair, k: nat, data: seq<byte>, done: nat, j: nat)
    requires IsPair(m) && k < LOGICAL_DISK_SECTORS && IsSector(data) && j < LOGICAL_DISK_SECTORS
    ensures IsPair(Write(m, k, data, done))
    ensures j != k ==>
              && At(Write(m, k, data, done).first, j) == At(m.first, j)
              && At(Write(m, k, data, done).second, j) == At(m.second, j)
  {
    StoreEffect(m.first, k, data, Crc(0, data), done, j);
    if done > 2 { StoreEffect(m.second, k, data, Crc(0, data), done - 2, j); }
  }

  /** A read that is cut short keeps the sector settling on the same content; a completed one settles it. */
  lemma ReadSettles(m: Pair, k: nat, done: nat, x: seq<byte>)
    requires IsPair(m) && k < LOGICAL_DISK_SECTORS
    requires SettlesOn(At(m.first, k), At(m.second, k), x)
    ensures IsPair(Read(m, k, done))
    ensures SettlesOn(At(Read(m, k, done).first, k), At(Read(m, k, done).second, k), x)
    ensures done >= 2 ==> Healthy(Read(m, k, done), k, x)
  {
    var r0, r1 := At(m.first, k), At(m.second, k);
    StoreEffect(m.second, k, r0.data, r0.crc, done, k);
    StoreEffect(m.first, k, r1.data, r1.crc, done, k);
  }

  /** A write that stops anywhere leaves a sector that settles on the old or on the new content. */
  lemma WriteSettles(m: Pair, k: nat, before: seq<byte>, after: seq<byte>, done: nat)
    requires IsPair(m) && k < LOGICAL_DISK_SECTORS && IsSector(after)
    requires Healthy(m, k, before)
    requires before == after || Crc(0, before) != Crc(0, after)
    ensures var w := Write(m, k, after, done);
            IsPair(w) && SettlesOn(At(w.first, k), At(w.second, k), if done <= 1 then before else after)
  {
    StoreEffect(m.first, k, after, Crc(0, after), done, k);
    if done > 2 { StoreEffect(m.second, k, after, Crc(0, after), done - 2, k); }
  }

  // ------------------------------------------------ histories

  /** A request to the mirror, and how many of its disk writes take place */
  datatype Request = WriteAt(k: nat, data: seq<byte>, done: nat) | ReadAt(k: nat, done: nat)

  ghost predicate Legal(q: Request) {
    q.k < LOGICAL_DISK_SECTORS && (q.WriteAt? ==> IsSector(q.data))
  }

  ghost predicate AllLegal(history: seq<Request>) {
    forall i :: 0 <= i < |history| ==> Legal(history[i])
  }

  ghost predicate NoWriteTo(history: seq<Request>, k: nat) {
    forall i :: 0 <= i < |history| && history[i].WriteAt? ==> history[i].k != k
  }

  ghost function Serve(m: Pair, q: Request): (r: Pair)
    requires IsPair(m) && Legal(q)
    ensures IsPair(r)
  {
    match q
    case WriteAt(k, data, done) => WriteEffect(m, k, data, done, k); Write(m, k, data, done)
    case ReadAt(k, done) => ReadEffect(m, k, done, k); Read(m, k, done)
  }

  ghost function ServeAll(m: Pair, history: seq<Request>): (r: Pair)
    requires IsPair(m) && AllLegal(history)
    ensures IsPair(r)
    decreases |history|
  {
    if history == [] then m
    else
      ServeAll(Serve(m, history[0]), history[1..])
  }

  lemma ServeElsewhere(m: Pair, q: Request, j: nat)
    requires IsPair(m) && Legal(q) && j < LOGICAL_DISK_SECTORS && q.k != j
    ensures At(Serve(m, q).first, j) == At(m.first, j)
    ensures At(Serve(m, q).second, j) == At(m.second, j)
  {
    match q
    case WriteAt(k, data, done) => WriteEffect(m, k, data, done, j);
    case ReadAt(k, done) => ReadEffect(m, k, done, j);
  }

  /** Requests to other sectors never touch this one. */
  lemma {:induction false} OtherSectorsKept(m: Pair, history: seq<Request>, j: nat)
    requires IsPair(m) && AllLegal(history) && j < LOGICAL_DISK_SECTORS
    requires forall i :: 0 <= i < |history| ==> history[i].k != j
    ensures At(ServeAll(m, history).first, j) == At(m.first, j)
    ensures At(ServeAll(m, history).second, j) == At(m.second, j)
    decreases |history|
  {
    if history != [] {
      ServeElsewhere(m, history[0], j);
      OtherSectorsKept(Serve(m, history[0]), history[1..], j);
    }
  }

  lemma ServeSettles(m: Pair, q: Request, k: nat, x: seq<byte>)
    requires IsPair(m) && Legal(q) && k < LOGICAL_DISK_SECTORS && (q.WriteAt? ==> q.k != k)
    requires SettlesOn(At(m.first, k), At(m.second, k), x)
    ensures SettlesOn(At(Serve(m, q).first, k), At(Serve(m, q).second, k), x)
  {
    if q.k != k { ServeElsewhere(m, q, k); } else { ReadSettles(m, k, q.done, x); }
  }

  lemma {:induction false} HistorySettles(m: Pair, history: seq<Request>, k: nat, x: seq<byte>)
    requires IsPair(m) && AllLegal(history) && k < LOGICAL_DISK_SECTORS && NoWriteTo(history, k)
    requires SettlesOn(At(m.first, k), At(m.second, k), x)
    ensures SettlesOn(At(ServeAll(m, history).first, k), At(ServeAll(m, history).second, k), x)
    decreases |history|
  {
    if history != [] {
      ServeSettles(m, history[0], k, x);
      HistorySettles(Serve(m, history[0]), history[1..], k, x);
    }
  }

  /** After a write of after stopped after `done` disk writes, and any further requests, none of them a
      write to the sector and any of them stopped half-way, one completed read leaves x everywhere. */
  ghost predicate EndsOn(m: Pair, k: nat, after: seq<byte>, done: nat, history: seq<Request>, x: seq<byte>)
    requires IsPair(m) && k < LOGICAL_DISK_SECTORS && IsSector(after) && AllLegal(history)
  {
    WriteEffect(m, k, after, done, k);
    var crashed := ServeAll(Write(m, k, after, done), history);
    ReadEffect(crashed, k, 2, k);
    Healthy(Read(crashed, k, 2), k, x)
  }

  lemma CrashSettles(m: Pair, k: nat, before: seq<byte>, after: seq<byte>, done: nat, history: seq<Request>)
    requires IsPair(m) && k < LOGICAL_DISK_SECTORS && IsSector(after) && Healthy(m, k, before)
    requires AllLegal(history) && NoWriteTo(history, k)
    requires before == after || Crc(0, before) != Crc(0, after)
    ensures EndsOn(m, k, after, done, history, if done <= 1 then before else after)
  {
    var x := if done <= 1 then before else after;
    WriteEffect(m, k, after, done, k);
    WriteSettles(m, k, before, after, done);
    var w := Write(m, k, after, done);
    HistorySettles(w, history, k, x);
    ReadSettles(ServeAll(w, history), k, 2, x);
  }

  ghost predicate CrashAtomic(m: Pair, k: nat, before: seq<byte>, after: seq<byte>)
    requires IsPair(m) && k < LOGICAL_DISK_SECTORS && IsSector(after)
  {
    forall done: nat, history | AllLegal(history) && NoWriteTo(history, k) ::
      EndsOn(m, k, after, done, history, before) || EndsOn(m, k, after, done, history, after)
  }

  /** When a write to a sector that settles on `before` may be started, judged by its two replicas: the second
      one must be able to stand in while the first is half written. */
  predicate SafeToWrite(r0: Replica, r1: Replica, before: seq<byte>, after: seq<byte>) {
    before == after ||
    if r0 == Good(before) then
      if Crc(0, before) != Crc(0, after) then Valid(r1) && (r1.data == before || r1.data == after)
      else !(Valid(r1) && Crc(0, r1.data) == Crc(0, before))
    else Crc(0, before) != Crc(0, after)
  }

  /** A write that may be started leaves a sector that settles on the old or on the new content wherever it
      stops. */
  lemma SafeWriteSettles(m: Pair, k: nat, before: seq<byte>, after: seq<byte>, done: nat)
    requires IsPair(m) && k < LOGICAL_DISK_SECTORS && IsSector(after)
    requires SettlesOn(At(m.first, k), At(m.second, k), before)
    requires SafeToWrite(At(m.first, k), At(m.second, k), before, after)
    ensures var w := Write(m, k, after, done);
            && IsPair(w)
            && (SettlesOn(At(w.first, k), At(w.second, k), before) || SettlesOn(At(w.first, k), At(w.second, k), after))
  {
    StoreEffect(m.first, k, after, Crc(0, after), done, k);
    if done > 2 { StoreEffect(m.second, k, after, Crc(0, after), done - 2, k); }
  }

  /** What a completed read leaves, judged by the replicas it finds */
  predicate ReadYields(r0: Replica, r1: Replica, x: seq<byte>) {
    match Judge(r0, r1)
    case Agree => r0 == Good(x) && r1 == Good(x)
    case RepairSecond => r0 == Good(x)
    case RepairFirst => r1 == Good(x)
    case Broken => false
  }

  lemma ReadYieldsExactly(m: Pair, k: nat, x: seq<byte>)
    requires IsPair(m) && k < LOGICAL_DISK_SECTORS
    ensures IsPair(Read(m, k, 2))
    ensures Healthy(Read(m, k, 2), k, x) <==> ReadYields(At(m.first, k), At(m.second, k), x)
  {
    var r0, r1 := At(m.first, k), At(m.second, k);
    StoreEffect(m.second, k, r0.data, r0.crc, 2, k);
    StoreEffect(m.first, k, r1.data, r1.crc, 2, k);
  }

  lemma FirstHalf(m: Pair, k: nat, after: seq<byte>, done: nat)
    requires IsPair(m) && k < LOGICAL_DISK_SECTORS && IsSector(after) && 1 <= done <= 2
    ensures var w := Write(m, k, after, done);
            && IsPair(w) && At(w.second, k) == At(m.second, k)
            && At(w.first, k) == Replica(after, if done == 1 then At(m.first, k).crc else Crc(0, after))
  {
    StoreEffect(m.first, k, after, Crc(0, after), done, k);
  }

  lemma UnsafeWriteBreaks(m: Pair, k: nat, before: seq<byte>, after: seq<byte>, done: nat)
    requires IsPair(m) && k < LOGICAL_DISK_SECTORS && IsSector(after)
    requires SettlesOn(At(m.first, k), At(m.second, k), before)
    requires !SafeToWrite(At(m.first, k), At(m.second, k), before, after)
    requires done == if At(m.first, k) == Good(before) then 1 else 2
    ensures !EndsOn(m, k, after, done, [], before) && !EndsOn(m, k, after, done, [], after)
  {
    FirstHalf(m, k, after, done);
    WriteEffect(m, k, after, done, k);
    ReadYieldsExactly(Write(m, k, after, done), k, before);
    ReadYieldsExactly(Write(m, k, after, done), k, after);
  }

  lemma SafeWriteEnds(m: Pair, k: nat, before: seq<byte>, after: seq<byte>, done: nat, history: seq<Request>)
    requires IsPair(m) && k < LOGICAL_DISK_SECTORS && IsSector(after)
    requires SettlesOn(At(m.first, k), At(m.second, k), before)
    requires SafeToWrite(At(m.first, k), At(m.second, k), before, after)
    requires AllLegal(history) && NoWriteTo(history, k)
    ensures EndsOn(m, k, after, done, history, before) || EndsOn(m, k, after, done, history, after)
  {
    WriteEffect(m, k, after, done, k);
    SafeWriteSettles(m, k, before, after, done);
    var w := Write(m, k, after, done);
    var x := if SettlesOn(At(w.first, k), At(w.second, k), before) then before else after;
    HistorySettles(w, history, k, x);
    ReadSettles(ServeAll(w, history), k, 2, x);
  }

  /** A write to any sector that settles, healthy or not, is all-or-nothing under every crash, and every later
      history without a write to it, exactly when it may be started. */
  lemma SettledCrashAtomicExactly(m: Pair, k: nat, before: seq<byte>, after: seq<byte>)
    requires IsPair(m) && k < LOGICAL_DISK_SECTORS && IsSector(after)
    requires SettlesOn(At(m.first, k), At(m.second, k), before)
    ensures CrashAtomic(m, k, before, after) <==> SafeToWrite(At(m.first, k), At(m.second, k), before, after)
  {
    if SafeToWrite(At(m.first, k), At(m.second, k), before, after) {
      forall done: nat, history | AllLegal(history) && NoWriteTo(history, k)
        ensures EndsOn(m, k, after, done, history, before) || EndsOn(m, k, after, done, history, after)
      {
        SafeWriteEnds(m, k, before, after, done, history);
      }
    } else {
      var done: nat := if At(m.first, k) == Good(before) then 1 else 2;
      UnsafeWriteBreaks(m, k, before, after, done);
      assert AllLegal([]) && NoWriteTo([], k);
    }
  }

  /** A write to a healthy sector is all-or-nothing under every crash exactly when the two contents are told
      apart by their CRCs (or are the same). */
  lemma CrashAtomicExactly(m: Pair, k: nat, before: seq<byte>, after: seq<byte>)
    requires IsPair(m) && k < LOGICAL_DISK_SECTORS && IsSector(after) && Healthy(m, k, before)
    ensures CrashAtomic(m, k, before, after) <==> (before == after || Crc(0, before) != Crc(0, after))
  {
    SettledCrashAtomicExactly(m, k, before, after);
  }

  /** Two crashes in a row are too many: after a write that stopped in the middle of the second replica,
      another one that stops in the middle of the first leaves neither replica valid. */
  lemma SecondCrashBreaks(m: Pair, k: nat, before: seq<byte>, first: seq<byte>, second: seq<byte>)
    requires IsPair(m) && k < LOGICAL_DISK_SECTORS && IsSector(first) && IsSector(second)
    requires Healthy(m, k, before)
    requires Crc(0, before) != Crc(0, first) && Crc(0, first) != Crc(0, second)
    ensures IsPair(Write(m, k, first, 3)) && IsPair(Write(Write(m, k, first, 3), k, second, 1))
    ensures var w := Write(Write(m, k, first, 3), k, second, 1);
            Judge(At(w.first, k), At(w.second, k)) == Broken
  {
    StoreEffect(m.first, k, first, Crc(0, first), 3, k);
    StoreEffect(m.second, k, first, Crc(0, first), 1, k);
    var n := Write(m, k, first, 3);
    StoreEffect(n.first, k, second, Crc(0, second), 1, k);
  }

  /** The failing case exists: a sector and a five-byte change of it that the CRC does not see. */
  lemma CrashAtomicityCanFail(m: Pair, k: nat, rest: seq<byte>)
    requires IsPair(m) && k < LOGICAL_DISK_SECTORS && |rest| == KERNEL_SECTOR_SIZE - 5
    requires Healthy(m, k, FIVE_ZEROS + rest)
    ensures !CrashAtomic(m, k, FIVE_ZEROS + rest, FIVE_BYTES + rest)
  {
    FiveBytesUndetected(0, rest);
    assert (FIVE_ZEROS + rest)[0] != (FIVE_BYTES + rest)[0];
    CrashAtomicExactly(m, k, FIVE_ZEROS + rest, FIVE_BYTES + rest);
  }

  // ------------------------------------------------ damage

  /** Overwrites the data of one replica behind the driver's back. */
  function Damage(m: Pair, second: bool, k: nat, v: seq<byte>): Pair
    requires IsPair(m) && k < LOGICAL_DISK_SECTORS && IsSector(v)
  {
    if second then m.(second := m.second[k := v]) else m.(first := m.first[k := v])
  }

  /** One completed read restores damaged data on either replica exactly when the damage changes the CRC. */
  lemma RepairExactly(m: Pair, second: bool, k: nat, x: seq<byte>, v: seq<byte>)
    requires IsPair(m) && k < LOGICAL_DISK_SECTORS && IsSector(v) && Healthy(m, k, x)
    ensures IsPair(Damage(m, second, k, v)) && IsPair(Read(Damage(m, second, k, v), k, 2))
    ensures Healthy(Read(Damage(m, second, k, v), k, 2), k, x) <==> (v == x || Crc(0, v) != Crc(0, x))
  {
    StoreEffect(m.first, k, v, 0, 1, k);
    StoreEffect(m.second, k, v, 0, 1, k);
    var d := Damage(m, second, k, v);
    ReadEffect(d, k, 2, k);
    if v == x || Crc(0, v) != Crc(0, x) { ReadSettles(d, k, 2, x); }
  }

  /** Damage within four consecutive bytes of either replica is always undone. */
  lemma BurstRepaired(m: Pair, second: bool, k: nat, x: seq<byte>, v: seq<byte>, i: nat)
    requires IsPair(m) && k < LOGICAL_DISK_SECTORS && IsSector(v) && Healthy(m, k, x)
    requires DifferWithin(v, x, i)
    ensures IsPair(Damage(m, second, k, v)) && IsPair(Read(Damage(m, second, k, v), k, 2))
    ensures Healthy(Read(Damage(m, second, k, v), k, 2), k, x)
  {
    if v != x { BurstDetected(0, v, x, i); }
    RepairExactly(m, second, k, x, v);
  }
}
