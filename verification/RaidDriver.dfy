/** The driver itself: sector I/O, CRC I/O through its static buffer, MyRead and MyWrite. */
module RaidDriver {
  import opened Crc32
  import opened CrcResidue
  import opened Mirror

  datatype Status = Success | Failure

  /** How many of the two writes of data and CRC take place when `ios` disk requests succeed: the CRC
      sector is read before it is written. */
  function StoresDone(ios: nat): nat {
    if ios == 0 then 0 else if ios < 3 then 1 else 2
  }

  lemma SegmentSector(segment: nat)
    ensures (LOGICAL_DISK_SIZE + segment * KERNEL_SECTOR_SIZE) / KERNEL_SECTOR_SIZE == LOGICAL_DISK_SECTORS + segment
  {
    Geometry();
  }

  class PhysicalDevice {
    const sectors: array<seq<byte>>

    constructor (content: seq<seq<byte>>)
      ensures fresh(sectors) && sectors[..] == content
    {
      sectors := new seq<byte>[|content|](i requires 0 <= i < |content| => content[i]);
    }
  }

  /** How many of the four disk writes of MyWrite take place when `ios` disk requests succeed */
  function WritesDone(ios: nat): nat {
    StoresDone(ios) + if ios < 3 then 0 else StoresDone(ios - 3)
  }

  /** How many of the two repair writes of MyRead take place when `ios` disk requests succeed */
  function RepairsDone(ios: nat): nat {
    if ios < 4 then 0 else StoresDone(ios - 4)
  }

  lemma WriteByDevice(m: Pair, k: nat, data: seq<byte>, ios: nat)
    requires IsPair(m) && k < LOGICAL_DISK_SECTORS && IsSector(data)
    ensures Write(m, k, data, WritesDone(ios)) ==
            Pair(Store(m.first, k, data, Crc(0, data), StoresDone(ios)),
                 Store(m.second, k, data, Crc(0, data), if ios < 3 then 0 else StoresDone(ios - 3)))
  {
  }

  class Driver {
    const device0: PhysicalDevice
    const device1: PhysicalDevice
    const crcBuffer: array<byte>
    const writeBuffer: array<byte>
    const readBuffer0: array<byte>
    const readBuffer1: array<byte>
    /** Disk requests that will still succeed; the next one fails (or the machine stops). */
    var ios: nat

    constructor (disk0: seq<seq<byte>>, disk1: seq<seq<byte>>, ios: nat)
      requires IsDisk(disk0) && IsDisk(disk1)
      ensures Valid() && Disks() == Pair(disk0, disk1) && this.ios == ios
      ensures fresh(device0.sectors) && fresh(device1.sectors)
    {
      device0 := new PhysicalDevice(disk0);
      device1 := new PhysicalDevice(disk1);
      crcBuffer := new byte[KERNEL_SECTOR_SIZE];
      writeBuffer := new byte[KERNEL_SECTOR_SIZE];
      readBuffer0 := new byte[KERNEL_SECTOR_SIZE];
      readBuffer1 := new byte[KERNEL_SECTOR_SIZE];
      this.ios := ios;
    }

    ghost function Disks(): Pair
      reads device0.sectors, device1.sectors
    {
      Pair(device0.sectors[..], device1.sectors[..])
    }

    ghost predicate Apart(buffer: array<byte>) {
      buffer as object != device0.sectors && buffer as object != device1.sectors
    }

    ghost predicate Distinct() {
      && device0.sectors != device1.sectors
      && Apart(crcBuffer) && Apart(writeBuffer) && Apart(readBuffer0) && Apart(readBuffer1)
      && crcBuffer != writeBuffer && crcBuffer != readBuffer0 && crcBuffer != readBuffer1
      && writeBuffer != readBuffer0 && writeBuffer != readBuffer1 && readBuffer0 != readBuffer1
      && crcBuffer.Length == writeBuffer.Length == readBuffer0.Length == readBuffer1.Length == KERNEL_SECTOR_SIZE
    }

    ghost predicate Valid()
      reads device0.sectors, device1.sectors
    {
      Distinct() && IsPair(Disks())
    }

    /** SendIrp with IRP_MJ_READ, for a whole sector */
    method ReadSector(device: PhysicalDevice, buffer: array<byte>, sector: nat) returns (ok: bool)
      requires sector < device.sectors.Length && IsSector(device.sectors[sector])
      requires buffer.Length == KERNEL_SECTOR_SIZE && buffer as object != device.sectors
      modifies this`ios, buffer
      ensures ok == (old(ios) > 0) && ios == if ok then old(ios) - 1 else 0
      ensures ok ==> buffer[..] == device.sectors[sector]
    {
      if ios == 0 {
        return false;
      }
      ios := ios - 1;
      forall i | 0 <= i < buffer.Length {
        buffer[i] := device.sectors[sector][i];
      }
      return true;
    }

    /** SendIrp with IRP_MJ_WRITE, for a whole sector */
    method WriteSector(device: PhysicalDevice, buffer: array<byte>, sector: nat) returns (ok: bool)
      requires sector < device.sectors.Length && buffer.Length == KERNEL_SECTOR_SIZE
      requires buffer as object != device.sectors
      modifies this`ios, device.sectors
      ensures ok == (old(ios) > 0) && ios == if ok then old(ios) - 1 else 0
      ensures device.sectors[..] == if ok then old(device.sectors[..])[sector := buffer[..]] else old(device.sectors[..])
    {
      if ios == 0 {
        return false;
      }
      ios := ios - 1;
      device.sectors[sector] := buffer[..];
      return true;
    }

    /** The sector and the byte offset that SendCRCIrp computes for the CRC of the sector at `offset` */
    method CrcAddress(offset: nat) returns (sector: nat, at: nat)
      requires offset < LOGICAL_DISK_SIZE && offset % KERNEL_SECTOR_SIZE == 0
      ensures sector == CrcSector(offset / KERNEL_SECTOR_SIZE) && at == CrcByte(offset / KERNEL_SECTOR_SIZE)
    {
      var crcPerSector := KERNEL_SECTOR_SIZE / 4;
      var sectorID := offset / KERNEL_SECTOR_SIZE;
      var crcSegment := sectorID / crcPerSector;
      at := sectorID % crcPerSector * 4;
      var crcOffset := LOGICAL_DISK_SIZE + crcSegment * KERNEL_SECTOR_SIZE;
      SegmentSector(crcSegment);
      sector := crcOffset / KERNEL_SECTOR_SIZE;
    }

    /** SendCRCIrp with IRP_MJ_READ */
    method ReadCrc(device: PhysicalDevice, offset: nat) returns (ok: bool, crc: bv32)
      requires IsDisk(device.sectors[..])
      requires crcBuffer.Length == KERNEL_SECTOR_SIZE && crcBuffer as object != device.sectors
      requires offset < LOGICAL_DISK_SIZE && offset % KERNEL_SECTOR_SIZE == 0
      modifies this`ios, crcBuffer
      ensures ok == (old(ios) > 0) && ios == if ok then old(ios) - 1 else 0
      ensures ok ==> crc == CrcAt(device.sectors[..], offset / KERNEL_SECTOR_SIZE)
    {
      var sector, at := CrcAddress(offset);
      CrcSlotsDisjoint(offset / KERNEL_SECTOR_SIZE, offset / KERNEL_SECTOR_SIZE);
      assert IsSector(device.sectors[..][sector]);
      ok := ReadSector(device, crcBuffer, sector);
      crc := WordAt(crcBuffer[..], at);
    }

    /** SendCRCIrp with IRP_MJ_WRITE: the CRC sector is read, patched in the buffer, and written back. */
    method WriteCrc(device: PhysicalDevice, offset: nat, crc: bv32) returns (ok: bool)
      requires IsDisk(device.sectors[..])
      requires crcBuffer.Length == KERNEL_SECTOR_SIZE && crcBuffer as object != device.sectors
      requires offset < LOGICAL_DISK_SIZE && offset % KERNEL_SECTOR_SIZE == 0
      modifies this`ios, crcBuffer, device.sectors
      ensures ok == (old(ios) > 1) && ios == if ok then old(ios) - 2 else 0
      ensures device.sectors[..] ==
              if ok then PutCrc(old(device.sectors[..]), offset / KERNEL_SECTOR_SIZE, crc) else old(device.sectors[..])
    {
      var sector, at := CrcAddress(offset);
      CrcSlotsDisjoint(offset / KERNEL_SECTOR_SIZE, offset / KERNEL_SECTOR_SIZE);
      assert IsSector(device.sectors[..][sector]);
      ok := ReadSector(device, crcBuffer, sector);
      if !ok {
        return;
      }
      var bytes := Bytes(crc);
      crcBuffer[at], crcBuffer[at + 1], crcBuffer[at + 2], crcBuffer[at + 3] := bytes[0], bytes[1], bytes[2], bytes[3];
      assert crcBuffer[..] == Patch(device.sectors[sector], at, crc);
      ok := WriteSector(device, crcBuffer, sector);
    }

    /** Data, then CRC, on one device */
    method StoreOn(device: PhysicalDevice, buffer: array<byte>, offset: nat, crc: bv32) returns (ok: bool)
      requires IsDisk(device.sectors[..]) && crcBuffer.Length == buffer.Length == KERNEL_SECTOR_SIZE
      requires crcBuffer != buffer && crcBuffer as object != device.sectors && buffer as object != device.sectors
      requires offset < LOGICAL_DISK_SIZE && offset % KERNEL_SECTOR_SIZE == 0
      modifies this`ios, crcBuffer, device.sectors
      ensures ok == (old(ios) >= 3) && ios == if ok then old(ios) - 3 else 0
      ensures device.sectors[..] ==
              Store(old(device.sectors[..]), offset / KERNEL_SECTOR_SIZE, buffer[..], crc, StoresDone(old(ios)))
      ensures IsDisk(device.sectors[..])
    {
      StoreIsDisk(device.sectors[..], offset / KERNEL_SECTOR_SIZE, buffer[..], crc, StoresDone(ios));
      ok := WriteSector(device, buffer, offset / KERNEL_SECTOR_SIZE);
      if ok {
        ok := WriteCrc(device, offset, crc);
      }
    }

    /** A request of at least one sector, at a sector boundary; only its first sector is transferred.
        Out of range requests fail without touching a disk. */
    method MyWrite(user: array<byte>, length: nat, offset: int) returns (status: Status, information: nat)
      requires Valid() && KERNEL_SECTOR_SIZE <= length <= user.Length && offset % KERNEL_SECTOR_SIZE == 0
      requires user != crcBuffer && user != writeBuffer && Apart(user)
      modifies this`ios, crcBuffer, writeBuffer, device0.sectors, device1.sectors
      ensures Valid()
      ensures !(0 <= offset < LOGICAL_DISK_SIZE) ==> status == Failure && Disks() == old(Disks())
      ensures 0 <= offset < LOGICAL_DISK_SIZE ==>
                && (status == Success <==> old(ios) >= 6)
                && Disks() == Write(old(Disks()), offset / KERNEL_SECTOR_SIZE, user[..KERNEL_SECTOR_SIZE], WritesDone(old(ios)))
      ensures information == if status == Success then KERNEL_SECTOR_SIZE else 0
    {
      if offset < 0 || offset >= LOGICAL_DISK_SIZE {
        return Failure, 0;
      }
      forall i | 0 <= i < KERNEL_SECTOR_SIZE {
        writeBuffer[i] := user[i];
      }
      assert writeBuffer[..] == user[..KERNEL_SECTOR_SIZE];
      var crc := UpdateCrc(0, writeBuffer, KERNEL_SECTOR_SIZE);
      assert writeBuffer[..KERNEL_SECTOR_SIZE] == writeBuffer[..];
      WriteByDevice(Disks(), offset / KERNEL_SECTOR_SIZE, writeBuffer[..], ios);
      var ok := StoreOn(device0, writeBuffer, offset, crc);
      if !ok {
        return Failure, 0;
      }
      ok := StoreOn(device1, writeBuffer, offset, crc);
      if !ok {
        return Failure, 0;
      }
      return Success, KERNEL_SECTOR_SIZE;
    }

    /** One replica: the sector and the CRC stored for it */
    method Fetch(device: PhysicalDevice, buffer: array<byte>, offset: nat) returns (ok: bool, crc: bv32)
      requires IsDisk(device.sectors[..]) && crcBuffer.Length == buffer.Length == KERNEL_SECTOR_SIZE
      requires crcBuffer != buffer && crcBuffer as object != device.sectors && buffer as object != device.sectors
      requires offset < LOGICAL_DISK_SIZE && offset % KERNEL_SECTOR_SIZE == 0
      modifies this`ios, crcBuffer, buffer
      ensures ok == (old(ios) >= 2) && ios == if ok then old(ios) - 2 else 0
      ensures ok ==> Replica(buffer[..], crc) == At(device.sectors[..], offset / KERNEL_SECTOR_SIZE)
    {
      assert IsSector(device.sectors[..][offset / KERNEL_SECTOR_SIZE]);
      ok := ReadSector(device, buffer, offset / KERNEL_SECTOR_SIZE);
      crc := 0;
      if ok {
        ok, crc := ReadCrc(device, offset);
      }
    }

    /** What is done with two fetched replicas: deliver, repair one from the other, or give up */
    method Resolve(user: array<byte>, offset: nat, crc0: bv32, crc1: bv32) returns (ok: bool)
      requires Valid() && KERNEL_SECTOR_SIZE <= user.Length
      requires offset < LOGICAL_DISK_SIZE && offset % KERNEL_SECTOR_SIZE == 0
      requires user != crcBuffer && user != readBuffer0 && user != readBuffer1 && Apart(user)
      requires Replica(readBuffer0[..], crc0) == At(Disks().first, offset / KERNEL_SECTOR_SIZE)
      requires Replica(readBuffer1[..], crc1) == At(Disks().second, offset / KERNEL_SECTOR_SIZE)
      modifies this`ios, crcBuffer, user, device0.sectors, device1.sectors
      ensures Valid()
      ensures var k := offset / KERNEL_SECTOR_SIZE;
              var verdict := Judge(At(old(Disks()).first, k), At(old(Disks()).second, k));
              && Disks() == Read(old(Disks()), k, StoresDone(old(ios)))
              && ok == (verdict == Agree || ((verdict == RepairFirst || verdict == RepairSecond) && old(ios) >= 3))
              && user[..] == (if verdict == Agree then old(Disks()).first[k] + old(user[KERNEL_SECTOR_SIZE..])
                              else old(user[..]))
    {
      var crcReal0 := UpdateCrc(0, readBuffer0, KERNEL_SECTOR_SIZE);
      var crcReal1 := UpdateCrc(0, readBuffer1, KERNEL_SECTOR_SIZE);
      assert readBuffer0[..KERNEL_SECTOR_SIZE] == readBuffer0[..];
      assert readBuffer1[..KERNEL_SECTOR_SIZE] == readBuffer1[..];
      ok := true;
      if crc0 == crcReal0 && crc1 == crcReal1 && crcReal0 == crcReal1 {
        forall i | 0 <= i < KERNEL_SECTOR_SIZE {
          user[i] := readBuffer0[i];
        }
        assert user[..] == readBuffer0[..] + old(user[KERNEL_SECTOR_SIZE..]);
      } else if crc0 == crcReal0 {
        ok := StoreOn(device1, readBuffer0, offset, crc0);
      } else if crc1 == crcReal1 {
        ok := StoreOn(device0, readBuffer1, offset, crc1);
      } else {
        ok := false;
      }
    }

    /** A read request like the one of MyWrite. The caller's buffer is filled only when the replicas agree;
        a read that repairs reports success and leaves the buffer as it was. */
    method MyRead(user: array<byte>, length: nat, offset: int) returns (status: Status, information: nat)
      requires Valid() && KERNEL_SECTOR_SIZE <= length <= user.Length && offset % KERNEL_SECTOR_SIZE == 0
      requires user != crcBuffer && user != readBuffer0 && user != readBuffer1 && Apart(user)
      modifies this`ios, crcBuffer, readBuffer0, readBuffer1, user, device0.sectors, device1.sectors
      ensures Valid()
      ensures !(0 <= offset < LOGICAL_DISK_SIZE) ==>
                status == Failure && Disks() == old(Disks()) && user[..] == old(user[..])
      ensures 0 <= offset < LOGICAL_DISK_SIZE ==>
                var k := offset / KERNEL_SECTOR_SIZE;
                var verdict := Judge(At(old(Disks()).first, k), At(old(Disks()).second, k));
                && Disks() == Read(old(Disks()), k, RepairsDone(old(ios)))
                && (status == Success <==>
                      (verdict == Agree && old(ios) >= 4) ||
                      ((verdict == RepairFirst || verdict == RepairSecond) && old(ios) >= 7))
                && user[..] == (if verdict == Agree && old(ios) >= 4
                                then old(Disks()).first[k] + old(user[KERNEL_SECTOR_SIZE..])
                                else old(user[..]))
      ensures information == if status == Success then KERNEL_SECTOR_SIZE else 0
    {
      if offset < 0 || offset >= LOGICAL_DISK_SIZE {
        return Failure, 0;
      }
      var ok, crc0, crc1;
      ok, crc0 := Fetch(device0, readBuffer0, offset);
      if !ok {
        return Failure, 0;
      }
      ok, crc1 := Fetch(device1, readBuffer1, offset);
      if !ok {
        return Failure, 0;
      }
      ok := Resolve(user, offset, crc0, crc1);
      if !ok {
        return Failure, 0;
      }
      return Success, KERNEL_SECTOR_SIZE;
    }
  }

  /** A write that may crash anywhere, a restart, and two reads: both replicas then hold the old or the new
      content, the new one if the write succeeded, and the second read delivers it. */
  method CrashAndRecover(driver: Driver, user: array<byte>, back: array<byte>, offset: nat, crash: nat,
                         ghost before: seq<byte>) returns (ghost found: seq<byte>, written: Status)
    requires driver.Valid() && offset < LOGICAL_DISK_SIZE && offset % KERNEL_SECTOR_SIZE == 0
    requires user.Length == back.Length == KERNEL_SECTOR_SIZE && user != back
    requires driver.Apart(user) && user != driver.crcBuffer && user != driver.writeBuffer
    requires user != driver.readBuffer0 && user != driver.readBuffer1
    requires driver.Apart(back) && back != driver.crcBuffer && back != driver.writeBuffer
    requires back != driver.readBuffer0 && back != driver.readBuffer1
    requires Healthy(driver.Disks(), offset / KERNEL_SECTOR_SIZE, before)
    requires before == user[..] || Crc(0, before) != Crc(0, user[..])
    modifies driver, driver.crcBuffer, driver.writeBuffer, driver.readBuffer0, driver.readBuffer1, back
    modifies driver.device0.sectors, driver.device1.sectors
    ensures driver.Valid() && Healthy(driver.Disks(), offset / KERNEL_SECTOR_SIZE, found)
    ensures found == before || found == old(user[..])
    ensures written == Success ==> found == old(user[..])
    ensures back[..] == found
  {
    ghost var k, after, healthy := offset / KERNEL_SECTOR_SIZE, user[..], driver.Disks();
    assert user[..KERNEL_SECTOR_SIZE] == after;
    found := if WritesDone(crash) <= 1 then before else after;
    driver.ios := crash;
    var information;
    written, information := driver.MyWrite(user, KERNEL_SECTOR_SIZE, offset);
    ghost var crashed := driver.Disks();
    WriteSettles(healthy, k, before, after, WritesDone(crash));
    ReadSettles(crashed, k, 2, found);
    driver.ios := 7;
    var status;
    status, information := driver.MyRead(back, KERNEL_SECTOR_SIZE, offset);
    assert driver.Disks() == Read(crashed, k, 2);
    driver.ios := 4;
    status, information := driver.MyRead(back, KERNEL_SECTOR_SIZE, offset);
    assert back[..] == found;
  }
}
