/** The in-memory disk below FatFs (diskio_fuzz.c). */
module DiskIo {
  import opened Bytes

  datatype DResult = RES_OK | RES_PARERR

  class Disk {
    const sectors: nat
    const data: array<Byte>

    constructor (sectors: nat)
      ensures this.sectors == sectors && Valid() && fresh(data)
    {
      this.sectors := sectors;
      data := new Byte[sectors * SS](_ => 0);
    }

    ghost predicate Valid()
    {
      data.Length == sectors * SS
    }

    /** in_bounds: the comparison is done after widening, so nothing wraps. */
    predicate InBounds(sector: Dword, count: Dword)
    {
      if sector >= sectors then false
      else count <= sectors - sector
    }

    /** Copies `count` sectors to `buff[ofs..]`; out-of-range requests change nothing. */
    method Read(buff: array<Byte>, ofs: nat, sector: Dword, count: Dword) returns (res: DResult)
      requires Valid() && buff != data
      requires ofs + count * SS <= buff.Length
      modifies buff
      ensures res == RES_OK <==> InBounds(sector, count)
      ensures res == RES_OK ==>
                buff[..] == Overlay(old(buff[..]), ofs, data[sector * SS..(sector + count) * SS])
      ensures res != RES_OK ==> buff[..] == old(buff[..])
    {
      if !InBounds(sector, count) {
        return RES_PARERR;
      }
      MemCpy(buff, ofs, data[sector * SS..(sector + count) * SS]);
      return RES_OK;
    }

    /** Copies `count` sectors taken from the front of `buff` onto the disk. */
    method Write(buff: seq<Byte>, sector: Dword, count: Dword) returns (res: DResult)
      requires Valid() && |buff| == count * SS
      modifies data
      ensures res == RES_OK <==> InBounds(sector, count)
      ensures res == RES_OK ==> data[..] == Overlay(old(data[..]), sector * SS, buff)
      ensures res != RES_OK ==> data[..] == old(data[..])
    {
      if !InBounds(sector, count) {
        return RES_PARERR;
      }
      MemCpy(data, sector * SS, buff);
      return RES_OK;
    }
  }
}
