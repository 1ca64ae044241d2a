/**
 The AT45-style Dataflash chip as the manager drives it: a main memory of equal pages, two SRAM
 buffers of one page each, and a serial access address.

 Every command must follow an edge of the chip-select line, so a command method requires `Idle`
 access and leaves `Commanded` behind; selecting the chip, toggling its select line and waiting
 for the ready flag bring it back to `Idle`.
 */
module DataflashChip {

  datatype Access =
    | Idle
    | Commanded
    | IntoBuffer(second: bool, at: nat)
    | FromPage(page: nat, at: nat)

  /** What the chip stores, without its access address. */
  datatype Image = Image(main: seq<seq<bv8>>, buffer1: seq<bv8>, buffer2: seq<bv8>) {
    predicate Sized(pageSize: nat, pageCount: nat) {
      && |main| == pageCount
      && (forall p :: 0 <= p < |main| ==> |main[p]| == pageSize)
      && |buffer1| == pageSize
      && |buffer2| == pageSize
    }

    function Buffer(second: bool): (b: seq<bv8>) {
      if second then buffer2 else buffer1
    }

    function WithBuffer(second: bool, b: seq<bv8>): (r: Image) {
      if second then this.(buffer2 := b) else this.(buffer1 := b)
    }
  }

  /** `s` with the bytes from `at` on replaced by `data`. */
  function Overlay(s: seq<bv8>, at: nat, data: seq<bv8>): (r: seq<bv8>)
    requires at + |data| <= |s|
    ensures |r| == |s|
  {
    s[..at] + data + s[at + |data|..]
  }

  /** A page program from one of the buffers. */
  function Committed(m: Image, second: bool, page: nat): (r: Image)
    requires page < |m.main|
  {
    m.(main := m.main[page := m.Buffer(second)])
  }

  /** A page copied into one of the buffers. */
  function Loaded(m: Image, second: bool, page: nat): (r: Image)
    requires page < |m.main|
  {
    m.WithBuffer(second, m.main[page])
  }

  class Chip {
    const pageSize: nat
    const pageCount: nat
    var main: seq<seq<bv8>>
    var buffer1: seq<bv8>
    var buffer2: seq<bv8>
    var selected: bool
    var access: Access

    function Stored(): (m: Image)
      reads this
    {
      Image(main, buffer1, buffer2)
    }

    ghost predicate Valid()
      reads this
    {
      && 0 < pageSize
      && Stored().Sized(pageSize, pageCount)
      && (access.IntoBuffer? ==> access.at < pageSize)
      && (access.FromPage? ==> access.page < pageCount && access.at < pageSize)
    }

    constructor (pageSize: nat, pageCount: nat, m: Image)
      requires 0 < pageSize && m.Sized(pageSize, pageCount)
      ensures Valid() && Stored() == m && this.pageSize == pageSize && this.pageCount == pageCount
      ensures !selected
    {
      this.pageSize, this.pageCount := pageSize, pageCount;
      main, buffer1, buffer2 := m.main, m.buffer1, m.buffer2;
      selected, access := false, Idle;
    }

    method SelectChipFromPage(page: nat)
      requires Valid()
      modifies this`selected, this`access
      ensures Valid() && selected == (page < pageCount) && access == Idle
    {
      selected, access := page < pageCount, Idle;
    }

    method Deselect()
      requires Valid()
      modifies this`selected, this`access
      ensures Valid() && !selected && access == Idle
    {
      selected, access := false, Idle;
    }

    /** Toggles the select line; the wait itself ends when the chip reports ready. */
    method WaitWhileBusy()
      requires Valid() && selected
      modifies this`access
      ensures Valid() && access == Idle
    {
      access := Idle;
    }

    method ToggleSelect()
      requires Valid() && selected
      modifies this`access
      ensures Valid() && access == Idle
    {
      access := Idle;
    }

    method MainMemToBuffer(second: bool, page: nat)
      requires Valid() && selected && access == Idle && page < pageCount
      modifies this`buffer1, this`buffer2, this`access
      ensures Valid() && access == Commanded
      ensures Stored() == Loaded(old(Stored()), second, page)
    {
      if second {
        buffer2 := main[page];
      } else {
        buffer1 := main[page];
      }
      access := Commanded;
    }

    method BufferToMainMemWithErase(second: bool, page: nat)
      requires Valid() && selected && access == Idle && page < pageCount
      modifies this`main, this`access
      ensures Valid() && access == Commanded
      ensures Stored() == Committed(old(Stored()), second, page)
    {
      main := main[page := if second then buffer2 else buffer1];
      access := Commanded;
    }

    method BufferWrite(second: bool, at: nat)
      requires Valid() && selected && access == Idle && at < pageSize
      modifies this`access
      ensures Valid() && access == IntoBuffer(second, at)
    {
      access := IntoBuffer(second, at);
    }

    method MainMemPageRead(page: nat, at: nat)
      requires Valid() && selected && access == Idle && page < pageCount && at < pageSize
      modifies this`access
      ensures Valid() && access == FromPage(page, at)
    {
      access := FromPage(page, at);
    }

    /** A data byte of a buffer write; the address wraps at the end of the buffer. */
    method SendByte(b: bv8)
      requires Valid() && selected && access.IntoBuffer?
      modifies this`buffer1, this`buffer2, this`access
      ensures Valid()
      ensures var a := old(access);
              && access == IntoBuffer(a.second, (a.at + 1) % pageSize)
              && Stored() == old(Stored()).WithBuffer(a.second, old(Stored()).Buffer(a.second)[a.at := b])
    {
      if access.second {
        buffer2 := buffer2[access.at := b];
      } else {
        buffer1 := buffer1[access.at := b];
      }
      access := IntoBuffer(access.second, (access.at + 1) % pageSize);
    }

    /** A data byte of a page read; the address wraps at the end of the page. */
    method ReceiveByte() returns (b: bv8)
      requires Valid() && selected && access.FromPage?
      modifies this`access
      ensures Valid()
      ensures var a := old(access);
              && access == FromPage(a.page, (a.at + 1) % pageSize)
              && b == main[a.page][a.at]
    {
      b := main[access.page][access.at];
      access := FromPage(access.page, (access.at + 1) % pageSize);
    }
  }
}
