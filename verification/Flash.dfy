/** firmware/Flash.c: writing byte ranges into a flash memory that is erased in blocks of 64 bytes and whose
    programming can only clear bits. */
module Flash {
  import opened Bits

  const BLOCK: nat := 64
  const MEMORY: nat := 0x10000
  const FIRST_VALID: nat := 0x5000
  const END_VALID: nat := 0xf000
  const ERASED: Byte := Byte(Ones(8))

  /** AdressValid */
  predicate AddressValid(address: nat) {
    FIRST_VALID <= address < END_VALID
  }

  function PageOf(address: nat): (page: nat)
    ensures page <= address < page + BLOCK && page % BLOCK == 0
  {
    address - address % BLOCK
  }

  /** What programming leaves in a cell. */
  function Programmed(cell: Byte, data: Byte): Byte {
    Byte(And(cell.bits, data.bits))
  }

  lemma ProgramErased(data: Byte)
    ensures Programmed(ERASED, data) == data
  {
    assert And(Ones(8), data.bits) == data.bits;
  }

  /** The guard of Flash_WriteBlock, on 16-bit addresses. */
  predicate Accepted(address: nat, length: nat) {
    var end := (address + length) % MEMORY;
    AddressValid(end) && AddressValid(address) && end >= address
  }

  /** A range of data may be written exactly when it, and the byte behind it, lie in the valid region. In
      particular a range that wraps round is not written, wherever its end comes to lie. */
  lemma AcceptedRanges(address: nat, length: nat)
    requires address < MEMORY && length < MEMORY
    ensures Accepted(address, length) <==> FIRST_VALID <= address && address + length < END_VALID
  {
  }

  class ProgramMemory {
    const cells: array<Byte>

    constructor ()
      ensures cells.Length == MEMORY && fresh(cells)
    {
      cells := new Byte[MEMORY](_ => ERASED);
    }

    /** Flash_ReadBlock */
    method ReadBlock(address: nat, data: array<Byte>, length: nat)
      requires address + length <= cells.Length && length <= data.Length && data != cells
      modifies data
      ensures forall j | 0 <= j < data.Length ::
                data[j] == if j < length then cells[address + j] else old(data[j])
    {
      var i := 0;
      while i < length
        invariant i <= length
        invariant forall j | 0 <= j < data.Length :: data[j] == if j < i then cells[address + j] else old(data[j])
      {
        data[i] := cells[address + i];
        i := i + 1;
      }
    }

    /** Flash_EraseBlock64 */
    method EraseBlock64(address: nat)
      requires cells.Length == MEMORY && address < MEMORY
      modifies cells
      ensures forall j | 0 <= j < MEMORY ::
                cells[j] == if AddressValid(PageOf(address)) && PageOf(address) <= j < PageOf(address) + BLOCK
                            then ERASED else old(cells[j])
    {
      var page := PageOf(address);
      assert page + BLOCK <= MEMORY;
      if AddressValid(page) {
        forall j | page <= j < page + BLOCK {
          cells[j] := ERASED;
        }
      }
    }

    /** Writing the holding registers to a page. */
    method ProgramPage(page: nat, data: array<Byte>)
      requires cells.Length == MEMORY && page + BLOCK <= MEMORY && data.Length == BLOCK && data != cells
      modifies cells
      ensures forall j | 0 <= j < MEMORY ::
                cells[j] == if page <= j < page + BLOCK then Programmed(old(cells[j]), data[j - page])
                            else old(cells[j])
    {
      forall j | page <= j < page + BLOCK {
        cells[j] := Programmed(cells[j], data[j - page]);
      }
    }

    /** One turn of Flash_WriteBlock's loop: the page of `address` gets `data` from there on, as far as it
        reaches, and keeps the rest. */
    method WritePage(address: nat, data: seq<Byte>)
      requires cells.Length == MEMORY && AddressValid(address) && address + |data| < END_VALID
      modifies cells
      ensures forall j | 0 <= j < MEMORY ::
                cells[j] == if address <= j < address + |data| && j < PageOf(address) + BLOCK
                            then data[j - address] else old(cells[j])
    {
      var page := PageOf(address);
      var offset := address - page;
      var flashBuff := new Byte[BLOCK](_ => ERASED);
      ReadBlock(page, flashBuff, BLOCK);
      ghost var kept := flashBuff[..];
      assert PageOf(page) == page && AddressValid(page);
      EraseBlock64(page);
      var i := offset;
      while i < BLOCK
        invariant offset <= i <= BLOCK
        invariant forall j | 0 <= j < BLOCK ::
            flashBuff[j] == if offset <= j < i && page + j < address + |data| then data[page + j - address]
                            else kept[j]
        modifies flashBuff
      {
        if page + i < address + |data| {
          flashBuff[i] := data[page + i - address];
        }
        i := i + 1;
      }
      ghost var erased := cells[..];
      ProgramPage(page, flashBuff);
      forall j | page <= j < page + BLOCK ensures cells[j] == flashBuff[j - page] {
        assert erased[j] == ERASED;
        ProgramErased(flashBuff[j - page]);
      }
    }

    /** Flash_WriteBlock writes exactly the range, or nothing at all. */
    method WriteBlock(address: nat, data: seq<Byte>)
      requires cells.Length == MEMORY && address < MEMORY && |data| < MEMORY
      modifies cells
      ensures forall j | 0 <= j < MEMORY ::
                cells[j] == if Accepted(address, |data|) && address <= j < address + |data| then data[j - address]
                            else old(cells[j])
      ensures forall j | 0 <= j < MEMORY && !AddressValid(j) :: cells[j] == old(cells[j])
    {
      AcceptedRanges(address, |data|);
      var endAddress := (address + |data|) % MEMORY;
      if !AddressValid(endAddress) { return; }
      if !AddressValid(address) { return; }
      var at := address;
      while endAddress > at
        invariant address <= at && (at < endAddress ==> AddressValid(at))
        invariant forall j | 0 <= j < MEMORY ::
            cells[j] == if address <= j < at && j < address + |data| && Accepted(address, |data|)
                        then data[j - address] else old(cells[j])
        decreases endAddress - at
      {
        WritePage(at, data[at - address..]);
        at := PageOf(at) + BLOCK;
      }
    }
  }
}
