/** Programming a device through its bootloader: the chunking loops of library/WiflyControl.cpp and what they
    leave in the device's flash. The device erases whole pages, downwards from the page of the address it is
    given, and programming a cell can only clear bits. */
module BlProgram {
  import opened Bits
  import opened Flash
  import opened Keys
  import opened Numbers

  const FLASH_SIZE: nat := 0x10000
  const FLASH_ERASE_BLOCKS: nat := 128
  const FLASH_READ_BLOCKSIZE: nat := 256
  const FLASH_WRITE_BLOCKSIZE: nat := 64
  const EEPROM_SIZE: nat := 1024
  const EEPROM_WRITE_BLOCKSIZE: nat := 256
  // bytes erased by one command
  const AREA: nat := FLASH_ERASE_BLOCKS * BLOCK

  lemma ProgramPadding(cell: Byte)
    ensures Programmed(cell, ERASED) == cell
  {
    assert And(cell.bits, Ones(8)) == cell.bits;
  }

  // ---------- numbers and bytes ----------

  function LowByte(n: nat): Byte {
    Byte(BitsOf(n % 256, 8))
  }

  function Value(b: Byte): nat {
    BitsValue(b.bits)
  }

  lemma LowByteValue(n: nat)
    ensures Value(LowByte(n)) == n % 256
  {
    assert Power2(4) == 16;
    assert Power2(8) == 256;
    BitsOfValue(n % 256, 8);
  }

  // ---------- the vectors ----------

  /** The two words of the GOTO instruction that BlProgramFlash puts at address 0. */
  function ResetWords(boot: nat): (nat, nat) {
    var bootAddress := (boot + 2) / 2;
    (0xEF00 + bootAddress % 0x100, 0xF000 + bootAddress / 0x100 % 0x1000)
  }

  function WordsToBytes(words: (nat, nat)): (v: seq<Byte>)
    ensures |v| == 4
  {
    [LowByte(words.0), LowByte(words.0 / 0x100), LowByte(words.1), LowByte(words.1 / 0x100)]
  }

  function ResetVector(boot: nat): (v: seq<Byte>)
    ensures |v| == 4
  {
    WordsToBytes(ResetWords(boot))
  }

  /** The target of a two-word GOTO instruction, as a byte address; -1 for other instructions. */
  function GotoTarget(v: seq<Byte>): (target: int)
    requires |v| == 4
  {
    if Value(v[1]) == 0xEF && Value(v[3]) / 16 == 0xF then
      2 * (Value(v[0]) + 0x100 * Value(v[2]) + 0x10000 * (Value(v[3]) % 16))
    else -1
  }

  lemma ResetWordsAre(boot: nat) returns (low: nat, high: nat)
    requires boot <= FLASH_SIZE && boot % 2 == 0
    ensures low < 0x100 && high < 0x100 && 2 * (0x100 * high + low) == boot + 2
    ensures var words := ResetWords(boot);
            && words.0 % 0x100 == low && words.0 / 0x100 % 0x100 == 0xEF
            && words.1 % 0x100 == high && words.1 / 0x100 % 0x100 == 0xF0
  {
    var bootAddress := (boot + 2) / 2;
    low, high := bootAddress % 0x100, bootAddress / 0x100;
    assert high < 0x100 && high % 0x1000 == high;
    WordSplits(0xEF, low);
    WordSplits(0xF0, high);
  }

  lemma GotoBytes(v: seq<Byte>, low: nat, high: nat)
    requires |v| == 4
    requires Value(v[0]) == low && Value(v[1]) == 0xEF && Value(v[2]) == high && Value(v[3]) == 0xF0
    ensures GotoTarget(v) == 2 * (0x100 * high + low)
  {
  }

  /** The reset vector goes to the third byte of the bootloader. */
  lemma ResetVectorGoesToBootloader(boot: nat)
    requires boot <= FLASH_SIZE && boot % 2 == 0
    ensures GotoTarget(ResetVector(boot)) == boot + 2
    ensures var v := ResetVector(boot);
            Value(v[1]) == 0xEF && Value(v[3]) == 0xF0 && 2 * (0x100 * Value(v[2]) + Value(v[0])) == boot + 2
  {
    var low, high := VectorBytes(boot);
    GotoBytes(ResetVector(boot), low, high);
  }

  lemma VectorBytes(boot: nat) returns (low: nat, high: nat)
    requires boot <= FLASH_SIZE && boot % 2 == 0
    ensures low < 0x100 && high < 0x100 && 2 * (0x100 * high + low) == boot + 2
    ensures var v := ResetVector(boot);
            Value(v[0]) == low && Value(v[1]) == 0xEF && Value(v[2]) == high && Value(v[3]) == 0xF0
  {
    low, high := ResetWordsAre(boot);
    FourBytes(ResetWords(boot));
  }

  lemma FourBytes(words: (nat, nat))
    ensures var v := WordsToBytes(words);
            && Value(v[0]) == words.0 % 0x100 && Value(v[1]) == words.0 / 0x100 % 0x100
            && Value(v[2]) == words.1 % 0x100 && Value(v[3]) == words.1 / 0x100 % 0x100
  {
    LowByteValue(words.0);
    LowByteValue(words.0 / 0x100);
    LowByteValue(words.1);
    LowByteValue(words.1 / 0x100);
  }

  lemma WordSplits(high: nat, low: nat)
    requires high < 0x100 && low < 0x100
    ensures (0x100 * high + low) % 0x100 == low && (0x100 * high + low) / 0x100 % 0x100 == high
  {
  }

  // ---------- erasing ----------

  /** The cells that BlEraseFlash erases. */
  predicate ErasedCell(boot: nat, a: nat)
    requires 1 <= boot
  {
    a < AREA || (a < PageOf(boot - 1) + BLOCK && !(boot % AREA == 1 && a < AREA + BLOCK))
  }

  lemma NextArea(address: nat)
    requires address >= AREA
    ensures PageOf(address - AREA) + AREA == PageOf(address) && (address - AREA) % AREA == address % AREA
  {
  }

  /** What the last command leaves over when the loop has come down to `address`. */
  lemma LastArea(boot: nat, address: nat)
    requires 1 <= boot && address < boot && address <= AREA && (address >= 1 || boot == 1)
    requires address % AREA == (boot - 1) % AREA
    ensures forall a: nat ::
              ErasedCell(boot, a) <==> a < AREA || PageOf(address) + BLOCK <= a < PageOf(boot - 1) + BLOCK
  {
    var bottom := PageOf(address) + BLOCK;
    if address == AREA {
      assert boot % AREA == 1 && bottom == AREA + BLOCK;
    } else {
      assert bottom <= AREA && (boot == 1 || boot % AREA != 1);
    }
  }

  /** BlEraseFlash erases exactly what lies below the bootloader, exactly for an aligned bootloader address of
      at least 8192. */
  lemma EraseIsExact(boot: nat)
    requires 1 <= boot <= FLASH_SIZE
    ensures (forall a: nat | a < FLASH_SIZE + BLOCK :: ErasedCell(boot, a) <==> a < boot)
            <==> boot % BLOCK == 0 && boot >= AREA
  {
    if boot % BLOCK == 0 && boot >= AREA {
      assert PageOf(boot - 1) + BLOCK == boot;
    } else if boot < AREA {
      assert ErasedCell(boot, boot);
    } else if boot % AREA == 1 && boot < AREA + BLOCK {
      assert !ErasedCell(boot, boot - 1);
    } else {
      assert PageOf(boot - 1) + BLOCK > boot;
      assert ErasedCell(boot, boot);
    }
  }

  lemma ErasesBelow(boot: nat)
    requires 1 <= boot <= FLASH_SIZE && boot % BLOCK == 0
    ensures forall a: nat | a < boot :: ErasedCell(boot, a)
  {
    assert PageOf(boot - 1) + BLOCK == boot && boot % AREA != 1;
  }

  // ---------- the result of programming ----------

  type Image = map<nat, Byte>

  datatype Outcome = Done | NoEndAddress | EndInBootloader | NotFromZero | MissingByte

  predicate HasVector(image: Image) {
    0 in image && 1 in image && 2 in image && 3 in image
  }

  /** A cell of the image, with gaps blank. */
  function Cell(image: Image, a: nat): Byte {
    if a in image then image[a] else ERASED
  }

  /** What programming leaves at an address below the bootloader. */
  function Result(image: Image, boot: nat, a: nat): Byte
    requires boot >= 8 && HasVector(image)
  {
    if a < 4 then ResetVector(boot)[a]
    else if boot - 4 <= a < boot then Programmed(Cell(image, a), image[a - (boot - 4)])
    else Cell(image, a)
  }

  /** The image ends below its relocated vector: everything is in its place. */
  lemma ResultIsExact(image: Image, boot: nat, a: nat)
    requires boot >= 8 && HasVector(image)
    requires Largest(image.Keys) < boot - 4 && a < boot
    ensures Result(image, boot, a) == if a < 4 then ResetVector(boot)[a]
                                      else if a >= boot - 4 then image[a - (boot - 4)]
                                      else if a in image then image[a] else ERASED
  {
    if a >= boot - 4 {
      ProgramErased(image[a - (boot - 4)]);
    }
  }

  /** An image that passes the checks and still reaches the last four bytes below the bootloader keeps the
      vector, or its own byte there, exactly where one of the two has all the cleared bits of the other. */
  lemma OverlapIsIntersection(image: Image, boot: nat, a: nat)
    requires boot >= 8 && HasVector(image)
    requires boot - 4 <= a < boot
    ensures var vector := image[a - (boot - 4)].bits;
            var own := (if a in image then image[a] else ERASED).bits;
            && (Result(image, boot, a).bits == vector <==> forall i | 0 <= i < 8 :: vector[i] ==> own[i])
            && (Result(image, boot, a).bits == own <==> forall i | 0 <= i < 8 :: own[i] ==> vector[i])
  {
    var vector := image[a - (boot - 4)].bits;
    var own := Cell(image, a).bits;
    var both := And(own, vector);
    assert forall i | 0 <= i < 8 :: both[i] == (own[i] && vector[i]);
    if forall i | 0 <= i < 8 :: vector[i] ==> own[i] { assert both == vector; }
    if forall i | 0 <= i < 8 :: own[i] ==> vector[i] { assert both == own; }
  }

  lemma BothWrites(image: Image, boot: nat, a: nat, written: Byte, vector: seq<Byte>)
    requires boot >= 8 && HasVector(image) && a < boot && vector == [image[0], image[1], image[2], image[3]]
    requires written == (if a < 4 then ResetVector(boot)[a] else Cell(image, a))
    ensures Result(image, boot, a) == if boot - 4 <= a then Programmed(written, vector[a - (boot - 4)]) else written
  {
  }

  /** Between the two vectors is the image. */
  lemma ResultInside(image: Image, boot: nat, a: nat)
    requires boot >= 8 && HasVector(image) && 4 <= a < boot - 4
    ensures Result(image, boot, a) == if a in image then image[a] else ERASED
  {
  }

  lemma ResultStart(image: Image, boot: nat, v: seq<Byte>)
    requires boot >= 8 && HasVector(image) && |v| == 4 && forall i | 0 <= i < 4 :: v[i] == Result(image, boot, i)
    ensures v == ResetVector(boot)
  {
    var r := ResetVector(boot);
    forall i | 0 <= i < 4 ensures v[i] == r[i] {
      assert v[i] == Result(image, boot, i);
    }
  }

  /** What is below the bootloader after programming. */
  lemma InPlace(image: Image, boot: nat, after: seq<Byte>)
    requires 8 <= boot <= FLASH_SIZE && boot % 2 == 0 && HasVector(image) && |after| == FLASH_SIZE
    requires forall a | 0 <= a < boot :: after[a] == Result(image, boot, a)
    ensures forall a | 4 <= a < boot - 4 :: after[a] == if a in image then image[a] else ERASED
    ensures GotoTarget(after[..4]) == boot + 2
  {
    forall a | 4 <= a < boot - 4 ensures after[a] == if a in image then image[a] else ERASED {
      ResultInside(image, boot, a);
    }
    ResultStart(image, boot, after[..4]);
    ResetVectorGoesToBootloader(boot);
  }

  lemma VectorMoved(image: Image, boot: nat, after: seq<Byte>)
    requires 8 <= boot <= FLASH_SIZE && HasVector(image) && |after| == FLASH_SIZE && Largest(image.Keys) < boot - 4
    requires forall a | 0 <= a < boot :: after[a] == Result(image, boot, a)
    ensures forall i | 0 <= i < 4 :: after[boot - 4 + i] == image[i]
  {
    forall i | 0 <= i < 4 ensures after[boot - 4 + i] == image[i] {
      ResultIsExact(image, boot, boot - 4 + i);
    }
  }

  /** BlFlashWriteRequest::SetData */
  function Payload(data: seq<Byte>): (p: seq<Byte>)
    requires |data| <= FLASH_WRITE_BLOCKSIZE
    ensures |p| == FLASH_WRITE_BLOCKSIZE
    ensures forall i | 0 <= i < |p| :: p[i] == if i < |data| then data[i] else ERASED
  {
    data + seq(FLASH_WRITE_BLOCKSIZE - |data|, _ => ERASED)
  }

  class Device {
    const cells: array<Byte>
    const eeprom: array<Byte>
    // where the bootloader begins
    const boot: nat

    ghost predicate Valid() {
      cells.Length == FLASH_SIZE && eeprom.Length == EEPROM_SIZE && cells != eeprom && 1 <= boot <= FLASH_SIZE
    }

    constructor (boot: nat)
      requires 1 <= boot <= FLASH_SIZE
      ensures Valid() && fresh(cells) && fresh(eeprom) && this.boot == boot
    {
      cells := new Byte[FLASH_SIZE](_ => ERASED);
      eeprom := new Byte[EEPROM_SIZE](_ => ERASED);
      this.boot := boot;
    }

    // ---------- requests ----------

    /** The device's answer to BlFlashEraseRequest: `top` is the end of the last page. */
    method EraseArea(endAddress: nat, numPages: nat, ghost top: nat)
      requires Valid() && endAddress < FLASH_SIZE && top == PageOf(endAddress) + BLOCK && top >= numPages * BLOCK
      modifies cells
      ensures forall a | 0 <= a < FLASH_SIZE ::
                cells[a] == if top - numPages * BLOCK <= a < top then ERASED else old(cells[a])
    {
      var end := PageOf(endAddress) + BLOCK;
      assert end <= FLASH_SIZE;
      forall a | end - numPages * BLOCK <= a < end {
        cells[a] := ERASED;
      }
    }

    /** The device's answer to BlFlashWriteRequest. */
    method WriteBlock(address: nat, payload: seq<Byte>)
      requires Valid() && |payload| == FLASH_WRITE_BLOCKSIZE
      requires address % BLOCK == 0 && address + FLASH_WRITE_BLOCKSIZE <= FLASH_SIZE
      modifies cells
      ensures forall a | 0 <= a < FLASH_SIZE ::
                cells[a] == if address <= a < address + FLASH_WRITE_BLOCKSIZE
                            then Programmed(old(cells[a]), payload[a - address]) else old(cells[a])
    {
      forall a | address <= a < address + FLASH_WRITE_BLOCKSIZE {
        cells[a] := Programmed(cells[a], payload[a - address]);
      }
    }

    // ---------- the client ----------

    /** Control::BlEraseFlash */
    method EraseFlash()
      requires Valid()
      modifies cells
      ensures forall a | 0 <= a < FLASH_SIZE :: cells[a] == if ErasedCell(boot, a) then ERASED else old(cells[a])
    {
      var address := boot - 1;
      ghost var top, bottom := PageOf(address) + BLOCK, PageOf(address) + BLOCK;
      while address > AREA
        invariant 0 <= address < boot && (address >= 1 || boot == 1)
        invariant address % AREA == (boot - 1) % AREA && bottom == PageOf(address) + BLOCK <= top <= FLASH_SIZE
        invariant forall a | 0 <= a < FLASH_SIZE :: cells[a] == if bottom <= a < top then ERASED else old(cells[a])
      {
        NextArea(address);
        EraseArea(address, FLASH_ERASE_BLOCKS, bottom);
        address, bottom := address - AREA, bottom - AREA;
      }
      EraseArea(AREA - 1, FLASH_ERASE_BLOCKS, AREA);
      LastArea(boot, address);
    }

    /** Control::BlWriteFlash: in range, the data is programmed and nothing else changes, although the last
        block is filled up. */
    method WriteFlash(start: nat, buffer: seq<Byte>) returns (ok: bool)
      requires Valid() && start % BLOCK == 0 && (buffer != [] || start < FLASH_SIZE)
      modifies cells
      ensures ok <==> start + |buffer| <= FLASH_SIZE
      ensures forall a | 0 <= a < FLASH_SIZE ::
                cells[a] == if ok && start <= a < start + |buffer| then Programmed(old(cells[a]), buffer[a - start])
                            else old(cells[a])
    {
      if |buffer| + start > FLASH_SIZE {
        return false;
      }
      var address, rest := start, buffer;
      while |rest| > FLASH_WRITE_BLOCKSIZE
        invariant address % BLOCK == 0 && start <= address < FLASH_SIZE
        invariant address - start <= |buffer| && rest == buffer[address - start..]
        invariant forall a | 0 <= a < FLASH_SIZE ::
            cells[a] == if start <= a < address then Programmed(old(cells[a]), buffer[a - start]) else old(cells[a])
        decreases |rest|
      {
        WriteBlock(address, Payload(rest[..FLASH_WRITE_BLOCKSIZE]));
        address := address + FLASH_WRITE_BLOCKSIZE;
        rest := rest[FLASH_WRITE_BLOCKSIZE..];
      }
      WriteLast(address, rest);
      ok := true;
    }

    /** The last block of BlWriteFlash. */
    method WriteLast(address: nat, rest: seq<Byte>)
      requires Valid() && |rest| <= FLASH_WRITE_BLOCKSIZE
      requires address % BLOCK == 0 && address < FLASH_SIZE
      modifies cells
      ensures forall a | 0 <= a < FLASH_SIZE ::
                cells[a] == if address <= a < address + |rest| then Programmed(old(cells[a]), rest[a - address])
                            else old(cells[a])
    {
      assert address + BLOCK <= FLASH_SIZE;
      forall a | 0 <= a < FLASH_SIZE ensures Programmed(cells[a], ERASED) == cells[a] {
        ProgramPadding(cells[a]);
      }
      ghost var before := cells[..];
      assert forall a | 0 <= a < FLASH_SIZE :: Programmed(before[a], ERASED) == before[a];
      WriteBlock(address, Payload(rest));
    }

    /** Control::BlReadFlash */
    method ReadFlash(start: nat, numBytes: nat) returns (ok: bool, data: seq<Byte>)
      requires Valid()
      ensures ok <==> start + numBytes <= FLASH_SIZE
      ensures ok ==> data == cells[start..start + numBytes]
    {
      data := [];
      if numBytes + start > FLASH_SIZE {
        return false, data;
      }
      var address, left := start, numBytes;
      while left > FLASH_READ_BLOCKSIZE
        invariant 0 <= left && address + left == start + numBytes && start <= address
        invariant data == cells[start..address]
      {
        data := data + cells[address..address + FLASH_READ_BLOCKSIZE];
        address := address + FLASH_READ_BLOCKSIZE;
        left := left - FLASH_READ_BLOCKSIZE;
      }
      data := data + cells[address..address + left];
      ok := true;
    }

    /** Control::BlWriteEeprom */
    method WriteEeprom(start: nat, buffer: seq<Byte>) returns (ok: bool)
      requires Valid()
      modifies eeprom
      ensures ok <==> start + |buffer| <= EEPROM_SIZE
      ensures forall a | 0 <= a < EEPROM_SIZE ::
                eeprom[a] == if ok && start <= a < start + |buffer| then buffer[a - start] else old(eeprom[a])
    {
      if |buffer| + start > EEPROM_SIZE {
        return false;
      }
      var address, rest := start, buffer;
      while |rest| > EEPROM_WRITE_BLOCKSIZE
        invariant start <= address && address - start + |rest| == |buffer| && rest == buffer[address - start..]
        invariant forall a | 0 <= a < EEPROM_SIZE ::
            eeprom[a] == if start <= a < address then buffer[a - start] else old(eeprom[a])
      {
        WriteEepromBlock(address, rest[..EEPROM_WRITE_BLOCKSIZE]);
        address := address + EEPROM_WRITE_BLOCKSIZE;
        rest := rest[EEPROM_WRITE_BLOCKSIZE..];
      }
      WriteEepromBlock(address, rest);
      ok := true;
    }

    /** The device's answer to BlEepromWriteRequest. */
    method WriteEepromBlock(address: nat, data: seq<Byte>)
      requires Valid() && address + |data| <= EEPROM_SIZE
      modifies eeprom
      ensures forall a | 0 <= a < EEPROM_SIZE ::
                eeprom[a] == if address <= a < address + |data| then data[a - address] else old(eeprom[a])
    {
      forall i | 0 <= i < |data| {
        eeprom[address + i] := data[i];
      }
    }

    /** Control::BlProgramFlash, with the parsed HEX file. An image is programmed exactly if it has its first
        four bytes and ends below the bootloader; any other is refused and changes nothing. A bootloader below
        address 8192 is erased with the rest. */
    method ProgramFlash(image: Image) returns (outcome: Outcome)
      requires Valid() && boot % BLOCK == 0
      modifies cells
      ensures outcome == Done <==> HasVector(image) && Largest(image.Keys) < boot
      ensures outcome == NoEndAddress <==> image.Keys == {}
      ensures outcome == EndInBootloader <==> image.Keys != {} && Largest(image.Keys) >= boot
      ensures outcome == NotFromZero <==> image.Keys != {} && Largest(image.Keys) < boot && 0 !in image
      ensures forall a | 0 <= a < FLASH_SIZE ::
                cells[a] == if outcome != Done then old(cells[a]) else if a < boot then Result(image, boot, a)
                            else if ErasedCell(boot, a) then ERASED else old(cells[a])
      // the image is where it belongs, and the device starts in its bootloader
      ensures outcome == Done ==>
                && (forall a | 4 <= a < boot - 4 :: cells[a] == if a in image then image[a] else ERASED)
                && GotoTarget(cells[..4]) == boot + 2
                && (Largest(image.Keys) < boot - 4 ==> forall i | 0 <= i < 4 :: cells[boot - 4 + i] == image[i])
    {
      if image.Keys == {} {
        return NoEndAddress;
      }
      var endAddress := Largest(image.Keys);
      if endAddress >= boot {
        return EndInBootloader;
      }
      if 0 !in image {
        return NotFromZero;
      }
      if 1 !in image || 2 !in image || 3 !in image {
        return MissingByte;
      }
      ProgramChecked(image);
      outcome := Done;
    }

    method ProgramChecked(image: Image)
      requires Valid() && boot % BLOCK == 0
      requires HasVector(image) && Largest(image.Keys) < boot
      modifies cells
      ensures forall a | 0 <= a < FLASH_SIZE ::
                cells[a] == if a < boot then Result(image, boot, a)
                            else if ErasedCell(boot, a) then ERASED else old(cells[a])
      ensures forall a | 4 <= a < boot - 4 :: cells[a] == if a in image then image[a] else ERASED
      ensures GotoTarget(cells[..4]) == boot + 2
      ensures Largest(image.Keys) < boot - 4 ==> forall i | 0 <= i < 4 :: cells[boot - 4 + i] == image[i]
    {
      ProgramImage(image);
      ghost var after := cells[..];
      InPlace(image, boot, after);
      if Largest(image.Keys) < boot - 4 { VectorMoved(image, boot, after); }
      assert forall a | 0 <= a < FLASH_SIZE :: cells[a] == after[a];
    }

    /** What BlProgramFlash does after its checks. */
    method ProgramImage(image: Image)
      requires Valid() && boot % BLOCK == 0
      requires HasVector(image) && Largest(image.Keys) < boot
      modifies cells
      ensures forall a | 0 <= a < FLASH_SIZE ::
                cells[a] == if a < boot then Result(image, boot, a)
                            else if ErasedCell(boot, a) then ERASED else old(cells[a])
    {
      var appVector := [image[0], image[1], image[2], image[3]];
      EraseBelow();
      ghost var erased := cells[..];
      assert 3 in image.Keys;
      var flashBuffer := FillBuffer(image);
      WriteImage(image, flashBuffer);
      ghost var written := cells[..];
      WriteVector(appVector);
      forall a | 0 <= a < boot ensures cells[a] == Result(image, boot, a) {
        BothWrites(image, boot, a, written[a], appVector);
      }
      assert forall a | boot <= a < FLASH_SIZE :: cells[a] == written[a] == erased[a];
    }

    method EraseBelow()
      requires Valid() && boot % BLOCK == 0
      modifies cells
      ensures forall a | 0 <= a < FLASH_SIZE ::
                cells[a] == if a < boot || ErasedCell(boot, a) then ERASED else old(cells[a])
    {
      ErasesBelow(boot);
      EraseFlash();
    }

    /** The reset vector, and the image behind it with its gaps filled. */
    method FillBuffer(image: Image) returns (flashBuffer: seq<Byte>)
      requires image.Keys != {} && Largest(image.Keys) >= 3
      ensures |flashBuffer| == Largest(image.Keys) + 1
      ensures forall i | 0 <= i < |flashBuffer| ::
                flashBuffer[i] == if i < 4 then ResetVector(boot)[i] else Cell(image, i)
    {
      var endAddress := Largest(image.Keys);
      flashBuffer := ResetVector(boot);
      var writeAddress := 4;
      while writeAddress <= endAddress
        invariant 4 <= writeAddress <= endAddress + 1 && |flashBuffer| == writeAddress
        invariant forall i | 0 <= i < writeAddress ::
            flashBuffer[i] == if i < 4 then ResetVector(boot)[i] else Cell(image, i)
      {
        if writeAddress in image {
          flashBuffer := flashBuffer + [image[writeAddress]];
        } else {
          flashBuffer := flashBuffer + [ERASED];
        }
        writeAddress := writeAddress + 1;
      }
    }

    /** The first BlWriteFlash of BlProgramFlash. */
    method WriteImage(image: Image, buffer: seq<Byte>)
      requires Valid() && 4 <= |buffer| <= boot && image.Keys != {} && |buffer| == Largest(image.Keys) + 1
      requires forall i | 0 <= i < |buffer| :: buffer[i] == if i < 4 then ResetVector(boot)[i] else Cell(image, i)
      requires forall a | 0 <= a < boot :: cells[a] == ERASED
      modifies cells
      ensures forall a | 0 <= a < FLASH_SIZE ::
                cells[a] == if a >= boot then old(cells[a])
                            else if a < 4 then ResetVector(boot)[a] else Cell(image, a)
    {
      forall i | 0 <= i < |buffer| ensures Programmed(ERASED, buffer[i]) == buffer[i] {
        ProgramErased(buffer[i]);
      }
      var ok := WriteFlash(0, buffer);
    }

    /** The second: the application's vector at the end of the last block below the bootloader. */
    method WriteVector(vector: seq<Byte>)
      requires Valid() && |vector| == 4 && boot % BLOCK == 0
      modifies cells
      ensures forall a | 0 <= a < FLASH_SIZE ::
                cells[a] == if boot - 4 <= a < boot then Programmed(old(cells[a]), vector[a - (boot - 4)])
                            else old(cells[a])
    {
      ghost var before := cells[..];
      forall a | 0 <= a < FLASH_SIZE ensures Programmed(before[a], ERASED) == before[a] {
        ProgramPadding(before[a]);
      }
      var appVecBuf := seq(FLASH_WRITE_BLOCKSIZE - 4, _ => ERASED) + vector;
      var ok := WriteFlash(boot - FLASH_WRITE_BLOCKSIZE, appVecBuf);
    }
  }
}
