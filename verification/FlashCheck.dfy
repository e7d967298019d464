/** The flash tester's check that a block is erased, in buffers of 64 bytes. */
module FlashCheck {
  import opened Machine

  const BUFFER: nat := 64
  const ERASED: Byte := 0xFF

  function ByteOf(flash: nat -> Byte, start: nat, k: nat): Byte {
    flash(start + k)
  }

  ghost predicate ErasedUpTo(flash: nat -> Byte, start: nat, n: nat) {
    forall k | 0 <= k < n :: ByteOf(flash, start, k) == ERASED
  }

  /** Reads the next buffer into place. */
  method ReadFlash(flash: nat -> Byte, offset: nat, data: array<Byte>)
    modifies data
    ensures forall j | 0 <= j < data.Length :: data[j] == flash(offset + j)
  {
    for j := 0 to data.Length
      invariant forall k | 0 <= k < j :: data[k] == flash(offset + k)
    {
      data[j] := flash(offset + j);
    }
  }

  /** The answer is yes exactly if every byte of the block is erased and the block is a
      whole number of buffers: the loop index steps over any other size. */
  method BlockIsErased(flash: nat -> Byte, block: nat, blockSize: nat) returns (r: nat)
    ensures r <= 1
    ensures r == 1 <==> blockSize % BUFFER == 0 && ErasedUpTo(flash, block * blockSize, blockSize)
  {
    var dataRead := new Byte[BUFFER];
    var blockIsErased := true;
    var start := block * blockSize;
    var i := 0;
    while i < blockSize
      invariant i % BUFFER == 0 && i < blockSize + BUFFER && blockIsErased
      invariant ErasedUpTo(flash, start, i)
    {
      ReadFlash(flash, start + i, dataRead);
      var j := 0;
      while j < BUFFER
        invariant j <= BUFFER && blockIsErased
        invariant ErasedUpTo(flash, start, i + j)
      {
        if dataRead[j] != ERASED {
          assert ByteOf(flash, start, i + j) == dataRead[j];
          blockIsErased := false;
          break;
        }
        assert ByteOf(flash, start, i + j) == dataRead[j];
        j := j + 1;
      }
      if !blockIsErased {
        break;
      }
      i := i + BUFFER;
    }
    r := if i == blockSize then 1 else 0;
  }
}
