/** The block-size table: block-size identifiers of the LZ4 frame format and
    the number of bytes each one stands for (py-lz4framed.c, lines 138-197). */
module BlockSize {
  import opened Errors

  // Values of the library's LZ4F_blockSizeID_t enumeration, exported as
  // LZ4F_BLOCKSIZE_DEFAULT and LZ4F_BLOCKSIZE_MAX64KB .. LZ4F_BLOCKSIZE_MAX4MB.
  const Default: CInt := 0
  const Max64KB: int := 4
  const Max256KB: int := 5
  const Max1MB: int := 6
  const Max4MB: int := 7

  const KB: nat := 1024
  const MB: nat := 1024 * 1024

  /** The static table `blockSizes`, indexed by `id - 4`. */
  const Sizes: seq<nat> := [64 * KB, 256 * KB, 1 * MB, 4 * MB]

  /** `_valid_lz4f_block_size_id`: the ids the switch accepts. */
  predicate IsValidId(id: int) {
    id == Default || id == Max64KB || id == Max256KB || id == Max1MB || id == Max4MB
  }

  /** `_lz4f_block_size_from_id`: 0 for an invalid id, the default id is read
      as the 64KB id, and the others index the table. */
  function SizeFromId(id: int): nat {
    if !IsValidId(id) then 0
    else
      var sizeId := if id == Default then Max64KB else id;
      Sizes[sizeId - 4]
  }

  /** `get_block_size(id)`: ValueError for an invalid id, else the byte count. */
  function GetBlockSize(id: CInt): (r: Result<nat>)
    ensures r.Ok? <==> IsValidId(id)
    ensures r.Ok? ==> r.value == SizeFromId(id) && 64 * KB <= r.value <= 4 * MB
    ensures r.Err? ==> r.error == ValueError(IdInvalid(id))
  {
    if !IsValidId(id) then Err(ValueError(IdInvalid(id))) else Ok(SizeFromId(id))
  }

  /** 2 to the power k, the meaning of `1 << k`. */
  function Pow2(k: nat): (r: nat)
    ensures r >= 1
  {
    if k == 0 then 1 else 2 * Pow2(k - 1)
  }

  lemma {:induction false} Pow2Add(a: nat, b: nat)
    ensures Pow2(a + b) == Pow2(a) * Pow2(b)
  {
    if a > 0 {
      Pow2Add(a - 1, b);
      assert Pow2(a + b) == 2 * Pow2(a - 1 + b);
    }
  }

  lemma Pow2Of16()
    ensures Pow2(16) == 64 * KB
  {
    assert Pow2(4) == 16;
    Pow2Add(4, 4);
    Pow2Add(8, 8);
  }

  /** The accepted ids are exactly the default and the four size ids 4..7;
      1, 2, 3, 8 and every negative id are rejected. */
  lemma ValidIdsExactly(id: int)
    ensures IsValidId(id) <==> id == Default || Max64KB <= id <= Max4MB
  {
  }

  /** An id is valid exactly when its size is non-zero; the default id has the
      64KB id's size; each size id i stands for `1 << (8 + 2 * i)` bytes. */
  lemma {:induction false} SizeFromIdSpec(id: int)
    ensures SizeFromId(id) > 0 <==> IsValidId(id)
    ensures SizeFromId(Default) == SizeFromId(Max64KB)
    ensures Max64KB <= id <= Max4MB ==> SizeFromId(id) == Pow2(8 + 2 * id)
  {
    Pow2Of16();
    Pow2Add(16, 2);
    Pow2Add(16, 4);
    Pow2Add(16, 6);
    assert Pow2(2) == 4 && Pow2(4) == 16 && Pow2(6) == 64 by {
      assert Pow2(1) == 2;
      assert Pow2(3) == 8;
      assert Pow2(5) == 32;
    }
  }
}
