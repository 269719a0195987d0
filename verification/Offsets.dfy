/** src/telemetry/offset_generator.cpp: the file offset of the next request. */
module Offsets {
  import opened Types
  import opened Arithmetic
  import opened Config
  import opened Buffers
  import Kernel

  /** What O_DIRECT and the file size demand of one request. */
  ghost predicate LegalOffset(c: JobConfig, offset: int)
    requires c.alignment > 0
  {
    && 0 <= offset
    && offset % c.alignment == 0
    && offset + c.blockSize <= c.fileSize
  }

  /** Offset of the i-th sequential request, counting from zero. */
  function SequentialOffset(c: JobConfig, i: nat): nat
    requires 0 < c.blockSize <= c.fileSize
  {
    (i % (c.fileSize / c.blockSize)) * c.blockSize
  }

  /** The random branch: round a draw from [0, file - block] down to the alignment. */
  function AlignDown(raw: nat, alignment: nat): nat
    requires alignment > 0
  {
    raw / alignment * alignment
  }

  lemma AlignDownIsLegal(c: JobConfig, raw: nat)
    requires Sound(c) && raw <= c.fileSize - c.blockSize
    ensures LegalOffset(c, AlignDown(raw, c.alignment))
    ensures raw - c.alignment < AlignDown(raw, c.alignment) <= raw
  {
    RoundDown(raw, c.alignment);
  }

  /** The largest aligned offset that still fits is reached by rounding: every legal
      offset is produced by some draw, so no position is excluded. */
  lemma EveryLegalOffsetIsDrawn(c: JobConfig, offset: nat)
    requires Sound(c) && LegalOffset(c, offset)
    ensures offset <= c.fileSize - c.blockSize && AlignDown(offset, c.alignment) == offset
  {
    assert offset == c.alignment * (offset / c.alignment);
  }

  lemma SequentialOffsetIsLegal(c: JobConfig, i: nat)
    requires Sound(c)
    ensures LegalOffset(c, SequentialOffset(c, i))
  {
    var n := c.fileSize / c.blockSize;
    var k := i % n;
    assert c.fileSize == c.blockSize * n + c.fileSize % c.blockSize;
    MulMonotone(c.blockSize, k, n);
    MultipleTimes(c.blockSize, k, c.alignment);
    assert k * c.blockSize == c.blockSize * k;
  }

  /** One step of the walk: advance by a block, wrap when the next block would not fit. */
  lemma SequentialStep(c: JobConfig, i: nat)
    requires Sound(c)
    ensures SequentialOffset(c, i + 1) ==
            if SequentialOffset(c, i) + c.blockSize + c.blockSize > c.fileSize then 0
            else SequentialOffset(c, i) + c.blockSize
  {
    var n := c.fileSize / c.blockSize;
    var q, k := i / n, i % n;
    assert c.fileSize == c.blockSize * n + c.fileSize % c.blockSize;
    assert i == n * q + k;
    if k + 1 < n {
      DivModUnique(i + 1, n, q, k + 1);
      MulMonotone(c.blockSize, k + 1, n);
      assert (k + 1) * c.blockSize == k * c.blockSize + c.blockSize;
      assert k * c.blockSize == c.blockSize * k && (k + 1) * c.blockSize == c.blockSize * (k + 1);
    } else {
      assert k + 1 == n;
      assert n * (q + 1) == n * q + n;
      DivModUnique(i + 1, n, q + 1, 0);
      assert c.blockSize * n == c.blockSize * k + c.blockSize;
    }
  }

  /** The walk covers every whole block of the file once in each lap. */
  lemma SequentialLapIsInjective(c: JobConfig, i: nat, j: nat)
    requires Sound(c) && i < j < c.fileSize / c.blockSize
    ensures SequentialOffset(c, i) + c.blockSize <= SequentialOffset(c, j)
  {
    var n := c.fileSize / c.blockSize;
    DivModUnique(i, n, 0, i);
    DivModUnique(j, n, 0, j);
    MulMonotone(c.blockSize, i, j);
  }

  class OffsetGenerator {
    const config: JobConfig
    var sequentialOffset: nat
    ghost var issued: nat      // how many offsets were handed out

    ghost predicate Valid()
      reads this
    {
      && Sound(config)
      && config.fileSize <= I64_MAX
      && (config.accessPattern.Sequential? ==> sequentialOffset == SequentialOffset(config, issued))
    }

    constructor (config: JobConfig)
      requires Sound(config) && config.fileSize <= I64_MAX
      ensures Valid() && this.config == config && issued == 0
    {
      this.config := config;
      sequentialOffset := 0;
      issued := 0;
      new;
      DivModUnique(0, config.fileSize / config.blockSize, 0, 0);
    }

    /** A random generator draws once, from 0 .. file - block; a sequential one does not. */
    method Next(os: Kernel.System) returns (offset: int)
      requires Valid()
      modifies this, os
      ensures Valid()
      ensures LegalOffset(config, offset)
      ensures issued == old(issued) + 1
      ensures config.accessPattern.Sequential? ==>
        offset == SequentialOffset(config, old(issued)) && os.journal == old(os.journal)
      ensures config.accessPattern.Random? ==>
        && |os.journal| == |old(os.journal)| + 1 && old(os.journal) <= os.journal
        && var call := os.journal[|old(os.journal)|];
           && call.Drew? && call.max == config.fileSize - config.blockSize
           && offset == AlignDown(call.value, config.alignment)
    {
      if config.accessPattern.Sequential? {
        SequentialOffsetIsLegal(config, issued);
        SequentialStep(config, issued);
        Add64Exact(sequentialOffset, config.blockSize);
        Add64Exact(sequentialOffset + config.blockSize, config.blockSize);
        offset := sequentialOffset;
        sequentialOffset := Add64(sequentialOffset, config.blockSize);
        if Add64(sequentialOffset, config.blockSize) > config.fileSize {
          sequentialOffset := 0;
        }
      } else {
        var draw := os.Draw(config.fileSize - config.blockSize);
        AlignDownIsLegal(config, draw);
        offset := AlignDown(draw, config.alignment);
      }
      issued := issued + 1;
    }
  }

  /** size_t addition. */
  function Add64(a: nat, b: nat): nat {
    (a + b) % (U64_MAX + 1)
  }

  lemma Add64Exact(a: nat, b: nat)
    requires a + b <= U64_MAX
    ensures Add64(a, b) == a + b
  {
  }
}
