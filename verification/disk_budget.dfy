/** The default disk budget both disk caches compute
    (`calculateDiskCacheSize`): a fiftieth of the volume's total size,
    clamped to between 5 MiB and 20 MiB. */
module DiskBudget {
  import opened Common

  /** `MIN_DISK_CACHE_SIZE` and `MAX_DISK_CACHE_SIZE`. */
  const MinDiskCacheSize: int := 5 * 1024 * 1024
  const MaxDiskCacheSize: int := 20 * 1024 * 1024

  /** What `StatFs` reports for a directory's volume: block count and block
      size, both `long`. */
  datatype BlockStat = BlockStat(blockCount: int, blockSize: int)

  /** The budget for a directory whose volume statistics are `stat`; `None`
      stands for `StatFs` throwing IllegalArgumentException, which leaves
      the computed size at 0. The product of the two statistics is a `long`
      multiplication and wraps; the division truncates. */
  function CalculateDiskCacheSize(stat: Option<BlockStat>): (size: int)
    ensures MinDiskCacheSize <= size <= MaxDiskCacheSize
    ensures stat.None? ==> size == MinDiskCacheSize
  {
    var computed :=
      match stat
      case None => 0
      case Some(st) => JavaDiv(Wrap64(st.blockCount * st.blockSize), 50);
    Max(Min(computed, MaxDiskCacheSize), MinDiskCacheSize)
  }

  /** Between the two bounds the budget is exactly a fiftieth of the volume;
      a small volume gets the minimum and a large one the maximum. */
  lemma BudgetIsFiftiethOfVolume(blockCount: int, blockSize: int)
    requires 0 <= blockCount * blockSize <= LongMax
    ensures var total := blockCount * blockSize;
      var size := CalculateDiskCacheSize(Some(BlockStat(blockCount, blockSize)));
      && (total / 50 <= MinDiskCacheSize ==> size == MinDiskCacheSize)
      && (total / 50 >= MaxDiskCacheSize ==> size == MaxDiskCacheSize)
      && (MinDiskCacheSize <= total / 50 <= MaxDiskCacheSize ==> size == total / 50)
  {
    var total := blockCount * blockSize;
    assert Wrap64(total) == total;
    assert JavaDiv(total, 50) == total / 50;
  }
}
