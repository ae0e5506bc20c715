/**
 Asset transfers: the time budget and the verified download (cmd/showmeshctl/cmd_assets.go).
 */
module AssetTransfer {
  import opened Files

  const NANOSECONDS := 1_000_000_000
  const MIN_TRANSFER_BYTES_PER_SECOND := 0x10_0000
  const UPLOAD_BUDGET_GRACE := 30 * NANOSECONDS
  const UPLOAD_BUDGET_CEILING := 2 * 3600 * NANOSECONDS

  const TWO_63 := 0x8000_0000_0000_0000
  const TWO_64 := 0x1_0000_0000_0000_0000

  predicate IsInt64(n: int) {
    -TWO_63 <= n < TWO_63
  }

  function Wrap64(n: int): (r: int)
    ensures IsInt64(r) && (IsInt64(n) ==> r == n)
  {
    var m := n % TWO_64;
    if m < TWO_63 then m else m - TWO_64
  }

  /** Nanoseconds that `size` bytes take at the slowest rate allowed for, whole ones. */
  function TransferNanos(size: nat): nat {
    size * NANOSECONDS / MIN_TRANSFER_BYTES_PER_SECOND
  }

  /** Converting a float64 that no int64 can represent gives a value of the platform's choosing. */
  function ToDuration(nanos: nat, outOfRange: int): int {
    if nanos < TWO_63 then nanos else outOfRange
  }

  function UploadBudget(size: int, outOfRange: int): int {
    var transfer := ToDuration(TransferNanos(if size < 0 then 0 else size), outOfRange);
    var budget := Wrap64(transfer + UPLOAD_BUDGET_GRACE);
    if budget > UPLOAD_BUDGET_CEILING then UPLOAD_BUDGET_CEILING else budget
  }

  /** The larger of the two: the flag can only raise the budget. */
  function EffectiveTransferTimeout(flagTimeout: int, size: int, outOfRange: int): (r: int)
    ensures r >= flagTimeout && r >= UploadBudget(size, outOfRange)
    ensures r == flagTimeout || r == UploadBudget(size, outOfRange)
  {
    var budget := UploadBudget(size, outOfRange);
    if flagTimeout > budget then flagTimeout else budget
  }

  /** The largest size whose transfer time plus the grace still fits in a Duration: 8.6 PiB. */
  const LAST_SOUND_SIZE: int := 9_671_406_525_459_753

  lemma SoundSizes(size: int)
    ensures size <= LAST_SOUND_SIZE <==>
      TransferNanos(if size < 0 then 0 else size) + UPLOAD_BUDGET_GRACE < TWO_63
  {
    if 0 <= size {
      if size <= LAST_SOUND_SIZE {
        TransferMonotone(size, LAST_SOUND_SIZE);
      } else {
        TransferMonotone(LAST_SOUND_SIZE + 1, size);
      }
    }
  }

  lemma TransferMonotone(a: nat, b: nat)
    requires a <= b
    ensures TransferNanos(a) <= TransferNanos(b)
  {
    var x, y := a * NANOSECONDS, b * NANOSECONDS;
    assert x <= y;
  }

  /** Up to the last sound size the budget lies between the grace of 30 s and the ceiling of two hours and
      grows with the size; below the ceiling it is the grace and the whole nanoseconds that the bytes take
      at 1 MiB/s, no more and no less; and it is the ceiling only when they leave no room under it. */
  lemma BudgetSound(size: int, larger: int, outOfRange: int)
    requires size <= larger <= LAST_SOUND_SIZE
    ensures var b := UploadBudget(size, outOfRange);
      var bytes := if size < 0 then 0 else size;
      && 30_000_000_000 <= b <= 7_200_000_000_000
      && b <= UploadBudget(larger, outOfRange)
      && (b < 7_200_000_000_000 ==>
            (b - 30_000_000_000) * 1_048_576 <= bytes * 1_000_000_000 < (b - 30_000_000_000 + 1) * 1_048_576)
      && (b == 7_200_000_000_000 ==> bytes * 1_000_000_000 >= (b - 30_000_000_000) * 1_048_576)
  {
    SoundSizes(size);
    SoundSizes(larger);
    TransferMonotone(if size < 0 then 0 else size, if larger < 0 then 0 else larger);
  }

  /** Beyond it the sum no longer fits, and the budget can come out negative: the bounds hold on every
      platform exactly up to the last sound size. */
  lemma BudgetBoundsExactly(size: int)
    requires IsInt64(size)
    ensures size <= LAST_SOUND_SIZE <==>
      forall outOfRange :: IsInt64(outOfRange) ==>
        UPLOAD_BUDGET_GRACE <= UploadBudget(size, outOfRange) <= UPLOAD_BUDGET_CEILING
  {
    SoundSizes(size);
    if size <= LAST_SOUND_SIZE {
      forall outOfRange | IsInt64(outOfRange)
        ensures UPLOAD_BUDGET_GRACE <= UploadBudget(size, outOfRange) <= UPLOAD_BUDGET_CEILING
      {
        BudgetSound(size, size, outOfRange);
      }
    } else {
      assert UploadBudget(size, -TWO_63) < 0;
    }
  }

  /** The download steps of cmdAssetsFetch. `body` is what the response delivers and `complete`
      whether the copy ends without error; `hash` is the content hash in its recorded spelling. Until
      a complete download has matched the recorded hash nothing but the temporary file changes, at
      any point; the name CreateTemp picks is not the target's. */
  method FetchAsset(fs: FileSystem, out: Path, body: Bytes, complete: bool, recorded: string,
                    hash: Bytes -> string, tmp: Path, faults: Faults) returns (wrote: bool)
    requires tmp != out
    modifies fs
    ensures old(fs.trace) <= fs.trace
    ensures SwitchesAtTheEnd(fs.trace, |old(fs.trace)|, old(fs.files), tmp, out, body, wrote)
    ensures wrote ==> complete && hash(body) == recorded && fs.files == old(fs.files)[out := body]
    ensures !wrote ==> Untouched(old(fs.files), fs.files, tmp)
    ensures !wrote && !faults.remove && tmp !in old(fs.files) ==> fs.files == old(fs.files)
    ensures wrote == (complete && hash(body) == recorded && !faults.create && tmp !in old(fs.files)
                      && |body| <= faults.written && !faults.close && !faults.rename)
  {
    ghost var before := fs.files;
    var staged := Stage(fs, tmp, body, !complete || hash(body) != recorded, faults);
    if !staged {
      return false;
    }
    StagedTwice(before, tmp, out, body);
    wrote := Commit(fs, tmp, out, faults);
  }
}
