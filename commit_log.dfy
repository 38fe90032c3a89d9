/**
 * `MMDB::CommitLog` of lib/MMDB/CommitLog.rb: a file of fixed 512-byte
 * blocks, one per commit, appended to and read back from the end.
 *
 * The file is `None` when it does not exist and otherwise its contents, one
 * character per byte (the commit records written to it are ASCII).
 */
module CommitLog {
  import opened Wrappers

  const BLKSIZE: nat := 512

  /** The contents of the file, empty when it does not exist. */
  function Contents(file: Option<string>): string
  {
    if file.Some? then file.value else ""
  }

  /** `s.ljust(BLKSIZE, filler)` for a string that fits: s followed by fillers up to one block. */
  function Pad(s: string, filler: char): (r: string)
    requires |s| <= BLKSIZE
    ensures |r| == BLKSIZE && r[..|s|] == s
    ensures forall k :: |s| <= k < BLKSIZE ==> r[k] == filler
  {
    s + seq(BLKSIZE - |s|, _ => filler)
  }

  /** The k-th block of the data. */
  function Block(data: string, k: nat): string
    requires (k + 1) * BLKSIZE <= |data|
  {
    data[k * BLKSIZE..(k + 1) * BLKSIZE]
  }

  /** The first m blocks of the data, in order. */
  function Blocks(data: string, m: nat): (r: seq<string>)
    requires m * BLKSIZE <= |data|
    ensures |r| == m
    ensures forall k :: 0 <= k < m ==> r[k] == Block(data, k) && |r[k]| == BLKSIZE
  {
    if m == 0 then [] else Blocks(data, m - 1) + [Block(data, m - 1)]
  }

  /**
   * `last`: nil when the file is missing or empty; a size that is not a
   * whole number of blocks raises; otherwise the final block.
   */
  function Last(file: Option<string>): (r: Result<Option<string>>)
    ensures r.Err? <==> file.Some? && |file.value| % BLKSIZE != 0
    ensures r.Err? ==> r.error == RuntimeError
    ensures r == Ok(None) <==> file.None? || file.value == ""
    ensures r.Ok? && r.value.Some? ==>
      (|r.value.value| == BLKSIZE && file.Some? && r.value.value == file.value[|file.value| - BLKSIZE..])
  {
    match file
    case None => Ok(None)
    case Some(data) =>
      if |data| % BLKSIZE != 0 then Err(RuntimeError)
      else if |data| == 0 then Ok(None)
      else Ok(Some(data[|data| - BLKSIZE..]))
  }

  /**
   * `all(n)`: no blocks when the file is missing; a size that is not a whole
   * number of blocks raises.  The count n defaults to the number of blocks.
   * An empty file gives no blocks, which raises unless n is 0; a negative n
   * reads nothing, which raises too; an n beyond the blocks there reads nil
   * at the end of the file, whose `size` raises NoMethodError.  Otherwise the
   * first n blocks.
   */
  function All(file: Option<string>, n: Option<int>): (r: Result<seq<string>>)
    ensures file.None? ==> r == Ok([])
    ensures file.Some? && |file.value| % BLKSIZE != 0 ==> r == Err(RuntimeError)
    ensures file.Some? && |file.value| % BLKSIZE == 0 ==>
      var m := if n.Some? then n.value else |file.value| / BLKSIZE;
      && (m < 0 || (|file.value| == 0 && m != 0) ==> r == Err(RuntimeError))
      && (0 < |file.value| && m * BLKSIZE > |file.value| ==> r == Err(NoMethodError))
      && (0 <= m && m * BLKSIZE <= |file.value| ==> r.Ok? && |r.value| == m)
    ensures r.Ok? ==> forall k :: 0 <= k < |r.value| ==>
      (|r.value[k]| == BLKSIZE && file.Some? && (k + 1) * BLKSIZE <= |file.value| && r.value[k] == Block(file.value, k))
  {
    match file
    case None => Ok([])
    case Some(data) =>
      var sz := |data|;
      if sz % BLKSIZE != 0 then Err(RuntimeError)
      else
        var m := if n.Some? then n.value else sz / BLKSIZE;
        if sz == 0 then (if m != 0 then Err(RuntimeError) else Ok([]))
        else if m < 0 then Err(RuntimeError)
        else if m > sz / BLKSIZE then Err(NoMethodError)
        else Ok(Blocks(data, m))
  }

  /** `File.truncate` to `len` bytes: cut, or extended with zero bytes. */
  function Truncated(data: string, len: nat): (r: string)
    ensures |r| == len
    ensures forall k :: 0 <= k < len ==> r[k] == if k < |data| then data[k] else '\0'
  {
    if len <= |data| then data[..len] else data + seq(len - |data|, _ => '\0')
  }

  /** A commit log: the file it names. */
  class Log {
    var file: Option<string>

    constructor(existing: Option<string>)
      ensures file == existing
    {
      file := existing;
    }

    /**
     * `append(str, filler)`: a string longer than a block raises
     * ArgumentError and writes nothing; otherwise it is padded with the
     * filler to exactly one block and added at the end of the file, which
     * is created when missing.
     */
    method Append(str: string, filler: char) returns (r: Outcome)
      modifies this
      ensures |str| > BLKSIZE ==> r == Fail(ArgumentError) && file == old(file)
      ensures |str| <= BLKSIZE ==> r == Pass && file == Some(Contents(old(file)) + Pad(str, filler))
    {
      if |str| > BLKSIZE {
        return Fail(ArgumentError);
      }
      var block := Pad(str, filler);
      file := Some(Contents(file) + block);
      return Pass;
    }

    /** `truncate(n)`: an existing file is cut or extended to exactly n blocks; a missing one stays missing. */
    method Truncate(n: nat)
      modifies this
      ensures old(file).None? ==> file.None?
      ensures old(file).Some? ==> file == Some(Truncated(old(file).value, BLKSIZE * n))
    {
      if file.Some? {
        file := Some(Truncated(file.value, BLKSIZE * n));
      }
    }
  }

  /** A file that is missing or holds whole blocks: the only kind the log writes. */
  predicate Aligned(file: Option<string>)
  {
    file.None? || |file.value| % BLKSIZE == 0
  }

  /** Appending a block keeps the file aligned and grows it by exactly one block. */
  lemma AppendGrows(file: Option<string>, s: string, filler: char)
    requires Aligned(file) && |s| <= BLKSIZE
    ensures var after := Contents(file) + Pad(s, filler);
      Aligned(Some(after)) && |after| / BLKSIZE == |Contents(file)| / BLKSIZE + 1
  {
    var before := |Contents(file)|;
    var q := before / BLKSIZE;
    assert before == q * BLKSIZE;
    assert before + BLKSIZE == (q + 1) * BLKSIZE;
  }

  /** After `append(s)` on an aligned log, `last` reads back s padded to a block. */
  lemma {:induction false} LastAfterAppend(file: Option<string>, s: string, filler: char)
    requires Aligned(file) && |s| <= BLKSIZE
    ensures Last(Some(Contents(file) + Pad(s, filler))) == Ok(Some(Pad(s, filler)))
  {
    AppendGrows(file, s, filler);
    var before := Contents(file);
    var after := before + Pad(s, filler);
    assert after[|after| - BLKSIZE..] == Pad(s, filler);
  }

  /** After `append(s)` on an aligned log, `all` reads the old blocks followed by s padded. */
  lemma {:induction false} AllAfterAppend(file: Option<string>, s: string, filler: char)
    requires Aligned(file) && |s| <= BLKSIZE
    ensures All(file, None).Ok?
    ensures All(Some(Contents(file) + Pad(s, filler)), None) == Ok(All(file, None).value + [Pad(s, filler)])
  {
    AppendGrows(file, s, filler);
    var before := Contents(file);
    var block := Pad(s, filler);
    var after := before + block;
    var q := |before| / BLKSIZE;
    assert |before| == q * BLKSIZE;
    var prev := All(file, None).value;
    var now := All(Some(after), None).value;
    assert |prev| == q;
    assert |now| == q + 1;
    forall k | 0 <= k < q + 1
      ensures now[k] == (prev + [block])[k]
    {
      if k < q {
        assert Block(after, k) == Block(before, k);
      } else {
        assert Block(after, k) == after[|after| - BLKSIZE..];
      }
    }
    assert now == prev + [block];
  }

  /** `last` is the final block `all` reads, and either both fail or neither does. */
  lemma LastOfAll(file: Option<string>)
    ensures Last(file).Err? <==> All(file, None).Err?
    ensures Last(file).Ok? ==>
      (Last(file).value.None? <==> All(file, None).value == []) &&
      (Last(file).value.Some? ==> Last(file).value.value == All(file, None).value[|All(file, None).value| - 1])
  {
    if file.Some? && |file.value| % BLKSIZE == 0 && |file.value| > 0 {
      var q := |file.value| / BLKSIZE;
      assert |file.value| == q * BLKSIZE;
      assert (q - 1 + 1) * BLKSIZE == |file.value|;
    }
  }

  /**
   * `truncate(n)` on an existing file leaves exactly n blocks; those that
   * were there read as before.
   */
  lemma TruncateLeaves(data: string, n: nat)
    ensures All(Some(Truncated(data, BLKSIZE * n)), None).Ok?
    ensures |All(Some(Truncated(data, BLKSIZE * n)), None).value| == n
    ensures forall k :: 0 <= k < n && (k + 1) * BLKSIZE <= |data| ==>
      All(Some(Truncated(data, BLKSIZE * n)), None).value[k] == Block(data, k)
  {
    var t := Truncated(data, BLKSIZE * n);
    var bs := All(Some(t), None).value;
    forall k | 0 <= k < n && (k + 1) * BLKSIZE <= |data|
      ensures bs[k] == Block(data, k)
    {
      assert Block(t, k) == Block(data, k);
    }
  }
}
