/**
 * `MmapFile` of ext/MMDB/MmapFile.h: a file mapped into memory, with a
 * logical size (the bytes in use) inside a larger capacity (the mapped and
 * truncated length), grown by doubling when a write reaches past it.
 *
 * The mapping is the sequence of its `capacity` bytes.  What the operating
 * system decides is passed in: the file's bytes at open time (None when
 * `open` or `fstat` fails) and whether `ftruncate` and `mmap` succeed.
 *
 * `open` as written truncates the file to its capacity in every access
 * mode, but a descriptor opened `O_RDONLY` cannot be truncated (POSIX
 * `ftruncate` fails with EBADF or EINVAL on a descriptor not open for
 * writing), so a read-only `open` never succeeds.  `Open` models the code
 * as written; `OpenFixed` truncates only a writable file, and is the one
 * the column store uses.
 */
module MappedFile {
  import opened Wrappers
  import opened Bytes
  import opened FieldTypes

  /** The smallest capacity of at least 16 pages `open` maps. */
  const MIN_OPEN_CAPA: nat := 16 * 4096
  /** The smallest capacity `expand` maps. */
  const MIN_EXPAND_CAPA: nat := 4096

  /** A file's bytes after `ftruncate` to n: cut, or padded with zero bytes. */
  function Resize(disk: seq<Byte>, n: nat): (r: seq<Byte>)
    ensures |r| == n
    ensures forall k :: 0 <= k < n ==> r[k] == if k < |disk| then disk[k] else 0
  {
    if n <= |disk| then disk[..n] else disk + Fill(n - |disk|, 0)
  }

  /**
   * The capacity the doubling loop of `ptr_write_at` arrives at: `c` doubled
   * until it holds `need` bytes.  It is the first doubling that fits, so
   * under twice the need whenever growth was necessary.
   */
  function Grow(c: nat, need: nat): (r: nat)
    requires c > 0
    ensures r >= need && r >= c
    ensures c < need ==> r < 2 * need
    ensures c >= need ==> r == c
    decreases need - c
  {
    if c >= need then c else Grow(2 * c, need)
  }

  /** `ftruncate(fh, capa)` as `open` calls it: never on a read-only descriptor, otherwise as the system answers. */
  predicate Truncates(ro: bool, truncOk: bool)
  {
    !ro && truncOk
  }

  /** Whether `open` as written succeeds on a file that is not open yet. */
  predicate OpenSucceeds(fileLength: nat, ro: bool, disk: Option<seq<Byte>>, truncOk: bool, mapOk: bool)
  {
    disk.Some? && fileLength <= |disk.value| && Truncates(ro, truncOk) && mapOk
  }

  /** Whether `open` succeeds when only a writable file is truncated. */
  predicate OpenFixedSucceeds(fileLength: nat, ro: bool, disk: Option<seq<Byte>>, truncOk: bool, mapOk: bool)
  {
    disk.Some? && fileLength <= |disk.value| && (ro || truncOk) && mapOk
  }

  /** As written, a read-only `open` fails whatever the file holds and the system answers. */
  lemma ReadOnlyNeverOpens(fileLength: nat, disk: Option<seq<Byte>>, truncOk: bool, mapOk: bool)
    ensures !OpenSucceeds(fileLength, true, disk, truncOk, mapOk)
  {
  }

  /** With the truncation skipped for read-only files, an existing file long enough and mappable opens read-only. */
  lemma ReadOnlyOpensFixed(fileLength: nat, disk: Option<seq<Byte>>, truncOk: bool, mapOk: bool)
    requires disk.Some? && fileLength <= |disk.value| && mapOk
    ensures OpenFixedSucceeds(fileLength, true, disk, truncOk, mapOk)
  {
  }

  /** For a writable file the correction changes nothing. */
  lemma FixedAgreesWhenWritable(fileLength: nat, disk: Option<seq<Byte>>, truncOk: bool, mapOk: bool)
    ensures OpenFixedSucceeds(fileLength, false, disk, truncOk, mapOk) == OpenSucceeds(fileLength, false, disk, truncOk, mapOk)
  {
  }

  class MmapFile {
    var hasFh: bool
    var hasPtr: bool
    var size: nat
    var capa: nat
    var readonly: bool
    var data: seq<Byte>

    /** A mapping covers `capa` bytes, at least one page, and holds the logical size. */
    predicate Valid()
      reads this
    {
      hasPtr ==> |data| == capa && size <= capa && capa >= MIN_EXPAND_CAPA
    }

    /** `valid()`: both the descriptor and the mapping are there. */
    predicate IsOpen()
      reads this
    {
      hasFh && hasPtr
    }

    /** The bytes in use. */
    function Contents(): seq<Byte>
      reads this
      requires Valid() && hasPtr
    {
      data[..size]
    }

    constructor()
      ensures Valid() && !hasFh && !hasPtr && size == 0 && capa == 0 && readonly && data == []
    {
      hasFh, hasPtr := false, false;
      size, capa := 0, 0;
      readonly := true;
      data := [];
    }

    /**
     * `open` as written: fails without effect when already open, when the
     * file cannot be opened or examined, when it is shorter than
     * `fileLength`, or when truncating or mapping fails, so always when
     * read-only.  Otherwise maps max(fileLength, 16 pages) bytes of it, of
     * which the first `fileLength` are in use.
     */
    method Open(fileLength: nat, ro: bool, disk: Option<seq<Byte>>, truncOk: bool, mapOk: bool) returns (ok: bool)
      requires Valid()
      modifies this
      ensures Valid()
      ensures ok <==> !old(IsOpen()) && OpenSucceeds(fileLength, ro, disk, truncOk, mapOk)
      ensures ro ==> !ok
      ensures !ok ==> unchanged(this)
      ensures ok ==> IsOpen() && size == fileLength && readonly == ro
      ensures ok ==> capa == (if fileLength < MIN_OPEN_CAPA then MIN_OPEN_CAPA else fileLength)
      ensures ok ==> data == Resize(disk.value, capa) && Contents() == disk.value[..fileLength]
    {
      if IsOpen() {
        return false;
      }
      if disk.None? {
        return false;
      }
      if fileLength > |disk.value| {
        return false;
      }
      var c := fileLength;
      if c < MIN_OPEN_CAPA {
        c := MIN_OPEN_CAPA;
      }
      if !Truncates(ro, truncOk) || !mapOk {
        return false;
      }
      hasFh, hasPtr := true, true;
      size, capa := fileLength, c;
      readonly := ro;
      data := Resize(disk.value, c);
      return true;
    }

    /**
     * `open` with the truncation made only for a writable file: a read-only
     * file is mapped as it is.  The bytes of the mapping past the end of
     * the file, which a read-only file never reads, are taken as zero.
     */
    method OpenFixed(fileLength: nat, ro: bool, disk: Option<seq<Byte>>, truncOk: bool, mapOk: bool) returns (ok: bool)
      requires Valid()
      modifies this
      ensures Valid()
      ensures ok <==> !old(IsOpen()) && OpenFixedSucceeds(fileLength, ro, disk, truncOk, mapOk)
      ensures !ok ==> unchanged(this)
      ensures ok ==> IsOpen() && size == fileLength && readonly == ro
      ensures ok ==> capa == (if fileLength < MIN_OPEN_CAPA then MIN_OPEN_CAPA else fileLength)
      ensures ok ==> data == Resize(disk.value, capa) && Contents() == disk.value[..fileLength]
    {
      if IsOpen() {
        return false;
      }
      if disk.None? {
        return false;
      }
      if fileLength > |disk.value| {
        return false;
      }
      var c := fileLength;
      if c < MIN_OPEN_CAPA {
        c := MIN_OPEN_CAPA;
      }
      if !ro && !truncOk {
        return false;
      }
      if !mapOk {
        return false;
      }
      hasFh, hasPtr := true, true;
      size, capa := fileLength, c;
      readonly := ro;
      data := Resize(disk.value, c);
      return true;
    }

    /** `close`: unmaps and closes whatever is there; the sizes stay as they were. */
    method Close()
      modifies this
      ensures !hasFh && !hasPtr
      ensures size == old(size) && capa == old(capa) && readonly == old(readonly) && data == old(data)
    {
      hasPtr := false;
      hasFh := false;
    }

    /**
     * `expand`: requests below one page become one page; a capacity below the
     * current one fails without effect.  Otherwise the old mapping is dropped
     * first, so when truncating or mapping fails the file is left unmapped;
     * on success the mapping has the new capacity, zero-filled past the old.
     */
    method Expand(newCapa: nat, osOk: bool) returns (ok: bool)
      requires Valid() && IsOpen() && !readonly
      modifies this
      ensures Valid() && hasFh && size == old(size) && readonly == old(readonly)
      ensures var want := if newCapa < MIN_EXPAND_CAPA then MIN_EXPAND_CAPA else newCapa;
        && (want < old(capa) ==> !ok && unchanged(this))
        && (want >= old(capa) && !osOk ==> !ok && !hasPtr && capa == old(capa) && data == old(data))
        && (want >= old(capa) && osOk ==> ok && hasPtr && capa == want && data == Resize(old(data), want))
    {
      var want := newCapa;
      if want < MIN_EXPAND_CAPA {
        want := MIN_EXPAND_CAPA;
      }
      if want < capa {
        return false;
      }
      hasPtr := false;
      if !osOk {
        return false;
      }
      capa := want;
      data := Resize(data, want);
      hasPtr := true;
      return true;
    }

    /**
     * `ptr_write_at`: makes `[offset, offset+length)` writable.  When it lies
     * past the capacity, the capacity is doubled until it fits; if that
     * expansion fails the result is NULL.  Otherwise the logical size grows
     * to cover the range and the result points at `offset`.
     */
    method PtrWriteAt(offset: nat, length: nat, osOk: bool) returns (r: Option<nat>)
      requires Valid() && IsOpen() && !readonly
      modifies this
      ensures Valid() && hasFh && readonly == old(readonly)
      ensures r.None? <==> offset + length > old(capa) && !osOk
      ensures r.None? ==> !hasPtr && size == old(size) && capa == old(capa) && data == old(data)
      ensures r.Some? ==> r.value == offset && hasPtr
      ensures r.Some? ==> capa == Grow(old(capa), offset + length) && data == Resize(old(data), capa)
      ensures r.Some? ==> size == (if old(size) < offset + length then offset + length else old(size))
      ensures r.Some? ==> offset + length <= size <= capa
    {
      if offset + length > capa {
        var newCapa := capa;
        while newCapa < offset + length
          invariant newCapa > 0 && Grow(newCapa, offset + length) == Grow(capa, offset + length)
          decreases offset + length - newCapa
        {
          newCapa := newCapa * 2;
        }
        var ok := Expand(newCapa, osOk);
        if !ok {
          return None;
        }
      }
      if size < offset + length {
        size := offset + length;
      }
      return Some(offset);
    }

    /** `ptr_append`: writing at the logical end, so the size grows by exactly `length`. */
    method PtrAppend(length: nat, osOk: bool) returns (r: Option<nat>)
      requires Valid() && IsOpen() && !readonly
      modifies this
      ensures Valid() && hasFh && readonly == old(readonly)
      ensures r.None? <==> old(size) + length > old(capa) && !osOk
      ensures r.None? ==> !hasPtr && size == old(size) && data == old(data)
      ensures r.Some? ==> r.value == old(size) && hasPtr && size == old(size) + length
      ensures r.Some? ==> Contents()[..old(size)] == old(Contents())
    {
      r := PtrWriteAt(size, length, osOk);
      if r.Some? {
        assert Contents()[..old(size)] == old(Contents());
      }
    }

    /** `ptr_read_at`: NULL exactly when the range reaches past the logical size. */
    method PtrReadAt(offset: nat, length: nat) returns (r: Option<nat>)
      requires Valid() && hasPtr
      ensures r.None? <==> offset + length > size
      ensures r.Some? ==> r.value == offset && Contents()[offset..offset + length] == data[offset..offset + length]
    {
      if offset + length > size {
        return None;
      }
      assert forall k :: offset <= k < offset + length ==> Contents()[k] == data[k];
      return Some(offset);
    }

    /** Copying `bytes` through a pointer handed out for `[offset, offset+|bytes|)`. */
    method WriteThrough(offset: nat, bytes: seq<Byte>)
      requires Valid() && hasPtr && offset + |bytes| <= size
      modifies this`data
      ensures Valid() && data == Overwrite(old(data), offset, bytes)
      ensures Contents() == Overwrite(old(Contents()), offset, bytes)
    {
      data := Overwrite(data, offset, bytes);
      assert Contents() == Overwrite(old(Contents()), offset, bytes);
    }

    /**
     * `ptr_append` followed by a copy through the pointer, as the column
     * store writes: on success the bytes in use are the old ones followed by
     * `bytes`.
     */
    method Append(bytes: seq<Byte>, osOk: bool) returns (ok: bool)
      requires Valid() && IsOpen() && !readonly
      modifies this
      ensures Valid() && hasFh && readonly == old(readonly)
      ensures ok <==> old(size) + |bytes| <= old(capa) || osOk
      ensures ok ==> hasPtr && Contents() == old(Contents()) + bytes
      ensures !ok ==> !hasPtr && size == old(size) && data == old(data)
    {
      var p := PtrAppend(|bytes|, osOk);
      if p.None? {
        return false;
      }
      ghost var prefix := Contents()[..old(size)];
      WriteThrough(p.value, bytes);
      assert Contents() == prefix + bytes;
      return true;
    }
  }

  /** The data in use survive growth: resizing to a larger capacity keeps every byte below the old one. */
  lemma ResizeKeeps(data: seq<Byte>, n: nat, size: nat)
    requires size <= |data| <= n
    ensures Resize(data, n)[..size] == data[..size]
  {
  }
}
