/**
 * `LineReader::readline` of include/LineReader.h: a fixed buffer holding
 * the bytes read but not yet returned at `buf[bufoffs .. bufoffs+buflen)`,
 * refilled from a reader and compacted to the front when the space behind
 * it runs out.  Each call returns the next line, NUL-terminated in place.
 *
 * The reader is abstract: a sequence of read results, each either a
 * non-empty block of bytes or a read error; the end of the sequence is end
 * of file.  A read takes at most the requested number of bytes from the
 * front block.
 */
module LineReading {
  import opened Wrappers

  datatype Chunk = Data(bytes: seq<char>) | Failure

  /** Every block of bytes the reader still holds is non-empty (a read of 0 means end of file). */
  predicate NonEmpty(cs: seq<Chunk>)
  {
    forall i :: 0 <= i < |cs| && cs[i].Data? ==> |cs[i].bytes| > 0
  }

  /** The bytes the reader delivers before its first error. */
  function Stream(cs: seq<Chunk>): seq<char>
  {
    if cs == [] || cs[0].Failure? then [] else cs[0].bytes + Stream(cs[1..])
  }

  /** How much the reader still has to deliver: a bound for the refill loop. */
  function Measure(cs: seq<Chunk>): nat
  {
    if cs == [] then 0 else (if cs[0].Data? then |cs[0].bytes| else 0) + 1 + Measure(cs[1..])
  }

  /** The reader after delivering the first n bytes of its front block. */
  function Taken(cs: seq<Chunk>, n: nat): seq<Chunk>
    requires cs != [] && cs[0].Data? && 0 < n <= |cs[0].bytes|
  {
    if n == |cs[0].bytes| then cs[1..] else [Data(cs[0].bytes[n..])] + cs[1..]
  }

  /** Delivering a prefix of the front block loses no byte and brings the reader closer to its end. */
  lemma TakeFront(cs: seq<Chunk>, n: nat)
    requires cs != [] && cs[0].Data? && 0 < n <= |cs[0].bytes| && NonEmpty(cs)
    ensures cs[0].bytes[..n] + Stream(Taken(cs, n)) == Stream(cs)
    ensures Measure(Taken(cs, n)) < Measure(cs) && NonEmpty(Taken(cs, n))
  {
    var d := cs[0].bytes;
    var rest := cs[1..];
    assert Stream(cs) == d + Stream(rest);
    if n == |d| {
      assert d[..n] == d;
    } else {
      var t := Taken(cs, n);
      assert t[0] == Data(d[n..]) && t[1..] == rest;
      assert Stream(t) == d[n..] + Stream(rest);
      assert forall i :: 1 <= i < |t| ==> t[i] == cs[i];
      JoinAssoc(d[..n], d[n..], Stream(rest));
      assert d[..n] + d[n..] == d;
    }
  }

  lemma JoinAssoc(a: seq<char>, b: seq<char>, c: seq<char>)
    ensures a + (b + c) == (a + b) + c
  {
  }

  predicate NoNewline(s: seq<char>)
  {
    forall k :: 0 <= k < |s| ==> s[k] != '\n'
  }

  lemma NoNewlineJoin(a: seq<char>, b: seq<char>)
    requires NoNewline(a) && NoNewline(b)
    ensures NoNewline(a + b)
  {
  }

  class LineReader {
    const buf: array<char>
    const bufsz: nat
    var buflen: nat
    var bufoffs: nat
    var fdIsEof: bool
    var input: seq<Chunk>

    /** The pending bytes and the NUL slot after them stay inside the buffer; end of file means the reader is drained. */
    predicate Valid()
      reads this
    {
      buf.Length == bufsz >= 1 && bufoffs + buflen <= bufsz - 1 &&
      (fdIsEof ==> input == []) && NonEmpty(input)
    }

    /** The bytes read into the buffer and not yet returned. */
    function Pending(): seq<char>
      reads this, buf
      requires bufoffs + buflen <= buf.Length
    {
      buf[bufoffs..bufoffs + buflen]
    }

    /** Everything still to be returned: the pending bytes, then what the reader will deliver. */
    function Content(): seq<char>
      reads this, buf
      requires bufoffs + buflen <= buf.Length
    {
      Pending() + Stream(input)
    }

    function LineAt(st: nat, len: nat): seq<char>
      reads buf
      requires st + len <= buf.Length
    {
      buf[st..st + len]
    }

    constructor(reader: seq<Chunk>, buf: array<char>)
      requires buf.Length >= 1 && NonEmpty(reader)
      ensures this.buf == buf && bufsz == buf.Length && input == reader
      ensures buflen == 0 && bufoffs == 0 && !fdIsEof
      ensures Valid() && Content() == Stream(reader)
    {
      this.buf := buf;
      bufsz := buf.Length;
      buflen, bufoffs := 0, 0;
      fdIsEof := false;
      input := reader;
    }

    /** The first newline among `buf[from .. from+len)`, as an offset from `from`. */
    method FindNewline(from: nat, len: nat) returns (r: Option<nat>)
      requires from + len <= buf.Length
      ensures r.Some? ==> r.value < len && buf[from + r.value] == '\n'
      ensures r.Some? ==> NoNewline(buf[from..from + r.value])
      ensures r.None? ==> NoNewline(buf[from..from + len])
    {
      var i := 0;
      while i < len
        invariant 0 <= i <= len
        invariant forall k :: from <= k < from + i ==> buf[k] != '\n'
      {
        if buf[from + i] == '\n' {
          return Some(i);
        }
        i := i + 1;
      }
      return None;
    }

    /**
     * `reader->read(&buf[at], max)`: -1 on a read error, 0 at end of file,
     * otherwise up to `max` bytes from the front block, stored at `at`.
     */
    method Read(at: nat, max: nat) returns (nread: int)
      requires Valid() && max > 0 && at + max <= buf.Length
      modifies this`input, buf
      ensures Valid() && -1 <= nread <= max
      ensures nread == -1 <==> old(input) != [] && old(input)[0].Failure?
      ensures nread == 0 <==> old(input) == []
      ensures nread <= 0 ==> input == old(input) && buf[..] == old(buf[..])
      ensures nread > 0 ==> nread <= max && Measure(input) < old(Measure(input))
      ensures nread > 0 ==> buf[at..at + nread] + Stream(input) == old(Stream(input))
      ensures forall k :: 0 <= k < buf.Length && !(at <= k < at + nread) ==> buf[k] == old(buf[k])
    {
      if input == [] {
        return 0;
      }
      if input[0].Failure? {
        return -1;
      }
      var d := input[0].bytes;
      var n := if |d| < max then |d| else max;
      CopyIn(at, d[..n]);
      TakeFront(input, n);
      input := Taken(input, n);
      return n;
    }

    /** Stores `bytes` at `buf[at ..]`, leaving the rest of the buffer alone. */
    method CopyIn(at: nat, bytes: seq<char>)
      requires at + |bytes| <= buf.Length
      modifies buf
      ensures buf[at..at + |bytes|] == bytes
      ensures forall k :: 0 <= k < buf.Length && !(at <= k < at + |bytes|) ==> buf[k] == old(buf[k])
    {
      var i := 0;
      while i < |bytes|
        invariant 0 <= i <= |bytes|
        invariant forall k :: at <= k < at + i ==> buf[k] == bytes[k - at]
        invariant forall k :: 0 <= k < buf.Length && !(at <= k < at + i) ==> buf[k] == old(buf[k])
      {
        buf[at + i] := bytes[i];
        i := i + 1;
      }
    }

    /** Moves the pending bytes to the front of the buffer. */
    method Compact()
      requires Valid() && bufoffs > 0
      modifies this`bufoffs, buf
      ensures Valid() && bufoffs == 0
      ensures Pending() == old(Pending())
    {
      var i := 0;
      while i < buflen
        invariant 0 <= i <= buflen && bufoffs == old(bufoffs)
        invariant forall k :: 0 <= k < i ==> buf[k] == old(buf[bufoffs + k])
        invariant forall k :: i <= k < buf.Length ==> buf[k] == old(buf[k])
      {
        buf[i] := buf[bufoffs + i];
        i := i + 1;
      }
      bufoffs := 0;
    }

    /**
     * What a returned line promises about the content `before` the call: the
     * line `buf[st .. st+len)` is NUL-terminated in place, holds no newline
     * and is taken from the front of `before` — followed by its newline, or
     * (without one) at end of file, which then leaves nothing, or because it
     * fills the whole buffer.
     */
    predicate Delivered(st: nat, len: nat, before: seq<char>)
      reads this, buf
      requires Valid()
    {
      && st + len < bufsz && buf[st + len] == '\0'
      && NoNewline(LineAt(st, len))
      && (|| before == LineAt(st, len) + ['\n'] + Content()
          || (before == LineAt(st, len) + Content() && ((fdIsEof && Content() == []) || len == bufsz - 1)))
    }

    /**
     * `readline`.  NULL once end of file was seen with nothing pending, or
     * when the reader fails; nothing is lost either way.  Otherwise the next
     * line, as `Delivered` states.
     */
    method Readline() returns (r: Option<(nat, nat)>)
      requires Valid()
      modifies this, buf
      ensures Valid()
      ensures old(fdIsEof) && old(buflen) == 0 ==> r.None?
      ensures r.None? ==> Content() == old(Content())
      ensures r.None? ==> (old(fdIsEof) && old(buflen) == 0) || (input != [] && input[0].Failure?)
      ensures r.Some? ==> Delivered(r.value.0, r.value.1, old(Content()))
    {
      if fdIsEof && buflen == 0 {
        return None;
      }
      var i := FindNewline(bufoffs, buflen);
      if i.Some? {
        r := TakeLine(bufoffs, i.value, buflen - i.value - 1);
        return;
      }
      if fdIsEof {
        r := TakeRest();
        return;
      }
      r := Refill();
    }

    /** The `for (;;)` loop of `readline`: refill, or compact, until a line can be returned. */
    method Refill() returns (r: Option<(nat, nat)>)
      requires Valid() && !fdIsEof && NoNewline(Pending())
      modifies this, buf
      ensures Valid()
      ensures r.None? ==> Content() == old(Content()) && input != [] && input[0].Failure?
      ensures r.Some? ==> Delivered(r.value.0, r.value.1, old(Content()))
    {
      while true
        invariant Valid() && !fdIsEof
        invariant Content() == old(Content())
        invariant NoNewline(Pending())
        decreases Measure(input), bufoffs
      {
        var maxRead: int := (bufsz - 1) - (buflen + bufoffs);
        if maxRead > 0 {
          var done;
          done, r := ReadStep(maxRead);
          if done {
            return;
          }
        } else {
          if bufoffs == 0 {
            r := TakeRest();
            return;
          }
          Compact();
        }
      }
    }

    /**
     * One read into the free space behind the pending bytes: NULL on an
     * error; the rest as a line at end of file; the line up to a newline among
     * the new bytes; otherwise the new bytes become pending (not done).
     */
    method ReadStep(maxRead: nat) returns (done: bool, r: Option<(nat, nat)>)
      requires Valid() && !fdIsEof && NoNewline(Pending())
      requires maxRead > 0 && maxRead == (bufsz - 1) - (buflen + bufoffs)
      modifies this, buf
      ensures Valid()
      ensures done && r.None? ==> Content() == old(Content()) && input != [] && input[0].Failure?
      ensures done && r.Some? ==> Delivered(r.value.0, r.value.1, old(Content()))
      ensures !done ==> !fdIsEof && Content() == old(Content()) && NoNewline(Pending())
      ensures !done ==> Measure(input) < old(Measure(input)) && bufoffs == old(bufoffs)
    {
      ghost var before := Pending();
      var nread := Read(bufoffs + buflen, maxRead);
      assert Pending() == before;
      if nread < 0 {
        assert Content() == before + Stream(input);
        return true, None;
      }
      if nread == 0 {
        fdIsEof := true;
        r := TakeRest();
        return true, r;
      }
      assert old(Content()) == Pending() + buf[bufoffs + buflen..bufoffs + buflen + nread] + Stream(input);
      done, r := Absorb(nread, old(Content()));
    }

    /**
     * The `nread` bytes just read behind the pending ones: the line up to the
     * first newline among them, or else they become pending.
     */
    method Absorb(nread: nat, ghost whole: seq<char>) returns (done: bool, r: Option<(nat, nat)>)
      requires Valid() && NoNewline(Pending()) && nread > 0 && !fdIsEof
      requires bufoffs + buflen + nread <= bufsz - 1
      requires whole == Pending() + buf[bufoffs + buflen..bufoffs + buflen + nread] + Stream(input)
      modifies this`buflen, this`bufoffs, buf
      ensures Valid() && done == r.Some?
      ensures done ==> Delivered(r.value.0, r.value.1, whole)
      ensures !done ==> Content() == whole && NoNewline(Pending()) && bufoffs == old(bufoffs)
    {
      ghost var before := Pending();
      var from := bufoffs + buflen;
      ghost var readBytes := buf[from..from + nread];
      var j := FindNewline(from, nread);
      buflen := buflen + nread;
      assert Pending() == before + readBytes;
      assert Content() == whole;
      if j.Some? {
        ghost var seen := buf[from..from + j.value];
        NoNewlineJoin(before, seen);
        assert buf[bufoffs..from + j.value] == before + seen;
        r := TakeLine(bufoffs, buflen - nread + j.value, nread - j.value - 1);
        return true, r;
      }
      NoNewlineJoin(before, readBytes);
      return false, None;
    }

    /** Ends the line of `len` bytes at `st` (= bufoffs) at the newline after it, keeping `rest` bytes pending. */
    method TakeLine(st: nat, len: nat, rest: nat) returns (r: Option<(nat, nat)>)
      requires Valid() && st == bufoffs && buflen == len + 1 + rest
      requires buf[st + len] == '\n' && NoNewline(buf[st..st + len])
      modifies this`bufoffs, this`buflen, buf
      ensures Valid() && r == Some((st, len))
      ensures st + len < bufsz && buf[st + len] == '\0'
      ensures NoNewline(LineAt(st, len))
      ensures old(Content()) == LineAt(st, len) + ['\n'] + Content()
    {
      ghost var line := buf[st..st + len];
      ghost var after := buf[st + len + 1..st + buflen];
      assert old(Pending()) == line + ['\n'] + after;
      buf[st + len] := '\0';
      bufoffs := st + len + 1;
      buflen := rest;
      assert Pending() == after;
      assert LineAt(st, len) == line;
      return Some((st, len));
    }

    /** Returns all pending bytes as the line, NUL-terminated, leaving nothing pending. */
    method TakeRest() returns (r: Option<(nat, nat)>)
      requires Valid()
      modifies this`buflen, buf
      ensures Valid() && r == Some((old(bufoffs), old(buflen))) && buflen == 0
      ensures bufoffs + old(buflen) < bufsz && buf[bufoffs + old(buflen)] == '\0'
      ensures LineAt(bufoffs, old(buflen)) == old(Pending())
      ensures old(Content()) == LineAt(bufoffs, old(buflen)) + Content()
    {
      ghost var line := Pending();
      buf[bufoffs + buflen] := '\0';
      assert Pending() == line;
      r := Some((bufoffs, buflen));
      buflen := 0;
      assert LineAt(bufoffs, old(buflen)) == line;
    }
  }
}
