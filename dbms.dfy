/**
 * `MMDB::DBMS` of lib/MMDB/DBMS.rb: a directory of column-store databases
 * sharing one commit log.  Each commit appends one record
 * `external_state,slices1,records1,...` to the log; opening the directory
 * reads the last record back and reopens each database at the counts
 * committed for it.
 *
 * The databases themselves (`DB.open`, `db.commit`, `db.close`) belong to
 * the column store; here a database is the arguments it was opened with,
 * and what `DB.open` and `db.commit` answer is passed in.
 */
module Dbms {
  import opened Wrappers
  import opened RubyValues
  import opened Decimal
  import opened CommitLog

  // ---------------------------------------------------------------------
  // String#split and Array#join with a one-character separator
  // ---------------------------------------------------------------------

  /** The position of the first c in s, or |s| when there is none. */
  function IndexOfChar(s: string, c: char): (i: nat)
    ensures i <= |s| && (i < |s| ==> s[i] == c)
    ensures forall k :: 0 <= k < i ==> s[k] != c
  {
    if |s| == 0 || s[0] == c then 0 else 1 + IndexOfChar(s[1..], c)
  }

  /** The pieces between separators, empty ones included. */
  function SplitAll(s: string, sep: char): (r: seq<string>)
    ensures |r| >= 1
    decreases |s|
  {
    var i := IndexOfChar(s, sep);
    if i == |s| then [s] else [s[..i]] + SplitAll(s[i + 1..], sep)
  }

  /** Trailing empty pieces dropped. */
  function DropTrailingEmpty(ps: seq<string>): (r: seq<string>)
    ensures |r| <= |ps| && r == ps[..|r|]
    ensures r != [] ==> r[|r| - 1] != ""
    ensures forall k :: |r| <= k < |ps| ==> ps[k] == ""
  {
    if ps == [] then []
    else if ps[|ps| - 1] == "" then DropTrailingEmpty(ps[..|ps| - 1])
    else ps
  }

  /** `str.split(sep)`: the pieces between separators, without the empty ones at the end. */
  function Split(s: string, sep: char): seq<string>
  {
    DropTrailingEmpty(SplitAll(s, sep))
  }

  /** `arr.join(sep)`. */
  function Join(ts: seq<string>, sep: char): string
  {
    if |ts| == 0 then "" else if |ts| == 1 then ts[0] else ts[0] + [sep] + Join(ts[1..], sep)
  }

  /** Text with a separator splits into the piece before the first one and the split of the text after it. */
  lemma SplitFirst(s: string, sep: char)
    requires IndexOfChar(s, sep) < |s|
    ensures var i := IndexOfChar(s, sep);
      SplitAll(s, sep) == [s[..i]] + SplitAll(s[i + 1..], sep) && s == s[..i] + [sep] + s[i + 1..]
  {
  }

  /** Joining a first piece in front of one or more others. */
  lemma JoinFront(h: string, rest: seq<string>, sep: char)
    requires |rest| >= 1
    ensures Join([h] + rest, sep) == h + [sep] + Join(rest, sep)
  {
    assert ([h] + rest)[1..] == rest;
  }

  /** Joining the pieces of a split gives the string back. */
  lemma {:induction false} JoinSplit(s: string, sep: char)
    ensures Join(SplitAll(s, sep), sep) == s
    decreases |s|
  {
    var i := IndexOfChar(s, sep);
    if i < |s| {
      SplitFirst(s, sep);
      JoinSplit(s[i + 1..], sep);
      JoinFront(s[..i], SplitAll(s[i + 1..], sep), sep);
    }
  }

  /** The first separator is at p when none comes before it. */
  lemma IndexAt(s: string, c: char, p: nat)
    requires p <= |s| && (p < |s| ==> s[p] == c)
    requires forall k :: 0 <= k < p ==> s[k] != c
    ensures IndexOfChar(s, c) == p
  {
  }

  /** Text without a separator is one piece. */
  lemma SplitNone(s: string, sep: char)
    requires sep !in s
    ensures SplitAll(s, sep) == [s]
  {
    IndexAt(s, sep, |s|);
  }

  /** A first piece without a separator is split off at the separator after it. */
  lemma SplitHead(h: string, sep: char, more: string)
    requires sep !in h
    ensures SplitAll(h + [sep] + more, sep) == [h] + SplitAll(more, sep)
  {
    var s := h + [sep] + more;
    assert forall k :: 0 <= k < |h| ==> s[k] == h[k];
    IndexAt(s, sep, |h|);
    assert s[..|h|] == h && s[|h| + 1..] == more;
  }

  /** One piece followed by text, neither holding a separator, is one piece. */
  lemma SplitOne(h: string, sep: char, tail: string)
    requires sep !in h && sep !in tail
    ensures SplitAll(h + tail, sep) == [h + tail]
  {
    var s := h + tail;
    forall k | 0 <= k < |s|
      ensures s[k] != sep
    {
      if k < |h| {
        assert s[k] == h[k];
      } else {
        assert s[k] == tail[k - |h|];
      }
    }
    SplitNone(s, sep);
  }

  /** Joining two or more pieces: the first, a separator, the rest joined. */
  lemma JoinCons(ts: seq<string>, sep: char, tail: string)
    requires |ts| >= 2
    ensures Join(ts, sep) + tail == ts[0] + [sep] + (Join(ts[1..], sep) + tail)
  {
  }

  /** Putting the first piece back in front of the split of the rest. */
  lemma ConsLast(ts: seq<string>, tail: string)
    requires |ts| >= 2
    ensures var rest := ts[1..];
      [ts[0]] + (rest[..|rest| - 1] + [rest[|rest| - 1] + tail]) == ts[..|ts| - 1] + [ts[|ts| - 1] + tail]
  {
    var rest := ts[1..];
    assert rest[|rest| - 1] == ts[|ts| - 1];
    assert [ts[0]] + rest[..|rest| - 1] == ts[..|ts| - 1];
  }

  /**
   * Splitting pieces that hold no separator, joined and followed by text
   * without one, gives the pieces back with that text on the last.
   */
  lemma {:induction false} SplitJoin(ts: seq<string>, sep: char, tail: string)
    requires |ts| >= 1 && sep !in tail
    requires forall k :: 0 <= k < |ts| ==> sep !in ts[k]
    ensures SplitAll(Join(ts, sep) + tail, sep) == ts[..|ts| - 1] + [ts[|ts| - 1] + tail]
    decreases |ts|
  {
    if |ts| == 1 {
      SplitOne(ts[0], sep, tail);
      assert ts[..0] == [];
    } else {
      var rest := ts[1..];
      forall k | 0 <= k < |rest|
        ensures sep !in rest[k]
      {
        assert rest[k] == ts[k + 1];
      }
      SplitJoin(rest, sep, tail);
      JoinCons(ts, sep, tail);
      SplitHead(ts[0], sep, Join(rest, sep) + tail);
      ConsLast(ts, tail);
    }
  }

  // ---------------------------------------------------------------------
  // Kernel#Integer on decimal text
  // ---------------------------------------------------------------------

  /** The whitespace `Integer()` ignores around a number. */
  predicate IsSpace(c: char)
  {
    c == ' ' || 9 <= c as int <= 13
  }

  /** The text without the whitespace before it. */
  function TrimLeft(s: string): string
  {
    if s != [] && IsSpace(s[0]) then TrimLeft(s[1..]) else s
  }

  /** The text without the whitespace after it. */
  function TrimRight(s: string): string
  {
    if s != [] && IsSpace(s[|s| - 1]) then TrimRight(s[..|s| - 1]) else s
  }

  /** The text with the whitespace around it removed. */
  function Strip(s: string): string
  {
    TrimRight(TrimLeft(s))
  }

  /** Decimal digits with no leading zero unless the number is 0. */
  function ParseDigits(d: string): (r: Result<int>)
    ensures r.Ok? ==> r.value >= 0
    ensures r.Err? ==> r.error == ArgumentError
  {
    if |d| == 0 || !AllDigits(d) || (d[0] == '0' && |d| > 1) then Err(ArgumentError)
    else Ok(DigitsValue(d))
  }

  /** An optional sign before the digits. */
  function ParseSigned(t: string): (r: Result<int>)
    ensures r.Err? ==> r.error == ArgumentError
  {
    if |t| > 0 && t[0] == '-' then
      (match ParseDigits(t[1..]) case Err(e) => Err(e) case Ok(v) => Ok(-v))
    else if |t| > 0 && t[0] == '+' then ParseDigits(t[1..])
    else ParseDigits(t)
  }

  /**
   * `Integer(str)` on decimal text: whitespace around it, an optional sign,
   * then digits, with no leading zero unless the number is 0; anything else
   * raises ArgumentError.
   */
  function ParseInteger(s: string): (r: Result<int>)
    ensures r.Err? ==> r.error == ArgumentError
  {
    ParseSigned(Strip(s))
  }

  /**
   * What `Integer()` accepts is, around whitespace, exactly the decimal
   * text `Integer#to_s` writes, with an optional plus sign, or "-0".
   */
  lemma IntegerCanonical(s: string)
    ensures ParseInteger(s).Ok? ==> var t := Strip(s); var v := ParseInteger(s).value;
      t == IntToString(v) || t == "+" + IntToString(v) || (v == 0 && t == "-0")
  {
    var t := Strip(s);
    if ParseInteger(s).Ok? {
      if |t| > 0 && (t[0] == '-' || t[0] == '+') {
        CanonicalDigits(t[1..]);
        assert t == [t[0]] + t[1..];
      } else {
        CanonicalDigits(t);
      }
    }
  }

  /** Digits with no leading zero are the decimal text of their value. */
  lemma {:induction false} CanonicalDigits(d: string)
    requires |d| > 0 && AllDigits(d) && (d[0] == '0' ==> |d| == 1)
    ensures ToDecimal(DigitsValue(d)) == d
    decreases |d|
  {
    var last := (d[|d| - 1] as int) - ('0' as int);
    if |d| > 1 {
      var init := d[..|d| - 1];
      CanonicalDigits(init);
      var v := DigitsValue(d);
      assert v == DigitsValue(init) * 10 + last;
      assert v / 10 == DigitsValue(init) && v % 10 == last;
      assert [DigitChar(last)] == [d[|d| - 1]];
    }
  }

  /** Stripping trailing spaces after text that does not end in one. */
  lemma {:induction false} TrimRightPad(a: string, pad: string)
    requires a == [] || !IsSpace(a[|a| - 1])
    requires forall k :: 0 <= k < |pad| ==> IsSpace(pad[k])
    ensures TrimRight(a + pad) == a
    decreases |pad|
  {
    if pad != [] {
      assert (a + pad)[..|a + pad| - 1] == a + pad[..|pad| - 1];
      TrimRightPad(a, pad[..|pad| - 1]);
    } else {
      assert a + pad == a;
    }
  }

  /** Decimal text ends in a digit and starts with a digit or a minus sign. */
  lemma IntStringEnds(v: int)
    ensures var text := IntToString(v);
      |text| > 0 && IsDigit(text[|text| - 1]) && (IsDigit(text[0]) || text[0] == '-')
  {
    var d := ToDecimal(if v < 0 then -v else v);
    assert IsDigit(d[|d| - 1]) && IsDigit(d[0]);
  }

  /** Stripping the spaces after decimal text gives the text. */
  lemma StripPadded(v: int, pad: string)
    requires forall k :: 0 <= k < |pad| ==> IsSpace(pad[k])
    ensures Strip(IntToString(v) + pad) == IntToString(v)
  {
    var text := IntToString(v);
    IntStringEnds(v);
    TrimRightPad(text, pad);
    assert (text + pad)[0] == text[0];
    assert TrimLeft(text + pad) == text + pad;
  }

  /** The digits `Integer#to_s` writes read back as the number. */
  lemma DigitsOfDecimal(n: nat)
    ensures ParseDigits(ToDecimal(n)) == Ok(n)
  {
    DigitsValueOfDecimal(n);
  }

  /** `Integer()` reads back what `Integer#to_s` writes, spaces after it included. */
  lemma IntegerOfString(v: int, pad: string)
    requires forall k :: 0 <= k < |pad| ==> IsSpace(pad[k])
    ensures ParseInteger(IntToString(v) + pad) == Ok(v)
  {
    StripPadded(v, pad);
    var text := IntToString(v);
    if v < 0 {
      DigitsOfDecimal(-v);
      assert text[1..] == ToDecimal(-v);
    } else {
      DigitsOfDecimal(v);
    }
  }

  // ---------------------------------------------------------------------
  // The commit record
  // ---------------------------------------------------------------------

  /** `logr`: the external state, then each database's (num_slices, num_records). */
  function Flatten(pairs: seq<(int, int)>): (r: seq<int>)
    ensures |r| == 2 * |pairs|
  {
    if pairs == [] then []
    else Flatten(pairs[..|pairs| - 1]) + [pairs[|pairs| - 1].0, pairs[|pairs| - 1].1]
  }

  /** The k-th pair's counts sit at positions 2k and 2k+1. */
  lemma {:induction false} FlattenAt(pairs: seq<(int, int)>, k: nat)
    requires k < |pairs|
    ensures Flatten(pairs)[2 * k] == pairs[k].0 && Flatten(pairs)[2 * k + 1] == pairs[k].1
    decreases |pairs|
  {
    var n := |pairs| - 1;
    if k < n {
      FlattenAt(pairs[..n], k);
      assert pairs[..n][k] == pairs[k];
    }
  }

  /** One more pair adds its two counts at the end. */
  lemma FlattenSnoc(pairs: seq<(int, int)>, p: (int, int))
    ensures Flatten(pairs + [p]) == Flatten(pairs) + [p.0, p.1]
  {
    assert (pairs + [p])[..|pairs|] == pairs;
  }

  function Record(ext: int, pairs: seq<(int, int)>): seq<int>
  {
    [ext] + Flatten(pairs)
  }

  /** Consecutive values taken two at a time, as `logr.shift(2)` does. */
  function Pairs(vals: seq<int>): (r: seq<(int, int)>)
    requires |vals| % 2 == 0
    ensures |r| == |vals| / 2
    ensures forall k :: 0 <= k < |r| ==> r[k] == (vals[2 * k], vals[2 * k + 1])
  {
    seq(|vals| / 2, k requires 0 <= k < |vals| / 2 => (vals[2 * k], vals[2 * k + 1]))
  }

  /** Taking a flattened record two at a time gives the pairs back. */
  lemma PairsOfFlatten(pairs: seq<(int, int)>)
    ensures Pairs(Flatten(pairs)) == pairs
  {
    var r := Pairs(Flatten(pairs));
    assert |r| == |pairs|;
    forall k | 0 <= k < |pairs|
      ensures r[k] == pairs[k]
    {
      FlattenAt(pairs, k);
    }
  }

  /** Flattening values taken two at a time gives the values back. */
  lemma FlattenPairs(vals: seq<int>)
    requires |vals| % 2 == 0
    ensures Flatten(Pairs(vals)) == vals
  {
    var f := Flatten(Pairs(vals));
    forall j | 0 <= j < |vals|
      ensures f[j] == vals[j]
    {
      var k := j / 2;
      assert Pairs(vals)[k] == (vals[2 * k], vals[2 * k + 1]);
      FlattenAt(Pairs(vals), k);
      if j % 2 == 0 {
        assert j == 2 * k;
      } else {
        assert j == 2 * k + 1;
      }
    }
  }

  function Strings(vals: seq<int>): (r: seq<string>)
    ensures |r| == |vals| && forall k :: 0 <= k < |vals| ==> r[k] == IntToString(vals[k])
  {
    seq(|vals|, k requires 0 <= k < |vals| => IntToString(vals[k]))
  }

  /** `logr.join(",")`. */
  function Encode(vals: seq<int>): string
  {
    Join(Strings(vals), ',')
  }

  /**
   * `map {|i| Integer(i)}`: the values in order; a piece that is not an
   * integer raises ArgumentError (which piece fails first makes no
   * difference, every one raises the same).
   */
  function ParseAll(ps: seq<string>): (r: Result<seq<int>>)
    ensures r.Ok? <==> forall k :: 0 <= k < |ps| ==> ParseInteger(ps[k]).Ok?
    ensures r.Ok? ==> |r.value| == |ps| && forall k :: 0 <= k < |ps| ==> r.value[k] == ParseInteger(ps[k]).value
    ensures r.Err? ==> r.error == ArgumentError
  {
    if forall k :: 0 <= k < |ps| ==> ParseInteger(ps[k]).Ok? then
      Ok(seq(|ps|, k requires 0 <= k < |ps| && ParseInteger(ps[k]).Ok? => ParseInteger(ps[k]).value))
    else Err(ArgumentError)
  }

  /**
   * The decoding in `initialize`: split on commas, each piece an integer,
   * exactly 2n+1 of them; the first is the external state and the rest the
   * databases' (num_slices, num_records) in schema order.
   */
  function Decode(block: string, n: nat): (r: Result<(int, seq<(int, int)>)>)
    ensures r.Ok? ==> |r.value.1| == n
    ensures r.Ok? <==> ParseAll(Split(block, ',')).Ok? && |Split(block, ',')| == 2 * n + 1
    ensures r.Ok? ==> Record(r.value.0, r.value.1) == ParseAll(Split(block, ',')).value
    ensures r.Err? ==> r.error == (if ParseAll(Split(block, ',')).Err? then ArgumentError else RuntimeError)
  {
    match ParseAll(Split(block, ','))
    case Err(e) => Err(e)
    case Ok(vals) =>
      if |vals| != 2 * n + 1 then Err(RuntimeError)
      else
        var pairs := Pairs(vals[1..]);
        FlattenPairs(vals[1..]);
        Ok((vals[0], pairs))
  }

  /** Decimal text holds no comma. */
  lemma NoComma(v: int)
    ensures ',' !in IntToString(v)
  {
    var w := if v < 0 then -v else v;
    var d := ToDecimal(w);
    if v < 0 {
      assert IntToString(v) == "-" + d;
      assert forall k :: 0 <= k < |d| ==> IsDigit(d[k]);
    }
  }

  /** The pieces of an encoded record with spaces after the last: each value's text, the last one padded. */
  lemma PieceAt(vals: seq<int>, pad: string, k: nat)
    requires k < |vals|
    ensures var ss := Strings(vals);
      (ss[..|ss| - 1] + [ss[|ss| - 1] + pad])[k] == IntToString(vals[k]) + (if k < |vals| - 1 then "" else pad)
  {
    var ss := Strings(vals);
    if k < |ss| - 1 {
      assert ss[k] == IntToString(vals[k]) + "";
    }
  }

  /** Each piece of an encoded record, spaces after the last, parses to its value. */
  lemma PiecePadded(vals: seq<int>, pad: string, k: nat)
    requires k < |vals|
    requires forall j :: 0 <= j < |pad| ==> IsSpace(pad[j])
    ensures var ss := Strings(vals);
      ParseInteger((ss[..|ss| - 1] + [ss[|ss| - 1] + pad])[k]) == Ok(vals[k])
  {
    var tail := if k < |vals| - 1 then "" else pad;
    PieceAt(vals, pad, k);
    IntegerOfString(vals[k], tail);
  }

  /** Parsing the pieces of an encoded record, spaces after the last, gives the values. */
  lemma ParsePadded(vals: seq<int>, pad: string)
    requires |vals| >= 1
    requires forall k :: 0 <= k < |pad| ==> IsSpace(pad[k])
    ensures var ss := Strings(vals);
      ParseAll(ss[..|ss| - 1] + [ss[|ss| - 1] + pad]) == Ok(vals)
  {
    var ss := Strings(vals);
    var ps := ss[..|ss| - 1] + [ss[|ss| - 1] + pad];
    forall k | 0 <= k < |ps|
      ensures ParseInteger(ps[k]) == Ok(vals[k])
    {
      PiecePadded(vals, pad, k);
    }
    assert ParseAll(ps).value == vals;
  }

  /**
   * The record `commit` writes, padded with spaces to a block as the log
   * pads it, decodes to the external state and the counts it was made of.
   */
  lemma DecodeEncode(ext: int, pairs: seq<(int, int)>)
    requires |Encode(Record(ext, pairs))| <= BLKSIZE
    ensures Decode(Pad(Encode(Record(ext, pairs)), ' '), |pairs|) == Ok((ext, pairs))
  {
    var vals := Record(ext, pairs);
    var ss := Strings(vals);
    var e := Encode(vals);
    var pad := seq(BLKSIZE - |e|, _ => ' ');
    assert Pad(e, ' ') == e + pad;
    forall k | 0 <= k < |ss|
      ensures ',' !in ss[k]
    {
      NoComma(vals[k]);
    }
    SplitJoin(ss, ',', pad);
    var pieces := ss[..|ss| - 1] + [ss[|ss| - 1] + pad];
    assert SplitAll(e + pad, ',') == pieces;
    assert pieces[|pieces| - 1] != "";
    assert Split(e + pad, ',') == pieces;
    ParsePadded(vals, pad);
    PairsOfFlatten(pairs);
    assert vals[1..] == Flatten(pairs);
  }

  // ---------------------------------------------------------------------
  // Opening: schemas, recovery, databases
  // ---------------------------------------------------------------------

  /** A schema entry `[id, klass, hint]`: the third element is the records hint. */
  datatype Schema = Schema(id: Value, klass: Value, hint: Option<int>)

  /** A database as `DB.open` received it. */
  datatype Db = Db(klass: Value, numSlices: int, sliceHint: int, numRecords: int, recordHint: int, readonly: bool)

  const SLICE_HINT: int := 1024
  const RECORD_HINT: int := 1024 * 1024

  /** The arguments of `DB.open` for a schema opened at the committed counts c. */
  function DbOf(s: Schema, c: (int, int), ro: bool): Db
  {
    Db(s.klass, c.0, SLICE_HINT, c.1, if s.hint.Some? then s.hint.value else RECORD_HINT, ro)
  }

  function Ids(schemas: seq<Schema>): (r: seq<Value>)
    ensures |r| == |schemas| && forall k :: 0 <= k < |schemas| ==> r[k] == schemas[k].id
  {
    seq(|schemas|, k requires 0 <= k < |schemas| => schemas[k].id)
  }

  predicate Distinct(schemas: seq<Schema>)
  {
    forall j, k :: 0 <= j < k < |schemas| ==> schemas[j].id != schemas[k].id
  }

  /**
   * `cr`: the committed counts by schema id, written in schema order so a
   * later entry with the same id replaces an earlier one.
   */
  function CountsMap(schemas: seq<Schema>, pairs: seq<(int, int)>): (r: map<Value, (int, int)>)
    requires |pairs| == |schemas|
    ensures forall k :: 0 <= k < |schemas| ==> schemas[k].id in r
    ensures forall id :: id in r ==> id in Ids(schemas)
    decreases |schemas|
  {
    if |schemas| == 0 then map[]
    else
      var n := |schemas| - 1;
      var prior := CountsMap(schemas[..n], pairs[..n]);
      assert forall k :: 0 <= k < n ==> schemas[..n][k] == schemas[k];
      assert forall id :: id in Ids(schemas[..n]) ==> id in Ids(schemas);
      prior[schemas[n].id := pairs[n]]
  }

  /** With distinct ids, each schema's counts are the pair at its position. */
  lemma {:induction false} CountsMapAt(schemas: seq<Schema>, pairs: seq<(int, int)>, k: nat)
    requires |pairs| == |schemas| && Distinct(schemas) && k < |schemas|
    ensures CountsMap(schemas, pairs)[schemas[k].id] == pairs[k]
    decreases |schemas|
  {
    var n := |schemas| - 1;
    if k < n {
      assert schemas[..n][k] == schemas[k];
      CountsMapAt(schemas[..n], pairs[..n], k);
    }
  }

  /**
   * The state `initialize` recovers from the last log block: with none,
   * external state 0 and counts (0, 0) for every schema; otherwise what
   * the block decodes to.
   */
  function Recovered(last: Option<string>, schemas: seq<Schema>): (r: Result<(int, map<Value, (int, int)>)>)
    ensures r.Ok? ==> forall k :: 0 <= k < |schemas| ==> schemas[k].id in r.value.1
    ensures last.None? ==> r.Ok? && r.value.0 == 0
  {
    match last
    case None => Ok((0, CountsMap(schemas, seq(|schemas|, _ => (0, 0)))))
    case Some(str) =>
      match Decode(str, |schemas|)
      case Err(e) => Err(e)
      case Ok(d) => Ok((d.0, CountsMap(schemas, d.1)))
  }

  /** A schema entry `initialize` accepts: a Symbol id and a class. */
  predicate ValidSchema(s: Schema)
  {
    s.id.Sym? && Truthy(s.klass)
  }

  /**
   * The schema loop of `initialize` from the databases `dbs` already open:
   * a non-Symbol id, a missing class or an id already open raises
   * ArgumentError; a database that will not open raises RuntimeError.
   */
  function OpenFrom(dbs: map<Value, Db>, schemas: seq<Schema>, cr: map<Value, (int, int)>, ro: bool, opens: seq<bool>): Result<map<Value, Db>>
    requires |opens| == |schemas| && forall k :: 0 <= k < |schemas| ==> schemas[k].id in cr
    decreases |schemas|
  {
    if |schemas| == 0 then Ok(dbs)
    else
      var s := schemas[0];
      if !s.id.Sym? then Err(ArgumentError)
      else if !Truthy(s.klass) then Err(ArgumentError)
      else if s.id in dbs then Err(ArgumentError)
      else if !opens[0] then Err(RuntimeError)
      else OpenFrom(dbs[s.id := DbOf(s, cr[s.id], ro)], schemas[1..], cr, ro, opens[1..])
  }

  /** Every schema valid, its database opening, and its id new and unique. */
  predicate Acceptable(dbs: map<Value, Db>, schemas: seq<Schema>, opens: seq<bool>)
    requires |opens| == |schemas|
  {
    && (forall k :: 0 <= k < |schemas| ==> ValidSchema(schemas[k]) && opens[k] && schemas[k].id !in dbs)
    && Distinct(schemas)
  }

  /** Opening the first schema moves its id into the open databases. */
  lemma AcceptableStep(dbs: map<Value, Db>, schemas: seq<Schema>, opens: seq<bool>, d: Db)
    requires |opens| == |schemas| > 0
    requires ValidSchema(schemas[0]) && schemas[0].id !in dbs && opens[0]
    ensures Acceptable(dbs, schemas, opens) <==> Acceptable(dbs[schemas[0].id := d], schemas[1..], opens[1..])
  {
    var rest := schemas[1..];
    var dbs' := dbs[schemas[0].id := d];
    assert forall k :: 0 <= k < |rest| ==> rest[k] == schemas[k + 1] && opens[1..][k] == opens[k + 1];
    if Acceptable(dbs', rest, opens[1..]) {
      forall j, k | 0 <= j < k < |schemas|
        ensures schemas[j].id != schemas[k].id
      {
        if j > 0 {
          assert rest[j - 1] == schemas[j] && rest[k - 1] == schemas[k];
        }
      }
    }
    if Acceptable(dbs, schemas, opens) {
      forall k | 0 <= k < |rest|
        ensures rest[k].id !in dbs'
      {
        assert schemas[0].id != schemas[k + 1].id;
      }
    }
  }

  /** What the loop opens from the rest, seen from before the first schema was opened. */
  lemma OpenedStep(dbs: map<Value, Db>, schemas: seq<Schema>, cr: map<Value, (int, int)>, ro: bool, m: map<Value, Db>)
    requires |schemas| > 0 && schemas[0].id !in dbs
    requires forall k :: 0 <= k < |schemas| ==> schemas[k].id in cr
    requires var dbs' := dbs[schemas[0].id := DbOf(schemas[0], cr[schemas[0].id], ro)]; var rest := schemas[1..];
      && (forall id :: id in dbs' ==> id in m && m[id] == dbs'[id])
      && (forall k :: 0 <= k < |rest| ==> rest[k].id in m && m[rest[k].id] == DbOf(rest[k], cr[rest[k].id], ro))
      && (forall id :: id in m ==> id in dbs' || id in Ids(rest))
    ensures forall id :: id in dbs ==> id in m && m[id] == dbs[id]
    ensures forall k :: 0 <= k < |schemas| ==> schemas[k].id in m && m[schemas[k].id] == DbOf(schemas[k], cr[schemas[k].id], ro)
    ensures forall id :: id in m ==> id in dbs || id in Ids(schemas)
  {
    var s := schemas[0];
    var rest := schemas[1..];
    var dbs' := dbs[s.id := DbOf(s, cr[s.id], ro)];
    forall k | 0 <= k < |schemas|
      ensures schemas[k].id in m && m[schemas[k].id] == DbOf(schemas[k], cr[schemas[k].id], ro)
    {
      if k > 0 {
        assert rest[k - 1] == schemas[k];
      }
    }
    forall id | id in m
      ensures id in dbs || id in Ids(schemas)
    {
      if id !in dbs' {
        var k :| 0 <= k < |rest| && Ids(rest)[k] == id;
        assert Ids(schemas)[k + 1] == id;
      } else if id == s.id {
        assert Ids(schemas)[0] == id;
      }
    }
  }

  /**
   * The schema loop succeeds exactly on acceptable schemas, and then opens
   * each at its committed counts, keeping the databases already open.
   */
  lemma {:induction false} OpenFromOk(dbs: map<Value, Db>, schemas: seq<Schema>, cr: map<Value, (int, int)>, ro: bool, opens: seq<bool>)
    requires |opens| == |schemas| && forall k :: 0 <= k < |schemas| ==> schemas[k].id in cr
    ensures OpenFrom(dbs, schemas, cr, ro, opens).Ok? <==> Acceptable(dbs, schemas, opens)
    ensures OpenFrom(dbs, schemas, cr, ro, opens).Ok? ==> var m := OpenFrom(dbs, schemas, cr, ro, opens).value;
      && (forall id :: id in dbs ==> id in m && m[id] == dbs[id])
      && (forall k :: 0 <= k < |schemas| ==> schemas[k].id in m && m[schemas[k].id] == DbOf(schemas[k], cr[schemas[k].id], ro))
      && (forall id :: id in m ==> id in dbs || id in Ids(schemas))
    decreases |schemas|
  {
    if |schemas| > 0 {
      var s := schemas[0];
      var rest := schemas[1..];
      var dbs' := dbs[s.id := DbOf(s, cr[s.id], ro)];
      if ValidSchema(s) && s.id !in dbs && opens[0] {
        assert forall k :: 0 <= k < |rest| ==> rest[k] == schemas[k + 1];
        OpenFromOk(dbs', rest, cr, ro, opens[1..]);
        AcceptableStep(dbs, schemas, opens, DbOf(s, cr[s.id], ro));
        if OpenFrom(dbs', rest, cr, ro, opens[1..]).Ok? {
          OpenedStep(dbs, schemas, cr, ro, OpenFrom(dbs', rest, cr, ro, opens[1..]).value);
        }
      } else {
        assert !(ValidSchema(schemas[0]) && opens[0] && schemas[0].id !in dbs);
      }
    }
  }

  /**
   * `initialize`: a path that exists but is not a directory raises
   * ArgumentError; then the last log block is recovered and the schemas
   * opened.  The result is the external state and the databases by id.
   */
  function OpenState(dirIsFile: bool, ro: bool, schemas: seq<Schema>, file: Option<string>, opens: seq<bool>): (r: Result<(int, map<Value, Db>)>)
    requires |opens| == |schemas|
  {
    if dirIsFile then Err(ArgumentError)
    else
      match Last(file)
      case Err(e) => Err(e)
      case Ok(last) =>
        match Recovered(last, schemas)
        case Err(e) => Err(e)
        case Ok(rec) =>
          match OpenFrom(map[], schemas, rec.1, ro, opens)
          case Err(e) => Err(e)
          case Ok(dbs) => Ok((rec.0, dbs))
  }

  /**
   * A directory with no commit record yet opens every acceptable schema at
   * (0, 0) with external state 0.
   */
  lemma FreshStart(ro: bool, schemas: seq<Schema>, file: Option<string>, opens: seq<bool>)
    requires |opens| == |schemas| && Acceptable(map[], schemas, opens)
    requires file.None? || file.value == ""
    ensures OpenState(false, ro, schemas, file, opens).Ok?
    ensures var st := OpenState(false, ro, schemas, file, opens).value;
      st.0 == 0 && forall k :: 0 <= k < |schemas| ==>
        schemas[k].id in st.1 && st.1[schemas[k].id] == DbOf(schemas[k], (0, 0), ro)
  {
    var zeros := seq(|schemas|, _ => (0, 0));
    var cr := CountsMap(schemas, zeros);
    OpenFromOk(map[], schemas, cr, ro, opens);
    forall k | 0 <= k < |schemas|
      ensures cr[schemas[k].id] == (0, 0)
    {
      CountsMapAt(schemas, zeros, k);
    }
  }

  /**
   * Reopening after a commit: once the record of (ext, pairs) is appended
   * to an aligned log, opening the directory with acceptable schemas gives
   * external state ext and opens each database at the counts committed
   * for it.
   */
  lemma ReopenAfterCommit(file: Option<string>, ext: int, pairs: seq<(int, int)>, ro: bool, schemas: seq<Schema>, opens: seq<bool>)
    requires Aligned(file) && |pairs| == |schemas| == |opens|
    requires |Encode(Record(ext, pairs))| <= BLKSIZE
    requires Acceptable(map[], schemas, opens)
    ensures var f := Some(Contents(file) + Pad(Encode(Record(ext, pairs)), ' '));
      && OpenState(false, ro, schemas, f, opens).Ok?
      && OpenState(false, ro, schemas, f, opens).value.0 == ext
      && forall k :: 0 <= k < |schemas| ==>
           schemas[k].id in OpenState(false, ro, schemas, f, opens).value.1 &&
           OpenState(false, ro, schemas, f, opens).value.1[schemas[k].id] == DbOf(schemas[k], pairs[k], ro)
  {
    var block := Pad(Encode(Record(ext, pairs)), ' ');
    LastAfterAppend(file, Encode(Record(ext, pairs)), ' ');
    DecodeEncode(ext, pairs);
    assert Recovered(Some(block), schemas) == Ok((ext, CountsMap(schemas, pairs)));
    var cr := CountsMap(schemas, pairs);
    OpenFromOk(map[], schemas, cr, ro, opens);
    forall k | 0 <= k < |schemas|
      ensures cr[schemas[k].id] == pairs[k]
    {
      CountsMapAt(schemas, pairs, k);
    }
  }

  // ---------------------------------------------------------------------
  // Commit
  // ---------------------------------------------------------------------

  /**
   * The loop of `commit` over the first schemas: each id must name an open
   * database (else `get_db` raises ArgumentError) whose commit answers
   * (else RuntimeError); the answers in schema order.
   */
  function Collect(schemas: seq<Schema>, dbs: map<Value, Db>, results: seq<Option<(int, int)>>): (r: Result<seq<(int, int)>>)
    requires |results| == |schemas|
    ensures r.Ok? ==> |r.value| == |schemas|
    ensures r.Err? ==> r.error == ArgumentError || r.error == RuntimeError
    decreases |schemas|
  {
    if |schemas| == 0 then Ok([])
    else
      var n := |schemas| - 1;
      match Collect(schemas[..n], dbs, results[..n])
      case Err(e) => Err(e)
      case Ok(ps) =>
        if schemas[n].id !in dbs then Err(ArgumentError)
        else if results[n].None? then Err(RuntimeError)
        else Ok(ps + [results[n].value])
  }

  /** One more schema for the loop of `commit`. */
  lemma CollectStep(schemas: seq<Schema>, dbs: map<Value, Db>, results: seq<Option<(int, int)>>, k: nat, pairs: seq<(int, int)>)
    requires |results| == |schemas| && k < |schemas|
    requires Collect(schemas[..k], dbs, results[..k]) == Ok(pairs)
    ensures Collect(schemas[..k + 1], dbs, results[..k + 1]) ==
      if schemas[k].id !in dbs then Err(ArgumentError)
      else if results[k].None? then Err(RuntimeError)
      else Ok(pairs + [results[k].value])
  {
    assert schemas[..k + 1][..k] == schemas[..k] && results[..k + 1][..k] == results[..k];
  }

  /** A successful loop saw every id open and collected every answer, in order. */
  lemma {:induction false} CollectEach(schemas: seq<Schema>, dbs: map<Value, Db>, results: seq<Option<(int, int)>>)
    requires |results| == |schemas|
    ensures Collect(schemas, dbs, results).Ok? ==>
      forall k :: 0 <= k < |schemas| ==> schemas[k].id in dbs && results[k] == Some(Collect(schemas, dbs, results).value[k])
    decreases |schemas|
  {
    if |schemas| > 0 && Collect(schemas, dbs, results).Ok? {
      var n := |schemas| - 1;
      CollectEach(schemas[..n], dbs, results[..n]);
      assert forall k :: 0 <= k < n ==> schemas[..n][k] == schemas[k] && results[..n][k] == results[k];
    }
  }

  /** A failure on the first schemas is the failure of the whole loop. */
  lemma {:induction false} CollectFails(schemas: seq<Schema>, dbs: map<Value, Db>, results: seq<Option<(int, int)>>, k: nat)
    requires |results| == |schemas| && k <= |schemas|
    requires Collect(schemas[..k], dbs, results[..k]).Err?
    ensures Collect(schemas, dbs, results) == Collect(schemas[..k], dbs, results[..k])
    decreases |schemas|
  {
    if k < |schemas| {
      var n := |schemas| - 1;
      assert schemas[..n][..k] == schemas[..k] && results[..n][..k] == results[..k];
      CollectFails(schemas[..n], dbs, results[..n], k);
    } else {
      assert schemas[..k] == schemas && results[..k] == results;
    }
  }

  /** With every id open and every commit answering, the answers are collected in order. */
  lemma {:induction false} CollectAll(schemas: seq<Schema>, dbs: map<Value, Db>, results: seq<Option<(int, int)>>)
    requires |results| == |schemas|
    requires forall k :: 0 <= k < |schemas| ==> schemas[k].id in dbs && results[k].Some?
    ensures Collect(schemas, dbs, results).Ok?
    decreases |schemas|
  {
    if |schemas| > 0 {
      var n := |schemas| - 1;
      assert forall k :: 0 <= k < n ==> schemas[..n][k] == schemas[k] && results[..n][k] == results[k];
      CollectAll(schemas[..n], dbs, results[..n]);
    }
  }

  /** A schema whose id is open and whose database answers extends the loop of `commit` by that answer. */
  lemma CollectNext(schemas: seq<Schema>, dbs: map<Value, Db>, results: seq<Option<(int, int)>>, k: nat, pairs: seq<(int, int)>)
    requires |results| == |schemas| && k < |schemas|
    requires Collect(schemas[..k], dbs, results[..k]) == Ok(pairs)
    requires schemas[k].id in dbs && results[k].Some?
    ensures Collect(schemas[..k + 1], dbs, results[..k + 1]) == Ok(pairs + [results[k].value])
    ensures Flatten(pairs + [results[k].value]) == Flatten(pairs) + [results[k].value.0, results[k].value.1]
  {
    CollectStep(schemas, dbs, results, k, pairs);
    FlattenSnoc(pairs, results[k].value);
  }

  /** A schema whose id is not open, or whose database does not answer, ends the loop of `commit` with that failure. */
  lemma CollectStops(schemas: seq<Schema>, dbs: map<Value, Db>, results: seq<Option<(int, int)>>, k: nat, pairs: seq<(int, int)>)
    requires |results| == |schemas| && k < |schemas|
    requires Collect(schemas[..k], dbs, results[..k]) == Ok(pairs)
    requires schemas[k].id !in dbs || results[k].None?
    ensures Collect(schemas, dbs, results) == Err(if schemas[k].id !in dbs then ArgumentError else RuntimeError)
  {
    CollectStep(schemas, dbs, results, k, pairs);
    CollectFails(schemas, dbs, results, k + 1);
  }

  /**
   * The loop of `commit` that builds `logr`: the external state, then for
   * each schema in order its database's answer to `commit`, or the first
   * failure.  `results[k]` is what the k-th database's `commit` answers.
   */
  method CollectRecord(ext: int, schemas: seq<Schema>, dbs: map<Value, Db>, results: seq<Option<(int, int)>>) returns (r: Result<seq<int>>)
    requires |results| == |schemas|
    ensures Collect(schemas, dbs, results).Err? ==> r == Err(Collect(schemas, dbs, results).error)
    ensures Collect(schemas, dbs, results).Ok? ==> r == Ok(Record(ext, Collect(schemas, dbs, results).value))
  {
    var logr := [ext];
    ghost var pairs: seq<(int, int)> := [];
    var k := 0;
    while k < |schemas|
      invariant 0 <= k <= |schemas|
      invariant Collect(schemas[..k], dbs, results[..k]) == Ok(pairs)
      invariant logr == [ext] + Flatten(pairs)
    {
      var ok := results[k];
      if schemas[k].id !in dbs || ok.None? {
        CollectStops(schemas, dbs, results, k, pairs);
        return Err(if schemas[k].id !in dbs then ArgumentError else RuntimeError);
      }
      CollectNext(schemas, dbs, results, k, pairs);
      logr := logr + [ok.value.0, ok.value.1];
      pairs := pairs + [ok.value];
      k := k + 1;
    }
    assert schemas[..k] == schemas && results[..k] == results;
    return Ok(logr);
  }

  class DBMS {
    const readonly: bool
    const schemas: seq<Schema>
    const log: Log
    var externalState: int
    var dbs: map<Value, Db>

    constructor(ro: bool, schemas: seq<Schema>, log: Log, ext: int, dbs: map<Value, Db>)
      ensures this.readonly == ro && this.schemas == schemas && this.log == log
      ensures externalState == ext && this.dbs == dbs
    {
      this.readonly := ro;
      this.schemas := schemas;
      this.log := log;
      externalState := ext;
      this.dbs := dbs;
    }

    /**
     * `DBMS.open`: the state `initialize` builds, the schema loop opening
     * one database after another; `opens[k]` is what `DB.open` answers for
     * the k-th schema.
     */
    static method Open(dirIsFile: bool, ro: bool, schemas: seq<Schema>, log: Log, opens: seq<bool>) returns (r: Result<DBMS>)
      requires |opens| == |schemas|
      ensures var st := OpenState(dirIsFile, ro, schemas, log.file, opens);
        && (r.Ok? <==> st.Ok?)
        && (r.Err? ==> r.error == st.error)
        && (r.Ok? ==> fresh(r.value) && r.value.readonly == ro && r.value.schemas == schemas && r.value.log == log)
        && (r.Ok? ==> r.value.externalState == st.value.0 && r.value.dbs == st.value.1)
    {
      if dirIsFile {
        return Err(ArgumentError);
      }
      var last := Last(log.file);
      if last.Err? {
        return Err(last.error);
      }
      var rec := Recovered(last.value, schemas);
      if rec.Err? {
        return Err(rec.error);
      }
      var cr := rec.value.1;
      var dbs: map<Value, Db> := map[];
      var k := 0;
      while k < |schemas|
        invariant 0 <= k <= |schemas|
        invariant OpenFrom(map[], schemas, cr, ro, opens) == OpenFrom(dbs, schemas[k..], cr, ro, opens[k..])
      {
        var s := schemas[k];
        assert schemas[k..][1..] == schemas[k + 1..] && opens[k..][1..] == opens[k + 1..];
        if !s.id.Sym? {
          return Err(ArgumentError);
        }
        if !Truthy(s.klass) {
          return Err(ArgumentError);
        }
        if s.id in dbs {
          return Err(ArgumentError);
        }
        if !opens[k] {
          return Err(RuntimeError);
        }
        dbs := dbs[s.id := DbOf(s, cr[s.id], ro)];
        k := k + 1;
      }
      var d := new DBMS(ro, schemas, log, rec.value.0, dbs);
      r := Ok(d);
    }

    /** `get_db`: the database of an id, ArgumentError for one not open. */
    function GetDb(id: Value): (r: Result<Db>)
      reads this
      ensures r.Ok? <==> id in dbs
      ensures r.Ok? ==> r.value == dbs[id]
      ensures r.Err? ==> r.error == ArgumentError
    {
      if id in dbs then Ok(dbs[id]) else Err(ArgumentError)
    }

    /**
     * `put_bulk`: read-only raises ArgumentError; otherwise the database the
     * records go to (the column store's `put_bulk` does the rest).
     */
    function PutBulk(id: Value): (r: Result<Db>)
      reads this
      ensures readonly ==> r == Err(ArgumentError)
      ensures !readonly ==> r == GetDb(id)
    {
      if readonly then Err(ArgumentError) else GetDb(id)
    }

    /**
     * `commit(external_state)`: read-only or a nil external state raises
     * ArgumentError; then the record is built (each database committing in
     * schema order) and appended to the log, where a record longer than a
     * block raises ArgumentError.  The external state is updated only once
     * the record is in the log.
     */
    method Commit(ext: Option<int>, results: seq<Option<(int, int)>>) returns (r: Result<seq<int>>)
      requires |results| == |schemas|
      modifies this, log
      ensures dbs == old(dbs)
      ensures readonly || ext.None? ==> r == Err(ArgumentError)
      ensures !readonly && ext.Some? ==>
        match Collect(schemas, dbs, results)
        case Err(e) => r == Err(e)
        case Ok(pairs) =>
          var rec := Record(ext.value, pairs);
          && |rec| == 2 * |schemas| + 1
          && (|Encode(rec)| > BLKSIZE ==> r == Err(ArgumentError))
          && (|Encode(rec)| <= BLKSIZE ==> r == Ok(rec))
      ensures r.Err? ==> externalState == old(externalState) && log.file == old(log.file)
      ensures r.Ok? ==> externalState == ext.value && log.file == Some(Contents(old(log.file)) + Pad(Encode(r.value), ' '))
    {
      if readonly || ext.None? {
        return Err(ArgumentError);
      }
      var logr := CollectRecord(ext.value, schemas, dbs, results);
      if logr.Err? {
        return logr;
      }
      var out := log.Append(Encode(logr.value), ' ');
      if out.Fail? {
        return Err(out.error);
      }
      externalState := ext.value;
      return logr;
    }

    /** `close`: every database closed, none left open. */
    method Close()
      modifies this
      ensures dbs == map[] && externalState == old(externalState)
    {
      dbs := map[];
    }
  }
}
