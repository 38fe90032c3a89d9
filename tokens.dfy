/**
 * `RM_Token` of include/RM_Token.h: cutting one token off a NUL-terminated
 * line, either up to a single separator character or, when the separator is
 * the space character, around runs of C whitespace.  Pointers into the line
 * are positions in a `seq<char>`.
 */
module Tokens {

  /** C `isspace` in the C locale: space, tab, newline, vertical tab, form feed, carriage return. */
  predicate IsSpace(c: char)
  {
    c == ' ' || '\t' <= c <= '\r'
  }

  /** A NUL occurs at or after position p, so every scan from p stops inside the line. */
  predicate Terminated(s: seq<char>, p: nat)
  {
    exists k :: p <= k < |s| && s[k] == '\0'
  }

  /** A character that ends a token in separator mode. */
  predicate Stop(c: char, sep: char)
  {
    c == '\0' || c == sep
  }

  /** The first position at or after p holding NUL or `sep` (or the end of the line). */
  function Scan(s: seq<char>, p: nat, sep: char): (r: nat)
    requires p <= |s|
    ensures p <= r <= |s|
    ensures r < |s| ==> Stop(s[r], sep)
    ensures forall k :: p <= k < r ==> !Stop(s[k], sep)
    decreases |s| - p
  {
    if p == |s| || Stop(s[p], sep) then p else Scan(s, p + 1, sep)
  }

  /** In a terminated line the scan stops at a character of the line. */
  lemma ScanInside(s: seq<char>, p: nat, sep: char)
    requires p <= |s| && Terminated(s, p)
    ensures Scan(s, p, sep) < |s|
  {
    var k :| p <= k < |s| && s[k] == '\0';
    assert Scan(s, p, sep) <= k;
  }

  class Token {
    var beg: nat
    var end: nat

    /** Both pointers NULL: the empty token. */
    constructor()
      ensures beg == end
    {
      beg, end := 0, 0;
    }

    /** `empty()`: the token has no characters. */
    predicate Empty()
      reads this
    {
      beg == end
    }

    /**
     * `parse_sep`: the token runs from `ptr` up to the first `sep` or NUL
     * and contains neither; the result is one past the separator when one
     * ended the token, else the position of the NUL.
     */
    method ParseSep(s: seq<char>, ptr: nat, sep: char) returns (next: nat)
      requires ptr <= |s| && Terminated(s, ptr)
      modifies this
      ensures beg == ptr <= end < |s|
      ensures Stop(s[end], sep) && forall k :: beg <= k < end ==> s[k] != '\0' && s[k] != sep
      ensures next == if s[end] == sep then end + 1 else end
    {
      ScanInside(s, ptr, sep);
      var p := ptr;
      beg := p;
      while s[p] != '\0' && s[p] != sep
        invariant ptr <= p <= Scan(s, ptr, sep)
        decreases |s| - p
      {
        p := p + 1;
      }
      end := p;
      if s[p] == sep {
        p := p + 1;
      }
      return p;
    }

    /**
     * `parse_space_sep`: skips the leading whitespace; the token then runs up
     * to the next whitespace or NUL and contains neither; the result is the
     * end of the token (the whitespace after it is not consumed).
     */
    method ParseSpaceSep(s: seq<char>, ptr: nat) returns (next: nat)
      requires ptr <= |s| && Terminated(s, ptr)
      modifies this
      ensures ptr <= beg <= end == next < |s|
      ensures forall k :: ptr <= k < beg ==> IsSpace(s[k])
      ensures !IsSpace(s[beg])
      ensures forall k :: beg <= k < end ==> s[k] != '\0' && !IsSpace(s[k])
      ensures s[end] == '\0' || IsSpace(s[end])
    {
      var w :| ptr <= w < |s| && s[w] == '\0';
      var p := ptr;
      while IsSpace(s[p])
        invariant ptr <= p <= w
        invariant forall k :: ptr <= k < p ==> IsSpace(s[k])
        decreases w - p
      {
        p := p + 1;
      }
      beg := p;
      while s[p] != '\0' && !IsSpace(s[p])
        invariant beg <= p <= w
        invariant forall k :: beg <= k < p ==> s[k] != '\0' && !IsSpace(s[k])
        decreases w - p
      {
        p := p + 1;
      }
      end := p;
      return p;
    }

    /** `parse`: whitespace mode exactly when the separator is the space character (32). */
    method Parse(s: seq<char>, ptr: nat, sep: char) returns (next: nat)
      requires ptr <= |s| && Terminated(s, ptr)
      modifies this
      ensures ptr <= beg <= end <= next <= |s|
      ensures sep == ' ' ==> forall k :: ptr <= k < beg ==> IsSpace(s[k])
      ensures sep == ' ' ==> forall k :: beg <= k < end ==> s[k] != '\0' && !IsSpace(s[k])
      ensures sep == ' ' ==> end == next < |s| && !IsSpace(s[beg]) && (s[end] == '\0' || IsSpace(s[end]))
      ensures sep != ' ' ==> beg == ptr && forall k :: beg <= k < end ==> s[k] != '\0' && s[k] != sep
      ensures sep != ' ' ==> end < |s| && Stop(s[end], sep) && next == if s[end] == sep then end + 1 else end
    {
      if sep == ' ' {
        next := ParseSpaceSep(s, ptr);
      } else {
        next := ParseSep(s, ptr, sep);
      }
    }
  }

  /** The token `parse_sep` cuts from p is empty exactly when a separator or NUL stands at p. */
  lemma EmptyToken(s: seq<char>, p: nat, sep: char)
    requires p < |s|
    ensures Scan(s, p, sep) == p <==> Stop(s[p], sep)
  {
  }

  // ---------------------------------------------------------------------
  // Splitting a whole line
  // ---------------------------------------------------------------------

  /** The tokens of repeated `parse_sep` calls from p until a token ends at NUL (or the end of the line). */
  function Fields(s: seq<char>, p: nat, sep: char): (ts: seq<seq<char>>)
    requires p <= |s|
    ensures |ts| >= 1
    decreases |s| - p
  {
    var e := Scan(s, p, sep);
    if e < |s| && s[e] == sep && sep != '\0' then [s[p..e]] + Fields(s, e + 1, sep)
    else [s[p..e]]
  }

  /** The tokens joined back with the separator between them. */
  function Join(ts: seq<seq<char>>, sep: char): seq<char>
  {
    if |ts| == 0 then []
    else if |ts| == 1 then ts[0]
    else ts[0] + [sep] + Join(ts[1..], sep)
  }

  /** No token holds the separator or NUL. */
  predicate Clean(ts: seq<seq<char>>, sep: char)
  {
    forall i :: 0 <= i < |ts| ==> CleanToken(ts[i], sep)
  }

  /** The token holds neither the separator nor NUL. */
  predicate CleanToken(t: seq<char>, sep: char)
  {
    forall k :: 0 <= k < |t| ==> !Stop(t[k], sep)
  }

  /** The line from p up to its NUL. */
  function Line(s: seq<char>, p: nat): seq<char>
    requires p <= |s|
  {
    s[p..Scan(s, p, '\0')]
  }

  /** Joining the tokens with the separator gives back the line up to its NUL. */
  lemma {:induction false} JoinFields(s: seq<char>, p: nat, sep: char)
    requires p <= |s| && sep != '\0'
    ensures Join(Fields(s, p, sep), sep) == Line(s, p)
    decreases |s| - p
  {
    var e := Scan(s, p, sep);
    ScanNulAfter(s, p, e, sep);
    if e < |s| && s[e] == sep {
      JoinFields(s, e + 1, sep);
      ScanNulSkips(s, p, e);
      assert s[p..Scan(s, p, '\0')] == s[p..e] + [sep] + s[e + 1..Scan(s, e + 1, '\0')];
    }
  }

  /** Where a separator-or-NUL scan ends at NUL (or the end), the NUL scan ends there too. */
  lemma ScanNulAfter(s: seq<char>, p: nat, e: nat, sep: char)
    requires p <= |s| && e == Scan(s, p, sep)
    ensures Scan(s, p, '\0') >= e
    ensures (e == |s| || s[e] != sep) ==> Scan(s, p, '\0') == e
  {
  }

  /** A NUL scan passes over a non-NUL character. */
  lemma ScanNulSkips(s: seq<char>, p: nat, e: nat)
    requires p <= e < |s| && s[e] != '\0'
    requires forall k :: p <= k < e ==> s[k] != '\0'
    ensures Scan(s, p, '\0') == Scan(s, e + 1, '\0')
    decreases e - p
  {
    if p < e {
      ScanNulSkips(s, p + 1, e);
    }
  }

  /** Every token of a line is clean. */
  lemma {:induction false} FieldsClean(s: seq<char>, p: nat, sep: char)
    requires p <= |s|
    ensures Clean(Fields(s, p, sep), sep)
    decreases |s| - p
  {
    var e := Scan(s, p, sep);
    if e < |s| && s[e] == sep && sep != '\0' {
      FieldsClean(s, e + 1, sep);
      var ts := Fields(s, p, sep);
      forall i | 0 <= i < |ts|
        ensures CleanToken(ts[i], sep)
      {
        if i > 0 {
          assert ts[i] == Fields(s, e + 1, sep)[i - 1];
        }
      }
    }
  }

  /**
   * Conversely, splitting a NUL-terminated join of clean tokens gives the
   * tokens back, so the split is the only one.
   */
  lemma FieldsOfJoin(ts: seq<seq<char>>, sep: char, rest: seq<char>)
    requires |ts| >= 1 && Clean(ts, sep) && sep != '\0'
    ensures Fields(Join(ts, sep) + ['\0'] + rest, 0, sep) == ts
  {
    var j := Join(ts, sep);
    var s := j + ['\0'] + rest;
    assert s[0..|j|] == j;
    assert JoinAt(s, 0, ts, sep);
    FieldsOfJoinAt(s, 0, ts, sep);
  }

  /** The join of `ts` stands at position p of the line, followed by NUL. */
  predicate JoinAt(s: seq<char>, p: nat, ts: seq<seq<char>>, sep: char)
  {
    var j := Join(ts, sep);
    p + |j| < |s| && s[p..p + |j|] == j && s[p + |j|] == '\0'
  }

  /** The same, for a join standing at position p of a line. */
  lemma {:induction false} FieldsOfJoinAt(s: seq<char>, p: nat, ts: seq<seq<char>>, sep: char)
    requires |ts| >= 1 && Clean(ts, sep) && sep != '\0' && JoinAt(s, p, ts, sep)
    ensures Fields(s, p, sep) == ts
    decreases |ts|
  {
    var e := JoinHead(s, p, ts, sep);
    if |ts| == 1 {
      FieldsLast(s, p, sep);
    } else {
      FieldsOfJoinAt(s, e + 1, ts[1..], sep);
      FieldsUnfold(s, p, sep);
      ConsSplit(ts);
    }
  }

  /**
   * The first token of a join is scanned whole; after it comes NUL when it
   * was the only one, else the separator and the join of the others.
   */
  lemma JoinHead(s: seq<char>, p: nat, ts: seq<seq<char>>, sep: char) returns (e: nat)
    requires |ts| >= 1 && Clean(ts, sep) && sep != '\0' && JoinAt(s, p, ts, sep)
    ensures e == p + |ts[0]| && e < |s| && Scan(s, p, sep) == e && s[p..e] == ts[0]
    ensures |ts| == 1 ==> s[e] == '\0'
    ensures |ts| > 1 ==> s[e] == sep && Clean(ts[1..], sep) && JoinAt(s, e + 1, ts[1..], sep)
  {
    var t := ts[0];
    var j := Join(ts, sep);
    e := p + |t|;
    assert CleanToken(t, sep);
    if |ts| == 1 {
      assert s[p..e] == t;
    } else {
      var tail := ts[1..];
      var jt := Join(tail, sep);
      assert j == t + ([sep] + jt);
      SliceParts(s, p, t, [sep] + jt);
      SliceParts(s, e, [sep], jt);
      assert Clean(tail, sep) by {
        forall i | 0 <= i < |tail|
          ensures CleanToken(tail[i], sep)
        {
          assert tail[i] == ts[i + 1];
        }
      }
    }
    ScanClean(s, t, p, sep);
  }

  lemma ConsSplit<T>(xs: seq<T>)
    requires |xs| >= 1
    ensures xs == [xs[0]] + xs[1..]
  {
  }

  /** A slice that is a concatenation splits into slices of its parts. */
  lemma SliceParts(s: seq<char>, p: nat, a: seq<char>, b: seq<char>)
    requires p + |a| + |b| <= |s| && s[p..p + |a| + |b|] == a + b
    ensures s[p..p + |a|] == a && s[p + |a|..p + |a| + |b|] == b
  {
    var w := s[p..p + |a| + |b|];
    assert s[p..p + |a|] == w[..|a|];
    assert s[p + |a|..p + |a| + |b|] == w[|a|..];
    assert (a + b)[..|a|] == a && (a + b)[|a|..] == b;
  }

  /** A clean token at the front of a line is scanned whole. */
  lemma ScanClean(s: seq<char>, t: seq<char>, p: nat, sep: char)
    requires p + |t| < |s| && s[p..p + |t|] == t && Stop(s[p + |t|], sep)
    requires CleanToken(t, sep)
    ensures Scan(s, p, sep) == p + |t|
  {
    assert forall k :: p <= k < p + |t| ==> s[k] == t[k - p];
  }

  /** The last step of the split: a token ending at NUL or the end of the line is the only one left. */
  lemma FieldsLast(s: seq<char>, p: nat, sep: char)
    requires p <= |s|
    requires var e := Scan(s, p, sep); e == |s| || s[e] != sep || sep == '\0'
    ensures Fields(s, p, sep) == [s[p..Scan(s, p, sep)]]
  {
  }

  /** One step of the split: a token ending at a separator is followed by the split after it. */
  lemma FieldsUnfold(s: seq<char>, p: nat, sep: char)
    requires p <= |s|
    requires var e := Scan(s, p, sep); e < |s| && s[e] == sep && sep != '\0'
    ensures Fields(s, p, sep) == [s[p..Scan(s, p, sep)]] + Fields(s, Scan(s, p, sep) + 1, sep)
  {
  }
}
