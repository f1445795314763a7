/**
 The tag-set scanner of the OpenTSDB text protocol (`next_tag_set` in
 common/protocol_parser/src/lib.rs). Offsets are bytes of UTF-8, as in the
 source; `alnum` is the Unicode alphanumeric test.
 */
module TagSet {
  import opened Wrappers

  // ---------------------------------------------------------------- text as UTF-8

  function Utf8Len(c: char): (n: nat)
    ensures n >= 1
  {
    if c as int < 0x80 then 1 else if c as int < 0x800 then 2 else if c as int < 0x10000 then 3 else 4
  }

  function ByteLen(s: string): nat {
    if s == "" then 0 else Utf8Len(s[0]) + ByteLen(s[1..])
  }

  /** The character that starts at a byte offset; there is none inside a character or past the end. */
  function CharIndex(s: string, offset: nat): (r: Option<nat>)
    ensures r.Some? ==> r.value <= |s|
  {
    if offset == 0 then Some(0)
    else if s == "" || offset < Utf8Len(s[0]) then None
    else
      var r := CharIndex(s[1..], offset - Utf8Len(s[0]));
      if r.None? then None else Some(r.value + 1)
  }

  /** `&s[from..to]`; `None` where the source panics. */
  function ByteSlice(s: string, from: nat, to: nat): Option<string> {
    var a, b := CharIndex(s, from), CharIndex(s, to);
    if from <= to && a.Some? && b.Some? && a.value <= b.value then Some(s[a.value..b.value]) else None
  }

  lemma {:induction false} ByteLenConcat(a: string, b: string)
    ensures ByteLen(a + b) == ByteLen(a) + ByteLen(b)
  {
    if a == "" {
      assert a + b == b;
    } else {
      ByteLenConcat(a[1..], b);
      assert (a + b)[1..] == a[1..] + b;
    }
  }

  lemma {:induction false} CharIndexOfPrefix(s: string, j: nat)
    requires j <= |s|
    ensures CharIndex(s, ByteLen(s[..j])) == Some(j)
  {
    if j > 0 {
      assert s[..j][1..] == s[1..][..j - 1] && s[..j][0] == s[0];
      CharIndexOfPrefix(s[1..], j - 1);
    }
  }

  lemma SliceOfPrefixes(s: string, i: nat, j: nat)
    requires i <= j <= |s|
    ensures ByteSlice(s, ByteLen(s[..i]), ByteLen(s[..j])) == Some(s[i..j])
  {
    CharIndexOfPrefix(s, i);
    CharIndexOfPrefix(s, j);
    ByteLenConcat(s[..i], s[i..j]);
    assert s[..i] + s[i..j] == s[..j];
  }

  lemma {:induction false} BytesAtLeastChars(s: string)
    ensures ByteLen(s) >= |s|
  {
    if s != "" {
      BytesAtLeastChars(s[1..]);
    }
  }

  lemma NextByte(s: string, j: nat)
    requires j < |s|
    ensures ByteLen(s[..j + 1]) == ByteLen(s[..j]) + Utf8Len(s[j])
    ensures ByteLen(s) >= ByteLen(s[..j + 1]) + (|s| - j - 1)
  {
    ByteLenConcat(s[..j], [s[j]]);
    assert s[..j] + [s[j]] == s[..j + 1];
    assert [s[j]][1..] == "";
    ByteLenConcat(s[..j + 1], s[j + 1..]);
    assert s[..j + 1] + s[j + 1..] == s;
    BytesAtLeastChars(s[j + 1..]);
  }

  // ---------------------------------------------------------------- the scanner

  type Tag = (string, string)

  datatype Outcome = Parsed(tags: seq<Tag>, next: nat) | Incomplete | MissingName | Panics

  /** The variables of the scan; `i` is the byte offset of the next character. */
  datatype Scan = Scan(escaped: bool, started: bool, keyAt: nat, equalsAt: nat, valueAt: nat, tags: seq<Tag>, i: nat)

  const START := Scan(false, false, 0, 0, 0, [], 0)

  datatype Turn = Continue(scan: Scan) | Stop(scan: Scan, end: nat) | Return(outcome: Outcome)

  /** The pair from `keyAt..equalsAt` and `valueAt..end`. */
  function TagAt(buf: string, s: Scan, end: nat): Option<Tag> {
    var k, v := ByteSlice(buf, s.keyAt, s.equalsAt), ByteSlice(buf, s.valueAt, end);
    if k.Some? && v.Some? then Some((k.value, v.value)) else None
  }

  /** One character. */
  function Turned(buf: string, s: Scan, c: char, alnum: char -> bool): Turn {
    if !s.escaped && c == '\\' then
      Continue(s.(escaped := true, started := true, keyAt := if s.started then s.keyAt else s.i, i := s.i + 1))
    else if !s.started then
      var t := if alnum(c) || c == '\\' then s.(started := true, keyAt := s.i) else s;
      Continue(t.(escaped := false, i := s.i + Utf8Len(c)))
    else if !s.escaped && c == '=' then
      if ByteLen(buf) <= s.i + 1 then Return(Incomplete)
      else Continue(s.(equalsAt := s.i, valueAt := s.i + 1, i := s.i + 1))
    else if !s.escaped && c == ',' then
      var tag := TagAt(buf, s, s.i);
      if tag.None? then Return(Panics)
      else if ByteLen(buf) <= s.i + 1 then Return(Incomplete)
      else Continue(s.(tags := s.tags + [tag.value], keyAt := s.i + 1, i := s.i + 1))
    else if !s.escaped && c == ' ' then
      Stop(s, s.i)
    else
      Continue(s.(escaped := false, i := s.i + Utf8Len(c)))
  }

  /** After the loop: `end` is 0 if no terminating space was seen. */
  function Finished(buf: string, s: Scan, end: nat): Outcome {
    if !s.started then Incomplete
    else
      var size := ByteLen(buf);
      var to := if end > 0 then end else if buf != "" && buf[|buf| - 1] == '\n' && size > 0 then size - 1 else size;
      if s.keyAt == s.equalsAt then MissingName
      else
        var tag := TagAt(buf, s, to);
        if tag.None? then Panics else Parsed(s.tags + [tag.value], to + 1)
  }

  function Scanned(buf: string, j: nat, s: Scan, alnum: char -> bool): Outcome
    requires j <= |buf|
    decreases |buf| - j
  {
    if j == |buf| then Finished(buf, s, 0)
    else
      match Turned(buf, s, buf[j], alnum)
      case Continue(t) => Scanned(buf, j + 1, t, alnum)
      case Stop(t, end) => Finished(buf, t, end)
      case Return(o) => o
  }

  /** `next_tag_set` as the source's character loop. */
  method NextTagSet(buf: string, alnum: char -> bool) returns (r: Outcome)
    ensures r == Scanned(buf, 0, START, alnum)
  {
    var s, end := START, 0;
    var size := ByteLen(buf);
    var j := 0;
    while j < |buf|
      invariant 0 <= j <= |buf| && end == 0
      invariant Scanned(buf, 0, START, alnum) == Scanned(buf, j, s, alnum)
    {
      var c := buf[j];
      j := j + 1;
      if !s.escaped && c == '\\' {
        s := s.(escaped := true, started := true, keyAt := if s.started then s.keyAt else s.i, i := s.i + 1);
        continue;
      }
      if s.started {
        if !s.escaped && c == '=' {
          if size <= s.i + 1 {
            return Incomplete;
          }
          s := s.(equalsAt := s.i, valueAt := s.i + 1);
        }
        if !s.escaped && c == ',' {
          var tag := TagAt(buf, s, s.i);
          if tag.None? {
            return Panics;
          }
          if size <= s.i + 1 {
            return Incomplete;
          }
          s := s.(tags := s.tags + [tag.value], keyAt := s.i + 1);
        }
        if !s.escaped && c == ' ' {
          r := Finished(buf, s, s.i);
          return;
        }
      } else if alnum(c) || c == '\\' {
        s := s.(started := true, keyAt := s.i);
      }
      s := s.(escaped := false, i := s.i + Utf8Len(c));
    }
    r := Finished(buf, s, end);
  }

  // ---------------------------------------------------------------- what printing produces

  /** Every special character of the token follows an unescaped backslash; `esc` says whether one came just before. */
  predicate WellEscaped(t: string, esc: bool) {
    if t == "" then !esc
    else if esc then WellEscaped(t[1..], false)
    else if t[0] == '\\' then WellEscaped(t[1..], true)
    else t[0] !in "=, " && WellEscaped(t[1..], false)
  }

  function Pair(t: Tag): string {
    t.0 + "=" + t.1
  }

  function Printed(tags: seq<Tag>): string {
    if tags == [] then ""
    else if |tags| == 1 then Pair(tags[0])
    else Pair(tags[0]) + "," + Printed(tags[1..])
  }

  ghost predicate Printable(tags: seq<Tag>) {
    && tags != [] && tags[|tags| - 1].0 != ""
    && forall k :: 0 <= k < |tags| ==> WellEscaped(tags[k].0, false) && WellEscaped(tags[k].1, false)
  }

  /** A well-escaped token is passed over, whatever it holds. */
  lemma {:induction false} SkipToken(buf: string, j: nat, t: string, s: Scan, alnum: char -> bool)
    requires j + |t| <= |buf| && buf[j..j + |t|] == t && s.started && WellEscaped(t, s.escaped)
    ensures Scanned(buf, j, s, alnum) == Scanned(buf, j + |t|, s.(escaped := false, i := s.i + ByteLen(t)), alnum)
    decreases |t|
  {
    if t != "" {
      assert buf[j] == t[0];
      assert buf[j + 1..j + |t|] == t[1..];
      var turn := Turned(buf, s, buf[j], alnum);
      assert Utf8Len('\\') == 1;
      SkipToken(buf, j + 1, t[1..], turn.scan, alnum);
    }
  }

  /** The scan after a pair that starts at character `j`. */
  function PastPair(buf: string, j: nat, t: Tag, s: Scan): Scan
    requires j + |Pair(t)| <= |buf|
  {
    s.(equalsAt := ByteLen(buf[..j + |t.0|]), valueAt := ByteLen(buf[..j + |t.0| + 1]),
       i := ByteLen(buf[..j + |Pair(t)|]))
  }

  /** A key, an equals sign and a value are read as that pair. */
  lemma ScanPair(buf: string, j: nat, t: Tag, s: Scan, alnum: char -> bool)
    requires j + |Pair(t)| <= |buf| && buf[j..j + |Pair(t)|] == Pair(t) && j + |t.0| + 1 < |buf|
    requires s.started && !s.escaped && s.i == ByteLen(buf[..j]) == s.keyAt
    requires WellEscaped(t.0, false) && WellEscaped(t.1, false)
    ensures Scanned(buf, j, s, alnum) == Scanned(buf, j + |Pair(t)|, PastPair(buf, j, t, s), alnum)
    ensures TagAt(buf, PastPair(buf, j, t, s), PastPair(buf, j, t, s).i) == Some(t)
  {
    hide ByteLen, WellEscaped, ByteSlice, Pair, Scanned;
    PartsOfPair(buf, j, t);
    var e, v, n := j + |t.0|, j + |t.0| + 1, j + |Pair(t)|;
    NextByte(buf, e);
    SkipToken(buf, j, t.0, s, alnum);
    var atEquals := s.(i := ByteLen(buf[..e]));
    var atValue := atEquals.(equalsAt := ByteLen(buf[..e]), valueAt := ByteLen(buf[..v]), i := ByteLen(buf[..v]));
    assert Turned(buf, atEquals, '=', alnum) == Continue(atValue);
    ScannedContinues(buf, e, atEquals, atValue, alnum);
    SkipToken(buf, v, t.1, atValue, alnum);
    SliceOfPrefixes(buf, j, e);
    SliceOfPrefixes(buf, v, n);
  }

  lemma ScannedContinues(buf: string, j: nat, s: Scan, t: Scan, alnum: char -> bool)
    requires j < |buf| && Turned(buf, s, buf[j], alnum) == Continue(t)
    ensures Scanned(buf, j, s, alnum) == Scanned(buf, j + 1, t, alnum)
  {
  }

  /** Where the parts of a printed pair lie, and what they add to the offset. */
  lemma PartsOfPair(buf: string, j: nat, t: Tag)
    requires j + |Pair(t)| <= |buf| && buf[j..j + |Pair(t)|] == Pair(t)
    ensures var e, v, n := j + |t.0|, j + |t.0| + 1, j + |Pair(t)|;
            && n == v + |t.1| && buf[j..e] == t.0 && buf[e] == '=' && buf[v..n] == t.1
            && ByteLen(buf[..e]) == ByteLen(buf[..j]) + ByteLen(t.0)
            && ByteLen(buf[..n]) == ByteLen(buf[..v]) + ByteLen(t.1)
  {
    hide ByteLen;
    var e, v, n := j + |t.0|, j + |t.0| + 1, j + |Pair(t)|;
    var p := buf[j..n];
    assert p[..|t.0|] == t.0 && p[|t.0|] == '=' && p[|t.0| + 1..] == t.1;
    assert buf[j..e] == p[..|t.0|] && buf[e] == p[|t.0|] && buf[v..n] == p[|t.0| + 1..];
    assert buf[..j] + buf[j..e] == buf[..e] && buf[..v] + buf[v..n] == buf[..n];
    ByteLenConcat(buf[..j], t.0);
    ByteLenConcat(buf[..v], t.1);
  }

  /** What may follow the tag set: a space and anything, a newline, or the end of the text. */
  predicate EndsTagSet(tail: string, last: Tag) {
    || (tail != "" && tail[0] == ' ')
    || tail == "\n"
    || (tail == "" && last.1 != "" && last.1[|last.1| - 1] != '\n')
  }

  /** The last pair and the end of the tag set. */
  lemma ScanLastPair(buf: string, j: nat, t: Tag, tail: string, s: Scan, alnum: char -> bool)
    requires j <= |buf| && buf[j..] == Pair(t) + tail && EndsTagSet(tail, t) && t.0 != ""
    requires s.started && !s.escaped && s.i == ByteLen(buf[..j]) == s.keyAt
    requires WellEscaped(t.0, false) && WellEscaped(t.1, false)
    ensures Scanned(buf, j, s, alnum) == Parsed(s.tags + [t], ByteLen(buf[..j]) + ByteLen(Pair(t)) + 1)
  {
    hide ByteLen, WellEscaped, ByteSlice, Pair;
    PairHasEquals(t);
    PairComesBefore(buf, j, Pair(t), tail);
    assert EndsTagSet(tail, t) && tail == "" ==> t.1 != "";
    ScanPair(buf, j, t, s, alnum);
    KeyIsNotEmpty(buf, j, t);
    PartsOfPair(buf, j, t);
    ByteLenConcat(buf[..j], Pair(t));
    FinishTagSet(buf, j + |Pair(t)|, t, tail, PastPair(buf, j, t, s), alnum);
  }

  lemma PairComesBefore(buf: string, j: nat, pair: string, tail: string)
    requires j <= |buf| && buf[j..] == pair + tail
    ensures var n := j + |pair|;
            n <= |buf| && buf[j..n] == pair && buf[n..] == tail && buf[..j] + pair == buf[..n]
  {
    var n := j + |pair|;
    assert buf[j..n] == buf[j..][..|pair|];
    assert buf[n..] == buf[j..][|pair|..];
  }

  /** All three endings close the last pair at the same place. */
  lemma FinishTagSet(buf: string, n: nat, t: Tag, tail: string, p: Scan, alnum: char -> bool)
    requires n <= |buf| && buf[n..] == tail && EndsTagSet(tail, t)
    requires |t.1| <= n && buf[n - |t.1|..n] == t.1
    requires p.started && !p.escaped && p.i == ByteLen(buf[..n]) && p.i > 0 && p.keyAt != p.equalsAt
    requires TagAt(buf, p, p.i) == Some(t)
    ensures Scanned(buf, n, p, alnum) == Parsed(p.tags + [t], p.i + 1)
  {
    hide ByteLen, TagAt;
    if tail == "" {
      assert buf[..n] == buf;
      assert buf[|buf| - 1] == t.1[|t.1| - 1];
    } else {
      assert buf[n] == tail[0];
      NextByte(buf, n);
      if tail[0] != ' ' {
        assert buf[..n + 1] == buf;
        var q := p.(i := p.i + 1);
        assert Turned(buf, p, buf[n], alnum) == Continue(q);
        ScannedContinues(buf, n, p, q, alnum);
        assert TagAt(buf, q, p.i) == TagAt(buf, p, p.i) by {
          TagAtIgnoresCursor(buf, p, q, p.i);
        }
      }
    }
  }

  lemma TagAtIgnoresCursor(buf: string, p: Scan, q: Scan, end: nat)
    requires p.keyAt == q.keyAt && p.equalsAt == q.equalsAt && p.valueAt == q.valueAt
    ensures TagAt(buf, p, end) == TagAt(buf, q, end)
  {
  }

  lemma KeyIsNotEmpty(buf: string, j: nat, t: Tag)
    requires j + |Pair(t)| <= |buf| && buf[j..j + |Pair(t)|] == Pair(t) && t.0 != ""
    ensures ByteLen(buf[..j]) < ByteLen(buf[..j + |t.0|]) <= ByteLen(buf[..j + |Pair(t)|])
  {
    var e, n := j + |t.0|, j + |Pair(t)|;
    assert buf[..j] + buf[j..e] == buf[..e] && buf[..e] + buf[e..n] == buf[..n];
    ByteLenConcat(buf[..j], buf[j..e]);
    ByteLenConcat(buf[..e], buf[e..n]);
    BytesAtLeastChars(buf[j..e]);
  }

  /** From the start of a key on, the printed pairs are read back in order. */
  lemma {:induction false} ScanPairs(buf: string, j: nat, tags: seq<Tag>, tail: string, s: Scan, alnum: char -> bool)
    requires Printable(tags) && EndsTagSet(tail, tags[|tags| - 1])
    requires j <= |buf| && buf[j..] == Printed(tags) + tail
    requires s.started && !s.escaped && s.i == ByteLen(buf[..j]) == s.keyAt
    ensures Scanned(buf, j, s, alnum) == Parsed(s.tags + tags, ByteLen(buf[..j]) + ByteLen(Printed(tags)) + 1)
    decreases |tags|
  {
    hide ByteLen, WellEscaped, ByteSlice, EndsTagSet, Pair;
    var t := tags[0];
    if |tags| == 1 {
      ScanLastPair(buf, j, t, tail, s, alnum);
      assert tags == [t];
    } else {
      var rest, n := tags[1..], j + |Pair(t)|;
      assert Printed(tags) == Pair(t) + "," + Printed(rest);
      PairComesFirst(buf, j, Pair(t), Printed(rest) + tail);
      assert Pair(t) + "," + Printed(rest) + tail == Pair(t) + "," + (Printed(rest) + tail);
      PrintedIsNotEmpty(rest);
      PairHasEquals(t);
      ScanPair(buf, j, t, s, alnum);
      var p := PastPair(buf, j, t, s);
      NextByte(buf, n);
      var q := p.(tags := s.tags + [t], keyAt := ByteLen(buf[..n + 1]), i := ByteLen(buf[..n + 1]));
      assert Turned(buf, p, ',', alnum) == Continue(q);
      assert Printable(rest) by {
        assert forall k :: 0 <= k < |rest| ==> rest[k] == tags[k + 1];
      }
      ScanPairs(buf, n + 1, rest, tail, q, alnum);
      assert s.tags + [t] + rest == s.tags + tags;
      ByteLenConcat(buf[..j], Pair(t) + ",");
      assert buf[..j] + (Pair(t) + ",") == buf[..n + 1];
      ByteLenConcat(Pair(t) + ",", Printed(rest));
    }
  }

  lemma PairComesFirst(buf: string, j: nat, pair: string, rest: string)
    requires j <= |buf| && buf[j..] == pair + "," + rest
    ensures var n := j + |pair|;
            n < |buf| && buf[j..n] == pair && buf[n] == ',' && buf[n + 1..] == rest
            && buf[..j] + (pair + ",") == buf[..n + 1]
  {
    var n := j + |pair|;
    assert buf[j..n] == buf[j..][..|pair|];
    assert buf[n] == buf[j..][|pair|];
    assert buf[n + 1..] == buf[j..][|pair| + 1..];
  }

  lemma PrintedIsNotEmpty(tags: seq<Tag>)
    requires tags != []
    ensures |Printed(tags)| >= 1
  {
  }

  lemma PairHasEquals(t: Tag)
    ensures |Pair(t)| == |t.0| + 1 + |t.1|
  {
  }

  /** Starting on a tag-set character is the same as having started before it. */
  lemma StartIsImplicit(buf: string, alnum: char -> bool)
    requires buf != "" && (buf[0] == '\\' || (alnum(buf[0]) && buf[0] !in "=, "))
    ensures Scanned(buf, 0, START, alnum) == Scanned(buf, 0, START.(started := true), alnum)
  {
    assert Turned(buf, START, buf[0], alnum) == Turned(buf, START.(started := true), buf[0], alnum);
  }

  /**
   Scanning undoes printing: for every list of well-escaped pairs whose last
   key is not empty and whose text starts with a tag-set character, the raw
   keys and values come back, with the offset just past the terminator.
   */
  lemma ScanOfPrinted(tags: seq<Tag>, tail: string, alnum: char -> bool)
    requires Printable(tags) && EndsTagSet(tail, tags[|tags| - 1])
    requires tags[0].0 != "" && (tags[0].0[0] == '\\' || alnum(tags[0].0[0]))
    ensures Scanned(Printed(tags) + tail, 0, START, alnum) == Parsed(tags, ByteLen(Printed(tags)) + 1)
  {
    var buf := Printed(tags) + tail;
    assert buf[0] == tags[0].0[0];
    assert WellEscaped(tags[0].0, false);
    StartIsImplicit(buf, alnum);
    assert buf[0..] == buf && buf[..0] == "";
    ScanPairs(buf, 0, tags, tail, START.(started := true), alnum);
    assert [] + tags == tags;
  }

  // ---------------------------------------------------------------- texts that are not a tag set

  lemma {:induction false} SkipsToTheEnd(buf: string, j: nat, s: Scan, alnum: char -> bool)
    requires j <= |buf| && !s.started && !s.escaped
    requires forall k :: j <= k < |buf| ==> buf[k] != '\\' && !alnum(buf[k])
    ensures Scanned(buf, j, s, alnum) == Incomplete
    decreases |buf| - j
  {
    if j < |buf| {
      SkipsToTheEnd(buf, j + 1, s.(i := s.i + Utf8Len(buf[j])), alnum);
    }
  }

  /** A text without any character that starts a tag set holds none. */
  lemma NothingStarts(buf: string, alnum: char -> bool)
    requires forall k :: 0 <= k < |buf| ==> buf[k] != '\\' && !alnum(buf[k])
    ensures Scanned(buf, 0, START, alnum) == Incomplete
  {
    SkipsToTheEnd(buf, 0, START, alnum);
  }

  ghost predicate StartsHere(key: string, alnum: char -> bool) {
    key != "" && WellEscaped(key, false) && (key[0] == '\\' || alnum(key[0]))
  }

  /** A key that the text ends in, or a space follows, has no value: the name is reported missing. */
  lemma KeyAloneMissesName(key: string, tail: string, alnum: char -> bool)
    requires StartsHere(key, alnum) && (tail == "" || tail[0] == ' ')
    ensures Scanned(key + tail, 0, START, alnum) == MissingName
  {
    hide ByteLen;
    var buf := key + tail;
    assert buf[0] == key[0] && buf[0..0 + |key|] == key;
    StartIsImplicit(buf, alnum);
    SkipToken(buf, 0, key, START.(started := true), alnum);
    if tail != "" {
      assert buf[|key|] == ' ';
    }
  }

  /** A key and an equals sign at the end of the text are not complete yet. */
  lemma EqualsAtTheEnd(key: string, alnum: char -> bool)
    requires StartsHere(key, alnum)
    ensures Scanned(key + "=", 0, START, alnum) == Incomplete
  {
    hide ByteLen;
    var buf := key + "=";
    assert buf[0] == key[0] && buf[0..0 + |key|] == key && buf[|key|] == '=';
    StartIsImplicit(buf, alnum);
    SkipToken(buf, 0, key, START.(started := true), alnum);
    assert buf[..|key|] == key && buf[..|key| + 1] == buf;
    NextByte(buf, |key|);
  }

  /** A pair and its comma, with more to come. */
  lemma ScanPairComma(buf: string, j: nat, t: Tag, rest: string, s: Scan, alnum: char -> bool)
    requires j <= |buf| && buf[j..] == Pair(t) + "," + rest && WellEscaped(t.0, false) && WellEscaped(t.1, false)
    requires s.started && !s.escaped && s.i == ByteLen(buf[..j]) == s.keyAt
    ensures var n := j + |Pair(t)|;
            && n < |buf| && buf[n + 1..] == rest
            && if rest == "" then Scanned(buf, j, s, alnum) == Incomplete
               else var q := PastPair(buf, j, t, s).(
                      tags := s.tags + [t], keyAt := ByteLen(buf[..n + 1]), i := ByteLen(buf[..n + 1]));
                    Scanned(buf, j, s, alnum) == Scanned(buf, n + 1, q, alnum)
  {
    hide ByteLen, WellEscaped, ByteSlice, Pair;
    var n := j + |Pair(t)|;
    PairHasEquals(t);
    PairComesFirst(buf, j, Pair(t), rest);
    ScanPair(buf, j, t, s, alnum);
    NextByte(buf, n);
    if rest == "" {
      assert buf[..n + 1] == buf;
    }
  }

  /** So is a tag set that ends in a comma. */
  lemma {:induction false} CommaAtTheEnd(buf: string, j: nat, tags: seq<Tag>, s: Scan, alnum: char -> bool)
    requires tags != []
    requires forall k :: 0 <= k < |tags| ==> WellEscaped(tags[k].0, false) && WellEscaped(tags[k].1, false)
    requires j <= |buf| && buf[j..] == Printed(tags) + ","
    requires s.started && !s.escaped && s.i == ByteLen(buf[..j]) == s.keyAt
    ensures Scanned(buf, j, s, alnum) == Incomplete
    decreases |tags|
  {
    hide ByteLen, WellEscaped, Pair, Scanned;
    var t, n := tags[0], j + |Pair(tags[0])|;
    if |tags| == 1 {
      assert buf[j..] == Pair(t) + "," + "";
      ScanPairComma(buf, j, t, "", s, alnum);
    } else {
      var rest := tags[1..];
      assert forall k :: 0 <= k < |rest| ==> rest[k] == tags[k + 1];
      assert Pair(t) + "," + Printed(rest) + "," == Pair(t) + "," + (Printed(rest) + ",");
      ScanPairComma(buf, j, t, Printed(rest) + ",", s, alnum);
      var q := PastPair(buf, j, t, s).(
        tags := s.tags + [t], keyAt := ByteLen(buf[..n + 1]), i := ByteLen(buf[..n + 1]));
      CommaAtTheEnd(buf, n + 1, rest, q, alnum);
    }
  }
}
