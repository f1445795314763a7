/**
 Numbered file names and the parsers of their ids (tskv/src/file_utils.rs).
 Names are ASCII, so a byte position is a character position.
 */
module FileNames {
  import opened Wrappers
  import opened Decimal

  // ---------------------------------------------------------------- printers

  function MakeSummaryName(number: nat): string {
    "summary-" + Print6(number)
  }

  /** `_000123.wal`, `_000123.binlog`, `_000123.tsm`, and so on. */
  function MakeFileName(id: nat, suffix: string): string {
    "_" + Print6(id) + "." + suffix
  }

  // ---------------------------------------------------------------- parsers

  /** The regular expression `before\d{6}after` at position `p`. */
  predicate MatchesAt(s: string, before: string, after: string, p: nat) {
    var q := p + |before|;
    && q + 6 + |after| <= |s|
    && s[p..q] == before && AllDigits(s[q..q + 6]) && s[q + 6..q + 6 + |after|] == after
  }

  /** A regular expression without anchors matches anywhere. */
  ghost predicate Matches(s: string, before: string, after: string) {
    exists p: nat :: MatchesAt(s, before, after, p)
  }

  ghost function GetSummaryId(name: string): Option<nat> {
    if !Matches(name, "summary-", "") || |name| < 8 then None else ParseU64(name[8..])
  }

  /** The id of a WAL, index binlog or other file with a six-digit pattern. */
  ghost function GetSixDigitId(name: string, suffix: string): Option<nat> {
    if !Matches(name, "_", "." + suffix) || |name| < 7 then None else ParseU64(name[1..7])
  }

  /** The position of the first `c`. */
  function Find(s: string, c: char): (r: Option<nat>)
    ensures r.None? <==> c !in s
    ensures r.Some? ==> r.value < |s| && s[r.value] == c && c !in s[..r.value]
  {
    if s == "" then None
    else if s[0] == c then Some(0)
    else
      var r := Find(s[1..], c);
      assert s == [s[0]] + s[1..];
      if r.None? then None
      else
        assert s[..r.value + 1] == [s[0]] + s[1..][..r.value];
        Some(r.value + 1)
  }

  datatype TsmId = Id(value: nat) | Invalid | Panics

  function GetTsmId(name: string): TsmId {
    if |name| == 1 then Invalid
    else
      var under, dot := Find(name, '_'), Find(name, '.');
      var start := (if under.Some? then under.value else 0) + 1;
      var end := if dot.Some? then dot.value else |name|;
      if start > end then Panics
      else match ParseU64(name[start..end]) case Some(n) => Id(n) case None => Invalid
  }

  // ---------------------------------------------------------------- round trips

  /** Every summary id is read back from its file name. */
  lemma SummaryRoundTrip(n: nat)
    requires n < U64_LIMIT
    ensures GetSummaryId(MakeSummaryName(n)) == Some(n)
  {
    var s, d := MakeSummaryName(n), Print6(n);
    assert s[8..] == d && s[0..8] == "summary-" && s[8..14] == d[..6] && s[14..14] == "";
    assert MatchesAt(s, "summary-", "", 0);
    ParseOfPrint6(n);
  }

  lemma FirstOf(a: string, c: char, b: string)
    requires c !in a
    ensures Find(a + [c] + b, c) == Some(|a|)
  {
    var s := a + [c] + b;
    assert s[|a|] == c;
    var r := Find(s, c);
    assert forall i :: 0 <= i < |a| ==> s[i] == a[i];
    assert forall i :: 0 <= i < r.value ==> s[i] in s[..r.value];
  }

  /** Every TSM id is read back from its file name. */
  lemma TsmRoundTrip(n: nat)
    requires n < U64_LIMIT
    ensures GetTsmId(MakeFileName(n, "tsm")) == Id(n)
  {
    hide Find, Print6;
    var s, d := MakeFileName(n, "tsm"), Print6(n);
    assert s == "" + ['_'] + (d + "." + "tsm") && s == ("_" + d) + ['.'] + "tsm";
    FirstOf("", '_', d + "." + "tsm");
    assert '.' !in "_" + d;
    FirstOf("_" + d, '.', "tsm");
    assert s[1..1 + |d|] == d;
    ParseOfPrint6(n);
  }

  /** A six-digit id is read back; a longer one is refused: the round trip holds exactly below one million. */
  lemma SixDigitRoundTrip(n: nat, suffix: string)
    requires '_' !in suffix
    ensures GetSixDigitId(MakeFileName(n, suffix), suffix) == if n < 1_000_000 then Some(n) else None
  {
    var s, d := MakeFileName(n, suffix), Print6(n);
    Print6Length(n);
    if n < 1_000_000 {
      assert s[0..1] == "_" && s[1..7] == d && s[7..8 + |suffix|] == "." + suffix;
      assert MatchesAt(s, "_", "." + suffix, 0);
      ParseOfPrint6(n);
    } else {
      forall p: nat ensures !MatchesAt(s, "_", "." + suffix, p) {
        NoMatchBeyondSix(s, d, suffix, p);
      }
    }
  }

  lemma NoMatchBeyondSix(s: string, d: string, suffix: string, p: nat)
    requires s == "_" + d + "." + suffix && AllDigits(d) && |d| > 6 && '_' !in suffix
    ensures !MatchesAt(s, "_", "." + suffix, p)
  {
    assert forall k :: 1 <= k < 1 + |d| ==> s[k] == d[k - 1];
    assert s[1 + |d|] == '.';
    assert forall k :: 2 + |d| <= k < |s| ==> s[k] == suffix[k - 2 - |d|];
    assert forall k :: 0 < k < |s| ==> s[k] != '_';
    if MatchesAt(s, "_", "." + suffix, p) {
      MatchMarks(s, suffix, p);
    }
  }

  lemma MatchMarks(s: string, suffix: string, p: nat)
    requires MatchesAt(s, "_", "." + suffix, p)
    ensures s[p] == '_' && s[p + 7] == '.'
  {
    assert s[p..p + 1][0] == s[p];
    assert s[p + 7..p + 7 + |"." + suffix|][0] == s[p + 7];
  }

  /** Different ids never share a file name. */
  lemma NamesAreDistinct(m: nat, n: nat, suffix: string)
    requires m != n
    ensures MakeSummaryName(m) != MakeSummaryName(n) && MakeFileName(m, suffix) != MakeFileName(n, suffix)
  {
    hide Print6;
    ValueOfPrint6(m);
    ValueOfPrint6(n);
    var a, b := Print6(m), Print6(n);
    assert MakeSummaryName(m)[8..] == a && MakeSummaryName(n)[8..] == b;
    MiddleOf(a, suffix);
    MiddleOf(b, suffix);
  }

  lemma MiddleOf(d: string, suffix: string)
    ensures var s := "_" + d + "." + suffix; s[1..|s| - 1 - |suffix|] == d
  {
  }

  // ---------------------------------------------------------------- scanning a directory

  /**
   The largest id among the names that parse, and a name. The name is one
   with that id, except when the largest id is 0 and the first name of the
   listing does not parse: then it is that first name.
   */
  method GetMaxSequenceFileName(names: seq<string>, get: string -> Option<nat>) returns (r: Option<(string, nat)>)
    ensures r.None? <==> forall k :: 0 <= k < |names| ==> get(names[k]).None?
    ensures r.Some? ==>
      && (exists k :: 0 <= k < |names| && get(names[k]) == Some(r.value.1))
      && (forall k :: 0 <= k < |names| && get(names[k]).Some? ==> get(names[k]).value <= r.value.1)
      && r.value.0 in names
      && (get(r.value.0) == Some(r.value.1) <==> r.value.1 > 0 || get(names[0]).Some?)
  {
    if names == [] {
      return None;
    }
    var maxId, maxIndex, found := 0, 0, false;
    for i := 0 to |names|
      invariant 0 <= maxIndex < |names|
      invariant found <==> exists k :: 0 <= k < i && get(names[k]).Some?
      invariant forall k :: 0 <= k < i && get(names[k]).Some? ==> get(names[k]).value <= maxId
      invariant if maxId > 0 then get(names[maxIndex]) == Some(maxId) && maxIndex < i else maxIndex == 0
    {
      var id := get(names[i]);
      if id.None? {
        continue;
      }
      found := true;
      if maxId < id.value {
        maxId, maxIndex := id.value, i;
      }
    }
    if !found {
      return None;
    }
    r := Some((names[maxIndex], maxId));
    if maxId == 0 {
      var k :| 0 <= k < |names| && get(names[k]).Some?;
      assert get(names[k]) == Some(0);
    }
  }

  /** The smallest and the largest id among the names that parse. */
  method GetFileIdRange(names: seq<string>, get: string -> Option<nat>) returns (r: Option<(nat, nat)>)
    requires forall s :: get(s).Some? ==> get(s).value < U64_LIMIT
    ensures r.None? <==> forall k :: 0 <= k < |names| ==> get(names[k]).None?
    ensures r.Some? ==>
      && (exists k :: 0 <= k < |names| && get(names[k]) == Some(r.value.0))
      && (exists k :: 0 <= k < |names| && get(names[k]) == Some(r.value.1))
      && (forall k :: 0 <= k < |names| && get(names[k]).Some? ==> r.value.0 <= get(names[k]).value <= r.value.1)
  {
    var maxId, minId, found := 0, U64_LIMIT - 1, false;
    for i := 0 to |names|
      invariant found <==> exists k :: 0 <= k < i && get(names[k]).Some?
      invariant !found ==> maxId == 0 && minId == U64_LIMIT - 1
      invariant forall k :: 0 <= k < i && get(names[k]).Some? ==> minId <= get(names[k]).value <= maxId
      invariant found ==> exists k :: 0 <= k < i && get(names[k]) == Some(maxId)
      invariant found ==> exists k :: 0 <= k < i && get(names[k]) == Some(minId)
    {
      var id := get(names[i]);
      if id.Some? {
        assert get(names[i]) == Some(id.value);
        found := true;
        if maxId < id.value {
          maxId := id.value;
        }
        if minId > id.value {
          minId := id.value;
        }
      }
    }
    r := if found then Some((minId, maxId)) else None;
  }
}
