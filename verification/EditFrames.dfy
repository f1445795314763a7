/**
 Length-prefixed framing of version edits (`VersionEdit::encode_vec` and
 `decode_vec` in tskv/src/summary.rs). The serializer is a parameter: `ser`
 writes one value and `deser` reads it back, up to the fields that are not
 serialized.
 */
module EditFrames {
  import opened Wrappers
  import opened BigEndian
  import opened Summary

  type Bytestring = seq<byte>

  /** Four length bytes, then the payload. */
  function Frame<T>(ser: T -> Bytestring, x: T): Bytestring {
    Bytes(4, |ser(x)|) + ser(x)
  }

  function Frames<T>(ser: T -> Bytestring, data: seq<T>): Bytestring {
    if data == [] then [] else Frame(ser, data[0]) + Frames(ser, data[1..])
  }

  /** Reading frames until fewer bytes remain than the next frame needs; an undecodable payload is an error. */
  function Decoded<T>(deser: Bytestring -> Option<T>, buf: Bytestring): Option<seq<T>>
    decreases |buf|
  {
    if |buf| < 4 then Some([])
    else
      var len := Number(buf[..4]);
      if |buf| - 4 < len then Some([])
      else
        match deser(buf[4..4 + len])
        case None => None
        case Some(x) => Prepended([x], Decoded(deser, buf[4 + len..]))
  }

  function Prepended<T>(list: seq<T>, r: Option<seq<T>>): Option<seq<T>> {
    if r.None? then None else Some(list + r.value)
  }

  lemma PrependedTwice<T>(a: seq<T>, b: seq<T>, r: Option<seq<T>>)
    ensures Prepended(a, Prepended(b, r)) == Prepended(a + b, r)
    ensures Prepended([], r) == r
  {
    if r.Some? {
      assert a + (b + r.value) == a + b + r.value;
      assert [] + r.value == r.value;
    }
  }

  lemma Regroup(a: Bytestring, b: Bytestring, c: Bytestring)
    ensures a + (b + c) == a + b + c
  {
  }

  lemma {:induction false} FramesConcat<T>(ser: T -> Bytestring, a: seq<T>, b: seq<T>)
    ensures Frames(ser, a + b) == Frames(ser, a) + Frames(ser, b)
  {
    if a == [] {
      assert a + b == b;
    } else {
      hide Frame;
      var f, rest := Frame(ser, a[0]), Frames(ser, a[1..]);
      FramesConcat(ser, a[1..], b);
      assert (a + b)[0] == a[0] && (a + b)[1..] == a[1..] + b;
      Regroup(f, rest, Frames(ser, b));
    }
  }

  method EncodeVec<T>(ser: T -> Bytestring, data: seq<T>) returns (buf: Bytestring)
    ensures buf == Frames(ser, data)
  {
    buf := [];
    for n := 0 to |data|
      invariant buf == Frames(ser, data[..n])
    {
      var payload := ser(data[n]);
      FramesConcat(ser, data[..n], [data[n]]);
      assert data[..n + 1] == data[..n] + [data[n]];
      assert Frames(ser, [data[n]]) == Frame(ser, data[n]);
      buf := buf + Bytes(4, |payload|) + payload;
    }
    assert data[..|data|] == data;
  }

  method DecodeVec<T>(deser: Bytestring -> Option<T>, buf: Bytestring) returns (r: Option<seq<T>>)
    ensures r == Decoded(deser, buf)
  {
    var list: seq<T> := [];
    var pos := 0;
    assert buf[0..] == buf;
    PrependedTwice([], [], Decoded(deser, buf));
    while pos < |buf|
      invariant 0 <= pos <= |buf|
      invariant Decoded(deser, buf) == Prepended(list, Decoded(deser, buf[pos..]))
      decreases |buf| - pos
    {
      ghost var here := buf[pos..];
      assert list + [] == list;
      if |buf| - pos < 4 {
        break;
      }
      var len := Number(buf[pos..pos + 4]);
      assert here[..4] == buf[pos..pos + 4];
      pos := pos + 4;
      if |buf| - pos < len {
        return Some(list);
      }
      assert here[4..4 + len] == buf[pos..pos + len];
      assert here[4 + len..] == buf[pos + len..];
      var ve := deser(buf[pos..pos + len]);
      if ve.None? {
        return None;
      }
      pos := pos + len;
      PrependedTwice(list, [ve.value], Decoded(deser, buf[pos..]));
      list := list + [ve.value];
    }
    assert list + [] == list;
    r := Some(list);
  }

  /** How many whole frames fit into the first `n` bytes. */
  function WholeFrames<T>(ser: T -> Bytestring, data: seq<T>, n: nat): (k: nat)
    ensures k <= |data|
    decreases |data|
  {
    if data == [] || n < |Frame(ser, data[0])| then 0
    else 1 + WholeFrames(ser, data[1..], n - |Frame(ser, data[0])|)
  }

  /** The count is the largest one whose frames end within `n` bytes. */
  lemma {:induction false} WholeFramesIsLargest<T>(ser: T -> Bytestring, data: seq<T>, n: nat)
    ensures var k := WholeFrames(ser, data, n);
            |Frames(ser, data[..k])| <= n && (k < |data| ==> n < |Frames(ser, data[..k + 1])|)
    decreases |data|
  {
    if data != [] && |Frame(ser, data[0])| <= n {
      WholeFramesIsLargest(ser, data[1..], n - |Frame(ser, data[0])|);
      var k := WholeFrames(ser, data[1..], n - |Frame(ser, data[0])|);
      assert data[..k + 1][1..] == data[1..][..k];
      if k + 1 < |data| {
        assert data[..k + 2][1..] == data[1..][..k + 1];
      }
    } else if data != [] {
      assert data[..1][1..] == [];
    }
  }

  function Normalized<T>(norm: T -> T, data: seq<T>): (r: seq<T>)
    ensures |r| == |data|
  {
    seq(|data|, k requires 0 <= k < |data| => norm(data[k]))
  }

  lemma FrameLength<T>(ser: T -> Bytestring, x: T)
    requires |ser(x)| < 0x1_0000_0000
    ensures Number(Bytes(4, |ser(x)|)) == |ser(x)|
  {
    assert Pow256(4) == 0x1_0000_0000;
    NumberOfBytes(4, |ser(x)|);
  }

  function Itself(b: Bytestring): Bytestring {
    b
  }

  /** A whole frame is read, and then the rest. */
  lemma FrameComesFirst<T>(deser: Bytestring -> Option<T>, p: Bytestring, tail: Bytestring)
    requires |p| < 0x1_0000_0000
    ensures Decoded(deser, Frame(Itself, p) + tail) ==
            if deser(p).None? then None else Prepended([deser(p).value], Decoded(deser, tail))
  {
    hide Bytes, Number;
    FrameLength(Itself, p);
    var buf := Frame(Itself, p) + tail;
    assert buf[..4] == Bytes(4, |p|) && buf[4..4 + |p|] == p && buf[4 + |p|..] == tail;
  }

  /** A frame that is cut off is not read. */
  lemma FrameIsCut<T>(deser: Bytestring -> Option<T>, p: Bytestring, n: nat)
    requires |p| < 0x1_0000_0000 && n < |Frame(Itself, p)|
    ensures Decoded(deser, Frame(Itself, p)[..n]) == Some([])
  {
    hide Bytes, Number;
    FrameLength(Itself, p);
    var buf := Frame(Itself, p)[..n];
    if n >= 4 {
      assert buf[..4] == Bytes(4, |p|);
    }
  }

  /**
   Decoding any prefix of the encoding returns exactly the values whose frames
   lie wholly in it, and never an error: a torn tail loses only the tail.
   */
  lemma {:induction false} DecodeOfPrefix<T>(
    ser: T -> Bytestring, deser: Bytestring -> Option<T>, norm: T -> T, data: seq<T>, n: nat)
    requires forall x :: deser(ser(x)) == Some(norm(x))
    requires forall k :: 0 <= k < |data| ==> |ser(data[k])| < 0x1_0000_0000
    requires n <= |Frames(ser, data)|
    ensures Decoded(deser, Frames(ser, data)[..n]) == Some(Normalized(norm, data[..WholeFrames(ser, data, n)]))
    decreases |data|
  {
    hide Decoded;
    var buf := Frames(ser, data)[..n];
    if data == [] {
      assert buf == [] && data[..0] == [];
      NothingToDecode(deser);
    } else {
      var x, rest, f := data[0], data[1..], Frame(ser, data[0]);
      assert f == Frame(Itself, ser(x));
      hide Frame;
      if n >= |f| {
        var m := n - |f|;
        var k := WholeFrames(ser, rest, m);
        assert buf == f + Frames(ser, rest)[..m];
        FrameComesFirst(deser, ser(x), Frames(ser, rest)[..m]);
        DecodeOfPrefix(ser, deser, norm, rest, m);
        assert data[..k + 1] == [x] + rest[..k];
        assert Normalized(norm, data[..k + 1]) == [norm(x)] + Normalized(norm, rest[..k]);
      } else {
        assert buf == f[..n] && data[..0] == [];
        FrameIsCut(deser, ser(x), n);
      }
    }
  }

  lemma NothingToDecode<T>(deser: Bytestring -> Option<T>)
    ensures Decoded(deser, []) == Some([])
  {
  }

  lemma {:induction false} AllFramesFit<T>(ser: T -> Bytestring, data: seq<T>)
    ensures WholeFrames(ser, data, |Frames(ser, data)|) == |data|
  {
    if data != [] {
      AllFramesFit(ser, data[1..]);
    }
  }

  /** The partly-deleted list is the one field that is not serialized. */
  function Serialized(e: VersionEdit): VersionEdit {
    e.(partlyDelFiles := [])
  }

  /** The uncut encoding gives back the edits exactly when none carries partly-deleted files. */
  lemma RoundTrip(ser: VersionEdit -> Bytestring, deser: Bytestring -> Option<VersionEdit>, edits: seq<VersionEdit>)
    requires forall x :: deser(ser(x)) == Some(Serialized(x))
    requires forall k :: 0 <= k < |edits| ==> |ser(edits[k])| < 0x1_0000_0000
    ensures Decoded(deser, Frames(ser, edits)) == Some(edits) <==>
            forall k :: 0 <= k < |edits| ==> edits[k].partlyDelFiles == []
  {
    var all := Frames(ser, edits);
    AllFramesFit(ser, edits);
    DecodeOfPrefix(ser, deser, Serialized, edits, |all|);
    assert all[..|all|] == all && edits[..|edits|] == edits;
    var back := Normalized(Serialized, edits);
    assert forall k :: 0 <= k < |edits| ==> back[k] == Serialized(edits[k]);
    if forall k :: 0 <= k < |edits| ==> edits[k].partlyDelFiles == [] {
      assert back == edits;
    }
  }

  // ---------------------------------------------------------------- the bytes on disk

  /** A frame is the payload's length in four bytes, the highest first, and then the payload. */
  lemma FrameLayout<T>(ser: T -> Bytestring, x: T)
    ensures var f, len := Frame(ser, x), |ser(x)|;
            && |f| == 4 + len && f[4..] == ser(x)
            && (len < 0x1_0000_0000 ==> len == 256 * (256 * (256 * (f[0] as int) + f[1]) + f[2]) + f[3])
  {
    var len, f := |ser(x)|, Frame(ser, x);
    var b := Bytes(4, len);
    assert f[..4] == b && forall k :: 0 <= k < 4 ==> f[k] == b[k];
    if len < 0x1_0000_0000 {
      FrameLength(ser, x);
      assert b[..3][..2] == b[..2] && b[..2][..1] == b[..1] && b[..1][..0] == [];
      assert Number(b[..1]) == b[0];
      assert Number(b[..2]) == Number(b[..1]) * 256 + b[1];
      assert Number(b[..3]) == Number(b[..2]) * 256 + b[2];
    }
  }

  /** The values of payloads that all decode. */
  ghost function Values<T(!new)>(deser: Bytestring -> Option<T>, payloads: seq<Bytestring>): seq<T>
    requires AllDecode(deser, payloads)
  {
    if payloads == [] then [] else [deser(payloads[0]).value] + Values(deser, payloads[1..])
  }

  ghost predicate AllDecode<T(!new)>(deser: Bytestring -> Option<T>, payloads: seq<Bytestring>) {
    forall k :: 0 <= k < |payloads| ==> deser(payloads[k]).Some?
  }

  lemma AllDecodeStep<T(!new)>(deser: Bytestring -> Option<T>, payloads: seq<Bytestring>)
    requires payloads != []
    ensures AllDecode(deser, payloads) <==> deser(payloads[0]).Some? && AllDecode(deser, payloads[1..])
  {
    var rest := payloads[1..];
    assert forall k :: 0 <= k < |rest| ==> rest[k] == payloads[k + 1];
    if deser(payloads[0]).Some? && AllDecode(deser, rest) {
      forall k | 0 <= k < |payloads| ensures deser(payloads[k]).Some? {
        if k > 0 {
          assert rest[k - 1] == payloads[k];
        }
      }
    }
  }

  /** A cut-off buffer fails exactly if a payload that is wholly in it does not decode; otherwise each is read. */
  lemma {:induction false} DecodeOfPayloads<T(!new)>(deser: Bytestring -> Option<T>, payloads: seq<Bytestring>, n: nat)
    requires forall k :: 0 <= k < |payloads| ==> |payloads[k]| < 0x1_0000_0000
    requires n <= |Frames(Itself, payloads)|
    ensures var whole := payloads[..WholeFrames(Itself, payloads, n)];
            Decoded(deser, Frames(Itself, payloads)[..n]) ==
            if AllDecode(deser, whole) then Some(Values(deser, whole)) else None
    decreases |payloads|
  {
    hide Decoded, Frame, AllDecode;
    var buf := Frames(Itself, payloads)[..n];
    if payloads == [] {
      assert buf == [] && payloads[..0] == [];
      NothingDecoded(deser);
    } else {
      var p, rest, f := payloads[0], payloads[1..], Frame(Itself, payloads[0]);
      if |f| <= n {
        var m := n - |f|;
        var k := WholeFrames(Itself, rest, m);
        DecodeOfPayloads(deser, rest, m);
        assert buf == f + Frames(Itself, rest)[..m];
        FrameComesFirst(deser, p, Frames(Itself, rest)[..m]);
        var whole := payloads[..k + 1];
        assert whole[0] == p && whole[1..] == rest[..k];
        AllDecodeStep(deser, whole);
      } else {
        assert buf == f[..n] && payloads[..0] == [];
        FrameIsCut(deser, p, n);
        NothingDecoded(deser);
      }
    }
  }

  lemma NothingDecoded<T(!new)>(deser: Bytestring -> Option<T>)
    ensures Decoded(deser, []) == Some([]) && AllDecode(deser, []) && Values(deser, []) == []
  {
  }
}
