// NAL units behind big-endian length fields: the samples of an HEVC track and the parameter-set
// arrays of the decoder configuration record (section 8.3.3.1 of ISO/IEC 14496-15).
// Each parser is shown to accept exactly the strings its printer produces, and to invert it.

module NalFraming {
  import opened Bytes
  import opened AnnexB

  datatype Mp4Error =
    | MalformedBoxes | Fragmented | NoVideoTrack | MultipleVideoTracks | NotHevc | MissingTables
    | HvccTooShort | StszTooShort | ZeroSamples | StszOverrun | StcoTooShort | StcoOverrun
    | StscTooShort | StscOverrun | HvccHeaderOverrun | HvccLengthOverrun | HvccPayloadOverrun
    | BadStscRun | SamplePastEnd | BadNalLength | NotOnNalBoundary | SamplesNotCovered | NoNalUnits

  type NalResult = Result<seq<Nal>, Mp4Error>

  /** The result of a whole, given the NALs of its first part and the result of the rest. */
  function After(done: seq<Nal>, rest: NalResult): NalResult {
    if rest.Success? then Success(done + rest.value) else rest
  }

  /** The result of two parts one behind the other: the first error counts. */
  function Chain(first: NalResult, rest: NalResult): NalResult {
    if first.Failure? then first else After(first.value, rest)
  }

  lemma AfterAfter(a: seq<Nal>, b: seq<Nal>, rest: NalResult)
    ensures After(a, After(b, rest)) == After(a + b, rest)
  {
    if rest.Success? {
      assert a + (b + rest.value) == a + b + rest.value;
    }
  }

  lemma AfterNothing(rest: NalResult)
    ensures After([], rest) == rest
  {
    if rest.Success? {
      assert [] + rest.value == rest.value;
    }
  }

  // ----- samples

  /** NALs behind length fields of w bytes. */
  function LengthPrefixed(nals: seq<Nal>, w: nat): seq<byte> {
    if nals == [] then [] else BeBytes(|nals[0]|, w) + nals[0] + LengthPrefixed(nals[1..], w)
  }

  lemma {:induction false} LengthPrefixedLength(nals: seq<Nal>, w: nat)
    ensures |LengthPrefixed(nals, w)| == Payload(nals) + w * |nals|
  {
    if nals != [] {
      LengthPrefixedLength(nals[1..], w);
      assert w * |nals| == w + w * |nals[1..]|;
    }
  }

  /** The NALs of a sample: it must end exactly behind a NAL, and no NAL may be empty. */
  function SampleNals(s: seq<byte>, w: nat): NalResult
    requires w > 0
    decreases |s|
  {
    if |s| < w then if s == [] then Success([]) else Failure(NotOnNalBoundary)
    else
      var nl := Be(s[..w]);
      if nl == 0 || w + nl > |s| then Failure(BadNalLength)
      else After([s[w..w + nl]], SampleNals(s[w + nl..], w))
  }

  /** NALs whose lengths can be written in w bytes and are not zero. */
  predicate Framable(nals: seq<Nal>, w: nat) {
    forall k :: 0 <= k < |nals| ==> 0 < |nals[k]| < Pow256(w)
  }

  lemma {:induction false} SampleNalsOfPrint(nals: seq<Nal>, w: nat)
    requires w > 0 && Framable(nals, w)
    ensures SampleNals(LengthPrefixed(nals, w), w) == Success(nals)
  {
    if nals != [] {
      var n, rest := nals[0], LengthPrefixed(nals[1..], w);
      var s := LengthPrefixed(nals, w);
      assert s == BeBytes(|n|, w) + n + rest;
      assert s[..w] == BeBytes(|n|, w);
      BeOfBeBytes(|n|, w);
      assert s[w..w + |n|] == n;
      assert s[w + |n|..] == rest;
      SampleNalsOfPrint(nals[1..], w);
      assert [n] + nals[1..] == nals;
    }
  }

  lemma {:induction false} FrameOne(n: Nal, more: seq<Nal>, w: nat)
    ensures LengthPrefixed([n] + more, w) == BeBytes(|n|, w) + n + LengthPrefixed(more, w)
    ensures Framable([n] + more, w) <==> 0 < |n| < Pow256(w) && Framable(more, w)
  {
    var nals := [n] + more;
    assert nals[1..] == more && nals[0] == n;
    assert forall k :: 0 <= k < |more| ==> nals[k + 1] == more[k];
    assert Framable(more, w) && 0 < |n| < Pow256(w) ==> forall k :: 0 < k < |nals| ==> nals[k] == more[k - 1];
  }

  lemma {:induction false} NothingFramed(w: nat)
    ensures Framable([], w) && LengthPrefixed([], w) == []
  {
  }

  lemma CutTwice<T>(s: seq<T>, a: nat, b: nat)
    requires a <= b <= |s|
    ensures s == s[..a] + s[a..b] + s[b..]
  {
  }

  lemma {:induction false} PrintOfSampleNals(s: seq<byte>, w: nat)
    requires w > 0 && SampleNals(s, w).Success?
    ensures var nals := SampleNals(s, w).value; Framable(nals, w) && LengthPrefixed(nals, w) == s
    decreases |s|
  {
    hide LengthPrefixed, Framable, Be, BeBytes;
    if |s| < w {
      NothingFramed(w);
    } else {
      var nl := Be(s[..w]);
      var n, rest := s[w..w + nl], s[w + nl..];
      PrintOfSampleNals(rest, w);
      BeBytesOfBe(s[..w]);
      FrameOne(n, SampleNals(rest, w).value, w);
      CutTwice(s, w, w + nl);
    }
  }

  /** Main result: a sample is accepted exactly if it tiles into non-empty length-prefixed NALs, which are the
      result. */
  lemma {:induction false} SampleTilesIff(s: seq<byte>, w: nat, nals: seq<Nal>)
    requires w > 0
    ensures SampleNals(s, w) == Success(nals) <==> Framable(nals, w) && LengthPrefixed(nals, w) == s
  {
    if SampleNals(s, w) == Success(nals) {
      PrintOfSampleNals(s, w);
    }
    if Framable(nals, w) && LengthPrefixed(nals, w) == s {
      SampleNalsOfPrint(nals, w);
    }
  }

  /** In the byte stream a sample takes its own size plus 4 - w bytes per NAL. */
  lemma {:induction false} SampleGrowth(s: seq<byte>, w: nat)
    requires w > 0 && SampleNals(s, w).Success?
    ensures |Render(SampleNals(s, w).value)| == |s| + (4 - w) * |SampleNals(s, w).value|
  {
    var nals := SampleNals(s, w).value;
    PrintOfSampleNals(s, w);
    LengthPrefixedLength(nals, w);
    RenderLength(nals);
  }

  // ----- parameter sets

  /** Reads n NALs behind 16-bit lengths from p on; also tells where the last one ends. Empty NALs are accepted. */
  function ArrayNals(rec: seq<byte>, p: nat, n: nat): Result<(seq<Nal>, nat), Mp4Error>
    requires p <= |rec|
    decreases n
  {
    if n == 0 then Success(([], p))
    else if p + 2 > |rec| then Failure(HvccLengthOverrun)
    else
      var nl := Rd16(rec, p);
      if p + 2 + nl > |rec| then Failure(HvccPayloadOverrun)
      else match ArrayNals(rec, p + 2 + nl, n - 1)
        case Failure(e) => Failure(e)
        case Success((rest, end)) => Success(([rec[p + 2..p + 2 + nl]] + rest, end))
  }

  lemma {:induction false} ArrayNalsEnd(rec: seq<byte>, p: nat, n: nat)
    requires p <= |rec| && ArrayNals(rec, p, n).Success?
    ensures p <= ArrayNals(rec, p, n).value.1 <= |rec|
    ensures |ArrayNals(rec, p, n).value.0| == n
    decreases n
  {
    if n > 0 {
      ArrayNalsEnd(rec, p + 2 + Rd16(rec, p), n - 1);
    }
  }

  /** Reads a arrays, each a type byte, a 16-bit count and that many NALs. */
  function Arrays(rec: seq<byte>, p: nat, a: nat): NalResult
    requires p <= |rec|
    decreases a
  {
    if a == 0 then Success([])
    else if p + 3 > |rec| then Failure(HvccHeaderOverrun)
    else match ArrayNals(rec, p + 3, Rd16(rec, p + 1))
      case Failure(e) => Failure(e)
      case Success((nals, end)) =>
        ArrayNalsEnd(rec, p + 3, Rd16(rec, p + 1));
        After(nals, Arrays(rec, end, a - 1))
  }

  datatype PsArray = PsArray(kind: byte, nals: seq<Nal>)

  function PrintArrays(arrays: seq<PsArray>): seq<byte> {
    if arrays == [] then []
    else [arrays[0].kind] + BeBytes(|arrays[0].nals|, 2) + LengthPrefixed(arrays[0].nals, 2) + PrintArrays(arrays[1..])
  }

  predicate Printable(arrays: seq<PsArray>) {
    forall i :: 0 <= i < |arrays| ==>
      |arrays[i].nals| < 0x1_0000 && forall k :: 0 <= k < |arrays[i].nals| ==> |arrays[i].nals[k]| < 0x1_0000
  }

  /** All NALs of the arrays, in record order. */
  function ArraysNals(arrays: seq<PsArray>): seq<Nal> {
    if arrays == [] then [] else arrays[0].nals + ArraysNals(arrays[1..])
  }

  /** rec holds s at position p. */
  predicate HoldsAt(rec: seq<byte>, p: nat, s: seq<byte>) {
    p + |s| <= |rec| && rec[p..p + |s|] == s
  }

  lemma HoldsAtConcat(rec: seq<byte>, p: nat, s: seq<byte>, t: seq<byte>)
    ensures HoldsAt(rec, p, s + t) <==> HoldsAt(rec, p, s) && HoldsAt(rec, p + |s|, t)
  {
    if HoldsAt(rec, p, s + t) {
      assert rec[p..p + |s|] == (s + t)[..|s|];
      assert rec[p + |s|..p + |s| + |t|] == (s + t)[|s|..];
    }
    if HoldsAt(rec, p, s) && HoldsAt(rec, p + |s|, t) {
      assert rec[p..p + |s + t|] == rec[p..p + |s|] + rec[p + |s|..p + |s| + |t|];
    }
  }

  lemma {:induction false} Length16(rec: seq<byte>, p: nat, n: nat)
    requires n < 0x1_0000
    ensures HoldsAt(rec, p, BeBytes(n, 2)) <==> p + 2 <= |rec| && Rd16(rec, p) == n
  {
    assert Pow256(2) == 0x1_0000 by {
      assert Pow256(0) == 1 && Pow256(1) == 256;
    }
    BeOfBeBytes(n, 2);
    if p + 2 <= |rec| {
      Rd16IsBe(rec, p);
      BeBytesOfBe(rec[p..p + 2]);
    }
  }

  lemma OneMoreNal(rec: seq<byte>, p: nat, nal: Nal, k: nat)
    requires |nal| < 0x1_0000 && HoldsAt(rec, p, BeBytes(|nal|, 2) + nal)
    ensures p + 2 + |nal| <= |rec|
    ensures var rest := ArrayNals(rec, p + 2 + |nal|, k);
            rest.Success? ==> ArrayNals(rec, p, k + 1) == Success(([nal] + rest.value.0, rest.value.1))
  {
    HoldsAtConcat(rec, p, BeBytes(|nal|, 2), nal);
    Length16(rec, p, |nal|);
    assert rec[p + 2..p + 2 + |nal|] == nal;
  }

  lemma {:induction false} NoNal(rec: seq<byte>, p: nat)
    requires HoldsAt(rec, p, LengthPrefixed([], 2))
    ensures p <= |rec| && ArrayNals(rec, p, 0) == Success(([], p)) && LengthPrefixed([], 2) == []
  {
  }

  lemma {:induction false} ArrayNalsOfPrint(rec: seq<byte>, p: nat, nals: seq<Nal>)
    requires forall k :: 0 <= k < |nals| ==> |nals[k]| < 0x1_0000
    requires HoldsAt(rec, p, LengthPrefixed(nals, 2))
    ensures p <= |rec|
    ensures ArrayNals(rec, p, |nals|) == Success((nals, p + |LengthPrefixed(nals, 2)|))
    decreases |nals|
  {
    hide ArrayNals, LengthPrefixed, HoldsAt, BeBytes;
    if nals == [] {
      NoNal(rec, p);
    } else {
      var n, tail := nals[0], nals[1..];
      var head, rest := BeBytes(|n|, 2) + n, LengthPrefixed(tail, 2);
      assert nals == [n] + tail;
      FrameOne(n, tail, 2);
      HoldsAtConcat(rec, p, head, rest);
      OneMoreNal(rec, p, n, |tail|);
      ArrayNalsOfPrint(rec, p + |head|, tail);
    }
  }

  lemma NoNalHere(rec: seq<byte>, p: nat)
    requires p <= |rec|
    ensures HoldsAt(rec, p, LengthPrefixed([], 2)) && LengthPrefixed([], 2) == []
  {
  }

  lemma NalHere(rec: seq<byte>, p: nat, nl: nat)
    requires p + 2 + nl <= |rec|
    ensures HoldsAt(rec, p + 2, rec[p + 2..p + 2 + nl])
  {
  }

  lemma {:induction false} PrintOfArrayNals(rec: seq<byte>, p: nat, n: nat)
    requires p <= |rec| && ArrayNals(rec, p, n).Success?
    ensures var nals := ArrayNals(rec, p, n).value.0;
            && (forall k :: 0 <= k < |nals| ==> |nals[k]| < 0x1_0000)
            && HoldsAt(rec, p, LengthPrefixed(nals, 2))
            && ArrayNals(rec, p, n).value.1 == p + |LengthPrefixed(nals, 2)|
    decreases n
  {
    hide HoldsAt, LengthPrefixed, BeBytes;
    if n == 0 {
      NoNalHere(rec, p);
    } else {
      var nl := Rd16(rec, p);
      var nal := rec[p + 2..p + 2 + nl];
      PrintOfArrayNals(rec, p + 2 + nl, n - 1);
      var more := ArrayNals(rec, p + 2 + nl, n - 1).value.0;
      FrameOne(nal, more, 2);
      NalHere(rec, p, nl);
      Length16(rec, p, nl);
      var field := BeBytes(nl, 2);
      HoldsAtConcat(rec, p, field, nal);
      HoldsAtConcat(rec, p, field + nal, LengthPrefixed(more, 2));
    }
  }

  lemma {:induction false} HeaderHolds(rec: seq<byte>, p: nat, kind: byte, count: nat)
    requires count < 0x1_0000
    ensures HoldsAt(rec, p, [kind] + BeBytes(count, 2)) <==>
            p + 3 <= |rec| && rec[p] == kind && Rd16(rec, p + 1) == count
  {
    HoldsAtConcat(rec, p, [kind], BeBytes(count, 2));
    Length16(rec, p + 1, count);
    if p < |rec| {
      assert rec[p..p + 1] == [rec[p]];
      assert rec[p..p + 1] == [kind] ==> [kind][0] == rec[p];
    }
  }

  lemma NoArray(rec: seq<byte>, p: nat)
    requires HoldsAt(rec, p, PrintArrays([]))
    ensures p <= |rec|
  {
  }

  lemma {:induction false} ArraysOfPrint(rec: seq<byte>, p: nat, arrays: seq<PsArray>)
    requires Printable(arrays) && HoldsAt(rec, p, PrintArrays(arrays))
    ensures p <= |rec|
    ensures Arrays(rec, p, |arrays|) == Success(ArraysNals(arrays))
    decreases |arrays|
  {
    hide HoldsAt, LengthPrefixed, BeBytes;
    if arrays == [] {
      NoArray(rec, p);
    } else {
      var a := arrays[0];
      var header, body, rest := [a.kind] + BeBytes(|a.nals|, 2), LengthPrefixed(a.nals, 2), PrintArrays(arrays[1..]);
      assert PrintArrays(arrays) == header + body + rest;
      HoldsAtConcat(rec, p, header + body, rest);
      HoldsAtConcat(rec, p, header, body);
      HeaderHolds(rec, p, a.kind, |a.nals|);
      ArrayNalsOfPrint(rec, p + 3, a.nals);
      ArraysOfPrint(rec, p + 3 + |body|, arrays[1..]);
    }
  }

  lemma PrintOfOneArray(rec: seq<byte>, p: nat) returns (first: PsArray)
    requires p + 3 <= |rec| && ArrayNals(rec, p + 3, Rd16(rec, p + 1)).Success?
    ensures Printable([first])
    ensures var text := [first.kind] + BeBytes(|first.nals|, 2) + LengthPrefixed(first.nals, 2);
            HoldsAt(rec, p, text) && ArrayNals(rec, p + 3, Rd16(rec, p + 1)) == Success((first.nals, p + |text|))
  {
    var count := Rd16(rec, p + 1);
    PrintOfArrayNals(rec, p + 3, count);
    ArrayNalsEnd(rec, p + 3, count);
    var nals := ArrayNals(rec, p + 3, count).value.0;
    first := PsArray(rec[p], nals);
    HeaderHolds(rec, p, rec[p], count);
    HoldsAtConcat(rec, p, [first.kind] + BeBytes(count, 2), LengthPrefixed(nals, 2));
  }

  lemma NoArrayHere(rec: seq<byte>, p: nat)
    requires p <= |rec|
    ensures HoldsAt(rec, p, PrintArrays([]))
  {
  }

  lemma {:induction false} PrintOfArrays(rec: seq<byte>, p: nat, a: nat) returns (arrays: seq<PsArray>)
    requires p <= |rec| && Arrays(rec, p, a).Success?
    ensures |arrays| == a && Printable(arrays)
    ensures HoldsAt(rec, p, PrintArrays(arrays))
    ensures Arrays(rec, p, a) == Success(ArraysNals(arrays))
    decreases a
  {
    hide HoldsAt, LengthPrefixed, BeBytes, ArrayNals;
    if a == 0 {
      arrays := [];
      NoArrayHere(rec, p);
    } else {
      var first := PrintOfOneArray(rec, p);
      assert [first][0] == first;
      var text := [first.kind] + BeBytes(|first.nals|, 2) + LengthPrefixed(first.nals, 2);
      var more := PrintOfArrays(rec, p + |text|, a - 1);
      arrays := [first] + more;
      assert arrays[1..] == more;
      assert PrintArrays(arrays) == text + PrintArrays(more);
      HoldsAtConcat(rec, p, text, PrintArrays(more));
    }
  }

  /** Main result: the record is accepted exactly if its arrays can be read off as printed; what follows them is
      ignored. */
  lemma {:induction false} ArraysFitIff(rec: seq<byte>, p: nat, a: nat, nals: seq<Nal>)
    requires p <= |rec|
    ensures Arrays(rec, p, a) == Success(nals) <==>
            exists arrays ::
              |arrays| == a && Printable(arrays) && HoldsAt(rec, p, PrintArrays(arrays)) && ArraysNals(arrays) == nals
  {
    if Arrays(rec, p, a) == Success(nals) {
      var arrays := PrintOfArrays(rec, p, a);
    }
    forall arrays
      | |arrays| == a && Printable(arrays) && HoldsAt(rec, p, PrintArrays(arrays)) && ArraysNals(arrays) == nals
      ensures Arrays(rec, p, a) == Success(nals)
    {
      ArraysOfPrint(rec, p, arrays);
    }
  }
}
