/** Reading a byte stream in the format of Annex B of H.264: NAL units between start codes. */
module AnnexBStream {
  import opened Bytes

  predicate CodeAt(d: bytes, i: nat) {
    i + 2 < |d| && d[i] == 0 && d[i + 1] == 0 && d[i + 2] == 1
  }

  function NextCode(d: bytes, i: nat): (k: Option<nat>)
    ensures k.Some? ==> i <= k.value && CodeAt(d, k.value)
    decreases |d| - i
  {
    if i + 2 >= |d| then None else if CodeAt(d, i) then Some(i) else NextCode(d, i + 1)
  }

  lemma {:induction false} FirstNext(d: bytes, i: nat, j: nat)
    requires i <= j && (NextCode(d, i).Some? ==> j < NextCode(d, i).value)
    ensures !CodeAt(d, j)
    decreases |d| - i
  {
    if i < j && i + 2 < |d| {
      FirstNext(d, i + 1, j);
    }
  }

  /** Zero octets before a start code belong to no NAL unit. */
  function StripZeros(b: bytes): (r: bytes)
    ensures r <= b
    ensures r != [] ==> r[|r| - 1] != 0
  {
    if b != [] && b[|b| - 1] == 0 then StripZeros(b[..|b| - 1]) else b
  }

  /** The NAL units of a stream, and of what follows a start code. */
  function Cut(d: bytes): seq<bytes>
    decreases |d|, 0
  {
    var k := NextCode(d, 0);
    if k.None? then [] else CutBehind(d[k.value + 3..])
  }

  function CutBehind(d: bytes): seq<bytes>
    decreases |d|, 1
  {
    var k := NextCode(d, 0);
    if k.None? then [StripZeros(d)] else [StripZeros(d[..k.value])] + CutAt(d, k.value)
  }

  function CutAt(d: bytes, k: nat): seq<bytes>
    requires CodeAt(d, k)
    decreases |d|, 0
  {
    CutBehind(d[k + 3..])
  }

  /** Units no reader can mistake: no start code inside, no zero octet at the end. */
  ghost predicate Plain(nal: bytes) {
    (forall i: nat :: !CodeAt(nal, i)) && (nal != [] ==> nal[|nal| - 1] != 0)
  }

  ghost predicate AllPlain(nals: seq<bytes>) {
    forall n | n in nals :: Plain(n)
  }

  function Stream(nals: seq<bytes>): bytes {
    if nals == [] then [] else [0, 0, 0, 1] + nals[0] + Stream(nals[1..])
  }

  lemma {:induction false} StrippedPlain(d: bytes, k: nat)
    requires k <= |d| && forall i: nat :: i + 2 < k ==> !CodeAt(d, i)
    ensures Plain(StripZeros(d[..k]))
  {
    var r := StripZeros(d[..k]);
    forall i: nat ensures !CodeAt(r, i) {
      if i + 2 < |r| {
        assert !CodeAt(d, i) && r[i] == d[i] && r[i + 1] == d[i + 1] && r[i + 2] == d[i + 2];
      }
    }
  }

  /** Whatever is read, units come out plain. */
  lemma {:induction false} CutPlain(d: bytes)
    ensures AllPlain(CutBehind(d))
    decreases |d|
  {
    var k := NextCode(d, 0);
    var end := if k.None? then |d| else k.value;
    forall i: nat | i + 2 < end ensures !CodeAt(d, i) {
      FirstNext(d, 0, i);
    }
    StrippedPlain(d, end);
    assert d[..|d|] == d;
    hide Plain, StripZeros, CodeAt;
    if k.Some? {
      CutPlain(d[k.value + 3..]);
    }
  }

  lemma {:induction false} NoCode(nal: bytes, i: nat)
    requires Plain(nal)
    ensures NextCode(nal, i) == None
    decreases |nal| - i
  {
    if i + 2 < |nal| {
      NoCode(nal, i + 1);
    }
  }

  /** Behind a plain unit the next start code's last three octets come first. */
  lemma {:induction false} CodeBehind(nal: bytes, rest: bytes, i: nat)
    requires Plain(nal) && i <= |nal|
    ensures NextCode(nal + ([0, 0, 0, 1] + rest), i) == Some(|nal| + 1)
    decreases |nal| - i
  {
    var d := nal + ([0, 0, 0, 1] + rest);
    assert d[|nal|] == 0 && d[|nal| + 1] == 0 && d[|nal| + 2] == 0 && d[|nal| + 3] == 1;
    if i < |nal| {
      assert !CodeAt(d, i) by {
        if i + 2 < |nal| {
          assert !CodeAt(nal, i);
        }
      }
      CodeBehind(nal, rest, i + 1);
    } else {
      assert !CodeAt(d, i) && CodeAt(d, i + 1);
    }
  }

  lemma {:induction false} StripOne(nal: bytes)
    requires nal != [] ==> nal[|nal| - 1] != 0
    ensures StripZeros(nal) == nal && StripZeros(nal + [0]) == nal
  {
    assert (nal + [0])[..|nal|] == nal;
  }

  lemma {:induction false} StreamFirst(nals: seq<bytes>)
    requires nals != []
    ensures Stream(nals) == [0, 0, 0, 1] + (nals[0] + Stream(nals[1..]))
    ensures Cut(Stream(nals)) == CutBehind(nals[0] + Stream(nals[1..]))
  {
    var body := nals[0] + Stream(nals[1..]);
    var d := [0, 0, 0, 1] + body;
    assert Stream(nals) == d;
    assert !CodeAt(d, 0) && CodeAt(d, 1);
    assert NextCode(d, 0) == NextCode(d, 1) == Some(1);
    assert d[4..] == body;
  }

  lemma {:induction false} CutLast(nal: bytes)
    requires Plain(nal)
    ensures CutBehind(nal) == [nal]
  {
    NoCode(nal, 0);
    StripOne(nal);
  }

  lemma {:induction false} CutOne(nal: bytes, rest: bytes)
    requires Plain(nal)
    ensures CutBehind(nal + ([0, 0, 0, 1] + rest)) == [nal] + CutBehind(rest)
  {
    CodeBehind(nal, rest, 0);
    StripOne(nal);
    var d := nal + ([0, 0, 0, 1] + rest);
    assert d[..|nal| + 1] == nal + [0] && d[|nal| + 1 + 3..] == rest;
    hide Plain, NextCode, StripZeros;
    assert CutBehind(d) == [StripZeros(d[..|nal| + 1])] + CutAt(d, |nal| + 1);
  }

  lemma {:induction false} CutBack(nals: seq<bytes>)
    requires nals != [] && AllPlain(nals)
    ensures Cut(Stream(nals)) == nals
    decreases |nals|
  {
    hide Plain, Cut, CutBehind, Stream;
    var nal, later := nals[0], nals[1..];
    assert nal in nals && nals == [nal] + later;
    StreamFirst(nals);
    if later == [] {
      EmptyStream();
      CutLast(nal);
      assert nal + [] == nal;
    } else {
      StreamFirst(later);
      CutBack(later);
      CutOne(nal, later[0] + Stream(later[1..]));
    }
  }

  lemma {:induction false} EmptyStream()
    ensures Stream([]) == [] && Cut([]) == []
  {
  }

  /** A reader gets back exactly the NAL units written if and only if they are all plain. */
  lemma {:induction false} CutExact(nals: seq<bytes>)
    ensures Cut(Stream(nals)) == nals <==> AllPlain(nals)
  {
    if nals == [] {
      EmptyStream();
    } else if AllPlain(nals) {
      CutBack(nals);
    } else {
      StreamFirst(nals);
      CutPlain(nals[0] + Stream(nals[1..]));
    }
  }
}
