/** Recognising a keyframe in an Annex-B access unit by skipping the parameter sets and
    supplementary information that encoders put before the IDR slice. */
module Keyframe {
  import opened AnnexBStream
  import opened Bytes

  const SHORT_CODE: bytes := [0, 0, 1]
  const LONG_CODE: bytes := [0, 0, 0, 1]

  /** Length of the start code d begins with, 0 if there is none. */
  function StartCode(d: bytes): (n: nat)
    ensures n <= |d|
  {
    if |d| >= 4 && d[0] == 0 && d[1] == 0 && d[2] == 0 && d[3] == 1 then 4
    else if |d| >= 3 && d[0] == 0 && d[1] == 0 && d[2] == 1 then 3
    else 0
  }

  function Scan(d: bytes): bool
    decreases |d|
  {
    var unit := d[StartCode(d)..];
    if StartCode(d) == 0 || unit == [] then false
    else
      var nalType := unit[0] % 0x20;
      if nalType == 5 then true
      else if nalType < 6 || nalType > 8 then false
      else
        var next := NextCode(unit, 1);
        next.Some? && Scan(unit[next.value..])
  }

  method IsH264Keyframe(accessUnit: bytes) returns (keyframe: bool)
    ensures keyframe == Scan(accessUnit)
  {
    var data := accessUnit;
    while |data| > 0
      invariant Scan(accessUnit) == Scan(data)
      decreases |data|
    {
      ghost var before := data;
      if |data| >= 4 && data[0] == 0 && data[1] == 0 && data[2] == 0 && data[3] == 1 {
        data := data[4..];
      } else if |data| >= 3 && data[0] == 0 && data[1] == 0 && data[2] == 1 {
        data := data[3..];
      } else {
        break;
      }
      if |data| == 0 {
        break;
      }
      assert data == before[StartCode(before)..];
      var nalType := data[0] % 0x20;
      if nalType == 5 {
        return true;
      } else if nalType == 6 || nalType == 7 || nalType == 8 {
        var next := -1;
        var i := 1;
        while i + 2 < |data|
          invariant 1 <= i
          invariant NextCode(data, 1) == NextCode(data, i)
        {
          if data[i] == 0 && data[i + 1] == 0 && data[i + 2] == 1 {
            next := i;
            break;
          }
          i := i + 1;
        }
        if next < 0 {
          return false;
        }
        data := data[next..];
      } else {
        return false;
      }
    }
    return false;
  }

  /** A NAL unit and whether it is printed behind the 4-byte start code. */
  datatype Nal = Nal(long: bool, unit: bytes)

  function Printed(n: Nal): bytes {
    (if n.long then LONG_CODE else SHORT_CODE) + n.unit
  }

  function Print(nals: seq<Nal>): bytes {
    if nals == [] then [] else Printed(nals[0]) + Print(nals[1..])
  }

  function Type(n: Nal): nat
    requires n.unit != []
  {
    n.unit[0] % 0x20
  }

  /** Supplementary information, sequence and picture parameter sets (table 7-1 of H.264). */
  predicate Skipped(n: Nal)
    requires n.unit != []
  {
    Type(n) == 6 || Type(n) == 7 || Type(n) == 8
  }

  /** No start code inside the unit; one at its very front would make its type 0. */
  ghost predicate Contained(unit: bytes) {
    forall i :: 1 <= i ==> !CodeAt(unit, i)
  }

  ghost predicate WellFormed(nals: seq<Nal>) {
    forall k :: 0 <= k < |nals| ==>
      nals[k].unit != [] && (Skipped(nals[k]) ==> Contained(nals[k].unit))
  }

  /** The first unit that is not SEI, SPS or PPS is an IDR slice. */
  ghost predicate FirstSliceIsIdr(nals: seq<Nal>)
    requires WellFormed(nals)
  {
    exists k :: 0 <= k < |nals| && Type(nals[k]) == 5
      && forall j :: 0 <= j < k ==> Skipped(nals[j])
  }

  lemma {:induction false} PrintedCode(n: Nal, rest: bytes)
    ensures var d := Printed(n) + rest; StartCode(d) == (if n.long then 4 else 3)
    ensures (Printed(n) + rest)[StartCode(Printed(n) + rest)..] == n.unit + rest
  {
    var d := Printed(n) + rest;
    var code := if n.long then LONG_CODE else SHORT_CODE;
    assert d == code + (n.unit + rest);
  }

  /** The scan finds the next unit's start code, or its last three bytes. */
  lemma {:induction false} FindsNext(unit: bytes, n: Nal, rest: bytes, i: nat)
    requires 1 <= i <= |unit| && Contained(unit)
    ensures NextCode(unit + (Printed(n) + rest), i) == Some(|unit| + (if n.long then 1 else 0))
    decreases |unit| - i
  {
    var code := if n.long then LONG_CODE else SHORT_CODE;
    var d := unit + (Printed(n) + rest);
    assert d == unit + (code + (n.unit + rest));
    if i < |unit| {
      assert !CodeAt(d, i) by {
        if i + 2 < |unit| {
          assert !CodeAt(unit, i);
        } else {
          assert d[i + 2] == code[i + 2 - |unit|] == 0;
        }
      }
      FindsNext(unit, n, rest, i + 1);
    } else if n.long {
      assert !CodeAt(d, i) && CodeAt(d, i + 1);
    } else {
      assert CodeAt(d, i);
    }
  }

  lemma {:induction false} LongOrShort(unit: bytes, rest: bytes)
    ensures Scan(Printed(Nal(true, unit)) + rest) == Scan(Printed(Nal(false, unit)) + rest)
  {
    PrintedCode(Nal(true, unit), rest);
    PrintedCode(Nal(false, unit), rest);
  }

  lemma {:induction false} NoNext(unit: bytes, i: nat)
    requires 1 <= i && Contained(unit)
    ensures NextCode(unit, i) == None
    decreases |unit| - i
  {
    if i + 2 < |unit| {
      NoNext(unit, i + 1);
    }
  }

  /** After a skipped unit the scan goes on exactly as if started at the next one. */
  lemma {:induction false} SkipsOne(unit: bytes, nals: seq<Nal>)
    requires unit != [] && Contained(unit)
    ensures var next := NextCode(unit + Print(nals), 1);
      if nals == [] then next == None
      else next.Some? && Scan((unit + Print(nals))[next.value..]) == Scan(Print(nals))
  {
    if nals == [] {
      assert unit + Print(nals) == unit;
      NoNext(unit, 1);
    } else {
      var n, rest := nals[0], Print(nals[1..]);
      FindsNext(unit, n, rest, 1);
      LongOrShort(n.unit, rest);
      ResumesAt(unit, n, rest);
      hide Scan;
    }
  }

  lemma {:induction false} ResumesAt(unit: bytes, n: Nal, rest: bytes)
    ensures (unit + (Printed(n) + rest))[|unit| + (if n.long then 1 else 0)..] == Printed(Nal(false, n.unit)) + rest
  {
    assert LONG_CODE[1..] == SHORT_CODE;
    assert LONG_CODE + n.unit + rest == LONG_CODE + (n.unit + rest);
    assert SHORT_CODE + n.unit + rest == SHORT_CODE + (n.unit + rest);
  }

  lemma {:induction false} FirstSlice(nals: seq<Nal>)
    requires WellFormed(nals)
    ensures nals == [] ==> !FirstSliceIsIdr(nals)
    ensures nals != [] ==> WellFormed(nals[1..])
    ensures nals != [] ==> (FirstSliceIsIdr(nals)
      <==> Type(nals[0]) == 5 || (Skipped(nals[0]) && FirstSliceIsIdr(nals[1..])))
  {
    if nals != [] {
      var rest := nals[1..];
      if FirstSliceIsIdr(nals) && Type(nals[0]) != 5 {
        var k :| 0 <= k < |nals| && Type(nals[k]) == 5 && forall j :: 0 <= j < k ==> Skipped(nals[j]);
        assert Type(rest[k - 1]) == 5;
        assert forall j :: 0 <= j < k - 1 ==> rest[j] == nals[j + 1];
      }
      if Type(nals[0]) == 5 {
        assert FirstSliceIsIdr(nals);
      } else if Skipped(nals[0]) && FirstSliceIsIdr(rest) {
        var k :| 0 <= k < |rest| && Type(rest[k]) == 5 && forall j :: 0 <= j < k ==> Skipped(rest[j]);
        assert Type(nals[k + 1]) == 5;
        assert forall j :: 1 <= j < k + 1 ==> nals[j] == rest[j - 1];
      }
    }
  }

  /** Whatever mix of start codes an access unit is printed with, it is taken for a keyframe
      exactly when its first unit other than SEI, SPS and PPS is an IDR slice. */
  lemma {:induction false} ScanPrinted(nals: seq<Nal>)
    requires WellFormed(nals)
    ensures Scan(Print(nals)) <==> FirstSliceIsIdr(nals)
  {
    FirstSlice(nals);
    if nals != [] {
      var n, rest := nals[0], nals[1..];
      PrintedCode(n, Print(rest));
      assert (n.unit + Print(rest))[0] == n.unit[0];
      ScanPrinted(rest);
      if Skipped(n) {
        SkipsOne(n.unit, rest);
      }
      hide FirstSliceIsIdr, Printed, NextCode, StartCode, WellFormed;
    }
  }

  // All byte strings

  /** The units a successful scan walked over; the last one takes the rest of the data. */
  function Parse(d: bytes): seq<Nal>
    requires Scan(d)
    decreases |d|
  {
    var unit := d[StartCode(d)..];
    var long := StartCode(d) == 4;
    if unit[0] % 0x20 == 5 then [Nal(long, unit)]
    else
      var k := NextCode(unit, 1).value;
      [Nal(long, unit[..k])] + Parse(unit[k..])
  }

  lemma {:induction false} CutContained(unit: bytes, k: nat)
    requires NextCode(unit, 1) == Some(k)
    ensures Contained(unit[..k])
  {
    forall i | 1 <= i
      ensures !CodeAt(unit[..k], i)
    {
      if i + 2 < k {
        FirstNext(unit, 1, i);
      }
    }
  }

  lemma {:induction false} CutCode(d: bytes, cut: nat)
    requires StartCode(d) != 0 && cut <= |d| - StartCode(d)
    ensures var unit := d[StartCode(d)..];
      d == Printed(Nal(StartCode(d) == 4, unit[..cut])) + unit[cut..]
  {
    var n := StartCode(d);
    var unit := d[n..];
    assert d[..n] == (if n == 4 then LONG_CODE else SHORT_CODE);
    assert unit == unit[..cut] + unit[cut..];
    assert d == d[..n] + (unit[..cut] + unit[cut..]);
  }

  lemma {:induction false} SkippedFirst(n: Nal, nals: seq<Nal>)
    requires n.unit != [] && Skipped(n) && Contained(n.unit)
    requires WellFormed(nals) && FirstSliceIsIdr(nals)
    ensures WellFormed([n] + nals) && FirstSliceIsIdr([n] + nals)
    ensures Print([n] + nals) == Printed(n) + Print(nals)
  {
    assert ([n] + nals)[1..] == nals;
    FirstSlice([n] + nals);
  }

  lemma {:induction false} ParsePrints(d: bytes)
    requires Scan(d)
    ensures var nals := Parse(d); WellFormed(nals) && Print(nals) == d && FirstSliceIsIdr(nals)
    decreases |d|
  {
    var unit, long := d[StartCode(d)..], StartCode(d) == 4;
    if unit[0] % 0x20 == 5 {
      CutCode(d, |unit|);
      assert unit[..|unit|] == unit;
      FirstSlice([Nal(long, unit)]);
    } else {
      var k := NextCode(unit, 1).value;
      CutCode(d, k);
      CutContained(unit, k);
      ParsePrints(unit[k..]);
      SkippedFirst(Nal(long, unit[..k]), Parse(unit[k..]));
      hide Printed, Print, WellFormed, FirstSliceIsIdr, Contained;
    }
  }

  /** For every byte string at all: it is taken for a keyframe exactly when it can be read as
      an Annex-B list of units whose first unit other than SEI, SPS and PPS is an IDR slice. */
  lemma {:induction false} KeyframeExact(d: bytes)
    ensures Scan(d) <==> exists nals: seq<Nal> :: WellFormed(nals) && Print(nals) == d && FirstSliceIsIdr(nals)
  {
    if Scan(d) {
      ParsePrints(d);
    }
    forall nals: seq<Nal> | WellFormed(nals) && Print(nals) == d && FirstSliceIsIdr(nals)
      ensures Scan(d)
    {
      ScanPrinted(nals);
    }
  }
}
