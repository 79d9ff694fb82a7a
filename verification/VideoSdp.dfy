/** Negotiation of an H.264 media section in SDP: choosing a payload type and its parameters from
    an offer, and printing the answer. */
module VideoSdp {
  import opened Bytes
  import opened Text

  const H264_NAME := "H264"
  const CLOCK_RATE := "90000"
  const DEFAULT_PROFILE := "42e01f"
  const DEFAULT_MODE := 1
  const PROFILE_KEY := "profile-level-id"
  const MODE_KEY := "packetization-mode"

  /** fmtp parameters echoed in the answer. */
  const CAPACITY_KEYS: set<string> :=
    {"max-br", "max-mbps", "max-fs", "max-dpb", "max-smbps", "max-cpb", "max-fps"}

  datatype Attribute = Attribute(key: string, value: string)

  /** One H.264 payload type of an offer with the parameters declared for it. */
  datatype Candidate = Candidate(pt: int, profile: string, mode: int, explicitMode: bool, extra: string)

  function Undeclared(pt: int): Candidate {
    Candidate(pt, "", DEFAULT_MODE, false, "")
  }

  /** The payload type of an rtpmap attribute that maps to H.264. */
  function RtpmapPt(a: Attribute): Option<int> {
    var fields := Cut(a.value, ' ');
    if a.key != "rtpmap" || fields.None? then None
    else
      var slash := Cut(fields.value.1, '/');
      var name := if slash.Some? then slash.value.0 else fields.value.1;
      if !EqualFold(name, H264_NAME) then None else Atoi(TrimSpace(fields.value.0))
  }

  function H264Pts(attributes: seq<Attribute>): seq<int> {
    if attributes == [] then []
    else
      var rest := H264Pts(attributes[..|attributes| - 1]);
      var pt := RtpmapPt(attributes[|attributes| - 1]);
      if pt.None? then rest else rest + [pt.value]
  }

  /** A parameter as lower-cased key and value, if it has both. */
  function KeyValue(kv: string): Option<(string, string)> {
    var cut := Cut(TrimSpace(kv), '=');
    if cut.None? then None else Some((ToLower(TrimSpace(cut.value.0)), TrimSpace(cut.value.1)))
  }

  function ApplyParameter(c: Candidate, kv: string): Candidate {
    var p := KeyValue(kv);
    if p.None? then c
    else if p.value.0 == PROFILE_KEY then c.(profile := p.value.1)
    else if p.value.0 == MODE_KEY then
      var m := Atoi(p.value.1);
      if m.None? then c else c.(mode := m.value, explicitMode := true)
    else c
  }

  function CapacityParameter(kv: string): Option<string> {
    var p := KeyValue(kv);
    if p.Some? && p.value.0 in CAPACITY_KEYS then Some(p.value.0 + "=" + p.value.1) else None
  }

  function ApplyParameters(c: Candidate, kvs: seq<string>): Candidate {
    if kvs == [] then c else ApplyParameter(ApplyParameters(c, kvs[..|kvs| - 1]), kvs[|kvs| - 1])
  }

  function CapacityParameters(kvs: seq<string>): seq<string> {
    if kvs == [] then []
    else
      var rest, p := CapacityParameters(kvs[..|kvs| - 1]), CapacityParameter(kvs[|kvs| - 1]);
      if p.None? then rest else rest + [p.value]
  }

  /** What one fmtp line declares. */
  function ApplyFmtp(c: Candidate, parameters: string): Candidate {
    var kvs := Split(parameters, ';');
    ApplyParameters(c, kvs).(extra := Join(CapacityParameters(kvs), ';'))
  }

  /** The payload type text and parameters of an fmtp attribute. */
  function FmtpFields(a: Attribute): Option<(string, string)> {
    var fields := Cut(a.value, ' ');
    if a.key != "fmtp" || fields.None? then None
    else Some((TrimSpace(fields.value.0), fields.value.1))
  }

  /** A payload type with exactly the fmtp lines that name it, in order. */
  function Declared(pt: int, attributes: seq<Attribute>): Candidate {
    if attributes == [] then Undeclared(pt)
    else
      var c := Declared(pt, attributes[..|attributes| - 1]);
      var f := FmtpFields(attributes[|attributes| - 1]);
      if f.Some? && f.value.0 == Itoa(pt) then ApplyFmtp(c, f.value.1) else c
  }

  /** The k-th candidate: when a payload type is mapped more than once, only its last mapping
      gets the parameters. */
  function CandidateAt(attributes: seq<Attribute>, pts: seq<int>, k: nat): Candidate
    requires k < |pts|
  {
    CandidateSoFar(pts, k, attributes)
  }

  predicate DeclaresMode1(c: Candidate) {
    c.explicitMode && c.mode == 1
  }

  /** The choice: the first candidate that declares packetization-mode 1, else the first one. */
  predicate IsChoice(cs: seq<Candidate>, k: nat) {
    && k < |cs|
    && (forall j | 0 <= j < k :: !(cs[j].explicitMode && cs[j].mode == 1))
    && ((cs[k].explicitMode && cs[k].mode == 1)
        || (k == 0 && forall j | 0 <= j < |cs| :: !(cs[j].explicitMode && cs[j].mode == 1)))
  }

  function Candidates(attributes: seq<Attribute>): (cs: seq<Candidate>)
    ensures |cs| == |H264Pts(attributes)|
  {
    var pts := H264Pts(attributes);
    seq(|pts|, k requires 0 <= k < |pts| => CandidateAt(attributes, pts, k))
  }

  function FirstMode1(cs: seq<Candidate>): (k: nat)
    ensures k <= |cs| && forall j | 0 <= j < k :: !DeclaresMode1(cs[j])
    ensures k < |cs| ==> DeclaresMode1(cs[k])
  {
    if cs == [] || DeclaresMode1(cs[0]) then 0 else 1 + FirstMode1(cs[1..])
  }

  function Choice(cs: seq<Candidate>): (k: nat)
    requires cs != []
    ensures k < |cs|
  {
    if FirstMode1(cs) < |cs| then FirstMode1(cs) else 0
  }

  /** A selected configuration; the payload type is truncated to an octet. */
  datatype Selection = Selection(pt: byte, profile: string, mode: int, extra: string)

  function Selected(c: Candidate): Selection {
    Selection(c.pt % 0x100, c.profile, c.mode, c.extra)
  }

  /** The first pass: candidates in offer order, and the last index of each payload type text. */
  method CollectCandidates(attributes: seq<Attribute>) returns (cs: seq<Candidate>, ptIndex: map<string, nat>)
    ensures |cs| == |H264Pts(attributes)| && forall k | 0 <= k < |cs| :: cs[k] == Undeclared(H264Pts(attributes)[k])
    ensures IsLastIndex(ptIndex, H264Pts(attributes))
  {
    cs, ptIndex := [], map[];
    for i := 0 to |attributes|
      invariant
        var pts := H264Pts(attributes[..i]);
        && |cs| == |pts| && (forall k | 0 <= k < |cs| :: cs[k] == Undeclared(pts[k]))
        && IsLastIndex(ptIndex, pts)
    {
      assert attributes[..i + 1][..i] == attributes[..i];
      var pt := RtpmapPt(attributes[i]);
      if pt.Some? {
        LastIndexExtends(ptIndex, H264Pts(attributes[..i]), pt.value);
        ptIndex := ptIndex[Itoa(pt.value) := |cs|];
        cs := cs + [Undeclared(pt.value)];
      }
    }
    assert attributes[..|attributes|] == attributes;
  }

  predicate IsLastIndex(index: map<string, nat>, pts: seq<int>) {
    && (forall t | t in index :: index[t] < |pts| && Itoa(pts[index[t]]) == t && pts[index[t]] !in pts[index[t] + 1..])
    && (forall k | 0 <= k < |pts| :: Itoa(pts[k]) in index)
  }

  lemma {:induction false} ItoaInjective(a: int, b: int)
    requires Itoa(a) == Itoa(b)
    ensures a == b
  {
    DigitsRoundTrip(if a < 0 then -a else a);
    DigitsRoundTrip(if b < 0 then -b else b);
    assert forall n: nat :: Digits(n)[0] != '-' by {
      forall n: nat ensures Digits(n)[0] != '-' {
        assert Digits(n)[0] in Digits(n);
      }
    }
    if a < 0 && b < 0 {
      assert Itoa(a)[1..] == Digits(-a) && Itoa(b)[1..] == Digits(-b);
    }
  }

  lemma {:induction false} LastIndexExtends(index: map<string, nat>, pts: seq<int>, pt: int)
    requires IsLastIndex(index, pts)
    ensures IsLastIndex(index[Itoa(pt) := |pts|], pts + [pt])
  {
    var index', pts' := index[Itoa(pt) := |pts|], pts + [pt];
    forall t | t in index'
      ensures index'[t] < |pts'| && Itoa(pts'[index'[t]]) == t && pts'[index'[t]] !in pts'[index'[t] + 1..]
    {
      if t != Itoa(pt) {
        assert pts'[index[t] + 1..] == pts[index[t] + 1..] + [pt];
      }
    }
  }

  lemma {:induction false} ChoiceExact(cs: seq<Candidate>, k: nat)
    requires cs != []
    ensures IsChoice(cs, k) <==> k == Choice(cs)
  {
    var first := FirstMode1(cs);
    if IsChoice(cs, k) && first < |cs| {
      assert DeclaresMode1(cs[first]);
    }
  }

  function Select(attributes: seq<Attribute>): Option<Selection> {
    var cs := Candidates(attributes);
    if cs == [] then None else Some(Selected(cs[Choice(cs)]))
  }

  /** The two passes and the selection loop of selectH264. */
  method SelectH264(attributes: seq<Attribute>) returns (r: Option<Selection>)
    ensures r == Select(attributes)
  {
    var cs, ptIndex := CollectCandidates(attributes);
    if |cs| == 0 {
      return None;
    }
    cs := ApplyFmtpLines(attributes, cs, ptIndex);
    var selected := Prefer(cs);
    r := Some(Selected(selected));
  }

  /** The selection loop. */
  method Prefer(cs: seq<Candidate>) returns (selected: Candidate)
    requires cs != []
    ensures selected == cs[Choice(cs)]
  {
    selected := cs[0];
    ghost var at := 0;
    for i := 1 to |cs|
      invariant at < i <= |cs| && selected == cs[at]
      invariant forall j | 0 <= j < at :: !DeclaresMode1(cs[j])
      invariant DeclaresMode1(cs[at]) || (at == 0 && forall j | 0 <= j < i :: !DeclaresMode1(cs[j]))
    {
      if DeclaresMode1(cs[i]) && !DeclaresMode1(selected) {
        selected := cs[i];
        at := i;
      }
    }
    ChoiceExact(cs, at);
  }

  /** The second pass: every fmtp line updates the candidate its payload type text leads to. */
  method ApplyFmtpLines(attributes: seq<Attribute>, undeclared: seq<Candidate>, ptIndex: map<string, nat>)
    returns (cs: seq<Candidate>)
    requires
      var pts := H264Pts(attributes);
      && IsLastIndex(ptIndex, pts) && |undeclared| == |pts|
      && forall k | 0 <= k < |pts| :: undeclared[k] == Undeclared(pts[k])
    ensures cs == Candidates(attributes)
  {
    hide H264Pts, ApplyFmtp, FmtpFields, Itoa;
    cs := undeclared;
    ghost var pts := H264Pts(attributes);
    for i := 0 to |attributes|
      invariant |cs| == |pts| && forall k | 0 <= k < |pts| :: cs[k] == CandidateSoFar(pts, k, attributes[..i])
    {
      assert attributes[..i + 1][..i] == attributes[..i];
      var fields := FmtpFields(attributes[i]);
      if fields.Some? && fields.value.0 in ptIndex {
        var idx := ptIndex[fields.value.0];
        var c := ParseParameters(cs[idx], fields.value.1);
        forall k | 0 <= k < |pts| && k != idx
          ensures CandidateSoFar(pts, k, attributes[..i + 1]) == CandidateSoFar(pts, k, attributes[..i])
        {
          OtherCandidate(pts, idx, k);
        }
        cs := cs[idx := c];
      }
    }
    assert attributes[..|attributes|] == attributes;
  }

  function CandidateSoFar(pts: seq<int>, k: nat, attributes: seq<Attribute>): Candidate
    requires k < |pts|
  {
    if pts[k] in pts[k + 1..] then Undeclared(pts[k]) else Declared(pts[k], attributes)
  }

  /** Besides the last mapping of a payload type, a candidate is an earlier mapping of it or another type. */
  lemma {:induction false} OtherCandidate(pts: seq<int>, idx: nat, k: nat)
    requires idx < |pts| && k < |pts| && k != idx && pts[idx] !in pts[idx + 1..]
    ensures pts[k] in pts[k + 1..] || Itoa(pts[k]) != Itoa(pts[idx])
  {
    if k < idx {
      assert pts[k + 1..][idx - (k + 1)] == pts[idx];
    } else {
      assert pts[idx + 1..][k - (idx + 1)] == pts[k];
    }
    if Itoa(pts[k]) == Itoa(pts[idx]) {
      ItoaInjective(pts[k], pts[idx]);
    }
  }

  /** The loop over the parameters of one fmtp line. */
  method ParseParameters(c: Candidate, parameters: string) returns (r: Candidate)
    ensures r == ApplyFmtp(c, parameters)
  {
    hide ApplyParameter, CapacityParameter, Split, Join;
    var kvs := Split(parameters, ';');
    r := c;
    var extraParts: seq<string> := [];
    for i := 0 to |kvs|
      invariant r == ApplyParameters(c, kvs[..i]) && extraParts == CapacityParameters(kvs[..i])
    {
      assert kvs[..i + 1][..i] == kvs[..i];
      r := ApplyParameter(r, kvs[i]);
      var part := CapacityParameter(kvs[i]);
      if part.Some? {
        extraParts := extraParts + [part.value];
      }
    }
    assert kvs[..|kvs|] == kvs;
    r := r.(extra := Join(extraParts, ';'));
  }
}
