/** Printing the negotiated H.264 section into a session, and reading it back. */
module VideoAnswer {
  import opened Bytes
  import opened Text
  import opened VideoSdp

  datatype Media = Media(name: string, port: int, protos: seq<string>, formats: seq<string>, attributes: seq<Attribute>)

  /** The negotiated video parameters; localProfile is the profile of our own encoder, if known. */
  datatype VideoConf = VideoConf(pt: byte, profile: string, localProfile: string, mode: int, extra: string)

  /** Constrained Baseline at the lowest level that holds the frame. */
  function ProfileForResolution(width: nat, height: nat): string {
    var mbs := (width + 15) / 16 * ((height + 15) / 16);
    if mbs <= 3600 then "42e01f" else if mbs <= 8192 then "42e028" else "42e032"
  }

  function ResolvedProfile(v: VideoConf): string {
    if v.localProfile != "" then v.localProfile
    else if v.profile != "" then v.profile
    else DEFAULT_PROFILE
  }

  function ResolvedMode(v: VideoConf): int {
    if v.mode == 0 then DEFAULT_MODE else v.mode
  }

  function FmtpParameters(v: VideoConf): string {
    var p := PROFILE_KEY + "=" + ResolvedProfile(v) + ";" + (MODE_KEY + "=" + Itoa(ResolvedMode(v)));
    if v.extra != "" then p + ";" + v.extra else p
  }

  function Answer(port: int, v: VideoConf): Media {
    var pt := Itoa(v.pt);
    Media("video", port, ["RTP", "AVP"], [pt],
          [Attribute("rtpmap", pt + " " + (H264_NAME + "/" + CLOCK_RATE)),
           Attribute("fmtp", pt + " " + FmtpParameters(v)),
           Attribute("rtcp-fb", pt + " nack pli"),
           Attribute("sendrecv", "")])
  }

  predicate IsVideo(m: Media) {
    EqualFold(m.name, "video")
  }

  function NonVideo(media: seq<Media>): seq<Media> {
    if media == [] then []
    else
      var rest, m := NonVideo(media[..|media| - 1]), media[|media| - 1];
      if IsVideo(m) then rest else rest + [m]
  }

  /** Keeping the other sections, in place: the kept ones move to the front of the same array. */
  method RemoveVideo(media: array<Media>) returns (n: nat)
    modifies media
    ensures n <= media.Length && media[..n] == NonVideo(old(media[..]))
  {
    n := 0;
    ghost var before := media[..];
    for i := 0 to media.Length
      invariant n <= i
      invariant media[..n] == NonVideo(before[..i])
      invariant forall k | i <= k < media.Length :: media[k] == before[k]
    {
      assert before[..i + 1][..i] == before[..i];
      if !IsVideo(media[i]) {
        ghost var kept := media[..n];
        media[n] := media[i];
        n := n + 1;
        assert media[..n] == kept + [before[i]];
      }
    }
    assert before[..|before|] == before;
  }

  function SetVideoAnswer(media: seq<Media>, port: int, v: VideoConf): seq<Media> {
    NonVideo(media) + [Answer(port, v)]
  }

  method SetVideoAnswerOnLocalSdp(media: array<Media>, port: int, v: VideoConf) returns (r: seq<Media>)
    modifies media
    ensures r == SetVideoAnswer(old(media[..]), port, v)
  {
    var n := RemoveVideo(media);
    r := media[..n] + [Answer(port, v)];
  }

  /** The first video section. */
  function FindVideo(media: seq<Media>): Option<Media> {
    if media == [] then None else if IsVideo(media[0]) then Some(media[0]) else FindVideo(media[1..])
  }

  /** The configuration a peer reads from a session, address aside. */
  function ParseVideo(media: seq<Media>): Option<Selection> {
    var m := FindVideo(media);
    if m.None? || m.value.port == 0 then None else Select(m.value.attributes)
  }

  // ---------------------------------------------------------------- replacing the section

  lemma {:induction false} NonVideoAppend(media: seq<Media>, m: Media)
    ensures NonVideo(media + [m]) == NonVideo(media) + (if IsVideo(m) then [] else [m])
  {
    assert (media + [m])[..|media|] == media;
  }

  lemma {:induction false} NonVideoHasNone(media: seq<Media>)
    ensures NonVideo(NonVideo(media)) == NonVideo(media)
    ensures forall m | m in NonVideo(media) :: !IsVideo(m)
  {
    if media != [] {
      NonVideoHasNone(media[..|media| - 1]);
      NonVideoAppend(NonVideo(media[..|media| - 1]), media[|media| - 1]);
    }
  }

  /** Replacing the video section keeps every other section in order, and replacing it twice
      is replacing it with the last answer. */
  lemma {:induction false} ReplaceTwice(media: seq<Media>, port1: int, v1: VideoConf, port2: int, v2: VideoConf)
    ensures NonVideo(SetVideoAnswer(media, port1, v1)) == NonVideo(media)
    ensures SetVideoAnswer(SetVideoAnswer(media, port1, v1), port2, v2) == SetVideoAnswer(media, port2, v2)
  {
    NonVideoAppend(NonVideo(media), Answer(port1, v1));
    NonVideoHasNone(media);
  }

  lemma {:induction false} FindLast(media: seq<Media>, m: Media)
    requires IsVideo(m) && forall x | x in media :: !IsVideo(x)
    ensures FindVideo(media + [m]) == Some(m)
    decreases |media|
  {
    if media != [] {
      FindLast(media[1..], m);
      assert (media + [m])[1..] == media[1..] + [m];
    }
  }

  // ---------------------------------------------------------------- printable values

  /** Keys and values that survive printing: nothing trimming, lower-casing or splitting would change. */
  predicate PlainKey(k: string) {
    k != "" && Trimmed(k) && '=' !in k && ';' !in k && ToLower(k) == k
  }

  predicate PlainValue(v: string) {
    Trimmed(v) && ';' !in v
  }

  lemma {:induction false} ParameterKeysPlain()
    ensures PlainKey(PROFILE_KEY) && PlainKey(MODE_KEY)
    ensures PROFILE_KEY[0] == MODE_KEY[0] == 'p' && PROFILE_KEY != MODE_KEY
  {
  }

  lemma {:induction false} CapacityKeyPlain(k: string)
    requires k in CAPACITY_KEYS
    ensures PlainKey(k) && k[0] == 'm'
  {
  }

  lemma {:induction false} KeyValuePrinted(k: string, v: string)
    requires PlainKey(k) && PlainValue(v)
    ensures KeyValue(k + "=" + v) == Some((k, v))
    ensures ';' !in k + "=" + v
  {
    var kv := k + "=" + v;
    assert kv[0] == k[0] && kv[|kv| - 1] == (if v == "" then '=' else v[|v| - 1]);
    assert Trimmed(kv);
    CutJoined(k, '=', v);
  }

  /** A capacity parameter in the form it is echoed in. */
  predicate Canonical(p: string) {
    CapacityParameter(p) == Some(p) && ';' !in p && p != ""
  }

  lemma {:induction false} CapacityCanonical(kv: string)
    requires CapacityParameter(kv).Some? && ';' !in kv
    ensures Canonical(CapacityParameter(kv).value)
  {
    var p := KeyValue(kv).value;
    CapacityKeyPlain(p.0);
    KeyValuePrinted(p.0, p.1);
  }

  lemma {:induction false} CapacityLeavesRest(c: Candidate, p: string)
    requires Canonical(p)
    ensures ApplyParameter(c, p) == c
  {
    hide KeyValue, PlainKey;
    CapacityKeyPlain(KeyValue(p).value.0);
    ParameterKeysPlain();
  }

  lemma {:induction false} CanonicalIsOwnParameter(p: string)
    requires Canonical(p)
    ensures CapacityParameter(p) == Some(p) && ';' !in p && p != ""
  {
  }

  predicate AllCanonical(ps: seq<string>) {
    forall p | p in ps :: Canonical(p)
  }

  lemma {:induction false} OneMore(c: Candidate, kvs: seq<string>, kv: string)
    ensures ApplyParameters(c, kvs + [kv]) == ApplyParameter(ApplyParameters(c, kvs), kv)
    ensures CapacityParameters(kvs + [kv])
            == CapacityParameters(kvs) + (if CapacityParameter(kv).Some? then [CapacityParameter(kv).value] else [])
  {
    hide ApplyParameter, CapacityParameter;
    assert (kvs + [kv])[..|kvs|] == kvs;
  }

  /** Reading canonical parameters after others: they all come back, and change nothing else. */
  lemma {:induction false} CanonicalReadBack(c: Candidate, front: seq<string>, ps: seq<string>)
    requires AllCanonical(ps)
    ensures CapacityParameters(front + ps) == CapacityParameters(front) + ps
    ensures ApplyParameters(c, front + ps) == ApplyParameters(c, front)
    decreases |ps|
  {
    hide ApplyParameter, CapacityParameter, Canonical, ApplyParameters, CapacityParameters;
    if ps == [] {
      assert front + ps == front && CapacityParameters(front) + ps == CapacityParameters(front);
    } else {
      var shorter, last := ps[..|ps| - 1], ps[|ps| - 1];
      assert AllCanonical(shorter) && Canonical(last);
      assert front + ps == (front + shorter) + [last];
      OneMore(c, front + shorter, last);
      CanonicalReadBack(c, front, shorter);
      CanonicalIsOwnParameter(last);
      CapacityLeavesRest(ApplyParameters(c, front), last);
      assert shorter + [last] == ps;
      assert (CapacityParameters(front) + shorter) + [last] == CapacityParameters(front) + ps;
    }
  }

  // ---------------------------------------------------------------- what an offer can select

  /** Values that survive printing and parsing. */
  ghost predicate Printable(profile: string, mode: int, extra: string) {
    && PlainValue(profile) && MIN_INT <= mode <= MAX_INT
    && exists ps :: AllCanonical(ps) && extra == Join(ps, ';')
  }

  lemma {:induction false} ValuePlain(kv: string)
    requires ';' !in kv && KeyValue(kv).Some?
    ensures PlainValue(KeyValue(kv).value.1)
  {
  }

  lemma {:induction false} ParameterPlain(c: Candidate, kv: string)
    requires PlainValue(c.profile) && MIN_INT <= c.mode <= MAX_INT && ';' !in kv
    ensures
      var r := ApplyParameter(c, kv);
      PlainValue(r.profile) && MIN_INT <= r.mode <= MAX_INT
  {
    hide KeyValue, PlainValue;
    if KeyValue(kv).Some? {
      ValuePlain(kv);
    }
  }

  lemma {:induction false} ParametersPlain(c: Candidate, kvs: seq<string>)
    requires PlainValue(c.profile) && MIN_INT <= c.mode <= MAX_INT
    requires forall kv | kv in kvs :: ';' !in kv
    ensures
      var r := ApplyParameters(c, kvs);
      PlainValue(r.profile) && MIN_INT <= r.mode <= MAX_INT
    decreases |kvs|
  {
    if kvs != [] {
      var kv, before := kvs[|kvs| - 1], kvs[..|kvs| - 1];
      assert kv in kvs && kvs == before + [kv];
      hide *;
      ParametersPlain(c, before);
      ParameterPlain(ApplyParameters(c, before), kv);
      OneMore(c, before, kv);
    }
  }

  lemma {:induction false} CapacityParametersCanonical(kvs: seq<string>)
    requires forall kv | kv in kvs :: ';' !in kv
    ensures AllCanonical(CapacityParameters(kvs))
    decreases |kvs|
  {
    if kvs != [] {
      var kv := kvs[|kvs| - 1];
      assert kv in kvs;
      CapacityParametersCanonical(kvs[..|kvs| - 1]);
      hide CapacityParameter, Canonical;
      if CapacityParameter(kv).Some? {
        CapacityCanonical(kv);
      }
    }
  }

  lemma {:induction false} FmtpPrintable(c: Candidate, parameters: string)
    requires PlainValue(c.profile) && MIN_INT <= c.mode <= MAX_INT
    ensures
      var r := ApplyFmtp(c, parameters);
      Printable(r.profile, r.mode, r.extra)
  {
    var kvs := Split(parameters, ';');
    SplitParts(parameters, ';');
    ParametersPlain(c, kvs);
    CapacityParametersCanonical(kvs);
  }

  lemma {:induction false} DeclaredPrintable(pt: int, attributes: seq<Attribute>)
    ensures
      var c := Declared(pt, attributes);
      Printable(c.profile, c.mode, c.extra)
    decreases |attributes|
  {
    if attributes == [] {
      assert AllCanonical([]) && Join([], ';') == "";
    } else {
      var before := attributes[..|attributes| - 1];
      DeclaredPrintable(pt, before);
      hide FmtpFields, ApplyFmtp, Itoa, PlainValue;
      var f := FmtpFields(attributes[|attributes| - 1]);
      if f.Some? && f.value.0 == Itoa(pt) {
        FmtpPrintable(Declared(pt, before), f.value.1);
      }
    }
  }

  lemma {:induction false} SelectionPrintable(attributes: seq<Attribute>)
    requires Select(attributes).Some?
    ensures
      var s := Select(attributes).value;
      Printable(s.profile, s.mode, s.extra)
  {
    var pts := H264Pts(attributes);
    var k := Choice(Candidates(attributes));
    DeclaredPrintable(pts[k], []);
    DeclaredPrintable(pts[k], attributes);
    assert Declared(pts[k], []) == Undeclared(pts[k]);
  }

  // ---------------------------------------------------------------- round trip

  /** The printed parameters are a joined list. */
  lemma {:induction false} ParametersJoined(v: VideoConf, ps: seq<string>)
    requires v.extra == Join(ps, ';') && AllCanonical(ps)
    ensures FmtpParameters(v)
            == Join([PROFILE_KEY + "=" + ResolvedProfile(v), MODE_KEY + "=" + Itoa(ResolvedMode(v))] + ps, ';')
  {
    var a, b := PROFILE_KEY + "=" + ResolvedProfile(v), MODE_KEY + "=" + Itoa(ResolvedMode(v));
    hide ResolvedProfile, ResolvedMode, Itoa, Canonical;
    JoinTwo(a, b, ps);
    if ps != [] {
      CanonicalIsOwnParameter(ps[0]);
    }
  }

  lemma {:induction false} JoinTwo(a: string, b: string, ps: seq<string>)
    ensures Join([a, b] + ps, ';') == if ps == [] then a + ";" + b else a + ";" + b + ";" + Join(ps, ';')
  {
    var all := [a, b] + ps;
    assert all[1..] == [b] + ps && ([b] + ps)[1..] == ps;
  }

  lemma {:induction false} PrintedParametersReadBack(c: Candidate, profile: string, mode: int, ps: seq<string>)
    requires PlainValue(profile) && MIN_INT <= mode <= MAX_INT && AllCanonical(ps)
    ensures ApplyFmtp(c, Join([PROFILE_KEY + "=" + profile, MODE_KEY + "=" + Itoa(mode)] + ps, ';'))
            == c.(profile := profile, mode := mode, explicitMode := true, extra := Join(ps, ';'))
  {
    var a, b := PROFILE_KEY + "=" + profile, MODE_KEY + "=" + Itoa(mode);
    hide *;
    PlainInteger(mode);
    ParameterKeysPlain();
    KeyValuePrinted(PROFILE_KEY, profile);
    KeyValuePrinted(MODE_KEY, Itoa(mode));
    FrontReadBack(c, a, b, profile, Itoa(mode), mode);
    FmtpOfParts(c, [a, b], ps);
  }

  lemma {:induction false} PlainInteger(mode: int)
    requires MIN_INT <= mode <= MAX_INT
    ensures PlainValue(Itoa(mode)) && Atoi(Itoa(mode)) == Some(mode)
  {
    ItoaRoundTrip(mode);
  }

  /** Joining parts and applying the line is applying the parts, with the canonical ones echoed. */
  lemma {:induction false} FmtpOfParts(c: Candidate, front: seq<string>, ps: seq<string>)
    requires AllCanonical(ps) && front != [] && CapacityParameters(front) == []
    requires forall p | p in front :: ';' !in p
    ensures ApplyFmtp(c, Join(front + ps, ';')) == ApplyParameters(c, front).(extra := Join(ps, ';'))
  {
    hide *;
    CanonicalReadBack(c, front, ps);
    forall p | p in front + ps ensures ';' !in p {
      if p in ps {
        CanonicalParts(p, ps);
      }
    }
    SplitJoined(front + ps, ';');
    FmtpUnfold(c, Join(front + ps, ';'), front + ps);
    assert [] + ps == ps;
  }

  lemma {:induction false} CanonicalParts(p: string, ps: seq<string>)
    requires p in ps && AllCanonical(ps)
    ensures ';' !in p
  {
  }

  lemma {:induction false} FmtpUnfold(c: Candidate, parameters: string, kvs: seq<string>)
    requires Split(parameters, ';') == kvs
    ensures ApplyFmtp(c, parameters) == ApplyParameters(c, kvs).(extra := Join(CapacityParameters(kvs), ';'))
  {
  }

  lemma {:induction false} FrontReadBack(c: Candidate, a: string, b: string, profile: string, modeText: string, mode: int)
    requires KeyValue(a) == Some((PROFILE_KEY, profile)) && KeyValue(b) == Some((MODE_KEY, modeText))
    requires Atoi(modeText) == Some(mode)
    ensures ApplyParameters(c, [a, b]) == c.(profile := profile, mode := mode, explicitMode := true)
    ensures CapacityParameters([a, b]) == []
  {
    hide ApplyParameter, CapacityParameter, KeyValue, Atoi;
    assert ApplyParameters(c, []) == c && CapacityParameters([]) == [];
    ProfileParameter(c, a, profile);
    ModeParameter(c.(profile := profile), b, modeText, mode);
    assert [] + [a] == [a] && [a] + [b] == [a, b];
    OneMore(c, [], a);
    OneMore(c, [a], b);
  }

  lemma {:induction false} ProfileParameter(c: Candidate, kv: string, profile: string)
    requires KeyValue(kv) == Some((PROFILE_KEY, profile))
    ensures ApplyParameter(c, kv) == c.(profile := profile) && CapacityParameter(kv).None?
  {
    hide KeyValue, PlainKey;
    ParameterKeysPlain();
    if PROFILE_KEY in CAPACITY_KEYS {
      CapacityKeyPlain(PROFILE_KEY);
    }
  }

  lemma {:induction false} ModeParameter(c: Candidate, kv: string, modeText: string, mode: int)
    requires KeyValue(kv) == Some((MODE_KEY, modeText)) && Atoi(modeText) == Some(mode)
    ensures ApplyParameter(c, kv) == c.(mode := mode, explicitMode := true) && CapacityParameter(kv).None?
  {
    hide KeyValue, PlainKey, Atoi;
    ParameterKeysPlain();
    if MODE_KEY in CAPACITY_KEYS {
      CapacityKeyPlain(MODE_KEY);
    }
  }

  /** The answer's payload type is read from its rtpmap line alone. */
  lemma {:induction false} AnswerPts(port: int, v: VideoConf)
    ensures H264Pts(Answer(port, v).attributes) == [v.pt]
  {
    var pt, attributes := Itoa(v.pt), Answer(port, v).attributes;
    ItoaRoundTrip(v.pt);
    var a, b, d, e := attributes[0], attributes[1], attributes[2], attributes[3];
    RtpmapReadBack(a, pt, v.pt);
    assert b.key == "fmtp" && d.key == "rtcp-fb" && e.key == "sendrecv";
    KeysDiffer();
    assert RtpmapPt(b).None? && RtpmapPt(d).None? && RtpmapPt(e).None?;
    hide *;
    PtsOfFour(a, b, d, e, v.pt);
    assert attributes == [a, b, d, e];
  }

  lemma {:induction false} KeysDiffer()
    ensures "fmtp" != "rtpmap" && "rtcp-fb" != "rtpmap" && "sendrecv" != "rtpmap"
    ensures "rtcp-fb" != "fmtp" && "sendrecv" != "fmtp"
  {
    assert |"fmtp"| == 4 && |"rtpmap"| == 6 && |"rtcp-fb"| == 7 && |"sendrecv"| == 8;
  }

  lemma {:induction false} RtpmapReadBack(a: Attribute, pt: string, n: int)
    requires a == Attribute("rtpmap", pt + " " + (H264_NAME + "/" + CLOCK_RATE))
    requires Trimmed(pt) && ' ' !in pt && Atoi(pt) == Some(n)
    ensures RtpmapPt(a) == Some(n)
  {
    CutJoined(pt, ' ', H264_NAME + "/" + CLOCK_RATE);
    CutJoined(H264_NAME, '/', CLOCK_RATE);
    assert EqualFold(H264_NAME, H264_NAME);
    hide Atoi;
  }

  lemma {:induction false} PtsOfFour(a: Attribute, b: Attribute, d: Attribute, e: Attribute, n: int)
    requires RtpmapPt(a) == Some(n) && RtpmapPt(b).None? && RtpmapPt(d).None? && RtpmapPt(e).None?
    ensures H264Pts([a, b, d, e]) == [n]
  {
    hide RtpmapPt;
    assert [a, b, d, e][..3] == [a, b, d] && [a, b, d][..2] == [a, b] && [a, b][..1] == [a] && [a][..0] == [];
    assert H264Pts([a]) == [n];
    assert H264Pts([a, b]) == [n];
    assert H264Pts([a, b, d]) == [n];
  }

  lemma {:induction false} DeclaredOfFour(a: Attribute, b: Attribute, d: Attribute, e: Attribute, n: int, parameters: string)
    requires FmtpFields(a).None? && FmtpFields(d).None? && FmtpFields(e).None?
    requires FmtpFields(b) == Some((Itoa(n), parameters))
    ensures Declared(n, [a, b, d, e]) == ApplyFmtp(Undeclared(n), parameters)
  {
    hide FmtpFields, ApplyFmtp, Itoa;
    assert [a, b, d, e][..3] == [a, b, d] && [a, b, d][..2] == [a, b] && [a, b][..1] == [a] && [a][..0] == [];
    assert Declared(n, [a]) == Undeclared(n);
    assert Declared(n, [a, b]) == ApplyFmtp(Undeclared(n), parameters);
    assert Declared(n, [a, b, d]) == ApplyFmtp(Undeclared(n), parameters);
  }

  lemma {:induction false} FmtpReadBack(b: Attribute, pt: string, parameters: string)
    requires b == Attribute("fmtp", pt + " " + parameters) && Trimmed(pt) && ' ' !in pt
    ensures FmtpFields(b) == Some((pt, parameters))
  {
    CutJoined(pt, ' ', parameters);
  }

  lemma {:induction false} AnswerDeclares(port: int, v: VideoConf)
    ensures Declared(v.pt, Answer(port, v).attributes) == ApplyFmtp(Undeclared(v.pt), FmtpParameters(v))
  {
    var pt, attributes := Itoa(v.pt), Answer(port, v).attributes;
    ItoaRoundTrip(v.pt);
    var a, b, d, e := attributes[0], attributes[1], attributes[2], attributes[3];
    FmtpReadBack(b, pt, FmtpParameters(v));
    assert a.key == "rtpmap" && d.key == "rtcp-fb" && e.key == "sendrecv";
    KeysDiffer();
    assert FmtpFields(a).None? && FmtpFields(d).None? && FmtpFields(e).None?;
    hide *;
    DeclaredOfFour(a, b, d, e, v.pt, FmtpParameters(v));
    assert attributes == [a, b, d, e];
  }

  lemma {:induction false} SelectOnly(attributes: seq<Attribute>, n: int)
    requires H264Pts(attributes) == [n]
    ensures Select(attributes) == Some(Selected(Declared(n, attributes)))
  {
    hide H264Pts, Declared;
    assert [n][1..] == [];
    assert |Candidates(attributes)| == 1;
  }

  lemma {:induction false} ParseIsSelect(media: seq<Media>, port: int, v: VideoConf)
    requires port != 0
    ensures ParseVideo(SetVideoAnswer(media, port, v)) == Select(Answer(port, v).attributes)
  {
    hide Select, NonVideo;
    var a := Answer(port, v);
    assert IsVideo(a) && a.port == port;
    NonVideoHasNone(media);
    FindLast(NonVideo(media), a);
  }

  lemma {:induction false} DeclaredAnswer(port: int, v: VideoConf, ps: seq<string>)
    requires AllCanonical(ps) && v.extra == Join(ps, ';')
    requires PlainValue(ResolvedProfile(v)) && MIN_INT <= ResolvedMode(v) <= MAX_INT
    ensures Declared(v.pt, Answer(port, v).attributes)
            == Undeclared(v.pt).(profile := ResolvedProfile(v), mode := ResolvedMode(v), explicitMode := true, extra := v.extra)
  {
    hide *;
    AnswerDeclares(port, v);
    ParametersJoined(v, ps);
    PrintedParametersReadBack(Undeclared(v.pt), ResolvedProfile(v), ResolvedMode(v), ps);
  }

  /** Whatever printable configuration is answered with, the peer reads back the same payload type,
      the resolved profile and mode, and the capacity parameters unchanged. */
  lemma {:induction false} AnswerReadsBack(media: seq<Media>, port: int, v: VideoConf)
    requires port != 0 && Printable(ResolvedProfile(v), ResolvedMode(v), v.extra)
    ensures ParseVideo(SetVideoAnswer(media, port, v))
            == Some(Selection(v.pt, ResolvedProfile(v), ResolvedMode(v), v.extra))
  {
    hide AllCanonical, Join, Answer, ResolvedProfile, ResolvedMode, PlainValue, Declared, H264Pts, Select, ParseVideo;
    var ps :| AllCanonical(ps) && v.extra == Join(ps, ';');
    ParseIsSelect(media, port, v);
    AnswerPts(port, v);
    SelectOnly(Answer(port, v).attributes, v.pt);
    DeclaredAnswer(port, v, ps);
  }

  /** The configuration negotiated from an offer, with our encoder's profile when its size is known. */
  function Negotiated(s: Selection, resolution: Option<(nat, nat)>): VideoConf {
    VideoConf(s.pt, s.profile,
              if resolution.Some? then ProfileForResolution(resolution.value.0, resolution.value.1) else "",
              s.mode, s.extra)
  }

  /** A frame of mbw by mbh blocks of 16 by 16 pixels, the last column and row perhaps cut off. */
  lemma {:induction false} ProfileExact(width: nat, height: nat, mbw: nat, mbh: nat)
    requires 16 * mbw - 16 < width <= 16 * mbw && 16 * mbh - 16 < height <= 16 * mbh
    ensures ProfileForResolution(width, height)
            == if mbw * mbh <= 3600 then "42e01f" else if mbw * mbh <= 8192 then "42e028" else "42e032"
  {
    assert (width + 15) / 16 == mbw && (height + 15) / 16 == mbh;
  }

  /** The levels of the common frame sizes, up to the largest of each. */
  lemma {:induction false} CommonResolutions()
    ensures ProfileForResolution(1280, 720) == "42e01f" && ProfileForResolution(1281, 720) == "42e028"
    ensures ProfileForResolution(1920, 1080) == "42e028" && ProfileForResolution(3840, 2160) == "42e032"
  {
    ProfileExact(1280, 720, 80, 45);
    ProfileExact(1281, 720, 81, 45);
    ProfileExact(1920, 1080, 120, 68);
    ProfileExact(3840, 2160, 240, 135);
  }

  lemma {:induction false} DefaultsPrintable()
    ensures forall p | p in {"42e01f", "42e028", "42e032"} :: PlainValue(p)
    ensures PlainValue(DEFAULT_PROFILE)
  {
  }

  /** For every offer with a usable H.264 section: answering it and reading the answer gives the same
      payload type, our profile if known or else the offered or default one, the offered mode with
      0 becoming 1, and a byte-identical capacity string. */
  lemma {:induction false} SdpRoundTrip(offer: seq<Attribute>, resolution: Option<(nat, nat)>, media: seq<Media>, port: int)
    requires Select(offer).Some? && port != 0
    ensures
      var s := Select(offer).value;
      var v := Negotiated(s, resolution);
      && ParseVideo(SetVideoAnswer(media, port, v)) == Some(Selection(s.pt, ResolvedProfile(v), ResolvedMode(v), s.extra))
      && (resolution.Some? ==> ResolvedProfile(v) == ProfileForResolution(resolution.value.0, resolution.value.1))
      && (resolution.None? && s.profile != "" ==> ResolvedProfile(v) == s.profile)
      && ResolvedMode(v) == (if s.mode == 0 then 1 else s.mode)
  {
    var s := Select(offer).value;
    var v := Negotiated(s, resolution);
    hide Select, PlainValue, AllCanonical;
    SelectionPrintable(offer);
    DefaultsPrintable();
    AnswerReadsBack(media, port, v);
  }
}
