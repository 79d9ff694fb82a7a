/** What negotiation reads from an offer and writes into an answer, in terms of the lines of the
    session: the exact rtpmap and fmtp lines, parameter names and echoed parameters. */
module SdpReading {
  import opened Bytes
  import opened Text
  import opened VideoSdp
  import opened VideoAnswer

  // ---------------------------------------------------------------- rtpmap lines

  /** An encoding name of H.264, alone or before a clock rate. */
  predicate NamesH264(mapping: string) {
    && |mapping| >= 4 && mapping[0] in "hH" && mapping[1..4] == "264"
    && (|mapping| == 4 || mapping[4] == '/')
  }

  lemma {:induction false} NameBeforeSlash(mapping: string)
    ensures
      var slash := Cut(mapping, '/');
      NamesH264(mapping) <==> EqualFold(if slash.Some? then slash.value.0 else mapping, "H264")
  {
    var slash := Cut(mapping, '/');
    var name := if slash.Some? then slash.value.0 else mapping;
    SameWord(name);
    hide EqualFold, Cut;
    assert slash.Some? ==> mapping[|name|] == '/' && name == mapping[..|name|];
    if NamesH264(mapping) {
      assert mapping[1..4][0] == '2' && mapping[1..4][1] == '6' && mapping[1..4][2] == '4';
      assert name == mapping[..4] && name[1..] == mapping[1..4];
    }
    if |name| == 4 && name[1..] == "264" {
      assert mapping[1..4] == name[1..];
    }
  }

  /** Exactly these lines map a payload type to H.264. */
  lemma {:induction false} RtpmapExact(a: Attribute, pt: int)
    ensures RtpmapPt(a) == Some(pt) <==>
            && a.key == "rtpmap"
            && Cut(a.value, ' ').Some?
            && NamesH264(Cut(a.value, ' ').value.1)
            && Atoi(TrimSpace(Cut(a.value, ' ').value.0)) == Some(pt)
  {
    hide Atoi, Cut, TrimSpace, EqualFold, NamesH264;
    if Cut(a.value, ' ').Some? {
      NameBeforeSlash(Cut(a.value, ' ').value.1);
    }
  }

  // ---------------------------------------------------------------- parameters of one fmtp line

  /** Key and value stand around the first equals sign, without the white space around either. */
  lemma {:induction false} KeyValueExact(kv: string)
    ensures KeyValue(kv) == (match Cut(kv, '=')
      case None => None
      case Some((key, value)) => Some((ToLower(TrimSpace(key)), TrimSpace(value))))
  {
    hide TrimSpace, Cut, ToLower, IsSpace;
    var a, b := TrimSpaceTakes(kv);
    var t := TrimSpace(kv);
    NoEquals(a);
    NoEquals(b);
    var cut := Cut(t, '=');
    if cut.Some? {
      var (key, value) := cut.value;
      assert kv == (a + key) + ['='] + (value + b);
      CutJoined(a + key, '=', value + b);
      TrimPadded(a, key, []);
      TrimPadded([], value, b);
      assert a + key + [] == a + key && [] + value + b == value + b;
    }
  }

  lemma {:induction false} NoEquals(a: string)
    requires AllSpace(a)
    ensures '=' !in a
  {
  }

  /** The value of the last parameter with this key. */
  function LastGiven(kvs: seq<string>, key: string): Option<string> {
    if kvs == [] then None
    else
      var p := KeyValue(kvs[|kvs| - 1]);
      if p.Some? && p.value.0 == key then Some(p.value.1) else LastGiven(kvs[..|kvs| - 1], key)
  }

  /** The last integer given for this key. */
  function LastInteger(kvs: seq<string>, key: string): Option<int> {
    if kvs == [] then None
    else
      var p := KeyValue(kvs[|kvs| - 1]);
      if p.Some? && p.value.0 == key && Atoi(p.value.1).Some? then Atoi(p.value.1)
      else LastInteger(kvs[..|kvs| - 1], key)
  }

  /** The seven capacity parameters among these, in order. */
  function Echoed(kvs: seq<string>): seq<string> {
    if kvs == [] then []
    else
      var before, p := Echoed(kvs[..|kvs| - 1]), KeyValue(kvs[|kvs| - 1]);
      if p.Some? && (p.value.0 == "max-br" || p.value.0 == "max-mbps" || p.value.0 == "max-fs" || p.value.0 == "max-dpb"
                     || p.value.0 == "max-smbps" || p.value.0 == "max-cpb" || p.value.0 == "max-fps")
      then before + [p.value.0 + "=" + p.value.1] else before
  }

  function Or<T>(a: Option<T>, b: T): T {
    if a.Some? then a.value else b
  }

  lemma {:induction false} OneParameter(c: Candidate, kv: string)
    ensures
      var p, r := KeyValue(kv), ApplyParameter(c, kv);
      && r.pt == c.pt && r.extra == c.extra
      && r.profile == (if p.Some? && p.value.0 == "profile-level-id" then p.value.1 else c.profile)
      && (if p.Some? && p.value.0 == "packetization-mode" && Atoi(p.value.1).Some?
          then r.mode == Atoi(p.value.1).value && r.explicitMode
          else r.mode == c.mode && r.explicitMode == c.explicitMode)
  {
    hide KeyValue, Atoi;
    assert "profile-level-id" != "packetization-mode" by {
      assert "profile-level-id"[1] != "packetization-mode"[1];
    }
  }

  lemma {:induction false} ParametersRead(c: Candidate, kvs: seq<string>)
    ensures
      var r, mode := ApplyParameters(c, kvs), LastInteger(kvs, "packetization-mode");
      && r.pt == c.pt && r.extra == c.extra
      && r.profile == Or(LastGiven(kvs, "profile-level-id"), c.profile)
      && r.mode == Or(mode, c.mode) && r.explicitMode == (c.explicitMode || mode.Some?)
    decreases |kvs|
  {
    hide ApplyParameter, KeyValue, Atoi;
    if kvs != [] {
      ParametersRead(c, kvs[..|kvs| - 1]);
      OneParameter(ApplyParameters(c, kvs[..|kvs| - 1]), kvs[|kvs| - 1]);
    }
  }

  lemma {:induction false} CapacityEchoed(kvs: seq<string>)
    ensures CapacityParameters(kvs) == Echoed(kvs)
    decreases |kvs|
  {
    hide KeyValue;
    if kvs != [] {
      CapacityEchoed(kvs[..|kvs| - 1]);
    }
  }

  /** What one fmtp line declares: the last profile-level-id, the last packetization-mode that is an
      integer, and of the capacity parameters all, in order, in lower case and joined by semicolons. */
  lemma {:induction false} FmtpExact(c: Candidate, parameters: string)
    ensures
      var kvs := Split(parameters, ';');
      var r, mode := ApplyFmtp(c, parameters), LastInteger(kvs, "packetization-mode");
      && r.pt == c.pt
      && r.profile == Or(LastGiven(kvs, "profile-level-id"), c.profile)
      && r.mode == Or(mode, c.mode) && r.explicitMode == (c.explicitMode || mode.Some?)
      && r.extra == Join(Echoed(kvs), ';')
  {
    hide ApplyParameters, LastGiven, LastInteger, Echoed, Split, Join;
    ParametersRead(c, Split(parameters, ';'));
    CapacityEchoed(Split(parameters, ';'));
  }

  // ---------------------------------------------------------------- a whole offer

  /** The parameters of the fmtp lines that name this payload type, line by line. */
  function LinesOf(pt: int, attributes: seq<Attribute>): seq<seq<string>> {
    if attributes == [] then []
    else
      var before, a := LinesOf(pt, attributes[..|attributes| - 1]), attributes[|attributes| - 1];
      var fields := Cut(a.value, ' ');
      if a.key == "fmtp" && fields.Some? && TrimSpace(fields.value.0) == Itoa(pt)
      then before + [Split(fields.value.1, ';')] else before
  }

  function AllLines(lines: seq<seq<string>>): seq<string> {
    if lines == [] then [] else AllLines(lines[..|lines| - 1]) + lines[|lines| - 1]
  }

  lemma {:induction false} LastOfBoth(a: seq<string>, b: seq<string>, key: string)
    ensures LastGiven(a + b, key) == (if LastGiven(b, key).Some? then LastGiven(b, key) else LastGiven(a, key))
    ensures LastInteger(a + b, key) == (if LastInteger(b, key).Some? then LastInteger(b, key) else LastInteger(a, key))
    decreases |b|
  {
    hide KeyValue, Atoi;
    if b == [] {
      assert a + b == a;
    } else {
      LastOfBoth(a, b[..|b| - 1], key);
      assert (a + b)[..|a + b| - 1] == a + b[..|b| - 1];
    }
  }

  /** Everything declared for a payload type is read from the fmtp lines that name it, the later
      overriding the earlier; without any, the mode is an undeclared 1. Only the last of these lines
      has its capacity parameters echoed. */
  lemma {:induction false} DeclaredExact(pt: int, attributes: seq<Attribute>)
    ensures
      var lines, c := LinesOf(pt, attributes), Declared(pt, attributes);
      var mode := LastInteger(AllLines(lines), "packetization-mode");
      c == Candidate(pt, Or(LastGiven(AllLines(lines), "profile-level-id"), ""), Or(mode, 1), mode.Some?,
                     if lines == [] then "" else Join(Echoed(lines[|lines| - 1]), ';'))
    decreases |attributes|
  {
    hide ApplyFmtp, LastGiven, LastInteger, Itoa, Cut, TrimSpace, Split, Join, Echoed;
    if attributes == [] {
      NothingGiven();
    } else {
      var before, a := attributes[..|attributes| - 1], attributes[|attributes| - 1];
      DeclaredExact(pt, before);
      var fields := FmtpFields(a);
      if fields.Some? && fields.value.0 == Itoa(pt) {
        var lines, kvs := LinesOf(pt, before), Split(fields.value.1, ';');
        FmtpExact(Declared(pt, before), fields.value.1);
        OneMoreLine(lines, kvs);
        assert LinesOf(pt, attributes) == lines + [kvs];
      } else {
        assert LinesOf(pt, attributes) == LinesOf(pt, before);
      }
    }
  }

  lemma {:induction false} NothingGiven()
    ensures LastGiven([], "profile-level-id").None? && LastInteger([], "packetization-mode").None?
  {
  }

  lemma {:induction false} OneMoreLine(lines: seq<seq<string>>, kvs: seq<string>)
    ensures
      var all, more := AllLines(lines), AllLines(lines + [kvs]);
      && LastGiven(more, "profile-level-id")
         == (if LastGiven(kvs, "profile-level-id").Some? then LastGiven(kvs, "profile-level-id")
             else LastGiven(all, "profile-level-id"))
      && LastInteger(more, "packetization-mode")
         == (if LastInteger(kvs, "packetization-mode").Some? then LastInteger(kvs, "packetization-mode")
             else LastInteger(all, "packetization-mode"))
  {
    hide LastGiven, LastInteger;
    assert (lines + [kvs])[..|lines|] == lines;
    LastOfBoth(AllLines(lines), kvs, "profile-level-id");
    LastOfBoth(AllLines(lines), kvs, "packetization-mode");
  }

  /** The H.264 payload types of an offer are read off its lines in order. */
  lemma {:induction false} OneMoreMapping(attributes: seq<Attribute>, a: Attribute)
    ensures H264Pts([]) == []
    ensures H264Pts(attributes + [a]) == H264Pts(attributes) + (if RtpmapPt(a).Some? then [RtpmapPt(a).value] else [])
  {
    hide RtpmapPt;
    assert (attributes + [a])[..|attributes|] == attributes;
  }

  lemma {:induction false} NoMapping(attributes: seq<Attribute>)
    ensures H264Pts(attributes) == [] <==> forall a | a in attributes :: RtpmapPt(a).None?
  {
    hide RtpmapPt;
    if attributes != [] {
      var before, a := attributes[..|attributes| - 1], attributes[|attributes| - 1];
      NoMapping(before);
      assert attributes == before + [a];
    }
  }

  /** Whether s is the declared choice among these candidates. */
  predicate Chosen(cs: seq<Candidate>, s: Selection) {
    exists k: nat | k < |cs| && IsChoice(cs, k) ::
      s == Selection(cs[k].pt % 0x100, cs[k].profile, cs[k].mode, cs[k].extra)
  }

  /** A selection is made if and only if some line maps a payload type to H.264. Then it is the first
      such mapping with packetization-mode 1 declared, or else the first mapping. */
  lemma {:induction false} SelectionExact(attributes: seq<Attribute>)
    ensures Select(attributes).None? <==> forall a | a in attributes :: RtpmapPt(a).None?
    ensures Select(attributes).Some? ==> Chosen(Candidates(attributes), Select(attributes).value)
  {
    NoMapping(attributes);
    var cs := Candidates(attributes);
    hide H264Pts, Declared, Candidates, RtpmapPt;
    if cs != [] {
      ChoiceExact(cs, Choice(cs));
      hide Choice;
      assert IsChoice(cs, Choice(cs));
    }
  }

  /** A payload type that is mapped again later counts as without parameters. */
  lemma {:induction false} CandidatesAre(attributes: seq<Attribute>)
    ensures
      var pts, cs := H264Pts(attributes), Candidates(attributes);
      forall k | 0 <= k < |pts| ::
        cs[k] == if pts[k] in pts[k + 1..] then Candidate(pts[k], "", 1, false, "") else Declared(pts[k], attributes)
  {
    hide H264Pts, Declared;
  }

  // ---------------------------------------------------------------- sessions

  /** The sections that stay are exactly those not called video, in any case, in order. */
  lemma {:induction false} SectionKept(media: seq<Media>, m: Media)
    ensures NonVideo([]) == []
    ensures
      var s := m.name;
      NonVideo(media + [m]) == NonVideo(media) +
        (if |s| == 5 && s[0] in "vV" && s[1] in "iI" && s[2] in "dD" && s[3] in "eE" && s[4] in "oO" then [] else [m])
  {
    SameWord(m.name);
    NonVideoAppend(media, m);
    hide EqualFold;
  }

  lemma {:induction false} FirstVideo(media: seq<Media>)
    ensures match FindVideo(media)
      case None => forall m | m in media :: !IsVideo(m)
      case Some(m) => exists i | 0 <= i < |media| :: m == media[i] && IsVideo(m) && forall j | 0 <= j < i :: !IsVideo(media[j])
    decreases |media|
  {
    hide IsVideo;
    if media != [] && !IsVideo(media[0]) {
      FirstVideo(media[1..]);
      assert media == [media[0]] + media[1..];
      if FindVideo(media).Some? {
        var i :| 0 <= i < |media| - 1 && FindVideo(media).value == media[1..][i] && IsVideo(media[1..][i])
          && forall j | 0 <= j < i :: !IsVideo(media[1..][j]);
        forall j | 0 <= j < i + 1 ensures !IsVideo(media[j]) {
          assert j > 0 ==> !IsVideo(media[1..][j - 1]);
        }
        assert media[i + 1] == media[1..][i];
      }
    }
  }

  /** What a peer reads: nothing without a video section, with port 0, or without an H.264 mapping. */
  lemma {:induction false} ParseExact(media: seq<Media>)
    ensures ParseVideo(media) == (match FindVideo(media)
      case None => None
      case Some(m) => if m.port == 0 then None else Select(m.attributes))
  {
  }

  lemma {:induction false} AnswerText(port: int, v: VideoConf)
    ensures
      var profile := if v.localProfile != "" then v.localProfile else if v.profile != "" then v.profile else "42e01f";
      var mode := if v.mode == 0 then 1 else v.mode;
      Answer(port, v) ==
        Media("video", port, ["RTP", "AVP"], [Itoa(v.pt)],
              [Attribute("rtpmap", Itoa(v.pt) + " H264/90000"),
               Attribute("fmtp", Itoa(v.pt) + (" profile-level-id=" + profile + (";packetization-mode=" + Itoa(mode)))
                                 + (if v.extra == "" then "" else ";" + v.extra)),
               Attribute("rtcp-fb", Itoa(v.pt) + " nack pli"),
               Attribute("sendrecv", "")])
  {
    hide Itoa;
    var profile, mode, pt := ResolvedProfile(v), Itoa(ResolvedMode(v)), Itoa(v.pt);
    assert " " + ("H264" + "/" + "90000") == " H264/90000";
    Spaced(pt, "H264" + "/" + "90000");
    FmtpText(pt, profile, mode, v.extra);
  }

  lemma {:induction false} Spaced(a: string, b: string)
    ensures a + " " + b == a + (" " + b)
  {
  }

  lemma {:induction false} FmtpText(pt: string, profile: string, mode: string, extra: string)
    ensures
      var p := "profile-level-id" + "=" + profile + ";" + ("packetization-mode" + "=" + mode);
      pt + " " + (if extra != "" then p + ";" + extra else p)
      == pt + (" profile-level-id=" + profile + (";packetization-mode=" + mode)) + (if extra == "" then "" else ";" + extra)
  {
    var p := "profile-level-id" + "=" + profile + ";" + ("packetization-mode" + "=" + mode);
    assert p == "profile-level-id=" + profile + (";packetization-mode=" + mode);
    assert " " + "profile-level-id=" == " profile-level-id=";
    assert " " + p == " profile-level-id=" + profile + (";packetization-mode=" + mode);
    hide *;
    if extra == "" {
      assert pt + " " + p == pt + (" " + p) + "";
    } else {
      assert pt + " " + (p + ";" + extra) == pt + (" " + p) + (";" + extra);
    }
  }

  /** The session after answering: the other sections, and last the one video section, on this port,
      over RTP/AVP, its only format the payload type that the peer reads back from it. */
  lemma {:induction false} AnswerSection(media: seq<Media>, port: int, v: VideoConf)
    ensures
      var r := SetVideoAnswer(media, port, v);
      var n := |r| - 1;
      && n >= 0 && r[..n] == NonVideo(media) && (forall m | m in r[..n] :: !IsVideo(m))
      && r[n].name == "video" && r[n].port == port && r[n].protos == ["RTP", "AVP"]
      && |r[n].formats| == 1 && Atoi(r[n].formats[0]) == Some(v.pt)
      && FindVideo(r) == Some(r[n])
      && H264Pts(r[n].attributes) == [v.pt]
      && ParseVideo(r).Some? == (port != 0)
  {
    var a := Answer(port, v);
    assert IsVideo(a);
    NonVideoHasNone(media);
    FindLast(NonVideo(media), a);
    AnswerPts(port, v);
    SelectOnly(a.attributes, v.pt);
    ItoaRoundTrip(v.pt);
    var r := SetVideoAnswer(media, port, v);
    assert r[..|r| - 1] == NonVideo(media);
    hide NonVideo, Select, H264Pts, Atoi, Itoa, IsVideo;
  }
}
