/** Classification of a return route from ordered ASN evidence, and the
    conservative combination of several traces. */
module Classification {
  import opened Lists
  import opened Text

  datatype Evidence = Evidence(distance: int, asns: seq<string>)

  datatype Confidence = Confirmed | Mixed | Inconclusive

  datatype Class = Class(code: string, caption: string, confidence: Confidence, rank: nat, evidence: string)

  function Unclear(code: string, caption: string, evidence: string): Class {
    Class(code, caption, Inconclusive, 0, evidence)
  }

  // ----- where an ASN shows up -----

  predicate Shows(h: Evidence, target: string) {
    exists i :: 0 <= i < |h.asns| && EqualFold(TrimSpace(h.asns[i]), target)
  }

  datatype Position = Position(first: int, count: nat)

  function PositionOf(hops: seq<Evidence>, target: string): Position {
    if hops == [] then Position(-1, 0)
    else
      var p := PositionOf(hops[..|hops|-1], target);
      if Shows(hops[|hops|-1], target)
      then Position(if p.first < 0 then |hops| - 1 else p.first, p.count + 1)
      else p
  }

  /** The loop over the hops. */
  method RouteAsnPosition(hops: seq<Evidence>, target: string) returns (first: int, count: nat)
    ensures Position(first, count) == PositionOf(hops, target)
  {
    hide EqualFold, TrimSpace;
    first, count := -1, 0;
    for index := 0 to |hops|
      invariant Position(first, count) == PositionOf(hops[..index], target)
    {
      PositionStep(hops[..index], hops[index], target);
      assert hops[..index+1] == hops[..index] + [hops[index]];
      var matched := false;
      var asns := hops[index].asns;
      for i := 0 to |asns|
        invariant !matched
        invariant forall j :: 0 <= j < i ==> !EqualFold(TrimSpace(asns[j]), target)
      {
        if EqualFold(TrimSpace(asns[i]), target) {
          matched := true;
          break;
        }
      }
      assert matched <==> Shows(hops[index], target);
      hide Shows, PositionOf;
      if matched {
        if first < 0 {
          first := index;
        }
        count := count + 1;
      }
    }
    assert hops[..|hops|] == hops;
  }

  /** First is the least index that shows the ASN, or negative when none does. */
  lemma {:induction false} FirstMeaning(hops: seq<Evidence>, target: string)
    ensures var p := PositionOf(hops, target);
            && -1 <= p.first < |hops|
            && (p.first < 0 <==> p.count == 0)
            && (p.first >= 0 ==> Shows(hops[p.first], target))
            && (forall i :: 0 <= i < |hops| && Shows(hops[i], target) ==> 0 <= p.first <= i)
  {
    hide Shows;
    if hops != [] {
      FirstMeaning(hops[..|hops|-1], target);
    }
  }

  predicate ShowsAt(hops: seq<Evidence>, i: int, target: string) {
    0 <= i < |hops| && Shows(hops[i], target)
  }

  /** The count tells apart no hop, a single hop and several. */
  lemma {:induction false} CountMeaning(hops: seq<Evidence>, target: string)
    ensures PositionOf(hops, target).count <= 1 <==>
            forall i, j :: ShowsAt(hops, i, target) && ShowsAt(hops, j, target) ==> i == j
  {
    hide Shows;
    if hops != [] {
      var front := hops[..|hops|-1];
      CountMeaning(front, target);
      FirstMeaning(front, target);
      assert forall i :: ShowsAt(front, i, target) <==> i < |hops| - 1 && ShowsAt(hops, i, target);
      var q := PositionOf(front, target);
      if Shows(hops[|hops|-1], target) && q.count > 0 {
        assert ShowsAt(hops, q.first, target) && ShowsAt(hops, |hops| - 1, target);
      }
    }
  }

  // ----- the carriers -----

  function NormalizeCarrier(value: string): string {
    var v := ToUpper(TrimSpace(value));
    if v == "CT" || v == "TELECOM" || v == "电信" then "CT"
    else if v == "CU" || v == "UNICOM" || v == "联通" then "CU"
    else if v == "CM" || v == "CMCC" || v == "MOBILE" || v == "移动" then "CM"
    else v
  }

  /** The outcomes the three decision procedures can reach. */
  datatype Verdict =
    | Cn2Single | Cn2Gia | Cn2Then163 | Cn2Gt | Ctgnet | CtDestination | Ct163 | CtUnknown
    | Cu9929Mixed | Cu9929 | Cug | CuDestination | Cu4837 | CuUnknown
    | Cmin2Mixed | Cmin2 | Cmi | Cmnet | CmUnknown
    | UnknownCarrier

  function CodeOf(v: Verdict): string {
    match v
    case Cn2Single => "ct_cn2_mixed"
    case Cn2Gia => "ct_cn2_gia"
    case Cn2Then163 => "ct_cn2_mixed"
    case Cn2Gt => "ct_cn2_gt"
    case Ctgnet => "ct_ctgnet"
    case CtDestination => "ct_destination_only"
    case Ct163 => "ct_163"
    case CtUnknown => "ct_unknown"
    case Cu9929Mixed => "cu_9929_mixed"
    case Cu9929 => "cu_9929"
    case Cug => "cu_cug"
    case CuDestination => "cu_destination_only"
    case Cu4837 => "cu_4837"
    case CuUnknown => "cu_unknown"
    case Cmin2Mixed => "cm_cmin2_mixed"
    case Cmin2 => "cm_cmin2"
    case Cmi => "cm_cmi"
    case Cmnet => "cm_cmnet"
    case CmUnknown => "cm_unknown"
    case UnknownCarrier => "unknown_carrier"
  }

  function CaptionOf(v: Verdict): string {
    match v
    case Cn2Single => "电信CN2混合 [优质线路]"
    case Cn2Gia => "电信CN2GIA [精品线路]"
    case Cn2Then163 => "电信CN2混合 [优质线路]"
    case Cn2Gt => "电信CN2GT  [优质线路]"
    case Ctgnet => "电信CTGNET [精品线路]"
    case CtDestination => "仅见电信目的网"
    case Ct163 => "电信163    [普通线路]"
    case CtUnknown => "未见电信骨干"
    case Cu9929Mixed => "联通9929混合 [优质线路]"
    case Cu9929 => "联通9929   [优质线路]"
    case Cug => "联通CUG    [优质线路]"
    case CuDestination => "仅见联通目的网"
    case Cu4837 => "联通4837   [普通线路]"
    case CuUnknown => "未见联通骨干"
    case Cmin2Mixed => "移动CMIN2混合 [优质线路]"
    case Cmin2 => "移动CMIN2  [精品线路]"
    case Cmi => "移动CMI    [普通线路]"
    case Cmnet => "移动CMNET  [普通线路]"
    case CmUnknown => "未见移动骨干"
    case UnknownCarrier => "线路证据不足"
  }

  function RankOf(v: Verdict): nat {
    match v
    case Cn2Gia | Cu9929 | Cmin2 => 5
    case Ctgnet => 4
    case Cn2Single | Cn2Then163 | Cn2Gt | Cu9929Mixed | Cug | Cmin2Mixed => 3
    case Ct163 | Cu4837 | Cmi | Cmnet => 2
    case CtDestination | CtUnknown | CuDestination | CuUnknown | CmUnknown | UnknownCarrier => 0
  }

  function ConfidenceOf(v: Verdict): Confidence {
    match v
    case Cn2Single | Cn2Then163 | Cn2Gt | Cu9929Mixed | Cmin2Mixed => Mixed
    case CtDestination | CtUnknown | CuDestination | CuUnknown | CmUnknown | UnknownCarrier => Inconclusive
    case Cn2Gia | Cu9929 | Cmin2 | Ctgnet | Cug | Ct163 | Cu4837 | Cmi | Cmnet => Confirmed
  }

  function ReasonOf(v: Verdict): string {
    match v
    case Cn2Single => "only one AS4809 hop; CN2 GIA is not confirmed"
    case Cn2Gia => "at least two AS4809 hops precede at most one AS4134 delivery hop"
    case Cn2Then163 => "AS4809 is followed by multiple AS4134 backbone hops"
    case Cn2Gt => "AS4134 appears before the AS4809 segment"
    case Ctgnet => "AS23764 is present"
    case CtDestination => "only one AS4134 hop"
    case Ct163 => "multiple AS4134 hops are present without premium backbone evidence"
    case CtUnknown => "AS4809, AS23764, and AS4134 are absent"
    case Cu9929Mixed => "AS4837 appears before the AS9929 segment"
    case Cu9929 => "AS9929 is present without an earlier AS4837 segment"
    case Cug => "AS10099 is present without AS9929"
    case CuDestination => "only one AS4837 hop"
    case Cu4837 => "multiple AS4837 hops are present without premium backbone evidence"
    case CuUnknown => "AS9929, AS10099, and AS4837 are absent"
    case Cmin2Mixed => "AS58453 appears before the AS58807 segment"
    case Cmin2 => "AS58807 is present without an earlier AS58453 segment"
    case Cmi => "AS58453 is present without CMIN2 evidence"
    case Cmnet => "AS9808 is present without international premium backbone evidence"
    case CmUnknown => "AS58807, AS58453, and AS9808 are absent"
    case UnknownCarrier => "unknown carrier"
  }

  /** How each outcome is reported. */
  function Describe(v: Verdict): Class {
    Class(CodeOf(v), CaptionOf(v), ConfidenceOf(v), RankOf(v), ReasonOf(v))
  }

  function Telecom(hops: seq<Evidence>): Verdict {
    var cn2 := PositionOf(hops, "AS4809");
    var ct163 := PositionOf(hops, "AS4134");
    var ctg := PositionOf(hops, "AS23764");
    if cn2.first >= 0 then
      if cn2.count < 2 then Cn2Single
      else if ct163.first < 0 || (cn2.first < ct163.first && ct163.count <= 1) then Cn2Gia
      else if cn2.first < ct163.first then Cn2Then163
      else Cn2Gt
    else if ctg.first >= 0 then Ctgnet
    else if ct163.first >= 0 then if ct163.count <= 1 then CtDestination else Ct163
    else CtUnknown
  }

  function Unicom(hops: seq<Evidence>): Verdict {
    var cu9929 := PositionOf(hops, "AS9929");
    var cug := PositionOf(hops, "AS10099");
    var cu4837 := PositionOf(hops, "AS4837");
    if cu9929.first >= 0 then
      if cu4837.first >= 0 && cu4837.first < cu9929.first then Cu9929Mixed else Cu9929
    else if cug.first >= 0 then Cug
    else if cu4837.first >= 0 then if cu4837.count <= 1 then CuDestination else Cu4837
    else CuUnknown
  }

  function Mobile(hops: seq<Evidence>): Verdict {
    var cmin2 := PositionOf(hops, "AS58807");
    var cmi := PositionOf(hops, "AS58453");
    var cmnet := PositionOf(hops, "AS9808");
    if cmin2.first >= 0 then
      if cmi.first >= 0 && cmi.first < cmin2.first then Cmin2Mixed else Cmin2
    else if cmi.first >= 0 then Cmi
    else if cmnet.first >= 0 then Cmnet
    else CmUnknown
  }

  function VerdictOf(carrier: string, hops: seq<Evidence>): Verdict {
    var c := NormalizeCarrier(carrier);
    if c == "CT" then Telecom(hops)
    else if c == "CU" then Unicom(hops)
    else if c == "CM" then Mobile(hops)
    else UnknownCarrier
  }

  function Classify(carrier: string, hops: seq<Evidence>): Class {
    Describe(VerdictOf(carrier, hops))
  }

  /** The ASNs a carrier's classification looks at. */
  function CarrierAsns(carrier: string): seq<string> {
    var c := NormalizeCarrier(carrier);
    if c == "CT" then ["AS4809", "AS4134", "AS23764"]
    else if c == "CU" then ["AS9929", "AS4837", "AS10099"]
    else if c == "CM" then ["AS58807", "AS58453", "AS9808"]
    else []
  }

  predicate Relevant(carrier: string, h: Evidence) {
    exists i :: 0 <= i < |CarrierAsns(carrier)| && Shows(h, CarrierAsns(carrier)[i])
  }

  function RelevantHops(carrier: string, hops: seq<Evidence>): seq<Evidence> {
    Filter(hops, h => Relevant(carrier, h))
  }

  // ----- irrelevant hops do not matter -----

  lemma PositionStep(hops: seq<Evidence>, h: Evidence, target: string)
    ensures var p := PositionOf(hops, target);
            PositionOf(hops + [h], target) ==
            if Shows(h, target) then Position(if p.first < 0 then |hops| else p.first, p.count + 1) else p
  {
    hide Shows;
    assert (hops + [h])[..|hops|] == hops;
  }

  /** Filtering keeps the count and moves the first index to the number of kept hops before it. */
  lemma {:induction false} PositionFiltered(hops: seq<Evidence>, target: string, keep: Evidence -> bool)
    requires forall h :: Shows(h, target) ==> keep(h)
    ensures var p, q := PositionOf(hops, target), PositionOf(Filter(hops, keep), target);
            && -1 <= p.first < |hops|
            && q.count == p.count
            && q.first == if p.first < 0 then -1 else |Filter(hops[..p.first], keep)|
  {
    if hops != [] {
      var front, last := hops[..|hops|-1], hops[|hops|-1];
      assert hops == front + [last] && hops[..|front|] == front;
      PositionFiltered(front, target, keep);
      FilterStep(hops, |front|, keep);
      PositionStep(front, last, target);
      PositionStep(Filter(front, keep), last, target);
      assert hops[..|hops|] == hops;
      assert forall i :: 0 <= i <= |front| ==> hops[..i] == front[..i];
      hide PositionOf, Shows, Filter;
    }
  }

  lemma {:induction false} FilterMonotone(hops: seq<Evidence>, i: nat, j: nat, keep: Evidence -> bool)
    requires i <= j <= |hops|
    ensures |Filter(hops[..i], keep)| <= |Filter(hops[..j], keep)|
    ensures i < j && keep(hops[i]) ==> |Filter(hops[..i], keep)| < |Filter(hops[..j], keep)|
    decreases j - i
  {
    if i < j {
      FilterStep(hops, j - 1, keep);
      if i < j - 1 {
        FilterMonotone(hops, i, j - 1, keep);
      }
    }
  }

  /** The order of first appearances survives filtering. */
  lemma OrderFiltered(hops: seq<Evidence>, a: string, b: string, keep: Evidence -> bool)
    requires forall h :: Shows(h, a) || Shows(h, b) ==> keep(h)
    ensures SameOrder(hops, Filter(hops, keep), a, b)
  {
    PositionFiltered(hops, a, keep);
    PositionFiltered(hops, b, keep);
    FirstMeaning(hops, a);
    FirstMeaning(hops, b);
    var i, j := PositionOf(hops, a).first, PositionOf(hops, b).first;
    assert i >= 0 ==> keep(hops[i]);
    assert j >= 0 ==> keep(hops[j]);
    hide PositionOf, Shows, Filter;
    if 0 <= i && 0 <= j {
      KeptBefore(hops, i, j, keep);
    }
  }

  lemma KeptBefore(hops: seq<Evidence>, i: nat, j: nat, keep: Evidence -> bool)
    requires i < |hops| && j < |hops| && keep(hops[i]) && keep(hops[j])
    ensures |Filter(hops[..i], keep)| < |Filter(hops[..j], keep)| <==> i < j
  {
    hide Filter;
    if i <= j { FilterMonotone(hops, i, j, keep); } else { FilterMonotone(hops, j, i, keep); }
  }

  /** Two hop lists in which a and b first show up in the same order, equally often. */
  ghost predicate SameOrder(hops: seq<Evidence>, f: seq<Evidence>, a: string, b: string) {
    && (PositionOf(f, a).first < 0 <==> PositionOf(hops, a).first < 0)
    && (PositionOf(f, a).first < PositionOf(f, b).first <==> PositionOf(hops, a).first < PositionOf(hops, b).first)
    && PositionOf(f, a).count == PositionOf(hops, a).count
  }

  ghost predicate SameOrders(hops: seq<Evidence>, f: seq<Evidence>, a: string, b: string, c: string) {
    SameOrder(hops, f, a, b) && SameOrder(hops, f, b, a) && SameOrder(hops, f, c, a)
  }

  lemma TelecomOrder(hops: seq<Evidence>, f: seq<Evidence>)
    requires SameOrders(hops, f, "AS4809", "AS4134", "AS23764")
    ensures Telecom(hops) == Telecom(f)
  {
    hide PositionOf;
  }

  lemma UnicomOrder(hops: seq<Evidence>, f: seq<Evidence>)
    requires SameOrders(hops, f, "AS9929", "AS4837", "AS10099")
    ensures Unicom(hops) == Unicom(f)
  {
    hide PositionOf;
  }

  lemma MobileOrder(hops: seq<Evidence>, f: seq<Evidence>)
    requires SameOrders(hops, f, "AS58807", "AS58453", "AS9808")
    ensures Mobile(hops) == Mobile(f)
  {
    hide PositionOf;
  }

  /** Only the order of the hops that show the carrier's own ASNs matters:
      inserting or deleting any others leaves the classification as it is. */
  lemma IrrelevantHopsIgnored(carrier: string, hops: seq<Evidence>, other: seq<Evidence>)
    requires RelevantHops(carrier, hops) == RelevantHops(carrier, other)
    ensures Classify(carrier, hops) == Classify(carrier, other)
  {
    RelevantSuffice(carrier, hops);
    RelevantSuffice(carrier, other);
    hide Classify, RelevantHops;
  }

  lemma RelevantOrders(carrier: string, hops: seq<Evidence>)
    ensures var s, f := CarrierAsns(carrier), RelevantHops(carrier, hops);
            |s| == 3 ==> SameOrders(hops, f, s[0], s[1], s[2])
  {
    var s, keep := CarrierAsns(carrier), h => Relevant(carrier, h);
    hide NormalizeCarrier, PositionOf, CarrierAsns, Filter;
    if |s| == 3 {
      forall h | Shows(h, s[0]) || Shows(h, s[1]) || Shows(h, s[2]) ensures keep(h) {}
      OrderFiltered(hops, s[0], s[1], keep);
      OrderFiltered(hops, s[1], s[0], keep);
      OrderFiltered(hops, s[2], s[0], keep);
    }
  }

  lemma RelevantSuffice(carrier: string, hops: seq<Evidence>)
    ensures Classify(carrier, RelevantHops(carrier, hops)) == Classify(carrier, hops)
  {
    var c, f := NormalizeCarrier(carrier), RelevantHops(carrier, hops);
    RelevantOrders(carrier, hops);
    hide Telecom, Unicom, Mobile, NormalizeCarrier, RelevantHops, SameOrders, Describe;
    if c == "CT" { TelecomOrder(hops, f); }
    else if c == "CU" { UnicomOrder(hops, f); }
    else if c == "CM" { MobileOrder(hops, f); }
  }

  // ----- the decisions, in terms of which hops show what -----

  ghost predicate Absent(hops: seq<Evidence>, a: string) {
    forall i :: !ShowsAt(hops, i, a)
  }

  ghost predicate Several(hops: seq<Evidence>, a: string) {
    exists i, j :: i != j && ShowsAt(hops, i, a) && ShowsAt(hops, j, a)
  }

  ghost predicate Single(hops: seq<Evidence>, a: string) {
    !Absent(hops, a) && !Several(hops, a)
  }

  /** Some hop shows a, strictly before every hop that shows b. */
  ghost predicate Ahead(hops: seq<Evidence>, a: string, b: string) {
    exists i :: ShowsAt(hops, i, a) && forall j :: ShowsAt(hops, j, b) ==> i < j
  }

  lemma PositionMeans(hops: seq<Evidence>, a: string)
    ensures PositionOf(hops, a).first < 0 <==> Absent(hops, a)
    ensures PositionOf(hops, a).count <= 1 <==> !Several(hops, a)
    ensures Several(hops, a) ==> !Absent(hops, a)
  {
    FirstMeaning(hops, a);
    CountMeaning(hops, a);
    hide PositionOf, Shows;
    var p := PositionOf(hops, a);
    if p.first >= 0 { assert ShowsAt(hops, p.first, a); }
  }

  lemma AheadMeans(hops: seq<Evidence>, a: string, b: string)
    ensures var p, q := PositionOf(hops, a).first, PositionOf(hops, b).first;
            Ahead(hops, a, b) <==> p >= 0 && (q < 0 || p < q)
  {
    FirstMeaning(hops, a);
    FirstMeaning(hops, b);
    hide PositionOf, Shows;
    var p, q := PositionOf(hops, a).first, PositionOf(hops, b).first;
    if p >= 0 { assert ShowsAt(hops, p, a); }
    if q >= 0 { assert ShowsAt(hops, q, b); }
  }

  /** Which evidence leads to which outcome for China Telecom. */
  lemma TelecomExactly(hops: seq<Evidence>)
    ensures var v := Telecom(hops);
            && (v == Cn2Single <==> Single(hops, "AS4809"))
            && (v == Cn2Gia <==> Several(hops, "AS4809") && Ahead(hops, "AS4809", "AS4134") && !Several(hops, "AS4134"))
            && (v == Cn2Then163 <==> Several(hops, "AS4809") && Ahead(hops, "AS4809", "AS4134") && Several(hops, "AS4134"))
            && (v == Cn2Gt <==> Several(hops, "AS4809") && !Ahead(hops, "AS4809", "AS4134"))
            && (v == Ctgnet <==> Absent(hops, "AS4809") && !Absent(hops, "AS23764"))
            && (v == CtDestination <==>
                  Absent(hops, "AS4809") && Absent(hops, "AS23764") && Single(hops, "AS4134"))
            && (v == Ct163 <==> Absent(hops, "AS4809") && Absent(hops, "AS23764") && Several(hops, "AS4134"))
            && (v == CtUnknown <==> Absent(hops, "AS4809") && Absent(hops, "AS23764") && Absent(hops, "AS4134"))
  {
    PositionMeans(hops, "AS4809");
    PositionMeans(hops, "AS4134");
    PositionMeans(hops, "AS23764");
    AheadMeans(hops, "AS4809", "AS4134");
    hide PositionOf, Absent, Several, Ahead;
  }

  /** For China Unicom. */
  lemma UnicomExactly(hops: seq<Evidence>)
    ensures var v := Unicom(hops);
            && (v == Cu9929Mixed <==> !Absent(hops, "AS9929") && Ahead(hops, "AS4837", "AS9929"))
            && (v == Cu9929 <==> !Absent(hops, "AS9929") && !Ahead(hops, "AS4837", "AS9929"))
            && (v == Cug <==> Absent(hops, "AS9929") && !Absent(hops, "AS10099"))
            && (v == CuDestination <==>
                  Absent(hops, "AS9929") && Absent(hops, "AS10099") && Single(hops, "AS4837"))
            && (v == Cu4837 <==> Absent(hops, "AS9929") && Absent(hops, "AS10099") && Several(hops, "AS4837"))
            && (v == CuUnknown <==> Absent(hops, "AS9929") && Absent(hops, "AS10099") && Absent(hops, "AS4837"))
  {
    PositionMeans(hops, "AS9929");
    PositionMeans(hops, "AS4837");
    PositionMeans(hops, "AS10099");
    AheadMeans(hops, "AS4837", "AS9929");
    hide PositionOf, Absent, Several, Ahead;
  }

  /** For China Mobile. */
  lemma MobileExactly(hops: seq<Evidence>)
    ensures var v := Mobile(hops);
            && (v == Cmin2Mixed <==> !Absent(hops, "AS58807") && Ahead(hops, "AS58453", "AS58807"))
            && (v == Cmin2 <==> !Absent(hops, "AS58807") && !Ahead(hops, "AS58453", "AS58807"))
            && (v == Cmi <==> Absent(hops, "AS58807") && !Absent(hops, "AS58453"))
            && (v == Cmnet <==> Absent(hops, "AS58807") && Absent(hops, "AS58453") && !Absent(hops, "AS9808"))
            && (v == CmUnknown <==> Absent(hops, "AS58807") && Absent(hops, "AS58453") && Absent(hops, "AS9808"))
  {
    PositionMeans(hops, "AS58807");
    PositionMeans(hops, "AS58453");
    PositionMeans(hops, "AS9808");
    AheadMeans(hops, "AS58453", "AS58807");
    hide PositionOf, Absent, Several, Ahead;
  }

  // ----- how the outcomes are reported -----

  ghost predicate Reported(c: Class, code: string, confidence: Confidence, rank: nat) {
    c.code == code && c.confidence == confidence && c.rank == rank
  }

  /** From the evidence to code, confidence and rank, for China Telecom. */
  lemma TelecomReported(hops: seq<Evidence>)
    ensures var c := Classify("CT", hops);
            if Single(hops, "AS4809") then Reported(c, "ct_cn2_mixed", Mixed, 3)
            else if Several(hops, "AS4809") then
              if !Ahead(hops, "AS4809", "AS4134") then Reported(c, "ct_cn2_gt", Mixed, 3)
              else if Several(hops, "AS4134") then Reported(c, "ct_cn2_mixed", Mixed, 3)
              else Reported(c, "ct_cn2_gia", Confirmed, 5)
            else if !Absent(hops, "AS23764") then Reported(c, "ct_ctgnet", Confirmed, 4)
            else if Single(hops, "AS4134") then Reported(c, "ct_destination_only", Inconclusive, 0)
            else if Several(hops, "AS4134") then Reported(c, "ct_163", Confirmed, 2)
            else Reported(c, "ct_unknown", Inconclusive, 0)
  {
    TelecomExactly(hops);
    CarrierCodes();
    hide Telecom, NormalizeCarrier, Several, Absent, Ahead, CaptionOf, ReasonOf;
  }

  /** For China Unicom. */
  lemma UnicomReported(hops: seq<Evidence>)
    ensures var c := Classify("CU", hops);
            if !Absent(hops, "AS9929") then
              if Ahead(hops, "AS4837", "AS9929") then Reported(c, "cu_9929_mixed", Mixed, 3)
              else Reported(c, "cu_9929", Confirmed, 5)
            else if !Absent(hops, "AS10099") then Reported(c, "cu_cug", Confirmed, 3)
            else if Single(hops, "AS4837") then Reported(c, "cu_destination_only", Inconclusive, 0)
            else if Several(hops, "AS4837") then Reported(c, "cu_4837", Confirmed, 2)
            else Reported(c, "cu_unknown", Inconclusive, 0)
  {
    UnicomExactly(hops);
    CarrierCodes();
    hide Unicom, NormalizeCarrier, Several, Absent, Ahead, CaptionOf, ReasonOf;
  }

  /** For China Mobile. */
  lemma MobileReported(hops: seq<Evidence>)
    ensures var c := Classify("CM", hops);
            if !Absent(hops, "AS58807") then
              if Ahead(hops, "AS58453", "AS58807") then Reported(c, "cm_cmin2_mixed", Mixed, 3)
              else Reported(c, "cm_cmin2", Confirmed, 5)
            else if !Absent(hops, "AS58453") then Reported(c, "cm_cmi", Confirmed, 2)
            else if !Absent(hops, "AS9808") then Reported(c, "cm_cmnet", Confirmed, 2)
            else Reported(c, "cm_unknown", Inconclusive, 0)
  {
    MobileExactly(hops);
    CarrierCodes();
    hide Mobile, NormalizeCarrier, Several, Absent, Ahead, CaptionOf, ReasonOf;
  }

  /** The names under which each carrier is known. */
  lemma CarrierNames(value: string)
    ensures var v, c := ToUpper(TrimSpace(value)), NormalizeCarrier(value);
            && (c == "CT" <==> v in {"CT", "TELECOM", "电信"})
            && (c == "CU" <==> v in {"CU", "UNICOM", "联通"})
            && (c == "CM" <==> v in {"CM", "CMCC", "MOBILE", "移动"})
            && (c !in {"CT", "CU", "CM"} ==> c == v)
            && (c !in {"CT", "CU", "CM"} ==>
                  forall hops :: Reported(Classify(value, hops), "unknown_carrier", Inconclusive, 0))
  {
    hide ToUpper, TrimSpace, Telecom, Unicom, Mobile;
  }

  // ----- what the top ranks mean -----

  lemma TopCodes(v: Verdict)
    ensures CodeOf(v) == "ct_cn2_gia" <==> v == Cn2Gia
    ensures CodeOf(v) == "cu_9929" <==> v == Cu9929
    ensures CodeOf(v) == "cm_cmin2" <==> v == Cmin2
  {
    var c := CodeOf(v);
    assert v != Cn2Gia && |c| == 10 ==> c[1] != 't' || c[3] != 'c';
    assert v != Cu9929 && |c| == 7 ==> c[3] != '9';
    assert v != Cmin2 && |c| == 8 ==> c[5] != 'i';
  }

  /** CN2 GIA is confirmed exactly when two different hops show AS4809, at most
      one hop shows AS4134, and an AS4809 hop lies strictly before it. */
  lemma GiaExactly(hops: seq<Evidence>)
    ensures Classify("CT", hops).code == "ct_cn2_gia" <==>
            && (exists i, j :: i != j && ShowsAt(hops, i, "AS4809") && ShowsAt(hops, j, "AS4809"))
            && (forall i, j :: ShowsAt(hops, i, "AS4134") && ShowsAt(hops, j, "AS4134") ==> i == j)
            && (forall j :: ShowsAt(hops, j, "AS4134") ==> exists i :: i < j && ShowsAt(hops, i, "AS4809"))
  {
    TopCodes(VerdictOf("CT", hops));
    CarrierCodes();
    FirstMeaning(hops, "AS4809");
    FirstMeaning(hops, "AS4134");
    CountMeaning(hops, "AS4809");
    CountMeaning(hops, "AS4134");
    hide PositionOf, Shows, CodeOf, CaptionOf, ReasonOf, NormalizeCarrier;
    var cn2, ct163 := PositionOf(hops, "AS4809"), PositionOf(hops, "AS4134");
    if cn2.first >= 0 { assert ShowsAt(hops, cn2.first, "AS4809"); }
    if ct163.first >= 0 { assert ShowsAt(hops, ct163.first, "AS4134"); }
  }

  lemma CarrierCodes()
    ensures NormalizeCarrier("CT") == "CT" && NormalizeCarrier("CU") == "CU" && NormalizeCarrier("CM") == "CM"
  {
    assert ToUpper("CT") == "CT" && ToUpper("CU") == "CU" && ToUpper("CM") == "CM";
  }

  /** The other two top ranks: the premium ASN shows up, and the ordinary one
      never strictly before its first appearance. */
  lemma PremiumExactly(hops: seq<Evidence>, carrier: string)
    requires carrier == "CU" || carrier == "CM"
    ensures var (premium, plain, code) := if carrier == "CU" then ("AS9929", "AS4837", "cu_9929")
                                          else ("AS58807", "AS58453", "cm_cmin2");
            Classify(carrier, hops).code == code <==>
            && (exists i :: ShowsAt(hops, i, premium))
            && (forall j :: ShowsAt(hops, j, plain) ==> exists i :: i <= j && ShowsAt(hops, i, premium))
  {
    TopCodes(VerdictOf(carrier, hops));
    CarrierCodes();
    var premium, plain := if carrier == "CU" then "AS9929" else "AS58807", if carrier == "CU" then "AS4837" else "AS58453";
    FirstMeaning(hops, premium);
    FirstMeaning(hops, plain);
    hide PositionOf, Shows, CodeOf, CaptionOf, ReasonOf, NormalizeCarrier;
    var p, q := PositionOf(hops, premium), PositionOf(hops, plain);
    if p.first >= 0 { assert ShowsAt(hops, p.first, premium); }
    if q.first >= 0 { assert ShowsAt(hops, q.first, plain); }
  }

  predicate RankFits(c: Class) {
    (c.confidence == Inconclusive <==> c.rank == 0) && (c.rank >= 4 ==> c.confidence == Confirmed) && c.rank <= 5
  }

  /** Inconclusive results are the ones of rank 0, and from rank 4 on results are confirmed. */
  lemma RankMeaning(carrier: string, hops: seq<Evidence>)
    ensures RankFits(Classify(carrier, hops))
  {
    hide VerdictOf, CodeOf, CaptionOf, ReasonOf;
  }

  // ----- combining attempts -----

  predicate Conclusive(c: Class) {
    c.confidence != Inconclusive
  }

  function Known(values: seq<Class>): seq<Class> {
    Filter(values, v => Conclusive(v))
  }

  function Best(known: seq<Class>): (b: Class)
    requires known != []
    ensures b in known && forall k :: k in known ==> k.rank <= b.rank
  {
    if |known| == 1 then known[0]
    else
      var front, last := known[..|known|-1], known[|known|-1];
      assert known == front + [last];
      var b := Best(front);
      if last.rank > b.rank then last else b
  }

  function Codes(known: seq<Class>): set<string> {
    set k | k in known :: k.code
  }

  function DynamicMixed(carrier: string): Class {
    var c := NormalizeCarrier(carrier);
    var caption := if c == "CT" then "电信动态混合 [优质线路]" else if c == "CU" then "联通动态混合 [优质线路]"
                 else if c == "CM" then "移动动态混合 [优质线路]" else "动态混合线路";
    Class(ToLower(c) + "_dynamic_mixed", caption, Mixed, 3,
          "successful trace attempts observed conflicting backbone classes")
  }

  function Unclassified(carrier: string): Class {
    Unclear(ToLower(NormalizeCarrier(carrier)) + "_unknown", "线路证据不足", "no classified route evidence")
  }

  function Combine(carrier: string, values: seq<Class>): Class {
    var known := Known(values);
    if known == [] then
      if values != [] then values[0] else Unclassified(carrier)
    else if |Codes(known)| == 1 then Best(known)
    else DynamicMixed(carrier)
  }

  method KnownOf(values: seq<Class>) returns (known: seq<Class>)
    ensures known == Known(values)
  {
    known := [];
    for i := 0 to |values|
      invariant known == Known(values[..i])
    {
      FilterStep(values, i, v => Conclusive(v));
      if values[i].confidence != Inconclusive {
        known := known + [values[i]];
      }
    }
    assert values[..|values|] == values;
  }

  method BestOf(known: seq<Class>) returns (best: Class, distinct: set<string>)
    requires known != []
    ensures best == Best(known) && distinct == Codes(known)
  {
    best, distinct := known[0], {known[0].code};
    assert known[..1] == [known[0]];
    for i := 1 to |known|
      invariant best == Best(known[..i]) && distinct == Codes(known[..i])
    {
      hide Best, Codes;
      assert known[..i+1] == known[..i] + [known[i]];
      BestStep(known[..i], known[i]);
      distinct := distinct + {known[i].code};
      if known[i].rank > best.rank {
        best := known[i];
      }
    }
    assert known[..|known|] == known;
  }

  lemma BestStep(front: seq<Class>, k: Class)
    requires front != []
    ensures Best(front + [k]) == if k.rank > Best(front).rank then k else Best(front)
    ensures Codes(front + [k]) == Codes(front) + {k.code}
  {
    assert (front + [k])[..|front|] == front;
  }

  method CombineRouteClassifications(carrier: string, values: seq<Class>) returns (r: Class)
    ensures r == Combine(carrier, values)
  {
    hide Known, Unclassified, DynamicMixed, NormalizeCarrier, ToLower;
    var known := KnownOf(values);
    if |known| == 0 {
      if |values| > 0 {
        return values[0];
      }
      return Unclassified(carrier);
    }
    var best, distinct := BestOf(known);
    if |distinct| == 1 {
      return best;
    }
    return DynamicMixed(carrier);
  }

  lemma SameCode(known: seq<Class>, c: string)
    requires known != []
    ensures (forall k :: k in known ==> k.code == c) ==> Codes(known) == {c}
  {
    assert known[0] in known;
  }

  lemma OneCode(known: seq<Class>)
    requires known != []
    ensures |Codes(known)| == 1 <==> forall k, l :: k in known && l in known ==> k.code == l.code
  {
    var c := known[0].code;
    assert known[0] in known;
    if |Codes(known)| == 1 {
      assert |Codes(known) - {c}| == 0;
      forall k | k in known ensures k.code == c { assert k.code in Codes(known); }
    } else {
      SameCode(known, c);
    }
  }

  /** The combination has rank 4 or more exactly when some conclusive value has,
      and all conclusive values agree on the code; the result then has that code. */
  lemma HighRankExactly(carrier: string, values: seq<Class>)
    requires forall v :: v in values && !Conclusive(v) ==> v.rank == 0
    ensures var r := Combine(carrier, values);
            && (r.rank >= 4 <==>
                 && (exists v :: v in values && Conclusive(v) && v.rank >= 4)
                 && (forall v, u :: v in values && u in values && Conclusive(v) && Conclusive(u) ==> v.code == u.code))
            && (r.rank >= 4 ==> forall v :: v in values && Conclusive(v) ==> v.code == r.code)
  {
    var known := Known(values);
    FilterMembers(values, v => Conclusive(v));
    if known == [] {
      forall v | v in values ensures !Conclusive(v) { assert v !in known; }
      FirstIsMember(values);
    } else {
      OneCode(known);
      FirstIsMember(known);
    }
  }

  /** The first conclusive value none of the conclusive ones outranks. */
  ghost predicate FirstBest(values: seq<Class>, i: nat) {
    && i < |values| && Conclusive(values[i])
    && (forall j :: 0 <= j < |values| && Conclusive(values[j]) ==> values[j].rank <= values[i].rank)
    && forall j :: 0 <= j < i && Conclusive(values[j]) ==> values[j].rank < values[i].rank
  }

  lemma FirstBestStep(front: seq<Class>, last: Class, i: nat)
    requires FirstBest(front, i)
    ensures var wins := Conclusive(last) && last.rank > front[i].rank;
            FirstBest(front + [last], if wins then |front| else i)
  {
    var values := front + [last];
    assert forall j :: 0 <= j < |front| ==> values[j] == front[j];
  }

  lemma FirstBestStart(front: seq<Class>, last: Class)
    requires Known(front) == [] && Conclusive(last)
    ensures FirstBest(front + [last], |front|)
  {
    FilterMembers(front, v => Conclusive(v));
    assert forall j :: 0 <= j < |front| ==> front[j] in front;
  }

  lemma {:induction false} BestIsFirst(values: seq<Class>) returns (i: nat)
    requires Known(values) != []
    ensures FirstBest(values, i) && Best(Known(values)) == values[i]
  {
    var front, last := values[..|values|-1], values[|values|-1];
    assert Known(values) == Known(front) + (if Conclusive(last) then [last] else []);
    assert values == front + [last];
    i := |front|;
    hide Known, Best, FirstBest;
    if Known(front) == [] {
      FirstBestStart(front, last);
      assert Best([last]) == last by { BestOfOne(last); }
    } else {
      var k := BestIsFirst(front);
      FirstBestStep(front, last, k);
      assert k < |front| by { FirstBestIndex(front, k); }
      BestStep(Known(front), last);
      if !(Conclusive(last) && last.rank > front[k].rank) { i := k; }
    }
  }

  lemma FirstBestIndex(values: seq<Class>, i: nat)
    requires FirstBest(values, i)
    ensures i < |values|
  {
  }

  lemma BestOfOne(c: Class)
    ensures Best([c]) == c
  {
  }

  ghost predicate SomeConclusive(values: seq<Class>) {
    exists v :: v in values && Conclusive(v)
  }

  ghost predicate Agree(values: seq<Class>) {
    forall v, u :: v in values && u in values && Conclusive(v) && Conclusive(u) ==> v.code == u.code
  }

  lemma KnownAgree(values: seq<Class>)
    ensures Known(values) != [] <==> SomeConclusive(values)
    ensures Known(values) != [] ==> (|Codes(Known(values))| == 1 <==> Agree(values))
  {
    var known := Known(values);
    FilterMembers(values, v => Conclusive(v));
    FirstIsMember(known);
    hide Codes;
    if known != [] {
      OneCode(known);
    }
  }

  /**
   * What a combination reports. Without a conclusive value: the first value, or an unknown route when there is none.
   * With conclusive values of one code: the first of those with the highest rank. With different codes: a mixed route
   * of rank 3.
   */
  lemma CombineExactly(carrier: string, values: seq<Class>)
    ensures var r, name := Combine(carrier, values), ToLower(NormalizeCarrier(carrier));
            if values == [] then Reported(r, name + "_unknown", Inconclusive, 0)
            else if !SomeConclusive(values) then r == values[0]
            else if Agree(values) then exists i: nat :: FirstBest(values, i) && r == values[i]
            else Reported(r, name + "_dynamic_mixed", Mixed, 3)
  {
    KnownAgree(values);
    hide ToLower, NormalizeCarrier, Known, Codes, Best, SomeConclusive, Agree, FirstBest;
    if Known(values) != [] {
      var i := BestIsFirst(values);
      FirstBestIndex(values, i);
    } else if values == [] {
      NothingConclusive();
    }
  }

  lemma NothingConclusive()
    ensures !SomeConclusive([])
  {
  }

  /** Values that all agree combine to that value. */
  lemma CombineOfEqual(carrier: string, values: seq<Class>, c: Class)
    requires values != [] && forall v :: v in values ==> v == c
    ensures Combine(carrier, values) == c
  {
    var known := Known(values);
    FilterMembers(values, v => Conclusive(v));
    FirstIsMember(values);
    if known != [] {
      OneCode(known);
    }
  }
}
