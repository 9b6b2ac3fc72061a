/** The per-image quality rule of the analysis script: three fixed
    quality limits on brightness and contrast, the ordered list of
    failure reasons they trigger, and the PASS/FAIL verdict with its
    semicolon-joined reason string. */
module Classifier {

  import opened Options

  const BrightnessMin: real := 60.0
  const BrightnessMax: real := 200.0
  const ContrastMin: real := 20.0

  datatype Reason = TooDark | TooBright | LowContrast

  /** The reason's name as written into the `Fail_Reasons` column. */
  function Tag(r: Reason): string
  {
    match r
    case TooDark => "too_dark"
    case TooBright => "too_bright"
    case LowContrast => "low_contrast"
  }

  /** Position of a rule in the fixed evaluation order. */
  function Rank(r: Reason): nat
  {
    match r
    case TooDark => 0
    case TooBright => 1
    case LowContrast => 2
  }

  function TagToReason(t: string): (r: Option<Reason>)
    ensures forall x :: r == Some(x) <==> Tag(x) == t
  {
    if t == "too_dark" then Some(TooDark)
    else if t == "too_bright" then Some(TooBright)
    else if t == "low_contrast" then Some(LowContrast)
    else None
  }

  datatype Status = Pass | Fail

  /** The value written into the `Status` column. */
  function StatusText(s: Status): string
  {
    match s
    case Pass => "PASS"
    case Fail => "FAIL"
  }

  /** The reasons a row triggers, in rule order. Each rule is a strict
      comparison, so a value on a limit passes that rule. */
  function Reasons(brightness: real, contrast: real): (rs: seq<Reason>)
    ensures TooDark in rs <==> brightness < BrightnessMin
    ensures TooBright in rs <==> brightness > BrightnessMax
    ensures LowContrast in rs <==> contrast < ContrastMin
    ensures forall i, j :: 0 <= i < j < |rs| ==> Rank(rs[i]) < Rank(rs[j])
  {
    (if brightness < BrightnessMin then [TooDark] else [])
    + (if brightness > BrightnessMax then [TooBright] else [])
    + (if contrast < ContrastMin then [LowContrast] else [])
  }

  function Tags(rs: seq<Reason>): (ts: seq<string>)
    ensures |ts| == |rs|
    ensures forall i :: 0 <= i < |rs| ==> ts[i] == Tag(rs[i])
  {
    seq(|rs|, i requires 0 <= i < |rs| => Tag(rs[i]))
  }

  /** Python's `";".join(parts)`. */
  function Join(parts: seq<string>): (s: string)
    ensures s == "" <==> |parts| == 0 || parts == [""]
    ensures |parts| > 0 ==> |s| >= |parts| - 1
  {
    if |parts| == 0 then ""
    else if |parts| == 1 then parts[0]
    else parts[0] + ";" + Join(parts[1..])
  }

  /** Python's `s.split(";")`: the pieces between separators, so the empty
      string splits into one empty piece. */
  function Split(s: string): (parts: seq<string>)
    ensures |parts| >= 1
  {
    if |s| == 0 then [""]
    else
      var t := Split(s[1..]);
      if s[0] == ';' then [""] + t else [[s[0]] + t[0]] + t[1..]
  }

  /** Reads a `Fail_Reasons` cell back into reasons; the empty cell of a
      passing row means no reason at all. */
  function ParseReasons(s: string): Option<seq<Reason>>
  {
    if s == "" then Some([]) else ParseTags(Split(s))
  }

  function ParseTags(ts: seq<string>): Option<seq<Reason>>
  {
    if |ts| == 0 then Some([])
    else
      match (TagToReason(ts[0]), ParseTags(ts[1..]))
      case (Some(r), Some(rest)) => Some([r] + rest)
      case _ => None
  }

  lemma {:induction false} SplitWithoutSeparator(x: string)
    requires ';' !in x
    ensures Split(x) == [x]
  {
    if |x| > 0 {
      SplitWithoutSeparator(x[1..]);
      assert x == [x[0]] + x[1..];
    }
  }

  lemma {:induction false} SplitAfterFirst(x: string, rest: string)
    requires ';' !in x
    ensures Split(x + ";" + rest) == [x] + Split(rest)
  {
    var s := x + ";" + rest;
    if |x| == 0 {
      assert s[1..] == rest;
    } else {
      assert s[1..] == x[1..] + ";" + rest;
      SplitAfterFirst(x[1..], rest);
      assert x == [x[0]] + x[1..];
    }
  }

  /** Splitting undoes joining when no piece contains the separator. */
  lemma {:induction false} SplitJoin(parts: seq<string>)
    requires |parts| > 0
    requires forall i :: 0 <= i < |parts| ==> ';' !in parts[i]
    ensures Split(Join(parts)) == parts
  {
    if |parts| == 1 {
      SplitWithoutSeparator(parts[0]);
    } else {
      SplitJoin(parts[1..]);
      SplitAfterFirst(parts[0], Join(parts[1..]));
      assert parts == [parts[0]] + parts[1..];
    }
  }

  lemma {:induction false} ParseTagsOfTags(rs: seq<Reason>)
    ensures ParseTags(Tags(rs)) == Some(rs)
  {
    if |rs| > 0 {
      ParseTagsOfTags(rs[1..]);
      assert Tags(rs)[1..] == Tags(rs[1..]);
      assert rs == [rs[0]] + rs[1..];
    }
  }

  /** The joined reason string is empty exactly when there is no reason. */
  lemma JoinTagsEmpty(rs: seq<Reason>)
    ensures Join(Tags(rs)) == "" <==> |rs| == 0
  {
    if |rs| > 0 {
      var ts := Tags(rs);
      assert |ts| == 1 || Join(ts) == ts[0] + ";" + Join(ts[1..]);
      assert |Join(ts)| > 0;
    }
  }

  /** A `Fail_Reasons` cell can always be read back into the reasons it was
      written from. */
  lemma ReasonsRoundTrip(rs: seq<Reason>)
    ensures ParseReasons(Join(Tags(rs))) == Some(rs)
  {
    JoinTagsEmpty(rs);
    if |rs| > 0 {
      var ts := Tags(rs);
      forall i | 0 <= i < |ts|
        ensures ';' !in ts[i]
      {
        match rs[i]
        case TooDark => assert ts[i] == "too_dark";
        case TooBright => assert ts[i] == "too_bright";
        case LowContrast => assert ts[i] == "low_contrast";
      }
      SplitJoin(ts);
      ParseTagsOfTags(rs);
    }
  }

  datatype Verdict = Verdict(status: Status, failReasons: string)

  /** `classify_row`: FAIL exactly when some limit is violated, with the
      violated rules' names joined by semicolons; PASS with an empty reason
      string otherwise. */
  function ClassifyRow(brightness: real, contrast: real): (v: Verdict)
    ensures v.status == Fail <==>
              brightness < BrightnessMin || brightness > BrightnessMax || contrast < ContrastMin
    ensures v.status == Fail <==> v.failReasons != ""
    ensures ParseReasons(v.failReasons) == Some(Reasons(brightness, contrast))
  {
    var rs := Reasons(brightness, contrast);
    JoinTagsEmpty(rs);
    ReasonsRoundTrip(rs);
    if |rs| > 0 then Verdict(Fail, Join(Tags(rs))) else Verdict(Pass, "")
  }

  /** Values on a limit pass that limit's rule. */
  lemma LimitsAreInclusive(brightness: real, contrast: real)
    ensures TooDark !in Reasons(BrightnessMin, contrast)
    ensures TooBright !in Reasons(BrightnessMax, contrast)
    ensures LowContrast !in Reasons(brightness, ContrastMin)
    ensures ClassifyRow(BrightnessMin, ContrastMin).status == Pass
    ensures ClassifyRow(BrightnessMax, ContrastMin).status == Pass
  {
  }

  /** Too dark and too bright exclude each other, because the lower
      brightness limit is below the upper one. */
  lemma DarkAndBrightExclusive(brightness: real, contrast: real)
    ensures !(TooDark in Reasons(brightness, contrast) && TooBright in Reasons(brightness, contrast))
  {
  }

  /** The verdict in terms of the triggered reasons. */
  lemma VerdictOfReasons(brightness: real, contrast: real)
    ensures var rs := Reasons(brightness, contrast);
            ClassifyRow(brightness, contrast)
            == if |rs| > 0 then Verdict(Fail, Join(Tags(rs))) else Verdict(Pass, "")
  {
  }

  /** Brightness 30 and contrast 10 fail as too dark, then low contrast. */
  lemma DarkFlatExample()
    ensures ClassifyRow(30.0, 10.0) == Verdict(Fail, "too_dark;low_contrast")
  {
    var rs := Reasons(30.0, 10.0);
    assert rs == [TooDark, LowContrast];
    var ts := Tags(rs);
    assert ts == ["too_dark", "low_contrast"];
    assert ts[1..] == ["low_contrast"];
    assert Join(ts) == "too_dark;low_contrast";
    VerdictOfReasons(30.0, 10.0);
  }
}
