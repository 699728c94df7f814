/**
 * mtrfix.py: the fping statistics parser `collect_xmt_rcv` as a hand-written
 * scanner, and the per-host loop of its `run_ping`.
 *
 * The first pattern is
 *   xmt/rcv/%loss = [0-9]\d*\/[0-9]\d*\/(\d|[0-9]\d|100)(\.\d{1,2})?%
 * searched for leftmost; the second, `([0-9]\d*)/([0-9]\d*)`, is searched
 * inside the text the first one matched.  `\d` is taken to be an ASCII digit.
 */
module MtrFix {
  import opened Outcomes
  import opened Text
  import CheckIp

  // ---------------------------------------------------------------------------
  // Character classes

  /** The literal head of the first pattern; it holds no digit. */
  const Label: string := "xmt/rcv/%loss = "

  predicate IsDigit(c: char)
  {
    '0' <= c <= '9'
  }

  predicate Digits(t: string)
  {
    forall k :: 0 <= k < |t| ==> IsDigit(t[k])
  }

  /** The length of the run of digits that starts at `i`. */
  function DigitRun(s: string, i: nat): (n: nat)
    requires i <= |s|
    ensures i + n <= |s|
    decreases |s| - i
  {
    if i < |s| && IsDigit(s[i]) then 1 + DigitRun(s, i + 1) else 0
  }

  /** `DigitRun` is the longest run: all of it digits, and the next character, if any, not one. */
  lemma {:induction false} DigitRunSpec(s: string, i: nat)
    requires i <= |s|
    ensures var n := DigitRun(s, i);
      && (forall k :: i <= k < i + n ==> IsDigit(s[k]))
      && (i + n < |s| ==> !IsDigit(s[i + n]))
    decreases |s| - i
  {
    if i < |s| && IsDigit(s[i]) {
      DigitRunSpec(s, i + 1);
    }
  }

  /** A digit string followed by `/` starting at `i` has the whole string as its run. */
  lemma DigitRunOfField(s: string, i: nat, t: string)
    requires i + |t| < |s| && s[i..i + |t|] == t && Digits(t) && s[i + |t|] == '/'
    ensures DigitRun(s, i) == |t|
  {
    DigitRunSpec(s, i);
  }

  // ---------------------------------------------------------------------------
  // The first pattern

  /**
   * `[0-9]\d*\/` at `i`: the position of the `/`.  Giving back digits of the
   * greedy run cannot help, since the character after a shorter run is a
   * digit and not a `/`.
   */
  function NumberSlash(s: string, i: nat): (r: Option<nat>)
    requires i <= |s|
    ensures r.Some? ==> i < r.value < |s| && s[r.value] == '/' && Digits(s[i..r.value])
  {
    var n := DigitRun(s, i);
    DigitRunSpec(s, i);
    FieldDigits(s, i, i + n);
    if n >= 1 && i + n < |s| && s[i + n] == '/' then Some(i + n) else None
  }

  /** Over a digit string followed by `/`, the digit-and-slash step ends at that `/`. */
  lemma NumberSlashComplete(s: string, i: nat, x: nat)
    requires i < x < |s| && s[x] == '/' && Digits(s[i..x])
    ensures NumberSlash(s, i) == Some(x)
  {
    DigitRunOfField(s, i, s[i..x]);
  }

  /** `(\.\d{1,2})?%` at `q`, trying two fraction digits, then one, then none: the end of the match. */
  function TailEnd(s: string, q: nat): (r: Option<nat>)
    requires q <= |s|
    ensures r.Some? ==> q < r.value <= |s|
  {
    if q + 3 < |s| && s[q] == '.' && IsDigit(s[q + 1]) && IsDigit(s[q + 2]) && s[q + 3] == '%' then Some(q + 4)
    else if q + 2 < |s| && s[q] == '.' && IsDigit(s[q + 1]) && s[q + 2] == '%' then Some(q + 3)
    else if q < |s| && s[q] == '%' then Some(q + 1)
    else None
  }

  /** `(\d|[0-9]\d|100)(\.\d{1,2})?%` at `p`, the alternatives tried in order: the end of the match. */
  function LossEnd(s: string, p: nat): (r: Option<nat>)
    requires p <= |s|
    ensures r.Some? ==> p < r.value <= |s|
  {
    if p < |s| && IsDigit(s[p]) && TailEnd(s, p + 1).Some? then TailEnd(s, p + 1)
    else if p + 1 < |s| && IsDigit(s[p]) && IsDigit(s[p + 1]) && TailEnd(s, p + 2).Some? then TailEnd(s, p + 2)
    else if p + 2 < |s| && s[p..p + 3] == "100" && TailEnd(s, p + 3).Some? then TailEnd(s, p + 3)
    else None
  }

  /** The two fields `collect_xmt_rcv` returns, as the strings that were matched. */
  datatype XmtRcv = XmtRcv(xmt: string, rcv: string)

  /** A match of the first pattern: the fields it spans and where the matched text ends. */
  datatype StatsMatch = StatsMatch(fields: XmtRcv, end: nat)

  /** The first pattern anchored at `i`. */
  function MatchAt(s: string, i: nat): (r: Option<StatsMatch>)
    requires i <= |s|
    ensures r.Some? ==> i + |Label| < r.value.end <= |s|
  {
    if !OccursAt(s, Label, i) then None
    else
      var a := i + |Label|;
      match NumberSlash(s, a)
      case None => None
      case Some(x) =>
        match NumberSlash(s, x + 1)
        case None => None
        case Some(r) =>
          match LossEnd(s, r + 1)
          case None => None
          case Some(e) => Some(StatsMatch(XmtRcv(s[a..x], s[x + 1..r]), e))
  }

  /** `re.search` with the first pattern from position `i` on: the leftmost start and its match. */
  function SearchStats(s: string, i: nat): (r: Option<(nat, StatsMatch)>)
    requires i <= |s|
    ensures r.Some? ==> i <= r.value.0 <= |s| && MatchAt(s, r.value.0) == Some(r.value.1)
    decreases |s| - i
  {
    match MatchAt(s, i)
    case Some(m) => Some((i, m))
    case None => if i == |s| then None else SearchStats(s, i + 1)
  }

  /** The search finds the leftmost start of a match, and fails only when no position starts one. */
  lemma {:induction false} SearchStatsLeftmost(s: string, i: nat)
    requires i <= |s|
    ensures var r := SearchStats(s, i);
      && (r.Some? ==> forall j :: i <= j < r.value.0 ==> MatchAt(s, j).None?)
      && (r.None? ==> forall j :: i <= j <= |s| ==> MatchAt(s, j).None?)
    decreases |s| - i
  {
    if MatchAt(s, i).None? && i < |s| {
      var r := SearchStats(s, i + 1);
      assert SearchStats(s, i) == r;
      SearchStatsLeftmost(s, i + 1);
      if r.Some? {
        forall j | i <= j < r.value.0
          ensures MatchAt(s, j).None?
        {
          if j > i {
            assert i + 1 <= j < r.value.0;
          }
        }
      } else {
        forall j | i <= j <= |s|
          ensures MatchAt(s, j).None?
        {
          if j > i {
            assert i + 1 <= j <= |s|;
          }
        }
      }
    }
  }

  // ---------------------------------------------------------------------------
  // The second pattern

  /** `([0-9]\d*)/([0-9]\d*)` anchored at `j`: both groups are greedy digit runs. */
  function MatchPairAt(t: string, j: nat): (r: Option<XmtRcv>)
    requires j <= |t|
  {
    match NumberSlash(t, j)
    case None => None
    case Some(x) =>
      var n := DigitRun(t, x + 1);
      if n >= 1 then Some(XmtRcv(t[j..x], t[x + 1..x + 1 + n])) else None
  }

  /** `re.search` with the second pattern from position `j` on. */
  function SearchPair(t: string, j: nat): (r: Option<XmtRcv>)
    requires j <= |t|
    ensures r.Some? ==> exists k :: j <= k <= |t| && MatchPairAt(t, k) == r
    decreases |t| - j
  {
    match MatchPairAt(t, j)
    case Some(v) => Some(v)
    case None => if j == |t| then None else SearchPair(t, j + 1)
  }

  /** `.group()` on the `None` of a failed search raises AttributeError, and `raise str(e)` turns it into a TypeError. */
  datatype CollectError = TypeError

  /** `collect_xmt_rcv`: search the first pattern, then the second inside the text it matched. */
  function CollectXmtRcv(data: string): (r: Result<XmtRcv, CollectError>)
    ensures r.Ok? <==> SearchStats(data, 0).Some?
    ensures r.Ok? ==> r.value == SearchStats(data, 0).value.1.fields
  {
    match SearchStats(data, 0)
    case None => Err(TypeError)
    case Some((i, m)) =>
      SecondSearchAgrees(data, i, m);
      match SearchPair(data[i..m.end], 0)
      case None => Err(TypeError)
      case Some(v) => Ok(v)
  }

  // ---------------------------------------------------------------------------
  // What the first pattern accepts, stated without the scanner

  /** `\d`, `[0-9]\d` or `100`. */
  predicate IntPart(t: string)
  {
    || (|t| == 1 && IsDigit(t[0]))
    || (|t| == 2 && IsDigit(t[0]) && IsDigit(t[1]))
    || t == "100"
  }

  /** Nothing, or a point and one or two digits. */
  predicate FracPart(t: string)
  {
    t == [] || (2 <= |t| <= 3 && t[0] == '.' && forall k :: 1 <= k < |t| ==> IsDigit(t[k]))
  }

  /** A loss field the pattern accepts: an integer part, an optional fraction, and `%`. */
  ghost predicate LossText(t: string)
  {
    |t| >= 2 && t[|t| - 1] == '%' && exists k :: 1 <= k < |t| && IntPart(t[..k]) && FracPart(t[k..|t| - 1])
  }

  /**
   * At `i` the text holds the label, a digit string and `/`, another digit
   * string and `/`, and then a loss field.
   */
  ghost predicate StatsAt(s: string, i: nat, v: XmtRcv)
  {
    HeadAt(s, i, v) && exists e :: LossAt(s, LossStart(i, v), e)
  }

  /** At `i` the text holds the label and the two digit strings, each followed by `/`. */
  predicate HeadAt(s: string, i: nat, v: XmtRcv)
  {
    var a := i + |Label|;
    var x := a + |v.xmt|;
    var r := x + 1 + |v.rcv|;
    && |v.xmt| >= 1 && |v.rcv| >= 1 && Digits(v.xmt) && Digits(v.rcv)
    && OccursAt(s, Label, i) && r < |s|
    && s[a..x] == v.xmt && s[x] == '/' && s[x + 1..r] == v.rcv && s[r] == '/'
  }

  /** Where the loss field of a statistics field at `i` starts. */
  function LossStart(i: nat, v: XmtRcv): nat
  {
    i + |Label| + |v.xmt| + |v.rcv| + 2
  }

  /** `s[p..e]` is a loss field. */
  ghost predicate LossAt(s: string, p: nat, e: nat)
  {
    p < e <= |s| && LossText(s[p..e])
  }

  ghost predicate HasStatsAt(s: string, i: nat)
  {
    exists v :: StatsAt(s, i, v)
  }

  // ---------------------------------------------------------------------------
  // The scanner against the reference

  /** The optional fraction and the `%` are found exactly where they are. */
  lemma TailEndIff(s: string, q: nat, e: nat)
    requires q <= |s|
    ensures TailEnd(s, q) == Some(e) <==> q < e <= |s| && s[e - 1] == '%' && FracPart(s[q..e - 1])
  {
    if q < e <= |s| && s[e - 1] == '%' && FracPart(s[q..e - 1]) {
      var f := s[q..e - 1];
      if |f| == 2 {
        assert s[q] == f[0] && s[q + 1] == f[1];
      } else if |f| == 3 {
        assert s[q] == f[0] && s[q + 1] == f[1] && s[q + 2] == f[2];
      }
    }
  }

  /** Neither a tail nor a loss field holds a `%` before its last character. */
  lemma TailHasOnePercent(s: string, q: nat)
    requires q <= |s| && TailEnd(s, q).Some?
    ensures forall j :: q <= j < TailEnd(s, q).value - 1 ==> s[j] != '%'
  {
  }

  lemma LossTextHasOnePercent(t: string)
    requires LossText(t)
    ensures forall j :: 0 <= j < |t| - 1 ==> t[j] != '%'
  {
    var k :| 1 <= k < |t| && IntPart(t[..k]) && FracPart(t[k..|t| - 1]);
    forall j | 0 <= j < |t| - 1
      ensures t[j] != '%'
    {
      if j < k {
        assert t[j] == t[..k][j];
      } else {
        assert t[j] == t[k..|t| - 1][j - k];
      }
    }
  }

  lemma LossFieldPercent(s: string, p: nat, e: nat)
    requires p < e <= |s| && LossText(s[p..e])
    ensures s[e - 1] == '%' && forall j :: p <= j < e - 1 ==> s[j] != '%'
  {
    var t := s[p..e];
    LossTextHasOnePercent(t);
    forall j | p <= j < e - 1
      ensures s[j] != '%'
    {
      assert s[j] == t[j - p];
    }
  }

  lemma LossEndSound(s: string, p: nat)
    requires p <= |s| && LossEnd(s, p).Some?
    ensures LossText(s[p..LossEnd(s, p).value])
  {
    var e := LossEnd(s, p).value;
    var t := s[p..e];
    var k: nat := if p < |s| && IsDigit(s[p]) && TailEnd(s, p + 1).Some? then 1
      else if p + 1 < |s| && IsDigit(s[p]) && IsDigit(s[p + 1]) && TailEnd(s, p + 2).Some? then 2
      else 3;
    assert TailEnd(s, p + k) == Some(e);
    TailEndIff(s, p + k, e);
    SliceOfSlice(s, p, e, 0, k);
    SliceOfSlice(s, p, e, k, |t| - 1);
    assert IntPart(t[..k]);
  }

  lemma LossEndDefined(s: string, p: nat, e: nat)
    requires p < e <= |s| && LossText(s[p..e])
    ensures LossEnd(s, p).Some?
  {
    var k := LossTextSplit(s, p, e);
    TailEndIff(s, p + k, e);
    var n := s[p..p + k];
    if k == 1 {
      assert n[0] == s[p];
      assert TailEnd(s, p + 1).Some?;
    } else if k == 2 {
      assert n[0] == s[p] && n[1] == s[p + 1];
      assert TailEnd(s, p + 2).Some?;
    } else {
      assert TailEnd(s, p + 3).Some?;
    }
  }

  /** A loss field in place: its integer part, its fraction and its `%`, as slices of the text. */
  lemma LossTextSplit(s: string, p: nat, e: nat) returns (k: nat)
    requires p < e <= |s| && LossText(s[p..e])
    ensures 1 <= k && p + k < e && s[e - 1] == '%'
    ensures IntPart(s[p..p + k]) && FracPart(s[p + k..e - 1])
  {
    var t := s[p..e];
    k :| 1 <= k < |t| && IntPart(t[..k]) && FracPart(t[k..|t| - 1]);
    SliceOfSlice(s, p, e, k, |t| - 1);
    SliceOfSlice(s, p, e, 0, k);
  }

  lemma LossEndComplete(s: string, p: nat, e: nat)
    requires p < e <= |s| && LossText(s[p..e])
    ensures LossEnd(s, p) == Some(e)
  {
    LossEndDefined(s, p, e);
    var e' := LossEnd(s, p).value;
    LossEndSound(s, p);
    LossFieldPercent(s, p, e);
    LossFieldPercent(s, p, e');
    assert s[e - 1] == '%' && s[e' - 1] == '%';
  }

  /** The loss field matched at `p` ends at `e` exactly when `s[p..e]` is a loss field. */
  lemma LossEndIff(s: string, p: nat, e: nat)
    requires p <= |s|
    ensures LossEnd(s, p) == Some(e) <==> p < e <= |s| && LossText(s[p..e])
  {
    if LossEnd(s, p) == Some(e) {
      LossEndSound(s, p);
    }
    if p < e <= |s| && LossText(s[p..e]) {
      LossEndComplete(s, p, e);
    }
  }

  /** The text the label, the two fields and their slashes occupy. */
  function StatsHead(v: XmtRcv): string
  {
    Label + v.xmt + "/" + v.rcv + "/"
  }

  /** A concatenation occurs where its first part does and its second part follows. */
  lemma OccursConcat(s: string, i: nat, p: string, q: string)
    ensures OccursAt(s, p + q, i) <==> OccursAt(s, p, i) && OccursAt(s, q, i + |p|)
  {
    if OccursAt(s, p + q, i) {
      SliceOfSlice(s, i, i + |p + q|, 0, |p|);
      SliceOfSlice(s, i, i + |p + q|, |p|, |p + q|);
      assert (p + q)[..|p|] == p && (p + q)[|p|..] == q;
    }
    if OccursAt(s, p, i) && OccursAt(s, q, i + |p|) {
      assert s[i..i + |p + q|] == s[i..i + |p|] + s[i + |p|..i + |p| + |q|];
    }
  }

  /** The head of a statistics field, piece by piece. */
  lemma StatsHeadAt(s: string, i: nat, v: XmtRcv)
    ensures var a := i + |Label|;
      var x := a + |v.xmt|;
      var r := x + 1 + |v.rcv|;
      OccursAt(s, StatsHead(v), i) <==>
        && OccursAt(s, Label, i) && r < |s| && s[a..x] == v.xmt && s[x] == '/' && s[x + 1..r] == v.rcv && s[r] == '/'
  {
    var a := i + |Label|;
    var x := a + |v.xmt|;
    var r := x + 1 + |v.rcv|;
    OccursConcat(s, i, Label + v.xmt + "/" + v.rcv, "/");
    OccursConcat(s, i, Label + v.xmt + "/", v.rcv);
    OccursConcat(s, i, Label + v.xmt, "/");
    OccursConcat(s, i, Label, v.xmt);
  }

  /** A digit string as a field: all digits, and its characters in place. */
  lemma FieldDigits(s: string, a: nat, x: nat)
    requires a <= x <= |s| && forall k :: a <= k < x ==> IsDigit(s[k])
    ensures Digits(s[a..x])
  {
    forall k | 0 <= k < x - a
      ensures IsDigit(s[a..x][k])
    {
      assert s[a..x][k] == s[a + k];
    }
  }

  /** Where the first pattern matches, the text is a statistics field, and the match runs into its loss field. */
  lemma MatchAtSound(s: string, i: nat)
    requires i <= |s| && MatchAt(s, i).Some?
    ensures StatsAt(s, i, MatchAt(s, i).value.fields)
    ensures LossStart(i, MatchAt(s, i).value.fields) < MatchAt(s, i).value.end
  {
    var a := i + |Label|;
    MatchAtParts(s, i);
    var x := NumberSlash(s, a).value;
    var r := NumberSlash(s, x + 1).value;
    MatchAtSteps(s, i, x, r, MatchAt(s, i).value.end);
    StepsSound(s, i, x, r, MatchAt(s, i).value.end);
  }

  /** The three steps of `MatchAt` succeed only over a statistics field. */
  lemma StepsSound(s: string, i: nat, x: nat, r: nat, e: nat)
    requires i + |Label| <= |s| && OccursAt(s, Label, i)
    requires NumberSlash(s, i + |Label|) == Some(x) && NumberSlash(s, x + 1) == Some(r) && LossEnd(s, r + 1) == Some(e)
    ensures StatsAt(s, i, XmtRcv(s[i + |Label|..x], s[x + 1..r]))
    ensures LossText(s[r + 1..e])
  {
    var v := XmtRcv(s[i + |Label|..x], s[x + 1..r]);
    SlashStepDigits(s, i + |Label|);
    SlashStepDigits(s, x + 1);
    assert HeadAt(s, i, v);
    LossEndSound(s, r + 1);
    assert LossAt(s, LossStart(i, v), e);
  }

  /** A successful digit-and-slash step at `a` covers a non-empty digit string followed by `/`. */
  lemma SlashStepDigits(s: string, a: nat)
    requires a <= |s| && NumberSlash(s, a).Some?
    ensures var x := NumberSlash(s, a).value;
      a < x && s[x] == '/' && Digits(s[a..x])
  {
    DigitRunSpec(s, a);
    FieldDigits(s, a, NumberSlash(s, a).value);
  }

  /** Over a statistics field the first pattern matches, with its two fields. */
  lemma MatchAtComplete(s: string, i: nat, v: XmtRcv)
    requires i <= |s| && StatsAt(s, i, v)
    ensures MatchAt(s, i).Some? && MatchAt(s, i).value.fields == v
  {
    var x := i + |Label| + |v.xmt|;
    var r := x + 1 + |v.rcv|;
    var e := StepsComplete(s, i, v);
    MatchAtSteps(s, i, x, r, e);
  }

  /** Over a statistics field the three steps of `MatchAt` succeed, ending at its slashes and past its loss field. */
  lemma StepsComplete(s: string, i: nat, v: XmtRcv) returns (e: nat)
    requires StatsAt(s, i, v)
    ensures var x := i + |Label| + |v.xmt|;
      var r := x + 1 + |v.rcv|;
      && i + |Label| <= |s| && OccursAt(s, Label, i)
      && NumberSlash(s, i + |Label|) == Some(x) && NumberSlash(s, x + 1) == Some(r) && LossEnd(s, r + 1) == Some(e)
      && XmtRcv(s[i + |Label|..x], s[x + 1..r]) == v
  {
    var x := i + |Label| + |v.xmt|;
    var r := x + 1 + |v.rcv|;
    HeadSlashes(s, i, v);
    e :| LossAt(s, LossStart(i, v), e);
    LossEndComplete(s, r + 1, e);
  }

  /** Over the head of a statistics field, the two digit-and-slash steps end at its two slashes. */
  lemma HeadSlashes(s: string, i: nat, v: XmtRcv)
    requires HeadAt(s, i, v)
    ensures var x := i + |Label| + |v.xmt|;
      NumberSlash(s, i + |Label|) == Some(x) && NumberSlash(s, x + 1) == Some(x + 1 + |v.rcv|)
  {
    var x := i + |Label| + |v.xmt|;
    DigitRunOfField(s, i + |Label|, v.xmt);
    DigitRunOfField(s, x + 1, v.rcv);
  }

  /** `MatchAt` from the results of its three steps. */
  lemma MatchAtSteps(s: string, i: nat, x: nat, r: nat, e: nat)
    requires i + |Label| <= |s| && OccursAt(s, Label, i)
    requires NumberSlash(s, i + |Label|) == Some(x) && NumberSlash(s, x + 1) == Some(r) && LossEnd(s, r + 1) == Some(e)
    ensures MatchAt(s, i) == Some(StatsMatch(XmtRcv(s[i + |Label|..x], s[x + 1..r]), e))
  {
  }

  /** `MatchAt` succeeds only through its three steps. */
  lemma MatchAtParts(s: string, i: nat)
    requires i <= |s| && MatchAt(s, i).Some?
    ensures var a := i + |Label|;
      && OccursAt(s, Label, i) && a <= |s| && NumberSlash(s, a).Some?
      && NumberSlash(s, NumberSlash(s, a).value + 1).Some?
      && LossEnd(s, NumberSlash(s, NumberSlash(s, a).value + 1).value + 1) == Some(MatchAt(s, i).value.end)
  {
  }

  /** The first pattern matches at `i`, with these fields, exactly when the text there is a statistics field. */
  lemma MatchAtIff(s: string, i: nat, v: XmtRcv)
    requires i <= |s|
    ensures MatchAt(s, i).Some? && MatchAt(s, i).value.fields == v <==> StatsAt(s, i, v)
  {
    if MatchAt(s, i).Some? && MatchAt(s, i).value.fields == v {
      MatchAtSound(s, i);
    }
    if StatsAt(s, i, v) {
      MatchAtComplete(s, i, v);
    }
  }

  // ---------------------------------------------------------------------------
  // The second search inside the first match

  /** The label holds no digit, and its leading `x` is its only one. */
  lemma LabelShape()
    ensures |Label| == 16 && Label[0] == 'x'
    ensures forall k :: 0 <= k < |Label| ==> !IsDigit(Label[k])
    ensures forall k :: 1 <= k < |Label| ==> Label[k] != 'x'
  {
  }

  /** Positions that start no pair match are skipped by the search. */
  lemma {:induction false} SearchPairSkips(t: string, j: nat, k: nat)
    requires j <= k <= |t|
    requires forall n :: j <= n < k ==> MatchPairAt(t, n).None?
    ensures SearchPair(t, j) == SearchPair(t, k)
    decreases k - j
  {
    if j < k {
      var m := MatchPairAt(t, j);
      assert m.None?;
      SearchPairSkips(t, j + 1, k);
    }
  }

  /** The head of a statistics field at `i` is one at 0 of any text it spans from `i` on. */
  lemma HeadWithin(s: string, i: nat, v: XmtRcv, e: nat)
    requires HeadAt(s, i, v) && LossStart(i, v) <= e <= |s|
    ensures HeadAt(s[i..e], 0, v)
  {
    StatsHeadAt(s, i, v);
    OccursWithin(s, StatsHead(v), i, e);
    StatsHeadAt(s[i..e], 0, v);
  }

  /** An occurrence at `i` is one at 0 of any text it spans from `i` on. */
  lemma OccursWithin(s: string, p: string, i: nat, e: nat)
    requires OccursAt(s, p, i) && i + |p| <= e <= |s|
    ensures OccursAt(s[i..e], p, 0)
  {
    SliceOfSlice(s, i, e, 0, |p|);
  }

  /** No pair match starts inside the label, which holds no digit. */
  lemma NoPairInLabel(t: string, n: nat)
    requires OccursAt(t, Label, 0) && n < |Label|
    ensures MatchPairAt(t, n).None?
  {
    LabelShape();
    assert t[n] == t[0..|Label|][n];
    assert DigitRun(t, n) == 0;
  }

  /** The pair search passes over a label at the start of the text. */
  lemma SearchPairPastLabel(t: string)
    requires OccursAt(t, Label, 0)
    ensures SearchPair(t, 0) == SearchPair(t, |Label|)
  {
    forall n | 0 <= n < |Label|
      ensures MatchPairAt(t, n).None?
    {
      NoPairInLabel(t, n);
    }
    SearchPairSkips(t, 0, |Label|);
  }

  /** Two digit strings, each followed by `/`, at `a`: the pair match there has them as its groups. */
  lemma PairAtFields(t: string, a: nat, v: XmtRcv)
    requires |v.xmt| >= 1 && |v.rcv| >= 1 && Digits(v.xmt) && Digits(v.rcv)
    requires a + |v.xmt| + 1 + |v.rcv| < |t|
    requires t[a..a + |v.xmt|] == v.xmt && t[a + |v.xmt|] == '/'
    requires t[a + |v.xmt| + 1..a + |v.xmt| + 1 + |v.rcv|] == v.rcv && t[a + |v.xmt| + 1 + |v.rcv|] == '/'
    ensures MatchPairAt(t, a) == Some(v)
  {
    var x := a + |v.xmt|;
    DigitRunOfField(t, a, v.xmt);
    DigitRunOfField(t, x + 1, v.rcv);
    assert NumberSlash(t, a) == Some(x);
  }

  /** In a text that starts with the head of a statistics field, the pair search finds its two fields. */
  lemma PairAtHead(t: string, v: XmtRcv)
    requires HeadAt(t, 0, v)
    ensures SearchPair(t, 0) == Some(v)
  {
    var a := |Label|;
    SearchPairPastLabel(t);
    PairAtFields(t, a, v);
    SearchPairFound(t, a, v);
  }

  lemma SearchPairFound(t: string, j: nat, v: XmtRcv)
    requires j <= |t| && MatchPairAt(t, j) == Some(v)
    ensures SearchPair(t, j) == Some(v)
  {
  }

  /** The second search, run on the text the first one matched at `i`, gives back the fields of that match. */
  lemma SecondSearchAgrees(s: string, i: nat, m: StatsMatch)
    requires i <= |s| && MatchAt(s, i) == Some(m)
    ensures i <= m.end && SearchPair(s[i..m.end], 0) == Some(m.fields)
  {
    MatchAtSound(s, i);
    HeadWithin(s, i, m.fields, m.end);
    PairAtHead(s[i..m.end], m.fields);
  }

  // ---------------------------------------------------------------------------
  // collect_xmt_rcv against the reference

  /** A statistics field starts at `j` exactly when the first pattern matches there. */
  lemma HasStatsIff(s: string, j: nat)
    requires j <= |s|
    ensures HasStatsAt(s, j) <==> MatchAt(s, j).Some?
  {
    if MatchAt(s, j).Some? {
      MatchAtSound(s, j);
    }
    if HasStatsAt(s, j) {
      var v :| StatsAt(s, j, v);
      MatchAtComplete(s, j, v);
    }
  }

  /** No statistics field starts past the end of the text. */
  lemma NoStatsPastEnd(s: string, j: nat)
    requires j > |s|
    ensures !HasStatsAt(s, j)
  {
  }

  /** The statistics field at `i` is the leftmost one in the text, and has fields `v`. */
  ghost predicate LeftmostStats(data: string, i: nat, v: XmtRcv)
  {
    StatsAt(data, i, v) && forall j: nat :: j < i ==> !HasStatsAt(data, j)
  }

  /** What `collect_xmt_rcv` returns is the leftmost statistics field. */
  lemma CollectSound(data: string)
    requires CollectXmtRcv(data).Ok?
    ensures SearchStats(data, 0).Some?
    ensures LeftmostStats(data, SearchStats(data, 0).value.0, CollectXmtRcv(data).value)
  {
    var (i, m) := SearchStats(data, 0).value;
    SecondSearchAgrees(data, i, m);
    assert CollectXmtRcv(data).value == m.fields;
    MatchAtSound(data, i);
    SearchStatsLeftmost(data, 0);
    forall j: nat | j < i
      ensures !HasStatsAt(data, j)
    {
      HasStatsIff(data, j);
    }
  }

  /** The leftmost statistics field is what `collect_xmt_rcv` returns. */
  lemma CollectComplete(data: string, i: nat, v: XmtRcv)
    requires LeftmostStats(data, i, v)
    ensures CollectXmtRcv(data) == Ok(v)
  {
    MatchAtComplete(data, i, v);
    SearchStatsLeftmost(data, 0);
    var (i', m) := SearchStats(data, 0).value;
    if i' < i {
      HasStatsIff(data, i');
    }
    assert i' == i;
    SecondSearchAgrees(data, i, m);
  }

  /**
   * `collect_xmt_rcv` returns the fields `v` exactly when the leftmost
   * statistics field of the text has those fields, as the matched strings.
   */
  lemma CollectXmtRcvIff(data: string, v: XmtRcv)
    ensures CollectXmtRcv(data) == Ok(v) <==> exists i: nat :: LeftmostStats(data, i, v)
  {
    if CollectXmtRcv(data) == Ok(v) {
      CollectSound(data);
    }
    if exists i: nat :: LeftmostStats(data, i, v) {
      var i: nat :| LeftmostStats(data, i, v);
      CollectComplete(data, i, v);
    }
  }

  /** `collect_xmt_rcv` raises exactly when no statistics field occurs anywhere in the text. */
  lemma CollectFailsIff(data: string)
    ensures CollectXmtRcv(data).Err? <==> forall j: nat :: !HasStatsAt(data, j)
  {
    SearchStatsLeftmost(data, 0);
    match SearchStats(data, 0)
    case None =>
      forall j: nat
        ensures !HasStatsAt(data, j)
      {
        if j <= |data| {
          HasStatsIff(data, j);
        }
      }
    case Some((i, m)) =>
      SecondSearchAgrees(data, i, m);
      HasStatsIff(data, i);
  }

  /** A position holds at most one statistics field. */
  lemma StatsAtUnique(s: string, i: nat, v: XmtRcv, w: XmtRcv)
    requires StatsAt(s, i, v) && StatsAt(s, i, w)
    ensures v == w
  {
    MatchAtComplete(s, i, v);
    MatchAtComplete(s, i, w);
  }

  /**
   * The label cannot start inside a text that does not contain it and run
   * into a label that follows: its `x` occurs only at its start.
   */
  lemma LabelNotBefore(pre: string, rest: string, j: nat)
    requires forall n: nat :: !OccursAt(pre, Label, n)
    requires OccursAt(rest, Label, 0) && j < |pre|
    ensures !OccursAt(pre + rest, Label, j)
  {
    var s := pre + rest;
    LabelShape();
    if j + |Label| <= |pre| {
      assert s[j..j + |Label|] == pre[j..j + |Label|] && !OccursAt(pre, Label, j);
    } else if j + |Label| <= |s| {
      assert s[j..j + |Label|][|pre| - j] == rest[0..|Label|][0];
    }
  }

  /**
   * A line holding `xmt/rcv/%loss = X/R/L` with digit strings `X` and `R` and a
   * loss field `L`, and no label before it, gives back `X` and `R` exactly,
   * leading zeros included, whatever follows the loss field.
   */
  lemma CollectFindsFields(pre: string, x: string, r: string, loss: string, post: string)
    requires |x| >= 1 && |r| >= 1 && Digits(x) && Digits(r) && LossText(loss)
    requires forall n: nat :: !OccursAt(pre, Label, n)
    ensures CollectXmtRcv(pre + StatsHead(XmtRcv(x, r)) + loss + post) == Ok(XmtRcv(x, r))
  {
    var v := XmtRcv(x, r);
    var rest := StatsHead(v) + loss + post;
    var data := pre + rest;
    assert data == pre + StatsHead(v) + loss + post;
    StatsInserted(pre, v, loss, post);
    assert rest[0..|Label|] == Label;
    forall j: nat | j < |pre|
      ensures !HasStatsAt(data, j)
    {
      LabelNotBefore(pre, rest, j);
    }
    CollectComplete(data, |pre|, v);
  }

  /** A statistics field written after any text is found right where it was written. */
  lemma StatsInserted(pre: string, v: XmtRcv, loss: string, post: string)
    requires |v.xmt| >= 1 && |v.rcv| >= 1 && Digits(v.xmt) && Digits(v.rcv) && LossText(loss)
    ensures StatsAt(pre + (StatsHead(v) + loss + post), |pre|, v)
  {
    var h := StatsHead(v);
    var data := pre + (h + loss + post);
    var i := |pre|;
    var e := i + |h| + |loss|;
    assert data[i..i + |h|] == h;
    assert OccursAt(data, h, i);
    StatsHeadAt(data, i, v);
    assert HeadAt(data, i, v);
    assert data[i + |h|..e] == loss;
    assert LossAt(data, LossStart(i, v), e);
  }

  /**
   * The loss field is one or two digits or `100`, with at most two decimals:
   * `101%` and `5.123%` are refused, while `100.5%` and `100.99%` pass
   * although they exceed 100.
   */
  lemma LossFieldExamples()
    ensures !LossText("101%") && !LossText("5.123%")
    ensures LossText("100.5%") && LossText("100.99%")
  {
    LossEndIff("101%", 0, 4);
    assert "101%"[0..3] != "100";
    assert "101%"[0..4] == "101%";
    LossEndIff("5.123%", 0, 6);
    assert "5.123%"[0..6] == "5.123%";
    assert "100.5%"[..3] == "100" && "100.5%"[3..5] == ".5";
    assert "100.99%"[..3] == "100" && "100.99%"[3..6] == ".99";
  }
}
