/** The fitted spectra of an event: the points residuals are taken from, and the curves shown. */
module FittedSpectra {
  import opened Wrappers
  import opened CctDocument

  datatype FitPoint = FitPoint(frequency: real, value: real)

  datatype Curve = Curve(frequencies: seq<real>, values: seq<real>)

  /** What the spectra of an event yield: the points for the residuals, and the curves shown. */
  datatype Selection = Selection(fit: seq<FitPoint>, shown: map<CurveKey, Curve>)

  /** The keys "fit", "bruneUpperBound-1", "bruneLowerBound-1", "bruneUpperBound-2" and "bruneLowerBound-2". */
  datatype CurveKey = Fit | BruneUpperBound1 | BruneLowerBound1 | BruneUpperBound2 | BruneLowerBound2

  predicate Used(s: Spectrum) { !s.kind.OtherKind? }

  ghost predicate PointsRead(s: Spectrum) {
    forall i :: 0 <= i < |s.points| ==> s.points[i].x.Holds? && s.points[i].y.Holds?
  }

  /** The curve of a spectrum; the abscissae are stored as decimal logarithms. */
  ghost predicate IsCurve(s: Spectrum, pow10: real -> real, c: Curve) {
    && PointsRead(s) && |c.frequencies| == |c.values| == |s.points|
    && forall i :: 0 <= i < |s.points| ==>
         c.frequencies[i] == pow10(s.points[i].x.value) && c.values[i] == s.points[i].y.value
  }

  /** The points of all FIT spectra, in the order of the list. */
  function FitPoints(spectra: seq<Spectrum>, pow10: real -> real): seq<FitPoint> {
    if spectra == [] then []
    else
      var last := spectra[|spectra| - 1];
      FitPoints(spectra[..|spectra| - 1], pow10) + (if last.kind == FIT then PointsOf(last.points, pow10) else [])
  }

  function PointsOf(points: seq<Point>, pow10: real -> real): seq<FitPoint> {
    if points == [] then []
    else
      var last := points[|points| - 1];
      PointsOf(points[..|points| - 1], pow10) +
      (if last.x.Holds? && last.y.Holds? then [FitPoint(pow10(last.x.value), last.y.value)] else [])
  }

  function CountKind(spectra: seq<Spectrum>, kind: SpectrumKind): nat {
    if spectra == [] then 0
    else CountKind(spectra[..|spectra| - 1], kind) + (if spectra[|spectra| - 1].kind == kind then 1 else 0)
  }

  /** Which spectrum is shown under a key: the first of its kind, or the second. */
  function KindOf(key: CurveKey): SpectrumKind {
    match key
    case Fit => FIT
    case BruneUpperBound1 => UQ1
    case BruneLowerBound1 => UQ1
    case _ => UQ2
  }

  function Ordinal(key: CurveKey): nat {
    if key.BruneLowerBound1? || key.BruneLowerBound2? then 1 else 0
  }

  /** The position of the n-th spectrum of a kind, counting from 0. */
  function Nth(spectra: seq<Spectrum>, kind: SpectrumKind, n: nat): (at: Option<nat>)
    ensures at.None? <==> CountKind(spectra, kind) <= n
    ensures at.Some? ==> at.value < |spectra| && spectra[at.value].kind == kind && CountKind(spectra[..at.value], kind) == n
  {
    if spectra == [] then None
    else
      var front := spectra[..|spectra| - 1];
      var at := Nth(front, kind, n);
      if at.Some? then
        assert front[..at.value] == spectra[..at.value];
        at
      else if spectra[|front|].kind == kind && CountKind(front, kind) == n then Some(|front|)
      else None
  }

  /** Each key shows the curve of its spectrum, if there is one. */
  ghost predicate CurvesOf(spectra: seq<Spectrum>, pow10: real -> real, shown: map<CurveKey, Curve>) {
    forall key: CurveKey ::
      match Nth(spectra, KindOf(key), Ordinal(key))
      case None => key !in shown
      case Some(at) => key in shown && IsCurve(spectra[at], pow10, shown[key])
  }

  method ReadCurve(s: Spectrum, pow10: real -> real) returns (r: Outcome<Curve>)
    ensures r.Returned? <==> PointsRead(s)
    ensures r.Returned? ==> IsCurve(s, pow10, r.value)
  {
    var frequencies: seq<real>, values: seq<real> := [], [];
    for i := 0 to |s.points|
      invariant |frequencies| == |values| == i
      invariant forall j :: 0 <= j < i ==>
        && s.points[j].x.Holds? && s.points[j].y.Holds?
        && frequencies[j] == pow10(s.points[j].x.value) && values[j] == s.points[j].y.value
    {
      var p := s.points[i];
      if !p.x.Holds? || !p.y.Holds? {
        return Threw;
      }
      frequencies, values := frequencies + [pow10(p.x.value)], values + [p.y.value];
    }
    r := Returned(Curve(frequencies, values));
  }

  function Zip(c: Curve, n: nat): (s: seq<FitPoint>)
    requires n <= |c.frequencies| && n <= |c.values|
    ensures |s| == n
  {
    seq(n, i requires 0 <= i < n => FitPoint(c.frequencies[i], c.values[i]))
  }

  lemma {:induction false} ZipIsPoints(kind: SpectrumKind, points: seq<Point>, pow10: real -> real, c: Curve)
    requires IsCurve(Spectrum(kind, points), pow10, c)
    ensures Zip(c, |points|) == PointsOf(points, pow10)
  {
    if points != [] {
      var n := |points| - 1;
      ZipIsPoints(kind, points[..n], pow10, Curve(c.frequencies[..n], c.values[..n]));
      assert Zip(c, n + 1) == Zip(Curve(c.frequencies[..n], c.values[..n]), n) + [FitPoint(c.frequencies[n], c.values[n])];
    }
  }

  /** `emplace`: an existing entry is kept. */
  function Emplace(shown: map<CurveKey, Curve>, key: CurveKey, c: Curve): map<CurveKey, Curve> {
    if key in shown then shown else shown[key := c]
  }

  /** The key under which the code tries to show the n-th spectrum of a kind. */
  function TriedKey(kind: SpectrumKind, n: nat): CurveKey
    requires !kind.OtherKind?
  {
    match kind
    case FIT => Fit
    case UQ1 => if n > 0 then BruneLowerBound1 else BruneUpperBound1
    case UQ2 => if n > 0 then BruneLowerBound2 else BruneUpperBound2
  }

  lemma NthStep(spectra: seq<Spectrum>, n: nat, kind: SpectrumKind, m: nat)
    requires n < |spectra|
    ensures Nth(spectra[..n + 1], kind, m) ==
      if Nth(spectra[..n], kind, m).None? && spectra[n].kind == kind && CountKind(spectra[..n], kind) == m then Some(n)
      else Nth(spectra[..n], kind, m)
  {
    assert spectra[..n + 1][..n] == spectra[..n];
  }

  /** Emplacing under the tried key shows a curve exactly when it is the turn of its spectrum. */
  lemma EmplaceStep(spectra: seq<Spectrum>, pow10: real -> real, n: nat, shown: map<CurveKey, Curve>, c: Curve, tried: CurveKey)
    requires n < |spectra| && Used(spectra[n]) && CurvesOf(spectra[..n], pow10, shown) && IsCurve(spectra[n], pow10, c)
    requires tried == TriedKey(spectra[n].kind, CountKind(spectra[..n], spectra[n].kind))
    ensures CurvesOf(spectra[..n + 1], pow10, Emplace(shown, tried, c))
  {
    forall key: CurveKey
      ensures match Nth(spectra[..n + 1], KindOf(key), Ordinal(key))
              case None => key !in Emplace(shown, tried, c)
              case Some(at) =>
                key in Emplace(shown, tried, c) && IsCurve(spectra[..n + 1][at], pow10, Emplace(shown, tried, c)[key])
    {
      NthStep(spectra, n, KindOf(key), Ordinal(key));
    }
  }

  lemma SkipStep(spectra: seq<Spectrum>, pow10: real -> real, n: nat, shown: map<CurveKey, Curve>)
    requires n < |spectra| && !Used(spectra[n]) && CurvesOf(spectra[..n], pow10, shown)
    ensures CurvesOf(spectra[..n + 1], pow10, shown)
  {
    forall key: CurveKey
      ensures match Nth(spectra[..n + 1], KindOf(key), Ordinal(key))
              case None => key !in shown
              case Some(at) => key in shown && IsCurve(spectra[..n + 1][at], pow10, shown[key])
    {
      NthStep(spectra, n, KindOf(key), Ordinal(key));
    }
  }

  lemma PrefixStep(spectra: seq<Spectrum>, pow10: real -> real, n: nat)
    requires n < |spectra|
    ensures forall kind :: CountKind(spectra[..n + 1], kind) == CountKind(spectra[..n], kind) + (if spectra[n].kind == kind then 1 else 0)
    ensures FitPoints(spectra[..n + 1], pow10) ==
      FitPoints(spectra[..n], pow10) + (if spectra[n].kind == FIT then PointsOf(spectra[n].points, pow10) else [])
  {
    assert spectra[..n + 1][..n] == spectra[..n];
  }

  method SelectSpectra(spectra: seq<Spectrum>, pow10: real -> real)
    returns (r: Outcome<Selection>)
    ensures r.Returned? <==> forall i :: 0 <= i < |spectra| && Used(spectra[i]) ==> PointsRead(spectra[i])
    ensures r.Returned? ==> r.value.fit == FitPoints(spectra, pow10) && CurvesOf(spectra, pow10, r.value.shown)
  {
    var fit: seq<FitPoint> := [];
    var shown: map<CurveKey, Curve> := map[];
    var haveUQ1, haveUQ2 := false, false;
    for n := 0 to |spectra|
      invariant forall i :: 0 <= i < n && Used(spectra[i]) ==> PointsRead(spectra[i])
      invariant fit == FitPoints(spectra[..n], pow10) && CurvesOf(spectra[..n], pow10, shown)
      invariant haveUQ1 <==> CountKind(spectra[..n], UQ1) > 0
      invariant haveUQ2 <==> CountKind(spectra[..n], UQ2) > 0
    {
      PrefixStep(spectra, pow10, n);
      if !Used(spectra[n]) {
        SkipStep(spectra, pow10, n, shown);
        continue;
      }
      var curve := ReadCurve(spectra[n], pow10);
      if curve.Threw? {
        return Threw;
      }
      var tried: CurveKey;
      match spectra[n].kind {
        case FIT =>
          ZipIsPoints(FIT, spectra[n].points, pow10, curve.value);
          fit := fit + Zip(curve.value, |spectra[n].points|);
          tried := Fit;
        case UQ1 =>
          tried := if haveUQ1 then BruneLowerBound1 else BruneUpperBound1;
          haveUQ1 := true;
        case UQ2 =>
          tried := if haveUQ2 then BruneLowerBound2 else BruneUpperBound2;
          haveUQ2 := true;
      }
      EmplaceStep(spectra, pow10, n, shown, curve.value, tried);
      shown := Emplace(shown, tried, curve.value);
    }
    assert spectra[..|spectra|] == spectra;
    r := Returned(Selection(fit, shown));
  }

  // ---------------------------------------------------------------- the same, on the documents

  /** The number of points in the FIT spectra. */
  function FitSize(spectra: seq<Spectrum>): nat {
    if spectra == [] then 0
    else FitSize(spectra[..|spectra| - 1]) + (if spectra[|spectra| - 1].kind == FIT then |spectra[|spectra| - 1].points| else 0)
  }

  lemma {:induction false} PointsByIndex(points: seq<Point>, pow10: real -> real)
    requires forall j :: 0 <= j < |points| ==> points[j].x.Holds? && points[j].y.Holds?
    ensures |PointsOf(points, pow10)| == |points|
    ensures forall j :: 0 <= j < |points| ==>
      PointsOf(points, pow10)[j].frequency == pow10(points[j].x.value) && PointsOf(points, pow10)[j].value == points[j].y.value
  {
    if points != [] {
      PointsByIndex(points[..|points| - 1], pow10);
    }
  }

  /**
   * The points for the residuals are those of the FIT spectra in order: point j of spectrum n comes after all points of
   * the FIT spectra before, at the frequency whose logarithm it holds.
   */
  lemma {:induction false} FitPointsByIndex(spectra: seq<Spectrum>, pow10: real -> real, n: nat, j: nat)
    requires forall i :: 0 <= i < |spectra| && Used(spectra[i]) ==> PointsRead(spectra[i])
    requires n < |spectra| && spectra[n].kind == FIT && PointsRead(spectra[n]) && j < |spectra[n].points|
    ensures |FitPoints(spectra, pow10)| == FitSize(spectra)
    ensures FitSize(spectra[..n]) + j < FitSize(spectra)
    ensures FitPoints(spectra, pow10)[FitSize(spectra[..n]) + j] ==
      FitPoint(frequency := pow10(spectra[n].points[j].x.value), value := spectra[n].points[j].y.value)
  {
    var m := |spectra| - 1;
    var front := spectra[..m];
    assert front[..n] == spectra[..n];
    FitPointsSize(front, pow10);
    if spectra[m].kind == FIT {
      PointsByIndex(spectra[m].points, pow10);
    }
    if n < m {
      FitPointsByIndex(front, pow10, n, j);
    }
  }

  lemma {:induction false} FitPointsSize(spectra: seq<Spectrum>, pow10: real -> real)
    requires forall i :: 0 <= i < |spectra| && Used(spectra[i]) ==> PointsRead(spectra[i])
    ensures |FitPoints(spectra, pow10)| == FitSize(spectra)
  {
    if spectra != [] {
      var last := spectra[|spectra| - 1];
      FitPointsSize(spectra[..|spectra| - 1], pow10);
      if last.kind == FIT {
        PointsByIndex(last.points, pow10);
      }
    }
  }

  /** Spectrum n is the first of its kind, or the second, after spectrum m. */
  predicate FirstOfKind(spectra: seq<Spectrum>, kind: SpectrumKind, n: nat) {
    n < |spectra| && spectra[n].kind == kind && forall i :: 0 <= i < n ==> spectra[i].kind != kind
  }

  predicate SecondOfKind(spectra: seq<Spectrum>, kind: SpectrumKind, m: nat, n: nat) {
    n < |spectra| && spectra[n].kind == kind && OnlyBefore(spectra, kind, m, n)
  }

  lemma {:induction false} NoneBefore(spectra: seq<Spectrum>, kind: SpectrumKind, n: nat)
    requires n <= |spectra|
    ensures CountKind(spectra[..n], kind) == 0 <==> forall i :: 0 <= i < n ==> spectra[i].kind != kind
  {
    if n > 0 {
      NoneBefore(spectra, kind, n - 1);
      assert spectra[..n][..n - 1] == spectra[..n - 1];
    }
  }

  /** Spectrum m is the only one of its kind before position n. */
  predicate OnlyBefore(spectra: seq<Spectrum>, kind: SpectrumKind, m: nat, n: nat) {
    m < n <= |spectra| && FirstOfKind(spectra, kind, m) && forall i :: m < i < n ==> spectra[i].kind != kind
  }

  lemma {:induction false} OneBefore(spectra: seq<Spectrum>, kind: SpectrumKind, n: nat)
    requires n <= |spectra|
    ensures CountKind(spectra[..n], kind) == 1 <==> exists m: nat :: OnlyBefore(spectra, kind, m, n)
  {
    if n > 0 {
      OneBefore(spectra, kind, n - 1);
      NoneBefore(spectra, kind, n - 1);
      assert spectra[..n][..n - 1] == spectra[..n - 1];
      if CountKind(spectra[..n], kind) == 1 {
        if spectra[n - 1].kind == kind {
          assert OnlyBefore(spectra, kind, n - 1, n);
        } else {
          var m: nat :| OnlyBefore(spectra, kind, m, n - 1);
          assert OnlyBefore(spectra, kind, m, n);
        }
      }
      if m: nat :| OnlyBefore(spectra, kind, m, n) && m < n - 1 {
        assert OnlyBefore(spectra, kind, m, n - 1);
      }
    }
  }

  lemma {:induction false} NthAt(spectra: seq<Spectrum>, kind: SpectrumKind, n: nat)
    requires n < |spectra| && spectra[n].kind == kind
    ensures Nth(spectra, kind, CountKind(spectra[..n], kind)) == Some(n)
  {
    var m := |spectra| - 1;
    if n < m {
      NthAt(spectra[..m], kind, n);
      assert spectra[..m][..n] == spectra[..n];
    } else {
      assert Nth(spectra[..m], kind, CountKind(spectra[..m], kind)).None?;
    }
  }

  lemma FirstIsNth(spectra: seq<Spectrum>, kind: SpectrumKind, n: nat)
    ensures Nth(spectra, kind, 0) == Some(n) <==> FirstOfKind(spectra, kind, n)
  {
    if n < |spectra| {
      NoneBefore(spectra, kind, n);
      if FirstOfKind(spectra, kind, n) {
        NthAt(spectra, kind, n);
      }
    }
  }

  lemma SecondIsNth(spectra: seq<Spectrum>, kind: SpectrumKind, n: nat)
    ensures Nth(spectra, kind, 1) == Some(n) <==> exists m: nat :: SecondOfKind(spectra, kind, m, n)
  {
    if n < |spectra| {
      OneBefore(spectra, kind, n);
      if m: nat :| SecondOfKind(spectra, kind, m, n) {
        NthAt(spectra, kind, n);
      } else if Nth(spectra, kind, 1) == Some(n) {
        var m: nat :| OnlyBefore(spectra, kind, m, n);
        assert SecondOfKind(spectra, kind, m, n);
      }
    }
  }

  ghost predicate ShowsFirst(spectra: seq<Spectrum>, pow10: real -> real, kind: SpectrumKind, shown: map<CurveKey, Curve>, key: CurveKey) {
    && (forall n: nat :: FirstOfKind(spectra, kind, n) ==> key in shown && IsCurve(spectra[n], pow10, shown[key]))
    && (key in shown ==> exists n: nat :: FirstOfKind(spectra, kind, n))
  }

  ghost predicate ShowsSecond(spectra: seq<Spectrum>, pow10: real -> real, kind: SpectrumKind, shown: map<CurveKey, Curve>, key: CurveKey) {
    && (forall m: nat, n: nat :: SecondOfKind(spectra, kind, m, n) ==> key in shown && IsCurve(spectra[n], pow10, shown[key]))
    && (key in shown ==> exists m: nat, n: nat :: SecondOfKind(spectra, kind, m, n))
  }

  /**
   * The curve called "fit" is that of the first FIT spectrum; those called upper and lower bound, with a 1 or a 2, are
   * those of the first and the second UQ1 or UQ2 spectrum; each is there exactly when its spectrum is.
   */
  lemma CurvesByPosition(spectra: seq<Spectrum>, pow10: real -> real, shown: map<CurveKey, Curve>)
    requires CurvesOf(spectra, pow10, shown)
    ensures ShowsFirst(spectra, pow10, FIT, shown, Fit)
    ensures ShowsFirst(spectra, pow10, UQ1, shown, BruneUpperBound1) && ShowsSecond(spectra, pow10, UQ1, shown, BruneLowerBound1)
    ensures ShowsFirst(spectra, pow10, UQ2, shown, BruneUpperBound2) && ShowsSecond(spectra, pow10, UQ2, shown, BruneLowerBound2)
  {
    FirstShown(spectra, pow10, shown, Fit);
    FirstShown(spectra, pow10, shown, BruneUpperBound1);
    FirstShown(spectra, pow10, shown, BruneUpperBound2);
    SecondShown(spectra, pow10, shown, BruneLowerBound1);
    SecondShown(spectra, pow10, shown, BruneLowerBound2);
  }

  lemma FirstShown(spectra: seq<Spectrum>, pow10: real -> real, shown: map<CurveKey, Curve>, key: CurveKey)
    requires CurvesOf(spectra, pow10, shown) && Ordinal(key) == 0
    ensures ShowsFirst(spectra, pow10, KindOf(key), shown, key)
  {
    forall n: nat ensures Nth(spectra, KindOf(key), 0) == Some(n) <==> FirstOfKind(spectra, KindOf(key), n) {
      FirstIsNth(spectra, KindOf(key), n);
    }
    if key in shown {
      assert FirstOfKind(spectra, KindOf(key), Nth(spectra, KindOf(key), 0).value);
    }
  }

  lemma SecondShown(spectra: seq<Spectrum>, pow10: real -> real, shown: map<CurveKey, Curve>, key: CurveKey)
    requires CurvesOf(spectra, pow10, shown) && Ordinal(key) == 1
    ensures ShowsSecond(spectra, pow10, KindOf(key), shown, key)
  {
    forall m: nat, n: nat | SecondOfKind(spectra, KindOf(key), m, n) ensures Nth(spectra, KindOf(key), 1) == Some(n) {
      SecondIsNth(spectra, KindOf(key), n);
    }
    if key in shown {
      SecondIsNth(spectra, KindOf(key), Nth(spectra, KindOf(key), 1).value);
    }
  }
}
