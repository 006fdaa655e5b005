/** The bar selection advisor: the automatic suggestion loop over the common
    diameters, and the manual check of a chosen (diameter, count) against the
    governing steel and the design code's capacity formula. */
module BarSelection {
  import opened Numeric
  import opened RebarCatalog
  import opened SectionDesign

  /** The diameters (mm) the suggestion loop tries, smallest first. */
  const SuggestionDiameters: seq<int> := [10, 12, 14, 16, 18, 20, 22, 25]

  /** The loop stops accepting after this many suggestions. */
  const MaxSuggestions: int := 6

  /** One suggested configuration: `count` bars of `diameter`, their tabulated
      total area (mm²) and its excess over As_required in percent. */
  datatype Suggestion = Suggestion(diameter: int, count: int, totalArea: real, excess: real)

  datatype Option<T> = None | Some(value: T)

  /** Every suggestion diameter is in the catalog, and a larger diameter has a
      larger single-bar area. */
  lemma SuggestionDiametersInCatalog()
    ensures forall i :: 0 <= i < |SuggestionDiameters| ==> SuggestionDiameters[i] in RebarAreas
    ensures forall i, j :: 0 <= i < j < |SuggestionDiameters| ==>
      SuggestionDiameters[i] < SuggestionDiameters[j] &&
      SingleBarArea(SuggestionDiameters[i]) < SingleBarArea(SuggestionDiameters[j])
  {
    assert SingleBarArea(10) == 78.5 && SingleBarArea(12) == 113.1;
    assert SingleBarArea(14) == 153.9 && SingleBarArea(16) == 201.1;
    assert SingleBarArea(18) == 254.5 && SingleBarArea(20) == 314.2;
    assert SingleBarArea(22) == 380.1 && SingleBarArea(25) == 490.9;
  }

  /** The fewest bars of diameter `dia` whose nominal area n·A1 reaches
      As_required, A1 being the tabulated single-bar area. */
  function BarCount(asRequired: real, dia: int): (n: int)
    requires dia in RebarAreas
    ensures (n - 1) as real * SingleBarArea(dia) < asRequired <= n as real * SingleBarArea(dia)
    ensures 0.0 < asRequired ==> 1 <= n
  {
    var area := SingleBarArea(dia);
    var x := asRequired / area;
    var n := Ceil(x);
    ScaleOrder(x, n as real, area);
    ScaleOrder((n - 1) as real, x, area);
    n
  }

  /** A larger single-bar area never needs more bars. */
  lemma BarCountDecreasing(asRequired: real, small: int, large: int)
    requires small in RebarAreas && large in RebarAreas && 0.0 < asRequired
    requires SingleBarArea(small) <= SingleBarArea(large)
    ensures BarCount(asRequired, large) <= BarCount(asRequired, small)
  {
    var n := BarCount(asRequired, small);
    var aSmall, aLarge := SingleBarArea(small), SingleBarArea(large);
    ScaleOrder(aSmall, aLarge, n as real);
    var m := BarCount(asRequired, large);
    if n < m {
      ScaleOrder(n as real, (m - 1) as real, aLarge);
    }
  }

  /** The excess of a total area over As_required, in percent of As_required. */
  function Excess(total: real, asRequired: real): (e: real)
    requires 0.0 < asRequired
    ensures e * asRequired == (total - asRequired) * 100.0
    ensures e < 0.0 <==> total < asRequired
  {
    var q := (total - asRequired) / asRequired;
    assert q * asRequired == total - asRequired;
    ScaleOrder(q, 0.0, asRequired);
    q * 100.0
  }

  /** The suggestion for one diameter, if its bar count is tabulated. */
  function Candidate(asRequired: real, dia: int): Option<Suggestion>
    requires dia in RebarAreas && 0.0 < asRequired
  {
    var n := BarCount(asRequired, dia);
    if 1 <= n <= MaxBarCount then
      var total := TabulatedArea(dia, n);
      Some(Suggestion(dia, n, total, Excess(total, asRequired)))
    else
      None
  }

  /** What every accepted suggestion satisfies: a catalog diameter, a tabulated
      count that is the least one whose nominal area reaches As_required, the
      table's total for that count, and the excess of that total in percent. */
  predicate SuggestionFor(asRequired: real, c: Suggestion)
  {
    && c.diameter in RebarAreas
    && 1 <= c.count <= MaxBarCount
    && 0.0 < asRequired && c.count == BarCount(asRequired, c.diameter)
    && c.totalArea == TabulatedArea(c.diameter, c.count)
    && c.excess == Excess(c.totalArea, asRequired)
  }

  /** The suggestions of the diameters `ds`, in their order, before the cap. */
  function Candidates(asRequired: real, ds: seq<int>): seq<Suggestion>
    requires 0.0 < asRequired && forall i :: 0 <= i < |ds| ==> ds[i] in RebarAreas
  {
    if |ds| == 0 then []
    else
      var rest := Candidates(asRequired, ds[..|ds| - 1]);
      match Candidate(asRequired, ds[|ds| - 1])
      case None => rest
      case Some(c) => rest + [c]
  }

  /** The first `k` elements of `s` (all of them when there are fewer). */
  function Take<T>(s: seq<T>, k: nat): (r: seq<T>)
    ensures |r| <= k && |r| <= |s| && r == s[..|r|]
    ensures |s| <= k ==> r == s
    ensures k <= |s| ==> |r| == k
  {
    if |s| <= k then s else s[..k]
  }

  /** The suggestions the advisor shows for As_required: the first six
      accepted candidates over the suggestion diameters. */
  function Suggestions(asRequired: real): seq<Suggestion>
    requires 0.0 < asRequired
  {
    SuggestionDiametersInCatalog();
    Take(Candidates(asRequired, SuggestionDiameters), MaxSuggestions)
  }

  /** The automatic suggestions: for each diameter of the list in turn, the
      least tabulated bar count reaching As_required, accepted while fewer than
      six have been accepted. */
  method SuggestBars(asRequired: real) returns (suggestions: seq<Suggestion>)
    requires 0.0 < asRequired
    ensures suggestions == Suggestions(asRequired)
  {
    SuggestionDiametersInCatalog();
    suggestions := [];
    var suggestionCount := 0;
    for i := 0 to |SuggestionDiameters|
      invariant suggestions == Take(Candidates(asRequired, SuggestionDiameters[..i]), MaxSuggestions)
      invariant suggestionCount == |suggestions|
    {
      var diameter := SuggestionDiameters[i];
      var areaPerBar := SingleBarArea(diameter);
      var numBars := Ceil(asRequired / areaPerBar);
      assert SuggestionDiameters[..i + 1][..i] == SuggestionDiameters[..i];
      if 1 <= numBars <= MaxBarCount && suggestionCount < MaxSuggestions {
        var totalArea := TabulatedArea(diameter, numBars);
        var excess := Excess(totalArea, asRequired);
        suggestions := suggestions + [Suggestion(diameter, numBars, totalArea, excess)];
        suggestionCount := suggestionCount + 1;
      }
    }
    assert SuggestionDiameters[..|SuggestionDiameters|] == SuggestionDiameters;
  }

  // ---------------------------------------------------------------------
  // Properties of the suggestions
  // ---------------------------------------------------------------------

  /** A diameter is accepted exactly when nine of its bars reach As_required
      nominally. */
  lemma CandidateAcceptance(asRequired: real, dia: int)
    requires dia in RebarAreas && 0.0 < asRequired
    ensures Candidate(asRequired, dia).Some? <==> asRequired <= MaxBarCount as real * SingleBarArea(dia)
  {
    var n := BarCount(asRequired, dia);
    var area := SingleBarArea(dia);
    if n <= MaxBarCount {
      ScaleOrder(n as real, MaxBarCount as real, area);
    } else {
      ScaleOrder(MaxBarCount as real, (n - 1) as real, area);
    }
  }

  /** An accepted candidate has the least count whose nominal area reaches
      As_required, the table's total for that count and the excess of that total. */
  lemma CandidateSound(asRequired: real, dia: int)
    requires dia in RebarAreas && 0.0 < asRequired
    ensures Candidate(asRequired, dia).Some? ==>
      var c := Candidate(asRequired, dia).value;
      c.diameter == dia && c.count == BarCount(asRequired, dia) && SuggestionFor(asRequired, c)
  {
    var n := BarCount(asRequired, dia);
    if 1 <= n <= MaxBarCount {
      var total := TabulatedArea(dia, n);
      var c := Suggestion(dia, n, total, Excess(total, asRequired));
      assert Candidate(asRequired, dia) == Some(c);
      assert SuggestionFor(asRequired, c);
    }
  }

  /** Every candidate comes from one of the diameters tried, and is exactly
      that diameter's own candidate. */
  lemma {:induction false} CandidatesFromDiameters(asRequired: real, ds: seq<int>)
    requires 0.0 < asRequired && forall i :: 0 <= i < |ds| ==> ds[i] in RebarAreas
    ensures forall k :: 0 <= k < |Candidates(asRequired, ds)| ==>
      var c := Candidates(asRequired, ds)[k];
      c.diameter in ds && Candidate(asRequired, c.diameter) == Some(c)
  {
    if |ds| > 0 {
      var front := ds[..|ds| - 1];
      CandidatesFromDiameters(asRequired, front);
      forall k | 0 <= k < |Candidates(asRequired, front)|
        ensures Candidates(asRequired, front)[k].diameter in ds
      {
        var c := Candidates(asRequired, front)[k];
        assert c.diameter in front;
      }
    }
  }

  /** Over increasing diameters the candidates come in increasing diameter. */
  lemma {:induction false} CandidatesOrdered(asRequired: real, ds: seq<int>)
    requires 0.0 < asRequired && forall i :: 0 <= i < |ds| ==> ds[i] in RebarAreas
    requires forall i, j :: 0 <= i < j < |ds| ==> ds[i] < ds[j]
    ensures forall k, l :: 0 <= k < l < |Candidates(asRequired, ds)| ==>
      Candidates(asRequired, ds)[k].diameter < Candidates(asRequired, ds)[l].diameter
  {
    if |ds| > 0 {
      var front := ds[..|ds| - 1];
      CandidatesOrdered(asRequired, front);
      CandidatesFromDiameters(asRequired, front);
      var rest := Candidates(asRequired, front);
      forall k | 0 <= k < |rest| ensures rest[k].diameter < ds[|ds| - 1] {
        var c := rest[k];
        assert c.diameter in front;
      }
    }
  }

  /** Every accepted diameter tried has its candidate among the candidates. */
  lemma {:induction false} CandidatesComplete(asRequired: real, ds: seq<int>, dia: int)
    requires 0.0 < asRequired && forall i :: 0 <= i < |ds| ==> ds[i] in RebarAreas
    requires dia in ds
    ensures Candidate(asRequired, dia).Some? ==> Candidate(asRequired, dia).value in Candidates(asRequired, ds)
  {
    var front := ds[..|ds| - 1];
    if ds[|ds| - 1] != dia {
      assert dia in front;
      CandidatesComplete(asRequired, front, dia);
    }
  }

  /** What the advisor shows: at most six suggestions, each sound, in
      increasing diameter. */
  lemma SuggestionsSound(asRequired: real)
    requires 0.0 < asRequired
    ensures |Suggestions(asRequired)| <= MaxSuggestions
    ensures forall k :: 0 <= k < |Suggestions(asRequired)| ==>
      var c := Suggestions(asRequired)[k];
      c.diameter in SuggestionDiameters && SuggestionFor(asRequired, c)
    ensures forall k, l :: 0 <= k < l < |Suggestions(asRequired)| ==>
      Suggestions(asRequired)[k].diameter < Suggestions(asRequired)[l].diameter
  {
    SuggestionDiametersInCatalog();
    var all := Candidates(asRequired, SuggestionDiameters);
    CandidatesFromDiameters(asRequired, SuggestionDiameters);
    CandidatesOrdered(asRequired, SuggestionDiameters);
    forall k | 0 <= k < |Suggestions(asRequired)|
      ensures SuggestionFor(asRequired, Suggestions(asRequired)[k])
    {
      var c := all[k];
      CandidateSound(asRequired, c.diameter);
    }
  }

  /** When fewer than six suggestions are shown, every accepted diameter is among them. */
  lemma SuggestionsComplete(asRequired: real, dia: int)
    requires 0.0 < asRequired && dia in SuggestionDiameters
    requires |Suggestions(asRequired)| < MaxSuggestions
    requires asRequired <= MaxBarCount as real * SingleBarArea(dia)
    ensures exists k :: 0 <= k < |Suggestions(asRequired)| && Suggestions(asRequired)[k].diameter == dia
  {
    SuggestionDiametersInCatalog();
    CandidateAcceptance(asRequired, dia);
    CandidatesComplete(asRequired, SuggestionDiameters, dia);
    var c := Candidate(asRequired, dia).value;
    var k :| 0 <= k < |Suggestions(asRequired)| && Suggestions(asRequired)[k] == c;
  }

  /** Once a diameter is accepted every larger suggestion diameter is too, so
      the accepted diameters are a tail of the list. */
  lemma AcceptedDiametersAreATail(asRequired: real, i: int, j: int)
    requires 0.0 < asRequired && 0 <= i <= j < |SuggestionDiameters|
    requires SuggestionDiameters[i] in RebarAreas
    requires asRequired <= MaxBarCount as real * SingleBarArea(SuggestionDiameters[i])
    ensures SuggestionDiameters[j] in RebarAreas
    ensures asRequired <= MaxBarCount as real * SingleBarArea(SuggestionDiameters[j])
  {
    SuggestionDiametersInCatalog();
    if i < j {
      ScaleOrder(SingleBarArea(SuggestionDiameters[i]), SingleBarArea(SuggestionDiameters[j]), MaxBarCount as real);
    }
  }

  /** The reported total is the table's rounded value, not n·A1, so it can fall
      short of As_required: for As_required = 339.2 mm² the second suggestion
      is 3 bars of 12 mm with a tabulated 339 mm² and a negative excess. */
  lemma TabulatedTotalMayFallShort()
    ensures |Suggestions(339.2)| >= 2
    ensures
      var c := Suggestions(339.2)[1];
      c.diameter == 12 && c.count == 3 && c.totalArea == 339.0 && c.totalArea < 339.2 && c.excess < 0.0
  {
    SuggestionDiametersInCatalog();
    assert BarCount(339.2, 10) == 5;
    assert BarCount(339.2, 12) == 3;
    var front := SuggestionDiameters[..2];
    assert front == [10, 12];
    assert front[..1] == [10];
    assert [10][..0] == [];
    assert Candidates(339.2, front) == [Candidate(339.2, 10).value, Candidate(339.2, 12).value];
    CandidatesPrefix(339.2, SuggestionDiameters, 2);
  }

  /** The candidates of a prefix of the diameters are a prefix of the candidates. */
  lemma {:induction false} CandidatesPrefix(asRequired: real, ds: seq<int>, i: int)
    requires 0.0 < asRequired && forall j :: 0 <= j < |ds| ==> ds[j] in RebarAreas
    requires 0 <= i <= |ds|
    ensures Candidates(asRequired, ds[..i]) <= Candidates(asRequired, ds)
    decreases |ds| - i
  {
    if i < |ds| {
      CandidatesPrefix(asRequired, ds, i + 1);
      assert ds[..i + 1][..i] == ds[..i];
    } else {
      assert ds[..i] == ds;
    }
  }

  // ---------------------------------------------------------------------
  // Manual selection and verification
  // ---------------------------------------------------------------------

  /** The manual check: the tabulated area of the chosen bars, whether it
      reaches As_required, and the capacity the design's own formula gives it. */
  datatype Verification = Verification(providedArea: real, areaOk: bool, capacity: real)

  /** Check `n` bars of diameter `dia` against the design's As_required and
      capacity rule (the ECP rule carries the design's J_used). */
  function VerifySelection(asRequired: real, rule: CapacityRule, dia: int, n: int): (v: Verification)
    requires dia in RebarAreas && 1 <= n <= MaxBarCount && ValidRule(rule)
    ensures v.providedArea == TabulatedArea(dia, n) && 0.0 < v.providedArea
    ensures v.areaOk <==> v.providedArea >= asRequired
    ensures v.capacity == Capacity(rule, v.providedArea)
  {
    var provided := TabulatedArea(dia, n);
    Verification(provided, provided >= asRequired, Capacity(rule, provided))
  }

  /** Adding bars of the chosen diameter never turns an OK area into a short one. */
  lemma SelectionAreaMonotone(asRequired: real, rule: CapacityRule, dia: int, m: int, n: int)
    requires dia in RebarAreas && 1 <= m <= n <= MaxBarCount && ValidRule(rule)
    ensures VerifySelection(asRequired, rule, dia, m).areaOk ==> VerifySelection(asRequired, rule, dia, n).areaOk
  {
    TabulatedAreaMonotone(dia, m, n);
  }

  /** ECP: a selection whose area is OK is always safe, because its area
      reaches As_required >= As_calc = Mu/(fy·J·d). */
  lemma EcpSelectionSafe(s: Section, r: DesignResult, dia: int, n: int)
    requires ValidSection(s) && SoundDesign(s, r) && r.rule.EcpRule?
    requires r.rule == EcpRule(s.fy, r.rule.jUsed, EffectiveDepth(s))
    requires r.asCalc == EcpSteel(s, r.rule.jUsed)
    requires dia in RebarAreas && 1 <= n <= MaxBarCount
    ensures
      var v := VerifySelection(r.asRequired, r.rule, dia, n);
      v.areaOk ==> v.capacity >= s.mu
  {
    var v := VerifySelection(r.asRequired, r.rule, dia, n);
    if v.areaOk {
      EcpDesignIsSafe(s, r.rule.jUsed, v.providedArea);
    }
  }

  /** ACI: a selection whose area is OK has at least the capacity of As_required
      as long as its own stress block stays within d. */
  lemma AciSelectionAtLeastDesign(asRequired: real, rule: CapacityRule, dia: int, n: int)
    requires rule.AciRule? && ValidRule(rule) && 0.0 <= asRequired
    requires dia in RebarAreas && 1 <= n <= MaxBarCount
    requires VerifySelection(asRequired, rule, dia, n).areaOk
    requires BlockWithinDepth(rule, TabulatedArea(dia, n))
    ensures VerifySelection(asRequired, rule, dia, n).capacity >= Capacity(rule, asRequired)
  {
    AciCapacityMonotone(rule, asRequired, TabulatedArea(dia, n));
  }

  /** ACI: so such a selection is safe whenever the design was. */
  lemma AciSelectionSafe(s: Section, r: DesignResult, dia: int, n: int)
    requires SoundDesign(s, r) && r.rule.AciRule? && r.safe
    requires dia in RebarAreas && 1 <= n <= MaxBarCount
    requires VerifySelection(r.asRequired, r.rule, dia, n).areaOk
    requires BlockWithinDepth(r.rule, TabulatedArea(dia, n))
    ensures VerifySelection(r.asRequired, r.rule, dia, n).capacity >= s.mu
  {
    AciSelectionAtLeastDesign(r.asRequired, r.rule, dia, n);
  }
}
