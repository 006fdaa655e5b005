/** The static rebar catalog: for each bar diameter (mm), the total steel area
    (mm²) of 1 to 9 bars. The values are the literal table of the
    application, rounded as it has them. */
module RebarCatalog {

  /** The largest tabulated bar count. */
  const MaxBarCount: int := 9

  // One row per diameter: the areas (mm²) of 1..9 bars.
  const Bars6: seq<real> := [28.3, 57.0, 85.0, 113.0, 142.0, 170.0, 198.0, 226.0, 255.0]
  const Bars8: seq<real> := [50.3, 101.0, 151.0, 201.0, 252.0, 302.0, 352.0, 402.0, 453.0]
  const Bars10: seq<real> := [78.5, 157.0, 236.0, 314.0, 393.0, 471.0, 550.0, 628.0, 707.0]
  const Bars12: seq<real> := [113.1, 226.0, 339.0, 452.0, 565.0, 678.0, 791.0, 904.0, 1017.0]
  const Bars14: seq<real> := [153.9, 308.0, 461.0, 615.0, 769.0, 923.0, 1077.0, 1231.0, 1385.0]
  const Bars16: seq<real> := [201.1, 402.0, 603.0, 804.0, 1005.0, 1206.0, 1407.0, 1608.0, 1809.0]
  const Bars18: seq<real> := [254.5, 509.0, 763.0, 1017.0, 1272.0, 1527.0, 1781.0, 2036.0, 2290.0]
  const Bars20: seq<real> := [314.2, 628.0, 942.0, 1256.0, 1570.0, 1884.0, 2199.0, 2513.0, 2827.0]
  const Bars22: seq<real> := [380.1, 760.0, 1140.0, 1520.0, 1900.0, 2281.0, 2661.0, 3041.0, 3421.0]
  const Bars25: seq<real> := [490.9, 982.0, 1473.0, 1964.0, 2454.0, 2945.0, 3436.0, 3927.0, 4418.0]
  const Bars28: seq<real> := [615.8, 1232.0, 1847.0, 2463.0, 3079.0, 3695.0, 4310.0, 4926.0, 5542.0]
  const Bars32: seq<real> := [804.2, 1609.0, 2413.0, 3217.0, 4021.0, 4826.0, 5630.0, 6434.0, 7238.0]
  const Bars36: seq<real> := [1017.9, 2036.0, 3054.0, 4072.0, 5089.0, 6107.0, 7125.0, 8143.0, 9161.0]
  const Bars40: seq<real> := [1256.6, 2513.0, 3770.0, 5027.0, 6283.0, 7540.0, 8796.0, 10053.0, 11310.0]
  const Bars50: seq<real> := [1963.5, 3928.0, 5892.0, 7856.0, 9820.0, 11784.0, 13748.0, 15712.0, 17676.0]

  /** Diameter (mm) to the areas (mm²) of 1..9 bars. */
  const RebarAreas: map<int, seq<real>> := map[
    6 := Bars6,
    8 := Bars8,
    10 := Bars10,
    12 := Bars12,
    14 := Bars14,
    16 := Bars16,
    18 := Bars18,
    20 := Bars20,
    22 := Bars22,
    25 := Bars25,
    28 := Bars28,
    32 := Bars32,
    36 := Bars36,
    40 := Bars40,
    50 := Bars50
  ]

  /** The catalog's diameters in the order the table lists them. */
  const CatalogDiameters: seq<int> := [6, 8, 10, 12, 14, 16, 18, 20, 22, 25, 28, 32, 36, 40, 50]

  /** A table row: nine positive areas that grow with the bar count. */
  predicate WellFormedRow(row: seq<real>)
  {
    && |row| == MaxBarCount
    && 0.0 < row[0]
    && forall i :: 0 < i < |row| ==> row[i - 1] < row[i]
  }

  /** The listed diameters are exactly the table's keys, in increasing order. */
  lemma CatalogKeys()
    ensures forall dia :: dia in RebarAreas <==> dia in CatalogDiameters
    ensures forall i :: 0 < i < |CatalogDiameters| ==> CatalogDiameters[i - 1] < CatalogDiameters[i]
  {
    assert RebarAreas.Keys == set dia | dia in CatalogDiameters;
  }

  /** Every row of the table is well formed. */
  lemma CatalogWellFormed()
    ensures forall dia :: dia in RebarAreas ==> WellFormedRow(RebarAreas[dia])
  {
    SmallRowsWellFormed();
    MiddleRowsWellFormed();
    LargeRowsWellFormed();
    assert RebarAreas.Keys == {6, 8, 10, 12, 14, 16, 18, 20, 22, 25, 28, 32, 36, 40, 50};
  }

  lemma SmallRowsWellFormed()
    ensures WellFormedRow(Bars6) && WellFormedRow(Bars8) && WellFormedRow(Bars10)
    ensures WellFormedRow(Bars12) && WellFormedRow(Bars14)
  {
    assert WellFormedRow(Bars6);
    assert WellFormedRow(Bars8);
    assert WellFormedRow(Bars10);
    assert WellFormedRow(Bars12);
    assert WellFormedRow(Bars14);
  }

  lemma MiddleRowsWellFormed()
    ensures WellFormedRow(Bars16) && WellFormedRow(Bars18) && WellFormedRow(Bars20)
    ensures WellFormedRow(Bars22) && WellFormedRow(Bars25)
  {
    assert WellFormedRow(Bars16);
    assert WellFormedRow(Bars18);
    assert WellFormedRow(Bars20);
    assert WellFormedRow(Bars22);
    assert WellFormedRow(Bars25);
  }

  lemma LargeRowsWellFormed()
    ensures WellFormedRow(Bars28) && WellFormedRow(Bars32) && WellFormedRow(Bars36)
    ensures WellFormedRow(Bars40) && WellFormedRow(Bars50)
  {
    assert WellFormedRow(Bars28);
    assert WellFormedRow(Bars32);
    assert WellFormedRow(Bars36);
    assert WellFormedRow(Bars40);
    assert WellFormedRow(Bars50);
  }

  /** The area of a single bar of diameter `dia`. */
  function SingleBarArea(dia: int): (area: real)
    requires dia in RebarAreas
    ensures 0.0 < area
    ensures forall n :: 1 <= n <= MaxBarCount ==> area <= TabulatedArea(dia, n)
  {
    CatalogWellFormed();
    RowGrows(RebarAreas[dia]);
    RebarAreas[dia][0]
  }

  /** The tabulated area of `n` bars of diameter `dia`. */
  function TabulatedArea(dia: int, n: int): (area: real)
    requires dia in RebarAreas && 1 <= n <= MaxBarCount
    ensures 0.0 < area
  {
    CatalogWellFormed();
    RowGrows(RebarAreas[dia]);
    RebarAreas[dia][n - 1]
  }

  /** More bars of one diameter never give less area. */
  lemma {:induction false} RowGrows(row: seq<real>)
    requires WellFormedRow(row)
    ensures forall i, j :: 0 <= i <= j < |row| ==> row[i] <= row[j]
  {
    forall i, j | 0 <= i <= j < |row| ensures row[i] <= row[j] {
      RowGrowsFrom(row, i, j);
    }
  }

  lemma {:induction false} RowGrowsFrom(row: seq<real>, i: int, j: int)
    requires WellFormedRow(row) && 0 <= i <= j < |row|
    ensures row[i] <= row[j]
    decreases j - i
  {
    if i < j {
      RowGrowsFrom(row, i, j - 1);
    }
  }

  /** Choosing more bars of the catalog's diameters never lowers the area. */
  lemma TabulatedAreaMonotone(dia: int, m: int, n: int)
    requires dia in RebarAreas && 1 <= m <= n <= MaxBarCount
    ensures TabulatedArea(dia, m) <= TabulatedArea(dia, n)
  {
    CatalogWellFormed();
    RowGrows(RebarAreas[dia]);
  }
}
