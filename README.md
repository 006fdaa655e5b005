# Singly reinforced RC section design — Dafny model

This project models the calculation core of a small Streamlit application. The application designs the flexural steel of a singly reinforced rectangular concrete section and then helps the user choose bars. The model covers four parts:

- **Input validation and derived quantities.**
  - The positivity checks, `h > cover`, and the extra ACI checks on phi, jd and beta1.
  - The effective depth `d = h - cover` and the conversion of Mu from kN·m to N·mm.
- **The design engine.**
  - The ACI 318 strength-design branch: initial As0 at the assumed lever arm jd·d, the stress block a, the lever arm z = d - a/2, the refined As_calc, the two-formula minimum steel, As_required = max(As_calc, As_min), phi·Mn and the SAFE flag.
  - The Egyptian-code C1/J branch: C1, its hard stop when C1 < C1min, the discriminant and its hard stop, J_raw and J_used = min(J_raw, J_max), As_calc, the ECP minimum steel, As_required, Mn and the SAFE flag.
  - Each branch records its ordered trace of steps (id, description, values).
  - Each branch ends in one of three outcomes: a design, a hard stop (`Stopped`), or one of the guarded calculation errors (`Failed`).
- **The bar-selection advisor.**
  - The 15 × 9 rebar-area table.
  - The automatic-suggestion loop: diameters 10..25 mm, count = ceil(As_required / single-bar area), accepted when the count is 1..9, at most six suggestions.
  - The manual check of a chosen diameter and count.
- **The `clamp` helper.**

Files:

- `numeric.dfy` (module `Numeric`): Python's `max`, `min`, `clamp` and `math.ceil`, the contract assumed of `math.sqrt`, and order lemmas for products of reals.
- `rebar_catalog.dfy` (module `RebarCatalog`): the rebar table and its well-formedness.
- `section_design.dfy` (module `SectionDesign`):
  - the formulas as functions;
  - the calculation block as methods that build the trace step by step;
  - the properties of both codes;
  - worked examples on a 250 × 500 mm section (cover 40 mm, fy 420 MPa, fcu 25 MPa).
- `bar_selection.dfy` (module `BarSelection`):
  - the suggestion loop as a method, proved equal to a specification function;
  - the lemmas about that function;
  - the manual check.

Quantities are exact `real`s. Units: MPa, mm, mm², kN·m.

Two results are worth knowing:

- **ACI verdict.** When As_calc governs, the ACI branch reports SAFE exactly when the refined lever arm z is at least jd·d (`AciVerdictFollowsLeverArm`). The reason is that the capacity is recomputed with the stress block of As_calc itself. So with jd = 0.95, which the input range allows, a freshly designed section can be reported UNSAFE (`AciExampleUnsafe`).
- **ECP verdict.** With exact arithmetic the ECP branch can never report UNSAFE (`EcpDesignIsSafe`).

The suggestion label prints the excess with a leading plus sign, `(+{excess:.1f}%)` (app.py:409), so it expects a total that never falls below As_required. The code does not guarantee that, and the model follows the code: it reports the table's rounded total for the count it chose, not count × single-bar area. For As_required = 339.2 mm² the second suggestion is 3 bars of 12 mm, with 339 mm² and a negative excess (`TabulatedTotalMayFallShort`).

## Model

| member | source | states |
|---|---|---|
| Numeric.Max | app.py:271-273 | `max(a, b)` is at least both arguments and is one of them |
| Numeric.Min | app.py:321 | `min(a, b)` is at most both arguments and is one of them |
| Numeric.Clamp | app.py:63-64 | for lo <= hi the result lies in [lo, hi]; a value already in range is returned unchanged; values outside saturate to the nearer bound; with an empty range the lower bound wins |
| Numeric.Ceil | app.py:403 | the result is the least integer not below x: x <= n < x + 1 |
| RebarCatalog.CatalogKeys | app.py:44-60 | the table's keys are exactly the 15 diameters 6..50 mm, listed in increasing order |
| RebarCatalog.CatalogWellFormed | app.py:44-60 | every row holds nine positive areas, strictly increasing with the bar count |
| RebarCatalog.RowGrows | app.py:44-60 | in a well-formed row a later entry is never smaller than an earlier one |
| RebarCatalog.SingleBarArea | app.py:402 | the single-bar area is positive and no larger than any tabulated total of that diameter |
| RebarCatalog.TabulatedArea | app.py:405 | every tabulated total is positive |
| RebarCatalog.TabulatedAreaMonotone | app.py:44-60 | more bars of one diameter never give less tabulated area |
| SectionDesign.EffectiveDepth | app.py:227 | on validated inputs 0 < d <= h |
| SectionDesign.MomentNmm | app.py:228 | the N·mm moment divided by 10^6 gives back Mu, and it is positive when Mu is |
| SectionDesign.DesignSection | app.py:215-348 | it stops with InvalidInputs exactly when an input check fails, and with InvalidAciParameters exactly when the inputs are valid, ACI is selected and phi, jd or beta1 is not positive, in both cases before any step; otherwise the trace starts with the effective-depth step and the run is the selected branch's run (`AciOutcome` or `EcpOutcome`, as for DesignAci and DesignEcp), with its stop and failure conditions and the code's own As_calc, As_min and capacity rule; every design is sound and every ECP design is SAFE |
| SectionDesign.DesignAci | app.py:242-276 | (`AciOutcome`) never a hard stop; the trace gains exactly the "Initial As" step; it fails exactly when z = d - a/2 <= 0, and then with the lever-arm error; otherwise the design is sound (As_required = max(As_calc, As_min) > 0, capacity = phi·Mn at As_required, SAFE iff capacity >= Mu) with As_calc = Mu/(phi·fy·z), the ACI minimum steel and the ACI capacity rule |
| SectionDesign.DesignEcp | app.py:278-348 | (`EcpOutcome`) the trace gains the C1 step; it stops with C1BelowMinimum exactly when C1 < C1min, and with NegativeDiscriminant exactly when C1 >= C1min, k2 != 0 and the discriminant is negative; it fails with DivisionByZero exactly when C1 >= C1min and k2 = 0, or the discriminant is non-negative and k1 = 0; it fails with FyJdNotPositive exactly when it gets to J and fy·J_used·d <= 0; it designs exactly when it gets to J and fy·J_used·d > 0, and then with the full trace (C1, discriminant, J_raw/J_used), 0 < J_used <= J_max, As_calc = Mu/(fy·J_used·d), the ECP minimum steel, the ECP capacity rule, soundness and SAFE |
| SectionDesign.ZeroDivisorOfDiscriminant | app.py:305 | with C1 > 0 the divisor k2·C1² is zero exactly when k2 is |
| SectionDesign.AciGuardsUnreachable | app.py:243-260 | on validated inputs phi·fy·jd·d > 0 and 0.85·fcu·b > 0, so the first two ACI errors cannot occur |
| SectionDesign.AciInitialSteel | app.py:243-247 | As0 > 0 and As0·(phi·fy·jd·d) equals Mu in N·mm |
| SectionDesign.BlockDepth | app.py:262 | a·0.85·fcu·b = As·fy, and a >= 0 for As >= 0 |
| SectionDesign.AciLeverArm | app.py:263 | the lever arm is shorter than d |
| SectionDesign.AciSteel | app.py:267 | As_calc > 0 and As_calc·phi·fy·z equals Mu in N·mm |
| SectionDesign.AciMinSteel | app.py:269-271 | the ACI minimum steel is positive, at least both 0.25·√fcu/fy·b·d and 1.4/fy·b·d, and equal to one of them |
| SectionDesign.RequiredSteel | app.py:273 | As_required is at least As_calc and As_min and equals one of them; a sound design's As_required is this function of its As_calc and As_min |
| SectionDesign.MomentRatio | app.py:281-286 | Mu/(fcu·b) > 0 on validated inputs, so neither ECP guard fires, and ratio·fcu·b equals Mu in N·mm |
| SectionDesign.EcpC1 | app.py:289 | C1 > 0 and C1²·Mu/(fcu·b) = d² |
| SectionDesign.JRaw | app.py:320 | for k1 > 0, J_raw >= 0.5/k1; for k1 < 0, J_raw < 0 |
| SectionDesign.JUsed | app.py:321 | J_used <= J_max, J_used <= J_raw, and it is one of the two |
| SectionDesign.EcpSteel | app.py:333-337 | As_calc > 0 and As_calc·fy·J·d equals Mu in N·mm |
| SectionDesign.EcpMinSteel | app.py:340-342 | the ECP minimum steel is positive, at least both 0.6/fy·b·d and 0.225·√fcu/fy·b·d, and equal to one of them |
| SectionDesign.JUsedPositive | app.py:333-335 | past the fy·J·d guard, J_used > 0 |
| SectionDesign.EcpDesignIsSafe | app.py:344-347 | any area >= As_calc gives Mn = As·fy·J·d >= Mu, so the ECP check always passes |
| SectionDesign.AciCapacityAtOwnLeverArm | app.py:275 | phi·Mn·10^6 = phi·As·fy·(d - a(As)/2), with the stress block of As itself |
| SectionDesign.BlockDepthOrder | app.py:262-275 | one stress block is no deeper than another exactly when its steel area is no larger |
| SectionDesign.AciSteelVersusInitial | app.py:247-267 | As_calc <= As0 exactly when z >= jd·d |
| SectionDesign.AciVerdictFollowsLeverArm | app.py:242-276 | when As_calc governs, the ACI design is SAFE exactly when z >= jd·d |
| SectionDesign.C1StopCriterion | app.py:289-303 | C1 < C1min exactly when d² < C1min²·Mu/(fcu·b), which needs no square root |
| SectionDesign.DiscriminantCriterion | app.py:305-318 | for k2 > 0 the discriminant is never negative exactly when k2·C1² >= 4, and it stays below 0.25 |
| SectionDesign.DefaultCapNeverBinds | app.py:320-321 | with k1 = 1.15, J_max = 0.95 and k2 > 0, J_raw < 0.95, so J_used = J_raw |
| SectionDesign.MomentRatioGrows | app.py:285 | a larger Mu never gives a smaller Mu/(fcu·b) |
| SectionDesign.C1ShrinksWithMoment | app.py:285-303 | a larger Mu never gives a larger C1 |
| SectionDesign.AciLeverArmShrinksWithMoment | app.py:247-263 | a larger Mu never lengthens z = d - a(As0)/2 |
| SectionDesign.AciSteelGrowsWithMoment | app.py:247-267 | a larger Mu never lengthens z and never lowers As_calc |
| SectionDesign.AciMinSteelIgnoresMoment | app.py:269-271 | the ACI minimum steel is the same for any Mu |
| SectionDesign.RequiredSteelGrows | app.py:273 | for a fixed minimum, a larger As_calc never gives a smaller As_required |
| SectionDesign.AciRequiredGrowsWithMoment | app.py:247-273 | when the run at the larger Mu gets past the lever-arm guard, so does the run at the smaller Mu, and its As_required is no larger |
| SectionDesign.DiscriminantGrowsWithC1 | app.py:305 | for k2 > 0 a larger C1 never gives a smaller discriminant |
| SectionDesign.JRawOrder | app.py:320 | for k1 > 0 a larger discriminant never gives a smaller J_raw |
| SectionDesign.EcpJUsedShrinksWithMoment | app.py:285-321 | for k1, k2 > 0, a run that gets to J at the larger Mu gets there at the smaller Mu, with a J_used at least as large |
| SectionDesign.EcpDesignsAtSmallerMoment | app.py:285-335 | for k1, k2 > 0, a run that designs at the larger Mu designs at the smaller Mu, and both J_used are positive and ordered |
| SectionDesign.EcpSteelForSmallerJ | app.py:333-337 | As_calc for a larger Mu at a smaller J_used is no smaller |
| SectionDesign.EcpMinSteelIgnoresMoment | app.py:340-342 | the ECP minimum steel is the same for any Mu |
| SectionDesign.EcpRequiredGrowsWithMoment | app.py:285-344 | for k1, k2 > 0, whenever the run at the larger Mu designs, the run at the smaller Mu designs too, and neither its As_calc nor its As_required is larger |
| SectionDesign.EcpCapacityMonotone | app.py:346 | more steel never lowers Mn |
| SectionDesign.AciMomentOrder | app.py:275 | phi·As·fy·(d - a/2) grows with As while the larger area's stress block stays within d |
| SectionDesign.AciCapacityMonotone | app.py:275 | more steel never lowers phi·Mn while the larger area's stress block stays within d |
| SectionDesign.EcpExampleProceeds | app.py:289-318 | Mu = 100 kN·m with the default ECP constants passes the C1 check, and its discriminant is non-negative |
| SectionDesign.EcpExampleStops | app.py:289-303 | Mu = 400 kN·m on the same section gives C1 < 2.76 |
| SectionDesign.AciExampleSafe | app.py:242-276 | phi = 0.9, jd = 0.9, Mu = 100 kN·m: z > 0, As_calc governs, and the design is SAFE |
| SectionDesign.AciExampleUnsafe | app.py:242-276 | phi = 0.9, jd = 0.95, Mu = 100 kN·m: z > 0, As_calc governs, and the design is UNSAFE |
| BarSelection.SuggestionDiametersInCatalog | app.py:401-402 | every suggestion diameter is in the table; the diameters and their single-bar areas increase strictly along the list |
| BarSelection.BarCount | app.py:403 | the count is the least n with n·A1 >= As_required: (n-1)·A1 < As_required <= n·A1, and n >= 1 for As_required > 0 |
| BarSelection.BarCountDecreasing | app.py:402-403 | a larger single-bar area never needs more bars |
| BarSelection.Excess | app.py:406 | excess·As_required = (total - As_required)·100, and the excess is negative exactly when the total falls short |
| BarSelection.Take | app.py:404 | the cap keeps a prefix of at most k elements: all of them when there are at most k, otherwise exactly k |
| BarSelection.SuggestBars | app.py:400-410 | the loop with its counter yields exactly the first six accepted candidates over the diameter list |
| BarSelection.CandidateAcceptance | app.py:403-404 | a diameter is accepted exactly when As_required <= 9·A1 |
| BarSelection.CandidateSound | app.py:403-406 | an accepted candidate has the least sufficient count (1..9), the table's total for that count and its excess |
| BarSelection.CandidatesFromDiameters | app.py:401-410 | every candidate comes from a diameter tried, and it is exactly that diameter's own candidate |
| BarSelection.CandidatesOrdered | app.py:401-410 | over increasing diameters the candidates come in increasing diameter |
| BarSelection.CandidatesComplete | app.py:401-410 | every accepted diameter tried has its candidate among the candidates |
| BarSelection.CandidatesPrefix | app.py:401-410 | the candidates of a prefix of the diameter list are a prefix of all candidates |
| BarSelection.SuggestionsSound | app.py:400-410 | at most six suggestions, each from the list and sound, in strictly increasing diameter |
| BarSelection.SuggestionsComplete | app.py:400-410 | when fewer than six are shown, every accepted diameter of the list is among them |
| BarSelection.AcceptedDiametersAreATail | app.py:401-404 | once a diameter is accepted, every larger one on the list is too |
| BarSelection.TabulatedTotalMayFallShort | app.py:403-406 | for As_required = 339.2 mm² the second suggestion is 3Ø12 with a tabulated 339 mm², below As_required, with a negative excess |
| BarSelection.VerifySelection | app.py:420-440 | the provided area is the table's entry for the chosen diameter and count, and it is positive; the area is OK exactly when it reaches As_required; the capacity is the design's own formula at the provided area |
| BarSelection.SelectionAreaMonotone | app.py:420-430 | adding bars of the chosen diameter never turns an OK area into a short one |
| BarSelection.EcpSelectionSafe | app.py:436-440 | ECP: a selection whose area is OK, checked with the design's J_used, always has Mn >= Mu |
| BarSelection.AciSelectionAtLeastDesign | app.py:432-435 | ACI: a selection whose area is OK has at least the capacity of As_required while its stress block stays within d |
| BarSelection.AciSelectionSafe | app.py:432-435 | ACI: such a selection is safe whenever the design was |

## Left out

- Page setup, CSS, the sidebar widgets and the number/slider synchronisation through session state (app.py:1-210) are left out. They are user-interface state.
- Input ranges: the model takes inputs as plain reals. The range limits the widgets enforce (fy <= 600, jd <= 0.95, k1 and k2 >= 0.01, ...) are assumed only where a lemma says so, e.g. k2 > 0.
- All display code is left out, including the column layout of the suggestions and the rendering of the full rebar table (app.py:354-449 apart from the loop and the checks above).
- The trace keeps each step's id, description and computed values. The LaTeX formula, the substitution string and the formatted result text are left out.
- Floating point: exact reals replace IEEE doubles, so rounding in the last digits is not modelled. The worked examples hold for exact arithmetic.
- `math.sqrt` is a parameter. It is constrained to return the non-negative root of a non-negative argument, because the existence of real square roots cannot be derived in the model.
- The catch-all exception handler is modelled only as far as it maps each guarded error to a `Failed` outcome, not its message text.
- beta1 is validated and otherwise unused, as in the code.
- SectionDesign.Capacity, SectionDesign.AciMoment, SectionDesign.Discriminant, BarSelection.Candidate, BarSelection.Candidates and BarSelection.Suggestions are specification functions. Their meaning is stated by the lemmas above, not by their own contracts.
- BarSelection.VerifySelection: its domain is the table's 15 diameters and counts 1..9. The two select boxes only offer those, so no invalid-selection error is modelled.
- BarSelection.VerifySelection: it reports the provided area, the area flag and the capacity, as the code does. The code computes no excess or utilisation for the manual selection, so none is modelled.
- The suggestion loop and the manual check run only after a design, so they require As_required > 0, which every design guarantees.
