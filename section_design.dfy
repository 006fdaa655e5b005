/** The section design engine for a singly reinforced rectangular concrete
    section: input validation, the ACI 318 strength-design branch and the
    Egyptian-code C1/J lever-arm branch. Each branch appends its steps to an
    ordered trace and ends in a design, a hard stop or a calculation error.

    Units: fy and fcu in MPa, b, h, cover and d in mm, Mu and capacities in
    kN·m, steel areas in mm². */
module SectionDesign {
  import opened Numeric

  /** N·mm in one kN·m. */
  const NmmPerKNm: real := 1000000.0

  /** Material, load and geometry inputs of one calculation. */
  datatype Section = Section(fy: real, fcu: real, mu: real, b: real, h: real, cover: real)

  /** Strength reduction factor, approximate lever-arm factor, stress-block factor. */
  datatype AciParams = AciParams(phi: real, jd: real, beta1: real)

  /** Lowest admissible C1, cap on J, and the two constants of the J formula. */
  datatype EcpParams = EcpParams(c1Min: real, jMax: real, k1: real, k2: real)

  /** The code selected by the user, with that code's parameters. */
  datatype DesignCode = Aci(aci: AciParams) | Ecp(ecp: EcpParams)

  /** The ECP constants the application offers before the user edits them. */
  const DefaultEcpParams: EcpParams := EcpParams(2.76, 0.95, 1.15, 0.90)

  /** One entry of the calculation trace: step id, description, computed value(s). */
  datatype Step = Step(id: string, description: string, values: seq<real>)

  /** How a code turns a steel area into a flexural capacity (kN·m). */
  datatype CapacityRule =
    | AciRule(phi: real, fy: real, fcu: real, b: real, d: real)
    | EcpRule(fy: real, jUsed: real, d: real)

  /** Why the application stops without a design (warning or error, then stop). */
  datatype StopReason =
    | InvalidInputs          // a material, load or geometry input is out of range
    | InvalidAciParameters   // phi, jd or beta1 is not positive
    | C1BelowMinimum         // ECP: C1 < C1min
    | NegativeDiscriminant   // ECP: 0.25 - 1/(k2·C1²) < 0

  /** A calculation error raised inside the calculation block. */
  datatype Fault =
    | PhiFyJdDNotPositive          // phi·fy·jd·d <= 0
    | BlockDenominatorNotPositive  // 0.85·fcu·b <= 0
    | LeverArmNotPositive          // d - a/2 <= 0
    | FcuBNotPositive              // fcu·b <= 0
    | MomentRatioNotPositive       // Mu/(fcu·b) <= 0
    | FyJdNotPositive              // fy·J·d <= 0
    | DivisionByZero               // a zero divisor (k1 = 0 or k2 = 0)

  /** What a successful run reports. */
  datatype DesignResult = DesignResult(
    asCalc: real,       // steel from the code's moment formula
    asMin: real,        // code minimum steel
    asRequired: real,   // governing steel
    capacity: real,     // phi·Mn for ACI, Mn for ECP (kN·m)
    safe: bool,         // capacity >= Mu
    rule: CapacityRule) // the capacity formula, reused by the manual bar check

  /** The end of one run: a design, a hard stop, or a caught calculation error. */
  datatype Outcome =
    | Designed(trace: seq<Step>, result: DesignResult)
    | Stopped(reason: StopReason, trace: seq<Step>)
    | Failed(fault: Fault, trace: seq<Step>)

  // ---------------------------------------------------------------------
  // Validation and derived quantities
  // ---------------------------------------------------------------------

  /** The checks made before any formula is evaluated. */
  predicate ValidSection(s: Section)
  {
    s.fy > 0.0 && s.fcu > 0.0 && s.mu > 0.0 && s.b > 0.0 && s.h > 0.0 && s.cover >= 0.0 && s.h > s.cover
  }

  /** The extra checks made when ACI 318 is selected. */
  predicate ValidAciParams(p: AciParams)
  {
    p.phi > 0.0 && p.jd > 0.0 && p.beta1 > 0.0
  }

  /** Effective depth d = h - cover. */
  function EffectiveDepth(s: Section): (d: real)
    ensures ValidSection(s) ==> 0.0 < d <= s.h
  {
    s.h - s.cover
  }

  /** The ultimate moment converted from kN·m to N·mm. */
  function MomentNmm(mu: real): (m: real)
    ensures m / NmmPerKNm == mu
    ensures 0.0 < mu ==> 0.0 < m
  {
    mu * 1000000.0
  }

  /** Positive factors give a positive product. */
  lemma PositiveProduct(x: real, y: real)
    requires 0.0 < x && 0.0 < y
    ensures 0.0 < x * y
  {
  }

  /** The first step of every trace. */
  function DepthStep(s: Section): Step
  {
    Step("1", "Effective Depth", [EffectiveDepth(s)])
  }

  // ---------------------------------------------------------------------
  // ACI 318 strength design
  // ---------------------------------------------------------------------

  /** phi·fy·jd·d, the divisor of the initial steel estimate. */
  function AciInitialDivisor(s: Section, p: AciParams): real
  {
    p.phi * s.fy * p.jd * EffectiveDepth(s)
  }

  /** 0.85·fcu·b, the compression force per mm of stress-block depth. */
  function BlockDivisor(s: Section): real
  {
    0.85 * s.fcu * s.b
  }

  /** On validated inputs the divisors the ACI branch checks are positive,
      so its first two guards never fire. */
  lemma AciGuardsUnreachable(s: Section, p: AciParams)
    requires ValidSection(s) && ValidAciParams(p)
    ensures AciInitialDivisor(s, p) > 0.0
    ensures BlockDivisor(s) > 0.0
  {
    var d := EffectiveDepth(s);
    PositiveProduct(p.phi, s.fy);
    PositiveProduct(p.phi * s.fy, p.jd);
    PositiveProduct(p.phi * s.fy * p.jd, d);
    PositiveProduct(0.85 * s.fcu, s.b);
  }

  /** Initial estimate As0 = Mu / (phi·fy·jd·d): the steel that resists Mu at
      the assumed lever arm jd·d. */
  function AciInitialSteel(s: Section, p: AciParams): (as0: real)
    requires ValidSection(s) && ValidAciParams(p)
    ensures 0.0 < as0
    ensures as0 * AciInitialDivisor(s, p) == MomentNmm(s.mu)
  {
    AciGuardsUnreachable(s, p);
    MomentNmm(s.mu) / AciInitialDivisor(s, p)
  }

  /** Stress-block depth a = As·fy / (0.85·fcu·b): the concrete block whose
      compression balances the steel's tension. */
  function BlockDepth(s: Section, area: real): (a: real)
    requires ValidSection(s)
    ensures a * BlockDivisor(s) == area * s.fy
    ensures 0.0 <= area ==> 0.0 <= a
  {
    PositiveProduct(0.85 * s.fcu, s.b);
    area * s.fy / BlockDivisor(s)
  }

  /** Lever arm z = d - a/2 with a from the initial estimate. */
  function AciLeverArm(s: Section, p: AciParams): (z: real)
    requires ValidSection(s) && ValidAciParams(p)
    ensures z < EffectiveDepth(s)
  {
    EffectiveDepth(s) - BlockDepth(s, AciInitialSteel(s, p)) / 2.0
  }

  /** Refined steel As = Mu / (phi·fy·z): it resists Mu at the lever arm z. */
  function AciSteel(s: Section, p: AciParams): (area: real)
    requires ValidSection(s) && ValidAciParams(p) && AciLeverArm(s, p) > 0.0
    ensures 0.0 < area
    ensures area * (p.phi * s.fy * AciLeverArm(s, p)) == MomentNmm(s.mu)
  {
    PositiveProduct(p.phi, s.fy);
    PositiveProduct(p.phi * s.fy, AciLeverArm(s, p));
    MomentNmm(s.mu) / (p.phi * s.fy * AciLeverArm(s, p))
  }

  /** ACI minimum steel max(0.25·√fcu/fy·b·d, 1.4/fy·b·d). */
  function AciMinSteel(s: Section, sqrt: real -> real): (asMin: real)
    requires ValidSection(s)
    ensures 0.0 < asMin
    ensures asMin >= 0.25 * sqrt(s.fcu) / s.fy * s.b * EffectiveDepth(s)
    ensures asMin >= 1.4 / s.fy * s.b * EffectiveDepth(s)
    ensures asMin == 0.25 * sqrt(s.fcu) / s.fy * s.b * EffectiveDepth(s) || asMin == 1.4 / s.fy * s.b * EffectiveDepth(s)
  {
    var d := EffectiveDepth(s);
    MinSteelTermPositive(1.4, s);
    Max(0.25 * sqrt(s.fcu) / s.fy * s.b * d, 1.4 / s.fy * s.b * d)
  }

  /** c/fy·b·d is positive for a positive coefficient c. */
  lemma MinSteelTermPositive(c: real, s: Section)
    requires ValidSection(s) && 0.0 < c
    ensures 0.0 < c / s.fy * s.b * EffectiveDepth(s)
  {
    PositiveProduct(c / s.fy, s.b);
    PositiveProduct(c / s.fy * s.b, EffectiveDepth(s));
  }

  // ---------------------------------------------------------------------
  // Governing steel and capacity (both codes)
  // ---------------------------------------------------------------------

  /** As_required = max(As_calc, As_min): the computed steel unless the code
      minimum is larger. */
  function RequiredSteel(asCalc: real, asMin: real): (r: real)
    ensures r >= asCalc && r >= asMin
    ensures r == asCalc || r == asMin
  {
    Max(asCalc, asMin)
  }

  /** The inputs a capacity rule needs for its divisions and signs. */
  predicate ValidRule(rule: CapacityRule)
  {
    match rule
    case AciRule(phi, fy, fcu, b, d) => phi > 0.0 && fy > 0.0 && fcu > 0.0 && b > 0.0 && d > 0.0
    case EcpRule(fy, jUsed, d) => fy > 0.0 && jUsed > 0.0 && d > 0.0
  }

  /** phi·As·fy·(d - a/2) in N·mm, with the stress block a = As·fy/q. */
  function AciMoment(phi: real, fy: real, q: real, d: real, area: real): real
    requires q != 0.0
  {
    phi * area * fy * (d - area * fy / q / 2.0)
  }

  /** The flexural capacity (kN·m) of a steel area under a code's rule:
      phi·As·fy·(d - a/2) with a = As·fy/(0.85·fcu·b) for ACI, As·fy·J·d for ECP. */
  function Capacity(rule: CapacityRule, area: real): real
    requires ValidRule(rule)
  {
    match rule
    case AciRule(phi, fy, fcu, b, d) =>
      PositiveProduct(0.85 * fcu, b);
      AciMoment(phi, fy, 0.85 * fcu * b, d, area) / NmmPerKNm
    case EcpRule(fy, jUsed, d) =>
      area * fy * jUsed * d / NmmPerKNm
  }

  /** The facts every successful run establishes about its result. */
  predicate SoundDesign(s: Section, r: DesignResult)
  {
    && ValidRule(r.rule)
    && r.asRequired == RequiredSteel(r.asCalc, r.asMin)
    && 0.0 < r.asRequired
    && r.capacity == Capacity(r.rule, r.asRequired)
    && (r.safe <==> r.capacity >= s.mu)
  }

  // ---------------------------------------------------------------------
  // Egyptian code, C1/J method
  // ---------------------------------------------------------------------

  /** Mu/(fcu·b) in mm², the radicand of C1. */
  function MomentRatio(s: Section): (ratio: real)
    requires ValidSection(s)
    ensures 0.0 < ratio
    ensures ratio * (s.fcu * s.b) == MomentNmm(s.mu)
  {
    PositiveProduct(s.fcu, s.b);
    MomentNmm(s.mu) / (s.fcu * s.b)
  }

  /** C1 = d / √(Mu/(fcu·b)). */
  function EcpC1(s: Section, sqrt: real -> real): (c1: real)
    requires ValidSection(s) && IsSqrt(sqrt)
    ensures 0.0 < c1
    ensures c1 * c1 * MomentRatio(s) == EffectiveDepth(s) * EffectiveDepth(s)
  {
    var root := sqrt(MomentRatio(s));
    SqrtPositive(sqrt, MomentRatio(s));
    var c1 := EffectiveDepth(s) / root;
    assert c1 * root == EffectiveDepth(s);
    assert c1 * c1 * (root * root) == EffectiveDepth(s) * EffectiveDepth(s);
    c1
  }

  /** disc = 0.25 - 1/(k2·C1²). */
  function Discriminant(c1: real, k2: real): real
    requires k2 * (c1 * c1) != 0.0
  {
    0.25 - 1.0 / (k2 * (c1 * c1))
  }

  /** J_raw = (1/k1)·(0.5 + √disc). */
  function JRaw(disc: real, k1: real, sqrt: real -> real): (j: real)
    requires k1 != 0.0 && 0.0 <= disc && IsSqrt(sqrt)
    ensures 0.0 < k1 ==> 0.5 / k1 <= j
    ensures k1 < 0.0 ==> j < 0.0
  {
    (1.0 / k1) * (0.5 + sqrt(disc))
  }

  /** J_used = min(J_raw, J_max). */
  function JUsed(jRaw: real, jMax: real): (j: real)
    ensures j <= jMax && j <= jRaw
    ensures j == jRaw || j == jMax
  {
    Min(jRaw, jMax)
  }

  /** As_calc = Mu / (fy·J·d): the steel that resists Mu at the lever arm J·d. */
  function EcpSteel(s: Section, jUsed: real): (area: real)
    requires ValidSection(s) && 0.0 < jUsed
    ensures 0.0 < area
    ensures area * (s.fy * jUsed * EffectiveDepth(s)) == MomentNmm(s.mu)
  {
    PositiveProduct(s.fy, jUsed);
    PositiveProduct(s.fy * jUsed, EffectiveDepth(s));
    MomentNmm(s.mu) / (s.fy * jUsed * EffectiveDepth(s))
  }

  /** ECP minimum steel max(0.6/fy·b·d, 0.225·√fcu/fy·b·d). */
  function EcpMinSteel(s: Section, sqrt: real -> real): (asMin: real)
    requires ValidSection(s)
    ensures 0.0 < asMin
    ensures asMin >= 0.6 / s.fy * s.b * EffectiveDepth(s)
    ensures asMin >= 0.225 * sqrt(s.fcu) / s.fy * s.b * EffectiveDepth(s)
    ensures asMin == 0.6 / s.fy * s.b * EffectiveDepth(s) || asMin == 0.225 * sqrt(s.fcu) / s.fy * s.b * EffectiveDepth(s)
  {
    var d := EffectiveDepth(s);
    MinSteelTermPositive(0.6, s);
    Max(0.6 / s.fy * s.b * d, 0.225 * sqrt(s.fcu) / s.fy * s.b * d)
  }

  // ---------------------------------------------------------------------
  // The calculation block
  // ---------------------------------------------------------------------

  /** The ECP run gets past both hard stops and both zero divisors:
      C1 >= C1min, k2 != 0, disc >= 0 and k1 != 0. */
  predicate EcpReachesJ(s: Section, q: EcpParams, sqrt: real -> real)
    requires ValidSection(s) && IsSqrt(sqrt)
  {
    var c1 := EcpC1(s, sqrt);
    c1 >= q.c1Min && q.k2 != 0.0 && Discriminant(c1, q.k2) >= 0.0 && q.k1 != 0.0
  }

  /** J_used of an ECP run that gets that far. */
  function EcpJUsed(s: Section, q: EcpParams, sqrt: real -> real): real
    requires ValidSection(s) && IsSqrt(sqrt) && EcpReachesJ(s, q, sqrt)
  {
    JUsed(JRaw(Discriminant(EcpC1(s, sqrt), q.k2), q.k1, sqrt), q.jMax)
  }

  /** The ECP run produces a design: it gets to J and passes fy·J_used·d > 0. */
  predicate EcpDesigns(s: Section, q: EcpParams, sqrt: real -> real)
    requires ValidSection(s) && IsSqrt(sqrt)
  {
    EcpReachesJ(s, q, sqrt) && s.fy * EcpJUsed(s, q, sqrt) * EffectiveDepth(s) > 0.0
  }

  /** What the ACI 318 branch does after the trace `calculations`: it never
      stops; it records the initial steel; it fails, with the lever-arm error,
      exactly when z = d - a/2 <= 0; otherwise it designs with
      As_calc = Mu/(phi·fy·z), the ACI minimum steel and the ACI capacity rule. */
  predicate AciOutcome(s: Section, p: AciParams, sqrt: real -> real, calculations: seq<Step>, out: Outcome)
    requires ValidSection(s) && ValidAciParams(p)
  {
    && !out.Stopped?
    && out.trace == calculations + [Step("2", "Initial As", [AciInitialSteel(s, p)])]
    && (out.Failed? <==> AciLeverArm(s, p) <= 0.0)
    && (out.Failed? ==> out.fault == LeverArmNotPositive)
    && (out.Designed? ==>
      && SoundDesign(s, out.result)
      && out.result.asCalc == AciSteel(s, p)
      && out.result.asMin == AciMinSteel(s, sqrt)
      && out.result.rule == AciRule(p.phi, s.fy, s.fcu, s.b, EffectiveDepth(s)))
  }

  /** What the ECP C1/J branch does after the trace `calculations`: it records
      C1; it stops when C1 < C1min, and when the discriminant is negative; it
      fails on a zero k2 or k1 and when fy·J_used·d <= 0; otherwise it designs
      with the full trace, 0 < J_used <= J_max, As_calc = Mu/(fy·J_used·d), the
      ECP minimum steel and the ECP capacity rule, and the design is SAFE. */
  predicate EcpOutcome(s: Section, q: EcpParams, sqrt: real -> real, calculations: seq<Step>, out: Outcome)
    requires ValidSection(s) && IsSqrt(sqrt)
  {
    var c1 := EcpC1(s, sqrt);
    && |out.trace| >= |calculations| + 1
    && out.trace[..|calculations| + 1] == calculations + [Step("2", "C1 (ECP)", [c1])]
    && (out.Stopped? ==> out.reason == C1BelowMinimum || out.reason == NegativeDiscriminant)
    && (out.Failed? ==> out.fault == DivisionByZero || out.fault == FyJdNotPositive)
    && ((out.Stopped? && out.reason == C1BelowMinimum) <==> c1 < q.c1Min)
    && ((out.Stopped? && out.reason == NegativeDiscriminant) <==>
          c1 >= q.c1Min && q.k2 != 0.0 && Discriminant(c1, q.k2) < 0.0)
    && ((out.Failed? && out.fault == DivisionByZero) <==>
          c1 >= q.c1Min && (q.k2 == 0.0 || (Discriminant(c1, q.k2) >= 0.0 && q.k1 == 0.0)))
    && ((out.Failed? && out.fault == FyJdNotPositive) <==>
          EcpReachesJ(s, q, sqrt) && s.fy * EcpJUsed(s, q, sqrt) * EffectiveDepth(s) <= 0.0)
    && (out.Designed? <==> EcpDesigns(s, q, sqrt))
    && (out.Designed? ==>
      && EcpReachesJ(s, q, sqrt)
      && var disc := Discriminant(c1, q.k2);
      && var jRaw := JRaw(disc, q.k1, sqrt);
      && var jUsed := JUsed(jRaw, q.jMax);
      && 0.0 < jUsed <= q.jMax
      && out.trace == calculations + [
           Step("2", "C1 (ECP)", [c1]),
           Step("3", "Discriminant", [disc]),
           Step("4", "J (raw / used)", [jRaw, jUsed])]
      && out.result.asCalc == EcpSteel(s, jUsed)
      && out.result.asMin == EcpMinSteel(s, sqrt)
      && out.result.rule == EcpRule(s.fy, jUsed, EffectiveDepth(s))
      && SoundDesign(s, out.result)
      && out.result.safe)
  }

  /** One run of the application: validate, record d, then dispatch on the code. */
  method DesignSection(s: Section, code: DesignCode, sqrt: real -> real) returns (out: Outcome)
    requires IsSqrt(sqrt)
    ensures !ValidSection(s) ==> out == Stopped(InvalidInputs, [])
    ensures (out.Stopped? && out.reason == InvalidInputs) <==> !ValidSection(s)
    ensures ValidSection(s) && code.Aci? && !ValidAciParams(code.aci) ==> out == Stopped(InvalidAciParameters, [])
    ensures (out.Stopped? && out.reason == InvalidAciParameters) <==>
      ValidSection(s) && code.Aci? && !ValidAciParams(code.aci)
    ensures ValidSection(s) && code.Aci? && ValidAciParams(code.aci) ==>
      AciOutcome(s, code.aci, sqrt, [DepthStep(s)], out)
    ensures ValidSection(s) && code.Ecp? ==> EcpOutcome(s, code.ecp, sqrt, [DepthStep(s)], out)
    ensures out.Designed? ==> ValidSection(s) && SoundDesign(s, out.result)
    ensures out.Designed? && code.Ecp? ==> out.result.safe
  {
    if !ValidSection(s) {
      return Stopped(InvalidInputs, []);
    }
    if code.Aci? && !ValidAciParams(code.aci) {
      return Stopped(InvalidAciParameters, []);
    }
    var d := EffectiveDepth(s);
    var calculations := [Step("1", "Effective Depth", [d])];
    match code
    case Aci(p) =>
      out := DesignAci(s, p, sqrt, calculations);
    case Ecp(q) =>
      out := DesignEcp(s, q, sqrt, calculations);
  }

  /** The ACI 318 branch, entered with the trace so far. */
  method DesignAci(s: Section, p: AciParams, sqrt: real -> real, calculations: seq<Step>) returns (out: Outcome)
    requires ValidSection(s) && ValidAciParams(p)
    ensures AciOutcome(s, p, sqrt, calculations, out)
  {
    var d := EffectiveDepth(s);
    AciGuardsUnreachable(s, p);
    var denom0 := AciInitialDivisor(s, p);
    if denom0 <= 0.0 {
      return Failed(PhiFyJdDNotPositive, calculations);
    }
    var as0 := AciInitialSteel(s, p);
    var trace := calculations + [Step("2", "Initial As", [as0])];
    var denomA := BlockDivisor(s);
    if denomA <= 0.0 {
      return Failed(BlockDenominatorNotPositive, trace);
    }
    var z := AciLeverArm(s, p);
    if z <= 0.0 {
      return Failed(LeverArmNotPositive, trace);
    }
    var asCalc := AciSteel(s, p);
    var asMin := AciMinSteel(s, sqrt);
    var asRequired := RequiredSteel(asCalc, asMin);
    var rule := AciRule(p.phi, s.fy, s.fcu, s.b, d);
    var phiMn := Capacity(rule, asRequired);
    var capacitySafe := phiMn >= s.mu;
    out := Designed(trace, DesignResult(asCalc, asMin, asRequired, phiMn, capacitySafe, rule));
  }

  /** The ECP C1/J branch, entered with the trace so far. */
  method DesignEcp(s: Section, q: EcpParams, sqrt: real -> real, calculations: seq<Step>) returns (out: Outcome)
    requires ValidSection(s) && IsSqrt(sqrt)
    ensures EcpOutcome(s, q, sqrt, calculations, out)
  {
    var d := EffectiveDepth(s);
    PositiveProduct(s.fcu, s.b);
    var denom := s.fcu * s.b;
    if denom <= 0.0 {
      return Failed(FcuBNotPositive, calculations);
    }
    var inside := MomentRatio(s);
    if inside <= 0.0 {
      return Failed(MomentRatioNotPositive, calculations);
    }
    var c1 := EcpC1(s, sqrt);
    var trace := calculations + [Step("2", "C1 (ECP)", [c1])];
    if c1 < q.c1Min {
      return Stopped(C1BelowMinimum, trace);
    }
    ZeroDivisorOfDiscriminant(c1, q.k2);
    if q.k2 * (c1 * c1) == 0.0 {
      return Failed(DivisionByZero, trace);
    }
    var disc := Discriminant(c1, q.k2);
    trace := trace + [Step("3", "Discriminant", [disc])];
    if disc < 0.0 {
      return Stopped(NegativeDiscriminant, trace);
    }
    if q.k1 == 0.0 {
      return Failed(DivisionByZero, trace);
    }
    var jRaw := JRaw(disc, q.k1, sqrt);
    var jUsed := JUsed(jRaw, q.jMax);
    trace := trace + [Step("4", "J (raw / used)", [jRaw, jUsed])];
    var denomAs := s.fy * jUsed * d;
    if denomAs <= 0.0 {
      return Failed(FyJdNotPositive, trace);
    }
    JUsedPositive(s, jUsed, denomAs);
    var asCalc := EcpSteel(s, jUsed);
    var asMin := EcpMinSteel(s, sqrt);
    var asRequired := RequiredSteel(asCalc, asMin);
    var rule := EcpRule(s.fy, jUsed, d);
    var mn := Capacity(rule, asRequired);
    var capacitySafe := mn >= s.mu;
    EcpDesignIsSafe(s, jUsed, asRequired);
    out := Designed(trace, DesignResult(asCalc, asMin, asRequired, mn, capacitySafe, rule));
  }

  /** With C1 > 0 the divisor k2·C1² of the discriminant is zero exactly when k2 is. */
  lemma ZeroDivisorOfDiscriminant(c1: real, k2: real)
    requires 0.0 < c1
    ensures k2 * (c1 * c1) == 0.0 <==> k2 == 0.0
  {
    var cc := c1 * c1;
    SquareStrictlyMonotone(0.0, c1);
    assert 0.0 < cc;
    if 0.0 < k2 {
      PositiveProduct(k2, cc);
    } else if k2 < 0.0 {
      PositiveProduct(-k2, cc);
    }
  }

  /** fy·J·d > 0 on validated inputs means J > 0. */
  lemma JUsedPositive(s: Section, jUsed: real, divisor: real)
    requires ValidSection(s) && divisor == s.fy * jUsed * EffectiveDepth(s) && 0.0 < divisor
    ensures 0.0 < jUsed
  {
    var fd := s.fy * EffectiveDepth(s);
    PositiveProduct(s.fy, EffectiveDepth(s));
    assert divisor == fd * jUsed;
    assert jUsed == divisor / fd;
  }

  // ---------------------------------------------------------------------
  // Properties
  // ---------------------------------------------------------------------

  /** With exact arithmetic the ECP capacity check cannot fail: any steel at
      least As_calc = Mu/(fy·J·d) gives Mn = As·fy·J·d >= Mu. */
  lemma EcpDesignIsSafe(s: Section, jUsed: real, area: real)
    requires ValidSection(s) && 0.0 < jUsed && area >= EcpSteel(s, jUsed)
    ensures Capacity(EcpRule(s.fy, jUsed, EffectiveDepth(s)), area) >= s.mu
  {
    var d := EffectiveDepth(s);
    var k := s.fy * jUsed * d;
    PositiveProduct(s.fy, jUsed);
    PositiveProduct(s.fy * jUsed, d);
    var asCalc := EcpSteel(s, jUsed);
    var lo, hi := asCalc * k, area * k;
    assert lo <= hi;
    assert area * s.fy * jUsed * d == hi;
    assert lo == MomentNmm(s.mu);
  }

  /** The ACI capacity of an area is phi·As·fy times the lever arm left by that
      area's own stress block, d - a/2. */
  lemma AciCapacityAtOwnLeverArm(s: Section, p: AciParams, area: real)
    requires ValidSection(s) && ValidAciParams(p)
    ensures Capacity(AciRule(p.phi, s.fy, s.fcu, s.b, EffectiveDepth(s)), area) * NmmPerKNm
         == p.phi * area * s.fy * (EffectiveDepth(s) - BlockDepth(s, area) / 2.0)
  {
  }

  /** A deeper stress block comes from more steel, and only from more steel. */
  lemma BlockDepthOrder(s: Section, x: real, y: real)
    requires ValidSection(s)
    ensures BlockDepth(s, x) <= BlockDepth(s, y) <==> x <= y
  {
    var a, b := BlockDepth(s, x), BlockDepth(s, y);
    PositiveProduct(0.85 * s.fcu, s.b);
    var aD, bD := a * BlockDivisor(s), b * BlockDivisor(s);
    ScaleOrder(a, b, BlockDivisor(s));
    ScaleOrder(x, y, s.fy);
    assert aD == x * s.fy && bD == y * s.fy;
  }

  /** As_calc is at most As0 exactly when the refined lever arm z is at least
      the assumed jd·d: both resist the same moment. */
  lemma AciSteelVersusInitial(s: Section, p: AciParams)
    requires ValidSection(s) && ValidAciParams(p) && AciLeverArm(s, p) > 0.0
    ensures AciSteel(s, p) <= AciInitialSteel(s, p) <==> p.jd * EffectiveDepth(s) <= AciLeverArm(s, p)
  {
    AciGuardsUnreachable(s, p);
    PositiveProduct(p.phi, s.fy);
    SameMomentOrder(AciSteel(s, p), AciInitialSteel(s, p), p.phi * s.fy, AciLeverArm(s, p),
      p.jd * EffectiveDepth(s), MomentNmm(s.mu));
  }

  /** Two steel areas that resist the same moment at lever arms z and jdd:
      the smaller area goes with the longer lever arm. */
  lemma SameMomentOrder(area: real, area0: real, k: real, z: real, jdd: real, m: real)
    requires 0.0 < area && 0.0 < area0 && 0.0 < k && 0.0 < z
    requires area * (k * z) == m && area0 * (k * jdd) == m
    ensures area <= area0 <==> jdd <= z
  {
    var kz, kj := k * z, k * jdd;
    assert 0.0 < kz;
    assert 0.0 < kj;
    BalancedProducts(area, kz, area0, kj);
    ScaleOrder(jdd, z, k);
    assert kz == z * k && kj == jdd * k;
  }

  /** Comparing a capacity with the demand, both written as k times a lever arm. */
  lemma CapacityVersusDemand(capacity: real, mu: real, k: real, zCapacity: real, zDemand: real)
    requires 0.0 < k
    requires capacity * NmmPerKNm == k * zCapacity && mu * NmmPerKNm == k * zDemand
    ensures capacity >= mu <==> zCapacity >= zDemand
  {
    ScaleOrder(mu, capacity, NmmPerKNm);
    ScaleOrder(zDemand, zCapacity, k);
  }

  /** When the computed steel governs, the ACI verdict is SAFE exactly when the
      refined lever arm z = d - a/2 is at least the assumed jd·d: a shorter z
      makes As_calc exceed As0, so the final stress block is deeper than the
      one As_calc was sized with, and phi·Mn falls below Mu. */
  lemma AciVerdictFollowsLeverArm(s: Section, p: AciParams, sqrt: real -> real)
    requires ValidSection(s) && ValidAciParams(p) && AciLeverArm(s, p) > 0.0
    requires AciMinSteel(s, sqrt) <= AciSteel(s, p)
    ensures
      var rule := AciRule(p.phi, s.fy, s.fcu, s.b, EffectiveDepth(s));
      var capacity := Capacity(rule, RequiredSteel(AciSteel(s, p), AciMinSteel(s, sqrt)));
      capacity >= s.mu <==> AciLeverArm(s, p) >= p.jd * EffectiveDepth(s)
  {
    var d := EffectiveDepth(s);
    var rule := AciRule(p.phi, s.fy, s.fcu, s.b, d);
    var area, area0 := AciSteel(s, p), AciInitialSteel(s, p);
    var z := AciLeverArm(s, p);
    assert RequiredSteel(area, AciMinSteel(s, sqrt)) == area;
    var k := p.phi * area * s.fy;
    PositiveProduct(p.phi, area);
    PositiveProduct(p.phi * area, s.fy);
    var zFinal := d - BlockDepth(s, area) / 2.0;
    AciCapacityAtOwnLeverArm(s, p, area);
    assert MomentNmm(s.mu) == k * z;
    CapacityVersusDemand(Capacity(rule, area), s.mu, k, zFinal, z);
    BlockDepthOrder(s, area, area0);
    AciSteelVersusInitial(s, p);
  }

  /** The C1 stop needs no square root: C1 < C1min exactly when
      d² < C1min²·Mu/(fcu·b). */
  lemma C1StopCriterion(s: Section, sqrt: real -> real, c1Min: real)
    requires ValidSection(s) && IsSqrt(sqrt) && 0.0 <= c1Min
    ensures EcpC1(s, sqrt) < c1Min <==> EffectiveDepth(s) * EffectiveDepth(s) < c1Min * c1Min * MomentRatio(s)
  {
    var c1 := EcpC1(s, sqrt);
    if c1 < c1Min {
      SquareStrictlyMonotone(c1, c1Min);
    } else if c1Min < c1 {
      SquareStrictlyMonotone(c1Min, c1);
    }
    ScaleOrder(c1Min * c1Min, c1 * c1, MomentRatio(s));
  }

  /** For k2 > 0 the discriminant is non-negative exactly when k2·C1² >= 4,
      and it always stays below 0.25. */
  lemma DiscriminantCriterion(c1: real, k2: real)
    requires 0.0 < k2 && c1 != 0.0
    ensures k2 * (c1 * c1) != 0.0
    ensures Discriminant(c1, k2) >= 0.0 <==> k2 * (c1 * c1) >= 4.0
    ensures Discriminant(c1, k2) < 0.25
  {
    var cc := c1 * c1;
    assert 0.0 < cc;
    PositiveProduct(k2, cc);
    var t := k2 * cc;
    ScaleOrder(1.0 / t, 0.25, t);
  }

  /** With the default constants (k1 = 1.15, J_max = 0.95) and k2 > 0 the cap
      never binds: J_raw stays below 1/1.15, under 0.95. */
  lemma DefaultCapNeverBinds(c1: real, k2: real, sqrt: real -> real)
    requires 0.0 < k2 && c1 != 0.0 && IsSqrt(sqrt)
    requires k2 * (c1 * c1) != 0.0 && Discriminant(c1, k2) >= 0.0
    ensures
      var jRaw := JRaw(Discriminant(c1, k2), DefaultEcpParams.k1, sqrt);
      jRaw < DefaultEcpParams.jMax && JUsed(jRaw, DefaultEcpParams.jMax) == jRaw
  {
    var disc := Discriminant(c1, k2);
    DiscriminantCriterion(c1, k2);
    var r := sqrt(disc);
    assert 0.0 <= r && r * r == disc;
    SquareMonotone(r, 0.5);
    assert r < 0.5;
    ScaleOrder(0.5 + r, 1.0, 1.0 / 1.15);
  }

  /** A larger Mu gives a smaller C1: raising the moment can only move the
      ECP check towards its stop. */
  lemma C1ShrinksWithMoment(s: Section, mu: real, sqrt: real -> real)
    requires ValidSection(s) && IsSqrt(sqrt) && s.mu <= mu
    ensures ValidSection(s.(mu := mu))
    ensures EcpC1(s.(mu := mu), sqrt) <= EcpC1(s, sqrt)
  {
    var t := s.(mu := mu);
    MomentRatioGrows(s, mu);
    assert EffectiveDepth(t) == EffectiveDepth(s);
    SmallerRootForLargerRatio(EcpC1(s, sqrt), EcpC1(t, sqrt), MomentRatio(s), MomentRatio(t),
      EffectiveDepth(s) * EffectiveDepth(s));
  }

  /** A larger Mu gives a larger Mu/(fcu·b). */
  lemma MomentRatioGrows(s: Section, mu: real)
    requires ValidSection(s) && s.mu <= mu
    ensures ValidSection(s.(mu := mu))
    ensures MomentRatio(s) <= MomentRatio(s.(mu := mu))
  {
    var t := s.(mu := mu);
    PositiveProduct(s.fcu, s.b);
    RatioOrder(MomentRatio(s), MomentRatio(t), s.fcu * s.b, MomentNmm(s.mu), MomentNmm(mu));
  }

  /** Two ratios of ordered numerators over the same positive divisor are ordered alike. */
  lemma RatioOrder(rs: real, rt: real, k: real, ms: real, mt: real)
    requires 0.0 < k && rs * k == ms && rt * k == mt && ms <= mt
    ensures rs <= rt
  {
    ScaleOrder(rs, rt, k);
  }

  /** Two positive roots of the same square d², scaled by two ratios: the larger
      ratio has the smaller root. */
  lemma SmallerRootForLargerRatio(cs: real, ct: real, rs: real, rt: real, dd: real)
    requires 0.0 < cs && 0.0 < ct && 0.0 < rs <= rt
    requires cs * cs * rs == dd && ct * ct * rt == dd
    ensures ct <= cs
  {
    if cs < ct {
      SquareStrictlyMonotone(cs, ct);
      var css, ctt := cs * cs, ct * ct;
      ScaleOrder(css, ctt, rs);
      ScaleOrder(rs, rt, ctt);
    }
  }

  /** A larger Mu never lowers the ACI steel As_calc. */
  lemma AciSteelGrowsWithMoment(s: Section, mu: real, p: AciParams)
    requires ValidSection(s) && ValidAciParams(p) && s.mu <= mu
    requires AciLeverArm(s.(mu := mu), p) > 0.0
    ensures AciLeverArm(s, p) >= AciLeverArm(s.(mu := mu), p)
    ensures AciSteel(s, p) <= AciSteel(s.(mu := mu), p)
  {
    var t := s.(mu := mu);
    AciLeverArmShrinksWithMoment(s, mu, p);
    var zs, zt := AciLeverArm(s, p), AciLeverArm(t, p);
    var k := p.phi * s.fy;
    PositiveProduct(p.phi, s.fy);
    var areaS, areaT := AciSteel(s, p), AciSteel(t, p);
    var ms, mt := MomentNmm(s.mu), MomentNmm(mu);
    assert areaS * (k * zs) == ms && areaT * (k * zt) == mt && ms <= mt;
    SteelForLargerMoment(areaS, areaT, k, zs, zt, ms, mt);
  }

  /** A larger Mu gives a larger As0, a deeper stress block and a shorter z. */
  lemma AciLeverArmShrinksWithMoment(s: Section, mu: real, p: AciParams)
    requires ValidSection(s) && ValidAciParams(p) && s.mu <= mu
    ensures ValidSection(s.(mu := mu))
    ensures AciLeverArm(s.(mu := mu), p) <= AciLeverArm(s, p)
  {
    var t := s.(mu := mu);
    AciGuardsUnreachable(s, p);
    var divisor := AciInitialDivisor(s, p);
    assert AciInitialDivisor(t, p) == divisor;
    var a0s, a0t := AciInitialSteel(s, p), AciInitialSteel(t, p);
    assert a0s * divisor == MomentNmm(s.mu);
    assert a0t * divisor == MomentNmm(mu);
    RatioOrder(a0s, a0t, divisor, MomentNmm(s.mu), MomentNmm(mu));
    BlockDepthOrder(s, a0s, a0t);
    assert BlockDepth(t, a0t) == BlockDepth(s, a0t);
  }

  /** Steel resisting a larger moment at a shorter lever arm is larger. */
  lemma SteelForLargerMoment(x: real, y: real, k: real, zx: real, zy: real, mx: real, my: real)
    requires 0.0 < x && 0.0 < y && 0.0 < k && 0.0 < zy <= zx && mx <= my
    requires x * (k * zx) == mx && y * (k * zy) == my
    ensures x <= y
  {
    var kx, ky := k * zx, k * zy;
    ScaleOrder(zy, zx, k);
    assert ky == zy * k && kx == zx * k;
    var yky, ykx := y * ky, y * kx;
    ScaleOrder(ky, kx, y);
    assert yky == ky * y && ykx == kx * y;
    ScaleOrder(x, y, kx);
  }

  /** A larger Mu never lowers the ACI As_required: As_calc grows and the
      minimum steel does not depend on Mu. */
  lemma AciRequiredGrowsWithMoment(s: Section, mu: real, p: AciParams, sqrt: real -> real)
    requires ValidSection(s) && ValidAciParams(p) && s.mu <= mu
    requires AciLeverArm(s.(mu := mu), p) > 0.0
    ensures AciLeverArm(s, p) > 0.0
    ensures RequiredSteel(AciSteel(s, p), AciMinSteel(s, sqrt))
         <= RequiredSteel(AciSteel(s.(mu := mu), p), AciMinSteel(s.(mu := mu), sqrt))
  {
    AciSteelGrowsWithMoment(s, mu, p);
    AciMinSteelIgnoresMoment(s, mu, sqrt);
    RequiredSteelGrows(AciSteel(s, p), AciSteel(s.(mu := mu), p), AciMinSteel(s, sqrt));
  }

  /** The ACI minimum steel does not depend on Mu. */
  lemma AciMinSteelIgnoresMoment(s: Section, mu: real, sqrt: real -> real)
    requires ValidSection(s) && s.mu <= mu
    ensures ValidSection(s.(mu := mu))
    ensures AciMinSteel(s.(mu := mu), sqrt) == AciMinSteel(s, sqrt)
  {
    assert EffectiveDepth(s.(mu := mu)) == EffectiveDepth(s);
  }

  /** The ECP minimum steel does not depend on Mu. */
  lemma EcpMinSteelIgnoresMoment(s: Section, mu: real, sqrt: real -> real)
    requires ValidSection(s) && s.mu <= mu
    ensures ValidSection(s.(mu := mu))
    ensures EcpMinSteel(s.(mu := mu), sqrt) == EcpMinSteel(s, sqrt)
  {
    assert EffectiveDepth(s.(mu := mu)) == EffectiveDepth(s);
  }

  /** As_required grows with As_calc for a fixed minimum. */
  lemma RequiredSteelGrows(small: real, large: real, asMin: real)
    requires small <= large
    ensures RequiredSteel(small, asMin) <= RequiredSteel(large, asMin)
  {
  }

  /** 1/x is antitone on the positive reals. */
  lemma ReciprocalOrder(x: real, y: real)
    requires 0.0 < x <= y
    ensures 1.0 / y <= 1.0 / x
  {
    var xy := x * y;
    PositiveProduct(x, y);
    assert (1.0 / y) * xy == x && (1.0 / x) * xy == y;
    ScaleOrder(1.0 / y, 1.0 / x, xy);
  }

  /** For k2 > 0 a larger C1 gives a larger discriminant. */
  lemma DiscriminantGrowsWithC1(small: real, large: real, k2: real)
    requires 0.0 < small <= large && 0.0 < k2
    ensures k2 * (small * small) != 0.0 && k2 * (large * large) != 0.0
    ensures Discriminant(small, k2) <= Discriminant(large, k2)
  {
    var ss, ll := small * small, large * large;
    SquareStrictlyMonotone(0.0, small);
    if small < large {
      SquareStrictlyMonotone(small, large);
    }
    assert 0.0 < ss <= ll;
    ScaleOrder(ss, ll, k2);
    PositiveProduct(ss, k2);
    assert ss * k2 == k2 * ss && ll * k2 == k2 * ll;
    ReciprocalOrder(k2 * ss, k2 * ll);
  }

  /** For k1, k2 > 0 a larger Mu never raises the ECP J_used: C1 falls, and
      with it the discriminant, its root and J_raw. A run that gets to J at the
      larger moment gets there at the smaller one too. */
  lemma EcpJUsedShrinksWithMoment(s: Section, mu: real, q: EcpParams, sqrt: real -> real)
    requires ValidSection(s) && IsSqrt(sqrt) && s.mu <= mu && 0.0 < q.k1 && 0.0 < q.k2
    requires EcpReachesJ(s.(mu := mu), q, sqrt)
    ensures EcpReachesJ(s, q, sqrt)
    ensures EcpJUsed(s.(mu := mu), q, sqrt) <= EcpJUsed(s, q, sqrt)
  {
    var t := s.(mu := mu);
    C1ShrinksWithMoment(s, mu, sqrt);
    var cs, ct := EcpC1(s, sqrt), EcpC1(t, sqrt);
    DiscriminantGrowsWithC1(ct, cs, q.k2);
    JRawOrder(Discriminant(ct, q.k2), Discriminant(cs, q.k2), q.k1, sqrt);
  }

  /** For k1 > 0, J_raw grows with the discriminant. */
  lemma JRawOrder(small: real, large: real, k1: real, sqrt: real -> real)
    requires 0.0 <= small <= large && 0.0 < k1 && IsSqrt(sqrt)
    ensures JRaw(small, k1, sqrt) <= JRaw(large, k1, sqrt)
  {
    var rs, rl := sqrt(small), sqrt(large);
    assert rs * rs == small && rl * rl == large && 0.0 <= rs && 0.0 <= rl;
    SquareMonotone(rs, rl);
    var inv := 1.0 / k1;
    ScaleOrder(0.5 + rs, 0.5 + rl, inv);
    assert inv * (0.5 + rs) == (0.5 + rs) * inv && inv * (0.5 + rl) == (0.5 + rl) * inv;
  }

  /** For k1, k2 > 0, a run that designs at the larger moment designs at the
      smaller one too, with a J_used at least as large. */
  lemma EcpDesignsAtSmallerMoment(s: Section, mu: real, q: EcpParams, sqrt: real -> real)
    requires ValidSection(s) && IsSqrt(sqrt) && s.mu <= mu && 0.0 < q.k1 && 0.0 < q.k2
    requires EcpDesigns(s.(mu := mu), q, sqrt)
    ensures EcpDesigns(s, q, sqrt)
    ensures 0.0 < EcpJUsed(s.(mu := mu), q, sqrt) <= EcpJUsed(s, q, sqrt)
  {
    var t := s.(mu := mu);
    var d := EffectiveDepth(s);
    assert EffectiveDepth(t) == d;
    EcpJUsedShrinksWithMoment(s, mu, q, sqrt);
    var js, jt := EcpJUsed(s, q, sqrt), EcpJUsed(t, q, sqrt);
    var divisor := t.fy * jt * d;
    assert 0.0 < divisor;
    JUsedPositive(t, jt, divisor);
    assert 0.0 < jt <= js;
    PositiveProduct(s.fy, js);
    PositiveProduct(s.fy * js, d);
  }

  /** For k1, k2 > 0 a larger Mu never lowers the ECP As_calc or As_required,
      whenever the run at the larger moment designs. */
  lemma EcpRequiredGrowsWithMoment(s: Section, mu: real, q: EcpParams, sqrt: real -> real)
    requires ValidSection(s) && IsSqrt(sqrt) && s.mu <= mu && 0.0 < q.k1 && 0.0 < q.k2
    requires EcpDesigns(s.(mu := mu), q, sqrt)
    ensures EcpDesigns(s, q, sqrt)
    ensures 0.0 < EcpJUsed(s, q, sqrt) && 0.0 < EcpJUsed(s.(mu := mu), q, sqrt)
    ensures EcpSteel(s, EcpJUsed(s, q, sqrt)) <= EcpSteel(s.(mu := mu), EcpJUsed(s.(mu := mu), q, sqrt))
    ensures RequiredSteel(EcpSteel(s, EcpJUsed(s, q, sqrt)), EcpMinSteel(s, sqrt))
         <= RequiredSteel(EcpSteel(s.(mu := mu), EcpJUsed(s.(mu := mu), q, sqrt)), EcpMinSteel(s.(mu := mu), sqrt))
  {
    var t := s.(mu := mu);
    EcpDesignsAtSmallerMoment(s, mu, q, sqrt);
    var js, jt := EcpJUsed(s, q, sqrt), EcpJUsed(t, q, sqrt);
    EcpSteelForSmallerJ(s, mu, js, jt);
    EcpMinSteelIgnoresMoment(s, mu, sqrt);
    RequiredSteelGrows(EcpSteel(s, js), EcpSteel(t, jt), EcpMinSteel(s, sqrt));
  }

  /** Steel for a larger Mu at a shorter lever arm J·d is larger. */
  lemma EcpSteelForSmallerJ(s: Section, mu: real, js: real, jt: real)
    requires ValidSection(s) && s.mu <= mu && 0.0 < jt <= js
    ensures ValidSection(s.(mu := mu))
    ensures EcpSteel(s, js) <= EcpSteel(s.(mu := mu), jt)
  {
    var t := s.(mu := mu);
    var d := EffectiveDepth(s);
    assert EffectiveDepth(t) == d;
    PositiveProduct(jt, d);
    ScaleOrder(jt, js, d);
    var zs, zt := js * d, jt * d;
    var areaS, areaT := EcpSteel(s, js), EcpSteel(t, jt);
    assert areaS * (s.fy * zs) == MomentNmm(s.mu);
    assert areaT * (s.fy * zt) == MomentNmm(mu);
    SteelForLargerMoment(areaS, areaT, s.fy, zs, zt, MomentNmm(s.mu), MomentNmm(mu));
  }

  /** More steel never lowers the ECP capacity. */
  lemma EcpCapacityMonotone(rule: CapacityRule, x: real, y: real)
    requires rule.EcpRule? && ValidRule(rule) && x <= y
    ensures Capacity(rule, x) <= Capacity(rule, y)
  {
    var k := rule.fy * rule.jUsed * rule.d;
    PositiveProduct(rule.fy, rule.jUsed);
    PositiveProduct(rule.fy * rule.jUsed, rule.d);
    ScaleOrder(x, y, k);
    assert x * rule.fy * rule.jUsed * rule.d == x * k;
    assert y * rule.fy * rule.jUsed * rule.d == y * k;
  }

  /** Under an ACI rule, the stress block a = As·fy/(0.85·fcu·b) of `area`
      is no deeper than d. */
  predicate BlockWithinDepth(rule: CapacityRule, area: real)
    requires rule.AciRule? && ValidRule(rule)
  {
    area * rule.fy / (0.85 * rule.fcu * rule.b) <= rule.d
  }

  /** More steel never lowers the ACI capacity as long as the larger area's
      stress block a = As·fy/(0.85·fcu·b) stays within d. */
  lemma AciCapacityMonotone(rule: CapacityRule, x: real, y: real)
    requires rule.AciRule? && ValidRule(rule) && 0.0 <= x <= y
    requires BlockWithinDepth(rule, y)
    ensures Capacity(rule, x) <= Capacity(rule, y)
  {
    var AciRule(phi, fy, fcu, b, d) := rule;
    var divisor := 0.85 * fcu * b;
    PositiveProduct(0.85 * fcu, b);
    AciMomentOrder(phi, fy, divisor, d, x, y);
  }

  /** phi·As·fy·(d - a/2), with a = As·fy/q, grows with As while a stays within d. */
  lemma AciMomentOrder(phi: real, fy: real, q: real, d: real, x: real, y: real)
    requires 0.0 < phi && 0.0 < fy && 0.0 < q && 0.0 <= x <= y && y * fy / q <= d
    ensures AciMoment(phi, fy, q, d, x) <= AciMoment(phi, fy, q, d, y)
  {
    var g := fy / q;
    assert 0.0 < g;
    var ax, ay := x * fy / q, y * fy / q;
    assert ax == x * g && ay == y * g;
    ScaleOrder(x, y, g);
    var lx, ly := d - ax / 2.0, d - ay / 2.0;
    var mx, my := x * lx, y * ly;
    LeverMomentOrder(x, y, ax, ay, d);
    var c := phi * fy;
    PositiveProduct(phi, fy);
    ScaleOrder(mx, my, c);
    assert phi * x * fy * lx == mx * c;
    assert phi * y * fy * ly == my * c;
  }

  /** x·(d - ax/2) grows with x while the blocks ax <= ay, proportional to
      x <= y, stay within d. */
  lemma LeverMomentOrder(x: real, y: real, ax: real, ay: real, d: real)
    requires 0.0 <= x <= y && ax <= ay <= d && x * ay == y * ax
    ensures x * (d - ax / 2.0) <= y * (d - ay / 2.0)
  {
    assert y * (d - ay / 2.0) - x * (d - ax / 2.0) == (y - x) * (d - (ax + ay) / 2.0);
    assert 0.0 <= d - (ax + ay) / 2.0;
  }

  // ---------------------------------------------------------------------
  // Worked examples: a 250 x 500 mm section, cover 40 mm (d = 460 mm),
  // fy = 420 MPa, fcu = 25 MPa
  // ---------------------------------------------------------------------

  /** The example section under an ultimate moment of `mu` kN·m. */
  function ExampleSection(mu: real): Section
  {
    Section(420.0, 25.0, mu, 250.0, 500.0, 40.0)
  }

  /** The square root of 25 is 5. */
  lemma SqrtOfTwentyFive(sqrt: real -> real)
    requires IsSqrt(sqrt)
    ensures sqrt(25.0) == 5.0
  {
    var r := sqrt(25.0);
    assert 0.0 <= r && r * r == 25.0;
    SquareMonotone(r, 5.0);
    SquareMonotone(5.0, r);
  }

  /** ECP with the default constants, Mu = 100 kN·m: C1² = 13.225, so the C1
      check passes (C1 ≈ 3.64 >= 2.76) and the discriminant is non-negative. */
  lemma EcpExampleProceeds(sqrt: real -> real)
    requires IsSqrt(sqrt)
    ensures
      var c1 := EcpC1(ExampleSection(100.0), sqrt);
      && c1 >= DefaultEcpParams.c1Min
      && DefaultEcpParams.k2 * (c1 * c1) != 0.0
      && Discriminant(c1, DefaultEcpParams.k2) >= 0.0
  {
    var s := ExampleSection(100.0);
    assert MomentRatio(s) == 16000.0;
    C1StopCriterion(s, sqrt, DefaultEcpParams.c1Min);
    var c1 := EcpC1(s, sqrt);
    assert c1 * c1 == 13.225;
    DiscriminantCriterion(c1, DefaultEcpParams.k2);
  }

  /** ECP with the default constants, Mu = 400 kN·m on the same section: C1 < 2.76,
      so the method stops. */
  lemma EcpExampleStops(sqrt: real -> real)
    requires IsSqrt(sqrt)
    ensures EcpC1(ExampleSection(400.0), sqrt) < DefaultEcpParams.c1Min
  {
    var s := ExampleSection(400.0);
    assert MomentRatio(s) == 64000.0;
    C1StopCriterion(s, sqrt, DefaultEcpParams.c1Min);
  }

  /** ACI with phi = 0.9, jd = 0.9, Mu = 100 kN·m: z ≈ 434.7 mm >= jd·d = 414 mm,
      As_calc ≈ 608 mm² governs over As_min ≈ 383 mm², and the section is SAFE. */
  lemma AciExampleSafe(sqrt: real -> real)
    requires IsSqrt(sqrt)
    ensures
      var s, p := ExampleSection(100.0), AciParams(0.9, 0.9, 0.85);
      && AciLeverArm(s, p) > 0.0
      && AciMinSteel(s, sqrt) < AciSteel(s, p)
      && Capacity(AciRule(p.phi, s.fy, s.fcu, s.b, EffectiveDepth(s)),
                  RequiredSteel(AciSteel(s, p), AciMinSteel(s, sqrt))) >= s.mu
  {
    var s, p := ExampleSection(100.0), AciParams(0.9, 0.9, 0.85);
    SqrtOfTwentyFive(sqrt);
    assert AciInitialDivisor(s, p) == 156492.0;
    assert 434.0 < AciLeverArm(s, p) < 435.0;
    assert AciMinSteel(s, sqrt) < 384.0;
    assert AciSteel(s, p) > 600.0;
    AciVerdictFollowsLeverArm(s, p, sqrt);
  }

  /** ACI with phi = 0.9, jd = 0.95 (the largest jd offered), Mu = 100 kN·m:
      z ≈ 436.07 mm falls short of jd·d = 437 mm, so the freshly designed section
      is reported UNSAFE. */
  lemma AciExampleUnsafe(sqrt: real -> real)
    requires IsSqrt(sqrt)
    ensures
      var s, p := ExampleSection(100.0), AciParams(0.9, 0.95, 0.85);
      && AciLeverArm(s, p) > 0.0
      && AciMinSteel(s, sqrt) < AciSteel(s, p)
      && Capacity(AciRule(p.phi, s.fy, s.fcu, s.b, EffectiveDepth(s)),
                  RequiredSteel(AciSteel(s, p), AciMinSteel(s, sqrt))) < s.mu
  {
    var s, p := ExampleSection(100.0), AciParams(0.9, 0.95, 0.85);
    SqrtOfTwentyFive(sqrt);
    assert AciInitialDivisor(s, p) == 165186.0;
    assert 436.0 < AciLeverArm(s, p) < 436.1;
    assert AciMinSteel(s, sqrt) < 384.0;
    assert AciSteel(s, p) > 600.0;
    AciVerdictFollowsLeverArm(s, p, sqrt);
  }
}
