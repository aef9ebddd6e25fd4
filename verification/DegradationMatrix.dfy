/**
  The decision part of src/SafetyArbitrator.cpp: bitmasks over sensor domains and the
  degradation matrix, next to a declarative form of the matrix that knows no bitmasks.
 */
module DegradationMatrix {

  type Byte = n: nat | n < 256

  /** SensorHealth is stored as a raw byte; values other than these four are possible. */
  const NOMINAL: Byte := 0
  const DEGRADED: Byte := 1
  const FAILED: Byte := 2
  const UNKNOWN: Byte := 3

  const LIDAR: nat := 0
  const RADAR: nat := 1
  const CAMERA: nat := 2
  const GNSS: nat := 3
  const IMU: nat := 4
  const INVALID_DOMAIN: nat := 7

  const MAX_SENSOR_DOMAINS: nat := 8
  const NUM_SENSOR_DOMAINS: nat := 7
  const FAULT_THRESHOLD: nat := 3

  datatype SafeState =
    | FullOperation
    | RadarCameraFallback
    | LidarCameraFallback
    | LidarRadarFallback
    | DeadReckoningMode
    | ReducedDynamics
    | MinimalRiskCondition
    | EmergencyStop

  /** The numeric value of a state; a larger value is meant to be a more severe restriction. */
  function Severity(s: SafeState): (n: nat)
    ensures n < 8
  {
    match s
    case FullOperation => 0
    case RadarCameraFallback => 1
    case LidarCameraFallback => 2
    case LidarRadarFallback => 3
    case DeadReckoningMode => 4
    case ReducedDynamics => 5
    case MinimalRiskCondition => 6
    case EmergencyStop => 7
  }

  datatype Domain = Domain(health: Byte, lastHeartbeat: nat, faultCount: nat, dtcCode: nat)

  // ------------------------------------------------------------------
  // Bitmasks
  // ------------------------------------------------------------------

  /** 1 << i */
  function MaskBit(i: nat): bv8
    requires i < 8
  {
    if i == 0 then 1 else MaskBit(i - 1) << 1
  }

  predicate Has(mask: bv8, i: nat)
    requires i < 8
  {
    mask & MaskBit(i) != 0
  }

  /** The mask whose bit i is flags[i]. */
  function MaskOf(flags: seq<bool>): bv8
    requires |flags| <= 8
  {
    if flags == [] then 0
    else
      var n := |flags| - 1;
      if flags[n] then MaskOf(flags[..n]) | MaskBit(n) else MaskOf(flags[..n])
  }

  lemma OrMeets(m: bv8, b: bv8, c: bv8)
    ensures ((m | b) & c != 0) == (m & c != 0 || b & c != 0)
  {
  }

  lemma DoubledMeets(a: bv8, b: bv8)
    requires a <= 0x40 && b <= 0x40
    ensures ((a << 1) & (b << 1) != 0) == (a & b != 0)
  {
  }

  lemma OneMeetsDoubled(a: bv8)
    ensures 1 & (a << 1) == 0 && (a << 1) & 1 == 0
  {
  }

  lemma MaskBits()
    ensures MaskBit(0) == 1 && MaskBit(1) == 2 && MaskBit(2) == 4 && MaskBit(3) == 8
    ensures MaskBit(4) == 16 && MaskBit(5) == 32 && MaskBit(6) == 64 && MaskBit(7) == 128
  {
  }

  lemma MaskBitSmall(i: nat)
    requires i < 7
    ensures MaskBit(i) <= 0x40
  {
    MaskBits();
  }

  lemma {:induction false} MaskMeet(i: nat, j: nat)
    requires i < 8 && j < 8
    ensures (MaskBit(i) & MaskBit(j) != 0) == (i == j)
    decreases i
  {
    if i > 0 && j > 0 {
      MaskBitSmall(i - 1);
      MaskBitSmall(j - 1);
      DoubledMeets(MaskBit(i - 1), MaskBit(j - 1));
      MaskMeet(i - 1, j - 1);
    } else if i > 0 {
      OneMeetsDoubled(MaskBit(i - 1));
    } else if j > 0 {
      OneMeetsDoubled(MaskBit(j - 1));
    }
  }

  lemma {:induction false} MaskOfHas(flags: seq<bool>, i: nat)
    requires |flags| <= 8 && i < 8
    ensures Has(MaskOf(flags), i) <==> i < |flags| && flags[i]
    decreases |flags|
  {
    hide Has;
    if flags == [] {
      NothingHas(i);
    } else {
      var n := |flags| - 1;
      MaskOfHas(flags[..n], i);
      HasOr(MaskOf(flags[..n]), n, i);
    }
  }

  lemma HasOr(m: bv8, n: nat, i: nat)
    requires n < 8 && i < 8
    ensures Has(m | MaskBit(n), i) <==> Has(m, i) || n == i
  {
    OrMeets(m, MaskBit(n), MaskBit(i));
    MaskMeet(n, i);
    hide MaskBit;
  }

  lemma NothingHas(i: nat)
    requires i < 8
    ensures !Has(0, i)
  {
    NothingSet(MaskBit(i));
  }

  lemma NothingSet(b: bv8)
    ensures 0 & b == 0
  {
  }

  lemma NoCommonBit(m: bv8, n: bv8)
    requires !(m & 1 != 0 && n & 1 != 0) && !(m & 2 != 0 && n & 2 != 0)
    requires !(m & 4 != 0 && n & 4 != 0) && !(m & 8 != 0 && n & 8 != 0)
    requires !(m & 16 != 0 && n & 16 != 0) && !(m & 32 != 0 && n & 32 != 0)
    requires !(m & 64 != 0 && n & 64 != 0) && !(m & 128 != 0 && n & 128 != 0)
    ensures m & n == 0
  {
  }

  lemma CommonBit(m: bv8, n: bv8, b: bv8)
    requires b & (b - 1) == 0
    ensures m & b != 0 && n & b != 0 ==> m & n != 0
  {
  }

  lemma MaskBitSingle(i: nat)
    requires i < 8
    ensures MaskBit(i) & (MaskBit(i) - 1) == 0
  {
    MaskBits();
  }

  /** Two masks meet exactly when some domain is in both. */
  lemma MasksMeet(m: bv8, n: bv8)
    ensures m & n != 0 <==> exists i :: 0 <= i < 8 && Has(m, i) && Has(n, i)
  {
    if m & n != 0 {
      if forall i :: 0 <= i < 8 ==> !(Has(m, i) && Has(n, i)) {
        EveryBit(m, n);
        NoCommonBit(m, n);
      }
    } else {
      forall i | 0 <= i < 8 ensures !(Has(m, i) && Has(n, i)) {
        MaskBitSingle(i);
        CommonBit(m, n, MaskBit(i));
      }
    }
  }

  lemma EveryBit(m: bv8, n: bv8)
    requires forall i :: 0 <= i < 8 ==> !(Has(m, i) && Has(n, i))
    ensures !(m & 1 != 0 && n & 1 != 0) && !(m & 2 != 0 && n & 2 != 0)
    ensures !(m & 4 != 0 && n & 4 != 0) && !(m & 8 != 0 && n & 8 != 0)
    ensures !(m & 16 != 0 && n & 16 != 0) && !(m & 32 != 0 && n & 32 != 0)
    ensures !(m & 64 != 0 && n & 64 != 0) && !(m & 128 != 0 && n & 128 != 0)
  {
    MaskBits();
    assert !(Has(m, 0) && Has(n, 0)) && !(Has(m, 1) && Has(n, 1));
    assert !(Has(m, 2) && Has(n, 2)) && !(Has(m, 3) && Has(n, 3));
    assert !(Has(m, 4) && Has(n, 4)) && !(Has(m, 5) && Has(n, 5));
    assert !(Has(m, 6) && Has(n, 6)) && !(Has(m, 7) && Has(n, 7));
  }

  // ------------------------------------------------------------------
  // The two masks of UpdateBitmasks
  // ------------------------------------------------------------------

  function Flags(domains: seq<Domain>, health: Byte): (f: seq<bool>)
    ensures |f| == |domains| && forall i :: 0 <= i < |f| ==> f[i] == (domains[i].health == health)
  {
    seq(|domains|, i requires 0 <= i < |domains| => domains[i].health == health)
  }

  /** The domains with a given health, as a mask. */
  function HealthMask(domains: seq<Domain>, health: Byte): bv8
    requires |domains| == MAX_SENSOR_DOMAINS
  {
    MaskOf(Flags(domains, health))
  }

  /** The masks are exact: bit i says whether domain i has the health. */
  lemma HealthMaskExact(domains: seq<Domain>, health: Byte, i: nat)
    requires |domains| == MAX_SENSOR_DOMAINS && i < 8
    ensures Has(HealthMask(domains, health), i) <==> domains[i].health == health
  {
    hide Has, MaskOf;
    MaskOfHas(Flags(domains, health), i);
  }

  /** The fault mask and the active mask have no domain in common. */
  lemma MasksDisjoint(domains: seq<Domain>)
    requires |domains| == MAX_SENSOR_DOMAINS
    ensures HealthMask(domains, FAILED) & HealthMask(domains, NOMINAL) == 0
  {
    hide Has, HealthMask;
    MasksMeet(HealthMask(domains, FAILED), HealthMask(domains, NOMINAL));
    forall i | 0 <= i < 8
      ensures !(Has(HealthMask(domains, FAILED), i) && Has(HealthMask(domains, NOMINAL), i))
    {
      HealthMaskExact(domains, FAILED, i);
      HealthMaskExact(domains, NOMINAL, i);
    }
  }

  // ------------------------------------------------------------------
  // ComputeRequiredState
  // ------------------------------------------------------------------

  /** The scan for a mandatory domain whose fault count has reached the threshold. */
  function ThresholdReached(mandatory: bv8, domains: seq<Domain>, i: nat): bool
    requires |domains| == MAX_SENSOR_DOMAINS && i <= 8
    decreases 8 - i
  {
    if i == 8 then false
    else if Has(mandatory, i) && domains[i].faultCount >= FAULT_THRESHOLD then true
    else ThresholdReached(mandatory, domains, i + 1)
  }

  /** src/SafetyArbitrator.cpp, ComputeRequiredState: from the published fault mask. */
  function RequiredState(faults: bv8, mandatory: bv8, domains: seq<Domain>): SafeState
    requires |domains| == MAX_SENSOR_DOMAINS
  {
    var lidarFailed := Has(faults, LIDAR);
    var radarFailed := Has(faults, RADAR);
    var cameraFailed := Has(faults, CAMERA);
    var gnssFailed := Has(faults, GNSS);
    var imuFailed := Has(faults, IMU);
    if lidarFailed && radarFailed then MinimalRiskCondition
    else if faults & mandatory != 0 && ThresholdReached(mandatory, domains, 0) then MinimalRiskCondition
    else if lidarFailed && !radarFailed then RadarCameraFallback
    else if radarFailed && !lidarFailed then LidarCameraFallback
    else if cameraFailed then LidarRadarFallback
    else if gnssFailed && !imuFailed then DeadReckoningMode
    else if imuFailed then ReducedDynamics
    else FullOperation
  }

  // ------------------------------------------------------------------
  // The matrix, declaratively
  // ------------------------------------------------------------------

  predicate Failed(domains: seq<Domain>, i: nat)
    requires i < |domains|
  {
    domains[i].health == FAILED
  }

  /**
    Lidar and radar both lost; or some mandatory domain lost while some mandatory domain,
    not necessarily the same one, has at least three faults on its count.
   */
  ghost predicate InMrc(domains: seq<Domain>, mandatory: bv8)
    requires |domains| == MAX_SENSOR_DOMAINS
  {
    || (Failed(domains, LIDAR) && Failed(domains, RADAR))
    || ((exists i :: 0 <= i < 8 && Has(mandatory, i) && Failed(domains, i))
        && (exists j :: 0 <= j < 8 && Has(mandatory, j) && domains[j].faultCount >= FAULT_THRESHOLD))
  }

  /** Outside that region the first lost sensor in the order lidar, radar, camera, IMU, GNSS decides. */
  ghost function Matrix(domains: seq<Domain>, mandatory: bv8): SafeState
    requires |domains| == MAX_SENSOR_DOMAINS
  {
    if InMrc(domains, mandatory) then MinimalRiskCondition
    else if Failed(domains, LIDAR) then RadarCameraFallback
    else if Failed(domains, RADAR) then LidarCameraFallback
    else if Failed(domains, CAMERA) then LidarRadarFallback
    else if Failed(domains, IMU) then ReducedDynamics
    else if Failed(domains, GNSS) then DeadReckoningMode
    else FullOperation
  }

  lemma {:induction false} ThresholdScan(mandatory: bv8, domains: seq<Domain>, i: nat)
    requires |domains| == MAX_SENSOR_DOMAINS && i <= 8
    ensures ThresholdReached(mandatory, domains, i)
            <==> exists j :: i <= j < 8 && Has(mandatory, j) && domains[j].faultCount >= FAULT_THRESHOLD
    decreases 8 - i
  {
    hide Has;
    if i < 8 {
      ThresholdScan(mandatory, domains, i + 1);
    }
  }

  /** The program's decision on its bitmasks is the declarative matrix on the domains. */
  lemma RequiredIsMatrix(domains: seq<Domain>, mandatory: bv8)
    requires |domains| == MAX_SENSOR_DOMAINS
    ensures RequiredState(HealthMask(domains, FAILED), mandatory, domains) == Matrix(domains, mandatory)
  {
    hide Has, HealthMask, ThresholdReached;
    var faults := HealthMask(domains, FAILED);
    MasksMeet(faults, mandatory);
    ThresholdScan(mandatory, domains, 0);
    forall i | 0 <= i < 8 ensures Has(faults, i) <==> Failed(domains, i) {
      HealthMaskExact(domains, FAILED, i);
    }
  }

  /** The matrix never asks for the emergency stop. */
  lemma NeverEmergencyStop(faults: bv8, mandatory: bv8, domains: seq<Domain>)
    requires |domains| == MAX_SENSOR_DOMAINS
    ensures RequiredState(faults, mandatory, domains) != EmergencyStop
    ensures RequiredState(HealthMask(domains, FAILED), mandatory, domains) == FullOperation
            ==> forall i :: 0 <= i <= 4 ==> !Failed(domains, i)
  {
    hide Has, HealthMask, ThresholdReached;
    RequiredIsMatrix(domains, mandatory);
  }

  // ------------------------------------------------------------------
  // Order properties
  // ------------------------------------------------------------------

  /** More domains failed, no fault count lower. */
  ghost predicate Worse(a: seq<Domain>, b: seq<Domain>)
    requires |a| == |b| == MAX_SENSOR_DOMAINS
  {
    forall i :: 0 <= i < 8 ==> (Failed(a, i) ==> Failed(b, i)) && a[i].faultCount <= b[i].faultCount
  }

  /** Further failures and further faults never leave the minimal risk condition. */
  lemma MrcUpwardClosed(a: seq<Domain>, b: seq<Domain>, mandatory: bv8)
    requires |a| == |b| == MAX_SENSOR_DOMAINS && Worse(a, b)
    requires RequiredState(HealthMask(a, FAILED), mandatory, a) == MinimalRiskCondition
    ensures RequiredState(HealthMask(b, FAILED), mandatory, b) == MinimalRiskCondition
  {
    hide RequiredState, HealthMask, Has;
    RequiredIsMatrix(a, mandatory);
    RequiredIsMatrix(b, mandatory);
    assert InMrc(a, mandatory);
    assert InMrc(b, mandatory);
  }

  /** b is a with domain d failed in addition; its count may have grown. */
  ghost predicate AlsoFailed(a: seq<Domain>, b: seq<Domain>, d: nat)
    requires |a| == |b| == MAX_SENSOR_DOMAINS && d < 8
  {
    && !Failed(a, d) && Failed(b, d) && a[d].faultCount <= b[d].faultCount
    && forall i :: 0 <= i < 8 && i != d ==> a[i] == b[i]
  }

  /**
    Severity is not monotone.  One more failed domain lowers it exactly when the result is
    outside the minimal risk region, the domain is lidar, radar or camera, no domain
    before it in that order was failed, and some matrix sensor after it was.
   */
  lemma SeverityDropsExactly(a: seq<Domain>, b: seq<Domain>, d: nat, mandatory: bv8)
    requires |a| == |b| == MAX_SENSOR_DOMAINS && d < 8 && AlsoFailed(a, b, d)
    ensures Severity(RequiredState(HealthMask(b, FAILED), mandatory, b))
            < Severity(RequiredState(HealthMask(a, FAILED), mandatory, a))
            <==> (&& !InMrc(b, mandatory) && d <= CAMERA
                  && (forall i :: 0 <= i < d ==> !Failed(a, i))
                  && (exists i :: d < i <= IMU && Failed(a, i)))
  {
    hide RequiredState, HealthMask, Has;
    RequiredIsMatrix(a, mandatory);
    RequiredIsMatrix(b, mandatory);
    assert InMrc(a, mandatory) ==> InMrc(b, mandatory);
    assert forall i :: 0 <= i < 8 && i != d ==> Failed(a, i) == Failed(b, i);
    assert Failed(a, 1) || Failed(a, 2) || Failed(a, 3) || Failed(a, 4)
           <==> exists i :: 0 < i <= IMU && Failed(a, i);
    assert Failed(a, 2) || Failed(a, 3) || Failed(a, 4) <==> exists i :: 1 < i <= IMU && Failed(a, i);
    assert Failed(a, 3) || Failed(a, 4) <==> exists i :: 2 < i <= IMU && Failed(a, i);
    assert Failed(b, 0) == (d == 0 || Failed(a, 0));
    assert Failed(b, 1) == (d == 1 || Failed(a, 1));
    assert Failed(b, 2) == (d == 2 || Failed(a, 2));
    assert Failed(b, 3) == (d == 3 || Failed(a, 3));
    assert Failed(b, 4) == (d == 4 || Failed(a, 4));
  }

  /** Camera alone gives the 30 km/h state; lidar as well gives the 100 km/h state. */
  lemma SeverityDropExample()
    ensures var ok := Domain(NOMINAL, 0, 0, 0);
      var bad := Domain(FAILED, 0, 1, 0);
      var camera := [ok, ok, bad, ok, ok, ok, ok, ok];
      var both := [bad, ok, bad, ok, ok, ok, ok, ok];
      && RequiredState(HealthMask(camera, FAILED), 0, camera) == LidarRadarFallback
      && RequiredState(HealthMask(both, FAILED), 0, both) == RadarCameraFallback
  {
    hide RequiredState, HealthMask, Has;
    var ok, bad := Domain(NOMINAL, 0, 0, 0), Domain(FAILED, 0, 1, 0);
    var camera := [ok, ok, bad, ok, ok, ok, ok, ok];
    var both := [bad, ok, bad, ok, ok, ok, ok, ok];
    RequiredIsMatrix(camera, 0);
    RequiredIsMatrix(both, 0);
    forall i | 0 <= i < 8 ensures !Has(0, i) {
      NothingHas(i);
    }
  }
}
