/** The protocol parameters and what their validation admits. */
module Config {
  import opened Encoding

  /** f64::EPSILON */
  const EPSILON: real := 1.0 / 4503599627370496.0

  datatype TopoStakeConfig = TopoStakeConfig(
    targetDepth: nat,
    beta: real,
    saturationK: real,
    scoreCostReference: real,
    scoreFloorKappa: real,
    bonusZeta: real,
    eta: real,
    bonusCap: real,
    proposerFeeRatio: real,
    rewardSettlementDepth: nat,
    scoreActivationDelayEpochs: nat,
    maxPathHops: nat,
    evidenceWorkLimit: nat,
    challengeWorkLimit: nat)

  /** `TopoStakeConfig::validate` returns Ok. */
  predicate ValidConfig(c: TopoStakeConfig) {
    && c.targetDepth >= 1
    && 0.0 < c.beta <= 1.0
    && c.saturationK > 0.0
    && c.scoreCostReference > 0.0
    && c.scoreFloorKappa > 0.0
    && c.bonusZeta > 0.0
    && 0.0 <= c.proposerFeeRatio < 1.0
    && c.eta >= 0.0
    && c.bonusCap >= 0.0
    && c.eta * c.bonusCap <= 1.0 + EPSILON
    && c.scoreActivationDelayEpochs >= 1
    && c.maxPathHops >= 2
    && c.evidenceWorkLimit >= c.maxPathHops
    && c.challengeWorkLimit > 0
  }

  /** The checks of `TopoStakeConfig::validate`, one per message it can return. */
  datatype ConfigError =
    | TargetDepth | Beta | SaturationK | ScoreCostReference | ScoreFloorKappa | BonusZeta | ProposerFeeRatio
    | Eta | BonusCap | EtaTimesBonusCap | ScoreActivationDelay | MaxPathHops | EvidenceWorkLimit | ChallengeWorkLimit

  /** `TopoStakeConfig::validate`: the first check that fails, if any. */
  method Validate(c: TopoStakeConfig) returns (error: Option<ConfigError>)
    ensures error == None <==> ValidConfig(c)
    ensures error == Some(EtaTimesBonusCap) ==> c.eta >= 0.0 && c.bonusCap >= 0.0 && c.eta * c.bonusCap > 1.0
    ensures error == Some(EvidenceWorkLimit) ==> c.evidenceWorkLimit < c.maxPathHops && c.maxPathHops >= 2
  {
    if c.targetDepth < 1 {
      return Some(TargetDepth);
    }
    if !(c.beta > 0.0 && c.beta <= 1.0) {
      return Some(Beta);
    }
    if c.saturationK <= 0.0 {
      return Some(SaturationK);
    }
    if c.scoreCostReference <= 0.0 {
      return Some(ScoreCostReference);
    }
    if c.scoreFloorKappa <= 0.0 {
      return Some(ScoreFloorKappa);
    }
    if c.bonusZeta <= 0.0 {
      return Some(BonusZeta);
    }
    if !(c.proposerFeeRatio >= 0.0 && c.proposerFeeRatio < 1.0) {
      return Some(ProposerFeeRatio);
    }
    if c.eta < 0.0 {
      return Some(Eta);
    }
    if c.bonusCap < 0.0 {
      return Some(BonusCap);
    }
    if c.eta * c.bonusCap > 1.0 + EPSILON {
      return Some(EtaTimesBonusCap);
    }
    if c.scoreActivationDelayEpochs < 1 {
      return Some(ScoreActivationDelay);
    }
    if c.maxPathHops < 2 {
      return Some(MaxPathHops);
    }
    if c.evidenceWorkLimit < c.maxPathHops {
      return Some(EvidenceWorkLimit);
    }
    if c.challengeWorkLimit == 0 {
      return Some(ChallengeWorkLimit);
    }
    return None;
  }

  type ValidatedConfig = c: TopoStakeConfig | ValidConfig(c)
    witness TopoStakeConfig(4, 0.8, 1.0, 0.00001, 1.0, 1.0, 0.5, 1.0, 0.5, 2, 2, 16, 4096, 1024)
}
