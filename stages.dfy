/** The award cycle's stage: the AwardConfig row, its stage labels, and the
    gate each user action passes before it may change anything. */
module Stages {
  import opened Common

  const SuggestCat := "suggest_cat"
  const Finished := "finished"
  const SuggestNominee := "suggest_nominee"
  const Voting := "voting"
  const ResultsStage := "results"

  /** Label shown for a stage code that is not among the choices. */
  const Unknown := "Неизвестно"

  /** AwardConfig.STAGE_CHOICES: each stage code with its label, in declaration order. */
  const StageChoices: seq<(string, string)> := [
    (SuggestCat, "Предложение номинаций"),
    (Finished, "Этап проверки админами"),
    (SuggestNominee, "Предложение номинантов"),
    (Voting, "Голосование"),
    (ResultsStage, "Публикация результатов после награждения")
  ]

  /** An AwardConfig row. The stage is a plain string column: its choices are
      not enforced by the database, so any string may be stored. */
  datatype AwardConfig = AwardConfig(name: string, description: string, currentStage: string)

  /** A new AwardConfig row with every field at its declared default. */
  function NewAwardConfig(): AwardConfig {
    AwardConfig("Онлайн-премия", "", SuggestCat)
  }

  /** `dict(pairs).get(key, default)`: building a dict from pairs keeps the
      last value given for a key. */
  function DictGet(pairs: seq<(string, string)>, key: string, default: string): (r: string)
    ensures (exists i :: 0 <= i < |pairs| && pairs[i].0 == key) ==>
      exists i :: 0 <= i < |pairs| && pairs[i].0 == key && r == pairs[i].1 &&
        forall j :: i < j < |pairs| ==> pairs[j].0 != key
    ensures (forall i :: 0 <= i < |pairs| ==> pairs[i].0 != key) ==> r == default
  {
    if pairs == [] then default
    else if pairs[|pairs| - 1].0 == key then pairs[|pairs| - 1].1
    else DictGet(pairs[..|pairs| - 1], key, default)
  }

  /** `AwardConfig.get_current_stage_display`: the paired label of a known
      stage code, `Unknown` for any other string. */
  function StageDisplay(stage: string): (shown: string)
    ensures forall i :: 0 <= i < |StageChoices| && StageChoices[i].0 == stage ==>
      shown == StageChoices[i].1
    ensures (forall i :: 0 <= i < |StageChoices| ==> StageChoices[i].0 != stage) ==>
      shown == Unknown
  {
    DictGet(StageChoices, stage, Unknown)
  }

  /** A known stage is never displayed as unknown, and an unknown one always is. */
  lemma StageDisplayKnownIff(stage: string)
    ensures StageDisplay(stage) != Unknown <==>
      exists i :: 0 <= i < |StageChoices| && StageChoices[i].0 == stage
  {
    if exists i :: 0 <= i < |StageChoices| && StageChoices[i].0 == stage {
      var i :| 0 <= i < |StageChoices| && StageChoices[i].0 == stage;
      assert StageDisplay(stage) == StageChoices[i].1;
    }
  }

  /** A new configuration starts in the category-suggestion stage, displayed
      with its paired label. */
  lemma NewConfigStage()
    ensures NewAwardConfig().currentStage == SuggestCat
    ensures StageDisplay(NewAwardConfig().currentStage) == "Предложение номинаций"
  {
    assert StageChoices[0].0 == SuggestCat;
  }

  /** The user actions that pass through the gate. */
  datatype Action = ProposeCategory | ProposeNominee | CastVote

  /** The one stage under which each action is accepted. */
  function RequiredStage(a: Action): string {
    match a
    case ProposeCategory => SuggestCat
    case ProposeNominee => SuggestNominee
    case CastVote => Voting
  }

  /** The message rendered on the closed page when the gate refuses. */
  function ClosedMessage(a: Action): string {
    match a
    case ProposeCategory => "Этап предложения номинаций закрыт."
    case ProposeNominee => "Этап предложения номинантов закрыт."
    case CastVote => "Этап голосования закрыт."
  }

  /** The gate refuses only when a configuration row exists and its stage is
      not the one the action needs; with no row every action passes. */
  predicate Closed(config: Option<AwardConfig>, a: Action) {
    config.Some? && config.value.currentStage != RequiredStage(a)
  }

  lemma GateOpenWithoutConfig(a: Action)
    ensures !Closed(None, a)
  {
  }

  /** With a configuration row, an action passes exactly when the stored
      stage is its required stage. */
  lemma GateWithConfig(cfg: AwardConfig, a: Action)
    ensures !Closed(Some(cfg), a) <==> cfg.currentStage == RequiredStage(a)
  {
  }

  /** With a configuration row, at most one action passes at a time; in the
      finished and results stages none does. */
  lemma GateAtMostOneAction(cfg: AwardConfig, a: Action, b: Action)
    requires !Closed(Some(cfg), a) && !Closed(Some(cfg), b)
    ensures a == b
    ensures cfg.currentStage != Finished && cfg.currentStage != ResultsStage
  {
  }

  /** A new configuration admits category suggestions and nothing else. */
  lemma NewConfigGate(a: Action)
    ensures !Closed(Some(NewAwardConfig()), a) <==> a == ProposeCategory
  {
  }
}
