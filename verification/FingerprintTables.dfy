/** The schema-version-1 classification tables. */
module FingerprintTables {
  import opened PyText
  import opened Fingerprint

  const PREDICTIVE_KEYS: set<string> := {
    "booster_raw_json",
    "params",
    "kind",
    "feature_cols",
    "feature_columns",
    "feature_means",
    "feature_stds",
    "feature_norm_kind",
    "feature_norm_kinds",
    "feature_raw_clip_low",
    "feature_raw_clip_high",
    "feature_raw_clip_fit_split",
    "feature_preprocess_version",
    "feature_source_contract",
    "feature_addendum_v1",
    "label_col",
    "label",
    "lookahead_days",
    "coef",
    "intercept",
    "clip_sigma",
    "state_dict",
    "config_dict",
    "model_bytes",
    "model_bytes_b64"
  }

  /** Paths, file hashes, fingerprint stamps. */
  const STAMP_KEYS: set<string> := {
    "metadata",
    "artifact_path",
    "artifact_sha256",
    "artifact_fingerprint",
    "model_content_fingerprint",
    "fingerprint_schema_version",
    "model_content_fingerprint_legacy_081",
    "restamp_provenance",
    "model_fingerprint",
    "fingerprint",
    "config_fingerprint",
    "config_fingerprint_fields"
  }

  /** Gate results, promotion state, contract attestations. */
  const GATE_KEYS: set<string> := {
    "wf_gate_metadata",
    "promotion_status",
    "promotion_gating_reason",
    "sentiment_runtime_gate_contract",
    "sentiment_runtime_gate_trained",
    "sentiment_runtime_gate_feature_cols",
    "sentiment_runtime_gate_disabled_regimes",
    "sentiment_runtime_gate_zeroed_rows",
    "sentiment_runtime_gate_warmup_zeroed_rows",
    "sentiment_runtime_gate_missing_regime_policy",
    "sentiment_runtime_gate_policy",
    "sentiment_gate_contract"
  }

  /** Training bookkeeping and evaluation evidence. */
  const BOOKKEEPING_KEYS: set<string> := {
    "trained_date",
    "training_notes",
    "panel_shape",
    "n_train_rows",
    "training_train_ic",
    "val_mean_ic",
    "val_median_ic",
    "test_mean_ic",
    "test_median_ic",
    "oos_mean_ic",
    "oos_std_ic",
    "oos_per_fold_ic",
    "eval_ic",
    "best_iter",
    "cv_method",
    "cv_embargo_days",
    "cv_folds",
    "cv_n_splits",
    "train_run_id"
  }

  /** Training-window and recipe provenance. */
  const PROVENANCE_KEYS: set<string> := {
    "cutoff_date",
    "cutoff_embargo_days",
    "effective_train_cutoff_date",
    "train_start_date",
    "effective_train_start_date",
    "train_window",
    "provenance_schema_version",
    "recipe_id",
    "required_axis_fields",
    "version",
    "side_label"
  }

  const OPERATIONAL_KEYS: set<string> := STAMP_KEYS + GATE_KEYS + BOOKKEEPING_KEYS + PROVENANCE_KEYS

  function Texts(keys: set<string>): (r: set<Text>)
    ensures forall k :: k in keys ==> Chars(k) in r
  {
    set k | k in keys :: Chars(k)
  }

  const SCHEMA_V1 := Tables(Texts(PREDICTIVE_KEYS), Texts(OPERATIONAL_KEYS))

  lemma CharsInjective(s: string, t: string)
    requires Chars(s) == Chars(t)
    ensures s == t
  {
  }

  /** The stamp's own two keys are operational and not predictive, so stamping is hash-neutral. */
  lemma StampKeysAreOperational()
    ensures StampKeysOperational(SCHEMA_V1)
  {
    StampKeysListed();
    FingerprintKeyUnlisted();
    VersionKeyUnlisted();
    hide FINGERPRINT_KEY, VERSION_KEY, PREDICTIVE_KEYS, OPERATIONAL_KEYS;
    NotPredictive(FINGERPRINT_KEY);
    NotPredictive(VERSION_KEY);
  }

  lemma StampKeysListed()
    ensures FINGERPRINT_KEY in OPERATIONAL_KEYS && VERSION_KEY in OPERATIONAL_KEYS
  {
  }

  lemma FingerprintKeyUnlisted()
    ensures FINGERPRINT_KEY !in PREDICTIVE_KEYS
  {
  }

  lemma VersionKeyUnlisted()
    ensures VERSION_KEY !in PREDICTIVE_KEYS
  {
  }

  lemma NotPredictive(key: string)
    requires key !in PREDICTIVE_KEYS
    ensures Chars(key) !in SCHEMA_V1.predictive
  {
    if k :| k in PREDICTIVE_KEYS && Chars(k) == Chars(key) {
      CharsInjective(k, key);
    }
  }

  lemma StampKeysNotPredictive(k: string)
    requires k in PREDICTIVE_KEYS
    ensures k !in STAMP_KEYS
  {
  }

  lemma GateKeysNotPredictive(k: string)
    requires k in PREDICTIVE_KEYS
    ensures k !in GATE_KEYS
  {
  }

  lemma BookkeepingKeysNotPredictive(k: string)
    requires k in PREDICTIVE_KEYS
    ensures k !in BOOKKEEPING_KEYS
  {
  }

  lemma ProvenanceKeysNotPredictive(k: string)
    requires k in PREDICTIVE_KEYS
    ensures k !in PROVENANCE_KEYS
  {
  }

  /** No key is in both tables: every classified key is hashed or ignored, never both. */
  lemma TablesDisjoint()
    ensures PREDICTIVE_KEYS !! OPERATIONAL_KEYS
    ensures SCHEMA_V1.predictive !! SCHEMA_V1.operational
  {
    forall k | k in PREDICTIVE_KEYS
      ensures k !in OPERATIONAL_KEYS
    {
      StampKeysNotPredictive(k);
      GateKeysNotPredictive(k);
      BookkeepingKeysNotPredictive(k);
      ProvenanceKeysNotPredictive(k);
    }
    hide PREDICTIVE_KEYS, OPERATIONAL_KEYS;
    forall t | t in SCHEMA_V1.predictive
      ensures t !in SCHEMA_V1.operational
    {
      var k :| k in PREDICTIVE_KEYS && Chars(k) == t;
      NotOperational(k);
    }
  }

  lemma NotOperational(key: string)
    requires key !in OPERATIONAL_KEYS
    ensures Chars(key) !in SCHEMA_V1.operational
  {
    hide OPERATIONAL_KEYS;
    if k :| k in OPERATIONAL_KEYS && Chars(k) == Chars(key) {
      CharsInjective(k, key);
    }
  }
}
