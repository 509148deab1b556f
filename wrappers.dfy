/** Optional values and results that carry the exception a Ruby method would raise. */
module Wrappers {

  datatype Option<T> = None | Some(value: T) {
    function GetOr(default: T): T {
      match this
      case Some(v) => v
      case None => default
    }
  }

  datatype Result<T, E> = Ok(value: T) | Err(error: E)
}

/** The exceptions raised by the modelled code, or raised by the Ruby runtime and not caught there. */
module Errors {

  datatype Error =
    | FeatureNameInvalid               // raise "feature_name invalid : ..."
    | VersionNameInvalid               // raise "version_name invalid : ..."
    | GoalNameInvalid                  // raise "goal_name invalid : ..."
    | GoalVersionNameInvalid           // raise "goal_version_name invalid : ..."
    | UnknownFeaturesNotHash           // raise "unknown_features should be a Hash"
    | UnknownFeaturesValuesNotHash     // raise "unknown_features values should be Hash. ..."
    | StatsInvalid                     // raise "stats invalid : ..."
    | ConfigInvalid                    // FFeaturesConfigInvalid
    | ConfigFileNotExists              // FFeaturesConfigFileNotExists
    | UndefinedName                    // NameError: an undefined local variable
    | RuntimeFault                     // NoMethodError, TypeError, ArgumentError or ZeroDivisionError from the runtime
}
