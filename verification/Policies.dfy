/** The names of the CEF version policies. */
module Policies {
  predicate IsValidPolicy(policy: string) {
    policy == "tested" || policy == "same-major-latest" || policy == "compat-latest" || policy == "exact"
  }
}
