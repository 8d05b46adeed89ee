/** The admitted outcome derivations (internal/outcome/outcome.go). */
module Outcomes {
  const METHOD := "gofresh/immutable-environment@1"
  const STATIC_METHOD := "gofresh/static-reachability@1"
}
