/** Routing configurations as values. */
module Routes {
  import opened Base

  datatype Rule = Rule(conditions: map<string, string>, upstreams: seq<WeightedUpstream>, priority: int,
                       algorithm: string, algorithmKey: string)

  /** Times and durations are nanoseconds; time zero is "not set". */
  datatype RouteConfig = RouteConfig(
    version: int, createdAt: int, updatedAt: int,
    upstream: string, rules: seq<Rule>, fallback: string,
    algorithm: string, algorithmKey: string,
    metadata: map<string, string>, ttl: int, enabled: Option<bool>, description: string)
  {
    predicate IsEnabled() {
      enabled.None? || enabled.value
    }

    predicate IsExpired(now: int) {
      ttl != 0 && updatedAt != 0 && now - updatedAt > ttl
    }
  }
}
