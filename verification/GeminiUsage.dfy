/**
 Token usage on its way from the CLI through the bridge to the gateway: normalized by
 internal/antigravity/protocol.go, re-encoded by internal/antigravity/gemini.go, and validated again by
 internal/proxy/gemini.go. Every operation is 64-bit.
 */
module GeminiUsage {
  import opened Text
  import opened Int64

  /** As the CLI reports it: input and total exclude cache reads. */
  datatype CliUsage = CliUsage(input: int, output: int, thinking: int, cacheRead: int, total: int)

  /** usageMetadata on the private wire. */
  datatype Metadata = Metadata(prompt: int, candidates: int, thoughts: int, cached: int, total: int)

  datatype GatewayUsage = GatewayUsage(input: int, cached: int, output: int, reasoning: int)

  predicate Representable(u: CliUsage) {
    InRange(u.input) && InRange(u.output) && InRange(u.thinking) && InRange(u.cacheRead) && InRange(u.total)
  }

  function Normalize(u: CliUsage): Option<CliUsage> {
    if u.input < 0 || u.output < 0 || u.thinking < 0 || u.thinking > u.output || u.cacheRead < 0 || u.total < 0
       || u.input > Wrap(MAX_INT64 - u.output) || u.total != Wrap(u.input + u.output)
       || u.input > Wrap(MAX_INT64 - u.cacheRead) || u.total > Wrap(MAX_INT64 - u.cacheRead) then None
    else Some(u.(input := Wrap(u.input + u.cacheRead), total := Wrap(u.total + u.cacheRead)))
  }

  function Encode(u: CliUsage): Metadata {
    Metadata(u.input, Wrap(u.output - u.thinking), u.thinking, u.cacheRead, u.total)
  }

  function Validate(m: Metadata): Option<GatewayUsage> {
    if m.prompt < 0 || m.candidates < 0 || m.thoughts < 0 || m.cached < 0 || m.cached > m.prompt
       || m.candidates > Wrap(MAX_INT64 - m.thoughts) then None
    else
      var output := Wrap(m.candidates + m.thoughts);
      if m.prompt > Wrap(MAX_INT64 - output) || m.total != Wrap(m.prompt + output) then None
      else Some(GatewayUsage(m.prompt, m.cached, output, m.thoughts))
  }

  /** Normalize accepts exactly the consistent reports whose grand total fits in 64 bits. */
  lemma NormalizeAcceptsExactly(u: CliUsage)
    requires Representable(u)
    ensures Normalize(u).Some? <==>
            && 0 <= u.input && 0 <= u.thinking <= u.output && 0 <= u.cacheRead
            && u.total == u.input + u.output && u.total + u.cacheRead <= MAX_INT64
  {
    if 0 <= u.input && 0 <= u.output && 0 <= u.cacheRead && u.input <= MAX_INT64 - u.output {
      assert Wrap(u.input + u.output) == u.input + u.output;
    }
  }

  /** Whatever the bridge accepts, the gateway accepts, and both count the same tokens. */
  lemma UsageRoundTrip(u: CliUsage)
    requires Representable(u) && Normalize(u).Some?
    ensures Validate(Encode(Normalize(u).value))
            == Some(GatewayUsage(u.input + u.cacheRead, u.cacheRead, u.output, u.thinking))
  {
    NormalizeAcceptsExactly(u);
  }

  /** Metadata from any sender is accepted exactly if it is consistent and its total fits 64 bits, and is then taken as it is. */
  lemma ValidateAcceptsExactly(m: Metadata)
    requires InRange(m.prompt) && InRange(m.candidates) && InRange(m.thoughts) && InRange(m.cached) && InRange(m.total)
    ensures Validate(m).Some? <==>
            0 <= m.cached <= m.prompt && 0 <= m.candidates && 0 <= m.thoughts && m.total == m.prompt + m.candidates + m.thoughts
    ensures Validate(m).Some? ==> Validate(m).value == GatewayUsage(m.prompt, m.cached, m.candidates + m.thoughts, m.thoughts)
  {
    hide Wrap;
  }
}
