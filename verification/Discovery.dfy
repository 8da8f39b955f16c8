/** Building the verifier at startup, with provider discovery retried against a clock: pkg/oidcx/oidcx.go. */
module Discovery {
  import opened Wrappers
  import opened ErrorX
  import T = Text
  import Verify

  // Durations and instants are in nanoseconds, as in Go.
  const DEFAULT_DISCOVERY_TIMEOUT := 10_000_000_000
  const DISCOVERY_BACKOFF := 500_000_000

  datatype Answer = Metadata(provider: Verify.Library) | Unreachable(err: Error)

  /**
   * What the surroundings do. Attempt k takes took(k) and ends in answer(k). The context given to Init may be
   * cancelled at some instant, and when a timer and the context end at the same instant, either may be seen first.
   */
  datatype World = World(start: int, took: nat -> nat, answer: nat -> Answer,
                         cancelled: Option<int>, timerFirst: nat -> bool)
  {
    /** The instant at which the bounded context is done. */
    function Done(timeout: int): int {
      var deadline := start + timeout;
      if cancelled.Some? && cancelled.value < deadline then cancelled.value else deadline
    }

    /** The instant at which attempt k begins if every earlier one fails and backs off in full. */
    ghost function StartOf(k: nat): int {
      if k == 0 then start else StartOf(k - 1) + took(k - 1) + 500_000_000
    }

    /** The back-off before attempt k ends before the context does. */
    ghost predicate InTime(timeout: int, k: nat) {
      k > 0 ==> StartOf(k) < Done(timeout) || (StartOf(k) == Done(timeout) && timerFirst(k - 1))
    }

    /** Attempt k takes place. */
    ghost predicate Reaches(timeout: int, k: nat) {
      forall j: nat | j <= k :: InTime(timeout, j) && (j < k ==> answer(j).Unreachable?)
    }
  }

  function DiscoveryError(issuer: string, err: Error): Error {
    Wrapped("failed to discover the oidc provider at " + T.Quoted(issuer), err)
  }

  /**
   * An attempt begins by the deadline and by the instant of a cancellation, and whenever it would begin before both it
   * does: which of the two matters is decided only when they coincide with the end of the back-off.
   */
  lemma ContextDecides(w: World, timeout: int, k: nat)
    requires k > 0
    ensures w.InTime(timeout, k) ==>
              && w.StartOf(k) <= w.start + timeout
              && (w.cancelled.Some? ==> w.StartOf(k) <= w.cancelled.value)
    ensures w.StartOf(k) < w.start + timeout && (w.cancelled.Some? ==> w.StartOf(k) < w.cancelled.value) ==>
              w.InTime(timeout, k)
  {
  }

  lemma {:induction false} BackoffsAddUp(w: World, k: nat)
    ensures w.StartOf(k) >= w.start + k * 500_000_000
  {
    if k == 0 {
    } else {
      BackoffsAddUp(w, k - 1);
    }
  }

  /** No more attempts fit into the timeout than one and one for every whole back-off. */
  lemma AttemptsAreBounded(w: World, timeout: int, k: nat)
    requires w.Reaches(timeout, k)
    ensures k <= if timeout > 0 then timeout / 500_000_000 else 0
  {
    BackoffsAddUp(w, k);
    if k > 0 {
      assert w.InTime(timeout, k);
      assert k * 500_000_000 <= timeout;
    }
  }

  /** A provider comes back exactly when some attempt that takes place finds one. */
  lemma DiscoverFindsProvider(w: World, timeout: int, attempts: nat, found: bool)
    requires attempts > 0 && w.Reaches(timeout, attempts - 1)
    requires found <==> w.answer(attempts - 1).Metadata?
    requires !found ==> !w.InTime(timeout, attempts)
    ensures found <==> exists k: nat :: w.Reaches(timeout, k) && w.answer(k).Metadata?
  {
  }

  method Discover(w: World, issuer: string, timeout: int) returns (answer: Answer, attempts: nat)
    ensures attempts > 0 && w.Reaches(timeout, attempts - 1)
    ensures answer.Metadata? ==> answer == w.answer(attempts - 1)
    ensures answer.Unreachable? ==>
              && w.answer(attempts - 1).Unreachable?
              && answer.err == DiscoveryError(issuer, w.answer(attempts - 1).err)
              && !w.InTime(timeout, attempts)
    ensures answer.Metadata? <==> exists k: nat :: w.Reaches(timeout, k) && w.answer(k).Metadata?
    ensures attempts <= 1 + if timeout > 0 then timeout / 500_000_000 else 0
  {
    var done := w.Done(timeout);
    var now := w.start;
    attempts := 0;
    while true
      invariant now == w.StartOf(attempts) && w.Reaches(timeout, attempts)
      invariant attempts > 0 ==> now <= done
      decreases done - now
    {
      var k := attempts;
      attempts := attempts + 1;
      AttemptsAreBounded(w, timeout, k);
      now := now + w.took(k);
      var result := w.answer(k);
      if result.Metadata? {
        DiscoverFindsProvider(w, timeout, attempts, true);
        return result, attempts;
      }
      var wake := now + DISCOVERY_BACKOFF;
      if now >= done || wake > done || (wake == done && !w.timerFirst(k)) {
        DiscoverFindsProvider(w, timeout, attempts, false);
        return Unreachable(DiscoveryError(issuer, result.err)), attempts;
      }
      now := wake;
    }
  }

  /**
   * A failed discovery names the issuer and the last failure, so that its message tells which they were, and it still
   * answers to everything that the last failure answers to.
   */
  lemma DiscoveryErrorTells(issuer: string, err: Error, s: Sentinel)
    ensures T.NeedsNoEscape(issuer) ==> T.Contains(Message(DiscoveryError(issuer, err)), issuer)
    ensures forall issuer', err' | Message(DiscoveryError(issuer', err')) == Message(DiscoveryError(issuer, err)) ::
              issuer' == issuer && Message(err') == Message(err)
    ensures Is(DiscoveryError(issuer, err), s) <==> Is(err, s)
    ensures TypeOf(Some(DiscoveryError(issuer, err))) == TypeOf(Some(err))
  {
    DiscoveryMessage(issuer, err);
    if T.NeedsNoEscape(issuer) {
      T.EscapedWithoutNeed(issuer);
      T.ContainsPiece(DISCOVERY_FAILED, issuer, "\"" + (": " + Message(err)));
      T.Assoc(DISCOVERY_FAILED, issuer, "\"" + (": " + Message(err)));
    }
    forall issuer', err' | Message(DiscoveryError(issuer', err')) == Message(DiscoveryError(issuer, err))
      ensures issuer' == issuer && Message(err') == Message(err)
    {
      MessageTells(issuer, err, issuer', err');
    }
  }

  const DISCOVERY_FAILED := "failed to discover the oidc provider at \""

  lemma DiscoveryMessage(issuer: string, err: Error)
    ensures Message(DiscoveryError(issuer, err))
         == DISCOVERY_FAILED + (T.Escaped(issuer) + ("\"" + (": " + Message(err))))
  {
    var prefix := "failed to discover the oidc provider at " + T.Quoted(issuer);
    T.Assoc("\"", T.Escaped(issuer), "\"");
    T.Assoc(DISCOVERY_FAILED, T.Escaped(issuer), "\"");
    T.Assoc("failed to discover the oidc provider at ", "\"", T.Escaped(issuer) + "\"");
    assert "failed to discover the oidc provider at " + "\"" == DISCOVERY_FAILED;
    T.Assoc(prefix, ": ", Message(err));
    T.Assoc(DISCOVERY_FAILED + T.Escaped(issuer), "\"", ": " + Message(err));
    T.Assoc(DISCOVERY_FAILED, T.Escaped(issuer), "\"" + (": " + Message(err)));
  }

  lemma MessageTells(issuer: string, err: Error, issuer': string, err': Error)
    requires Message(DiscoveryError(issuer', err')) == Message(DiscoveryError(issuer, err))
    ensures issuer' == issuer && Message(err') == Message(err)
  {
    hide Message;
    DiscoveryMessage(issuer, err);
    DiscoveryMessage(issuer', err');
    var m, m' := ": " + Message(err), ": " + Message(err');
    var s, s' := T.Escaped(issuer) + ("\"" + m), T.Escaped(issuer') + ("\"" + m');
    assert s == (DISCOVERY_FAILED + s)[|DISCOVERY_FAILED|..] && s' == (DISCOVERY_FAILED + s')[|DISCOVERY_FAILED|..];
    T.QuotedIsReadable(issuer', issuer, m', m);
    assert Message(err) == m[2..] && Message(err') == m'[2..];
  }

  // ---------------------------------------------------------------- Init

  datatype InitConfig = InitConfig(enabled: bool, issuer: string, audience: string, discoveryTimeout: int,
                                   verify: Verify.Config)

  datatype Verifier = Verifier(cfg: Verify.Config, audience: string, tokens: Verify.Library)

  function Missing(setting: string): Error {
    New(setting + " is required when oidc.enabled is true")
  }

  lemma MissingIsNamed(setting: string)
    ensures T.Contains(Message(Missing(setting)), setting)
  {
    T.ContainsPiece("", setting, " is required when oidc.enabled is true");
    assert "" + setting == setting;
  }

  method Init(cfg: InitConfig, w: World) returns (verifier: Option<Verifier>, err: Option<Error>, attempts: nat)
    ensures verifier.None? && err.None? <==> !cfg.enabled
    ensures verifier.None? || err.None?
    ensures cfg.enabled && (cfg.issuer == "" || cfg.audience == "") ==>
              && verifier.None? && err.Some?
              && T.Contains(Message(err.value), if cfg.issuer == "" then "oidc.issuer" else "oidc.audience")
    ensures attempts > 0 <==> cfg.enabled && cfg.issuer != "" && cfg.audience != ""
    // A timeout that is set is kept, in nanoseconds; one that cannot be used becomes ten seconds.
    ensures cfg.discoveryTimeout > 0 ==> attempts <= cfg.discoveryTimeout / 500_000_000 + 1
    ensures cfg.discoveryTimeout <= 0 ==> attempts <= 21
    ensures attempts > 0 ==>
              var timeout := if cfg.discoveryTimeout > 0 then cfg.discoveryTimeout else 10_000_000_000;
              && w.Reaches(timeout, attempts - 1)
              && match w.answer(attempts - 1)
                 case Metadata(provider) => verifier == Some(Verifier(cfg.verify, cfg.audience, provider))
                 case Unreachable(last) =>
                   err == Some(DiscoveryError(cfg.issuer, last)) && !w.InTime(timeout, attempts)
  {
    hide Message, T.Contains, Missing, DiscoveryError;
    verifier, err, attempts := None, None, 0;
    if !cfg.enabled {
      return;
    }
    if cfg.issuer == "" {
      MissingIsNamed("oidc.issuer");
      err := Some(Missing("oidc.issuer"));
      return;
    }
    if cfg.audience == "" {
      MissingIsNamed("oidc.audience");
      err := Some(Missing("oidc.audience"));
      return;
    }
    var timeout := cfg.discoveryTimeout;
    if timeout <= 0 {
      timeout := DEFAULT_DISCOVERY_TIMEOUT;
    }
    var answer;
    answer, attempts := Discover(w, cfg.issuer, timeout);
    if answer.Unreachable? {
      err := Some(answer.err);
      return;
    }
    verifier := Some(Verifier(cfg.verify, cfg.audience, answer.provider));
  }
}
