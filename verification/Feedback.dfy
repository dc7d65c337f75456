/**
 The one-use challenge tokens of `backend/src/feedback.js`: signed payloads checked against a map of used nonces that
 throws away its own old entries.
 */
module Feedback {
  import opened Wrappers
  import Text

  datatype Config = Config(challengeTtlMs: nat, minDwellMs: nat)

  /** A signed payload. A field that is missing reads as "" or 0, which the check treats alike. */
  datatype Payload = Payload(nonce: string, issuedAt: int)

  /** What the model does not look inside: base64url, JSON and the keyed signature. */
  datatype Codec = Codec(
    encode: string -> string,
    decode: string -> string,
    serialize: Payload -> string,
    parse: string -> Option<Payload>,
    sign: string -> string)

  datatype Reason = Required | Invalid | SignatureMismatch | PayloadInvalid | TooSoon | Expired | AlreadyUsed

  type Used = map<string, int>

  function Create(codec: Codec, nonce: string, now: int): string {
    var payloadJson := codec.serialize(Payload(nonce, now));
    codec.encode(payloadJson) + "." + codec.sign(payloadJson)
  }

  lemma TwoParts(token: string)
    requires '.' in token
    ensures |Text.Split(token, '.')| >= 2
  {
    Text.JoinSplit(token, '.');
    Text.SplitFree(token, '.');
  }

  /** The authentic payload of a token, or why there is none. `None` stands for anything but a string. */
  function Opened(codec: Codec, token: Option<string>): Result<Payload, Reason> {
    if token.None? || '.' !in token.value then Err(Required)
    else
      var parts := Text.Split(token.value, '.');
      TwoParts(token.value);
      var payloadJson := codec.decode(parts[0]);
      match codec.parse(payloadJson)
      case None => Err(Invalid)
      case Some(p) =>
        if parts[1] != codec.sign(payloadJson) then Err(SignatureMismatch)
        else if p.issuedAt == 0 || p.nonce == "" then Err(PayloadInvalid)
        else Ok(p)
  }

  /** An authentic payload presented neither too soon nor too late. */
  function Timely(codec: Codec, cfg: Config, token: Option<string>, now: int): Result<Payload, Reason> {
    match Opened(codec, token)
    case Err(e) => Err(e)
    case Ok(p) =>
      if now - p.issuedAt < cfg.minDwellMs then Err(TooSoon)
      else if now - p.issuedAt > cfg.challengeTtlMs then Err(Expired)
      else Ok(p)
  }

  function Cleaned(used: Used, cutoff: int): Used {
    map nonce | nonce in used && used[nonce] >= cutoff :: used[nonce]
  }

  /** `None` is acceptance. The clock is read once for the check and again for the clean-up. */
  function Verdict(codec: Codec, cfg: Config, used: Used, call: Call): Option<Reason> {
    match Timely(codec, cfg, call.token, call.checkNow)
    case Err(e) => Some(e)
    case Ok(p) =>
      if p.nonce in Cleaned(used, call.cleanupNow - cfg.challengeTtlMs) then Some(AlreadyUsed) else None
  }

  function After(codec: Codec, cfg: Config, used: Used, call: Call): Used {
    match Timely(codec, cfg, call.token, call.checkNow)
    case Err(_) => used
    case Ok(p) =>
      var kept := Cleaned(used, call.cleanupNow - cfg.challengeTtlMs);
      if p.nonce in kept then kept else kept[p.nonce := call.checkNow]
  }

  class ChallengeStore {
    const codec: Codec
    var used: Used

    constructor (codec: Codec)
      ensures this.codec == codec && used == map[]
    {
      this.codec := codec;
      used := map[];
    }

    method Cleanup(ttlMs: nat, now: int)
      modifies this`used
      ensures used == Cleaned(old(used), now - ttlMs)
    {
      var cutoff := now - ttlMs;
      var pending := used.Keys;
      while pending != {}
        invariant pending <= used.Keys <= old(used).Keys
        invariant forall n :: n in used ==> used[n] == old(used)[n] && (n in pending || used[n] >= cutoff)
        invariant forall n :: n in old(used) && old(used)[n] >= cutoff ==> n in used
        decreases |pending|
      {
        var nonce :| nonce in pending;
        pending := pending - {nonce};
        if used[nonce] < cutoff {
          used := used - {nonce};
        }
      }
    }

    method Verify(token: Option<string>, cfg: Config, checkNow: int, cleanupNow: int) returns (r: Option<Reason>)
      modifies this`used
      ensures r == Verdict(codec, cfg, old(used), Call(token, checkNow, cleanupNow))
      ensures used == After(codec, cfg, old(used), Call(token, checkNow, cleanupNow))
    {
      var payload := Opened(codec, token);
      if payload.Err? { return Some(payload.error); }
      var p := payload.value;
      if checkNow - p.issuedAt < cfg.minDwellMs { return Some(TooSoon); }
      if checkNow - p.issuedAt > cfg.challengeTtlMs { return Some(Expired); }
      Cleanup(cfg.challengeTtlMs, cleanupNow);
      if p.nonce in used { return Some(AlreadyUsed); }
      used := used[p.nonce := checkNow];
      return None;
    }
  }

  // ----- which tokens are accepted, read off their text

  /** The first two dot-separated parts of the token: a decoded payload text, and the signature of exactly that text. */
  ghost predicate Signed(codec: Codec, token: Option<string>, p: Payload) {
    token.Some? && '.' in token.value &&
    var parts := Text.Split(token.value, '.');
    |parts| >= 2 && parts[1] == codec.sign(codec.decode(parts[0])) && codec.parse(codec.decode(parts[0])) == Some(p)
  }

  /** A call within the lifetime of its token, whose nonce is not remembered as used. */
  ghost predicate InTime(cfg: Config, p: Payload, call: Call) {
    p.issuedAt + cfg.minDwellMs <= call.checkNow <= p.issuedAt + cfg.challengeTtlMs
  }

  ghost predicate Remembered(cfg: Config, used: Used, p: Payload, call: Call) {
    p.nonce in used && used[p.nonce] + cfg.challengeTtlMs >= call.cleanupNow
  }

  /** A signed token whose payload has a nonce and an issue date. */
  ghost predicate Genuine(codec: Codec, token: Option<string>, p: Payload) {
    Signed(codec, token, p) && p.nonce != "" && p.issuedAt != 0
  }

  lemma OpenedExact(codec: Codec, token: Option<string>, p: Payload)
    ensures Opened(codec, token) == Ok(p) <==> Genuine(codec, token, p)
  {
    if token.Some? && '.' in token.value {
      TwoParts(token.value);
    }
  }

  /**
   A call is accepted if and only if its token carries the signature of its own payload text, the payload has a nonce
   and an issue date, the call is within its lifetime, and the nonce is not remembered as used.
   */
  lemma AcceptedExact(codec: Codec, cfg: Config, used: Used, call: Call)
    ensures Verdict(codec, cfg, used, call).None?
       <==> exists p :: Genuine(codec, call.token, p) && InTime(cfg, p, call) && !Remembered(cfg, used, p, call)
  {
    if call.token.Some? && '.' in call.token.value {
      TwoParts(call.token.value);
      var payload := codec.parse(codec.decode(Text.Split(call.token.value, '.')[0]));
      if payload.Some? && Verdict(codec, cfg, used, call).None? {
        assert Genuine(codec, call.token, payload.value);
      }
    }
  }

  /** The reason of every refusal, in the order the checks are made. */
  lemma RefusedExact(codec: Codec, cfg: Config, used: Used, call: Call)
    ensures var verdict := Verdict(codec, cfg, used, call);
            if call.token.None? || '.' !in call.token.value then verdict == Some(Required)
            else
              var parts := Text.Split(call.token.value, '.');
              |parts| >= 2 &&
              match codec.parse(codec.decode(parts[0]))
              case None => verdict == Some(Invalid)
              case Some(p) =>
                && (verdict == Some(SignatureMismatch) <==> parts[1] != codec.sign(codec.decode(parts[0])))
                && (Signed(codec, call.token, p) ==>
                      if p.nonce == "" || p.issuedAt == 0 then verdict == Some(PayloadInvalid)
                      else if call.checkNow < p.issuedAt + cfg.minDwellMs then verdict == Some(TooSoon)
                      else if call.checkNow > p.issuedAt + cfg.challengeTtlMs then verdict == Some(Expired)
                      else verdict == if Remembered(cfg, used, p, call) then Some(AlreadyUsed) else None)
  {
    if call.token.Some? && '.' in call.token.value {
      TwoParts(call.token.value);
    }
  }

  /** A call with a genuine token in time cleans the map up and has its nonce in it; any other changes nothing. */
  lemma AfterExact(codec: Codec, cfg: Config, used: Used, call: Call, p: Payload)
    requires Genuine(codec, call.token, p)
    ensures InTime(cfg, p, call) ==>
              var next := After(codec, cfg, used, call);
              forall nonce ::
                (nonce in next <==>
                   nonce == p.nonce || (nonce in used && used[nonce] + cfg.challengeTtlMs >= call.cleanupNow)) &&
                (nonce in next ==>
                   next[nonce] == if nonce == p.nonce && !Remembered(cfg, used, p, call) then call.checkNow
                                  else used[nonce])
    ensures !InTime(cfg, p, call) ==> After(codec, cfg, used, call) == used
  {
  }

  lemma ForgedChangesNothing(codec: Codec, cfg: Config, used: Used, call: Call)
    requires forall p :: !Genuine(codec, call.token, p)
    ensures After(codec, cfg, used, call) == used
  {
    if call.token.Some? && '.' in call.token.value {
      TwoParts(call.token.value);
      var payload := codec.parse(codec.decode(Text.Split(call.token.value, '.')[0]));
      if payload.Some? && Timely(codec, cfg, call.token, call.checkNow).Ok? {
        assert Genuine(codec, call.token, payload.value);
      }
    }
  }

  // ----- runs

  datatype Call = Call(token: Option<string>, checkNow: int, cleanupNow: int)

  function Run(codec: Codec, cfg: Config, calls: seq<Call>, n: nat): Used
    requires n <= |calls|
  {
    if n == 0 then map[] else After(codec, cfg, Run(codec, cfg, calls, n - 1), calls[n - 1])
  }

  predicate AcceptedAt(codec: Codec, cfg: Config, calls: seq<Call>, i: nat)
    requires i < |calls|
  {
    Verdict(codec, cfg, Run(codec, cfg, calls, i), calls[i]).None?
  }

  /** The clock never goes back, and the second reading follows the first by at most `lag`. */
  ghost predicate Clocked(calls: seq<Call>, lag: int) {
    && (forall i :: 0 <= i < |calls| ==> calls[i].checkNow <= calls[i].cleanupNow <= calls[i].checkNow + lag)
    && (forall i, j :: 0 <= i < j < |calls| ==> calls[i].cleanupNow <= calls[j].checkNow)
  }

  /** A used nonce stays in the map as long as any token of its issue date could still be presented. */
  lemma {:induction false} UsedIsRemembered(codec: Codec, cfg: Config, calls: seq<Call>, i: nat, n: nat, p: Payload)
    requires i < n <= |calls| && Clocked(calls, cfg.minDwellMs)
    requires AcceptedAt(codec, cfg, calls, i) && Opened(codec, calls[i].token) == Ok(p)
    requires forall k :: i < k < n ==> calls[k].checkNow <= p.issuedAt + cfg.challengeTtlMs
    ensures var used := Run(codec, cfg, calls, n);
            p.nonce in used && used[p.nonce] >= p.issuedAt + cfg.minDwellMs
    decreases n
  {
    hide Opened;
    if n == i + 1 {
    } else {
      UsedIsRemembered(codec, cfg, calls, i, n - 1, p);
    }
  }

  /**
   No two calls of a run are both accepted for one nonce issued once, although used nonces are thrown away, provided
   the clean-up reads the clock at most the minimum dwell after the check does.
   */
  lemma AcceptedAtMostOnce(codec: Codec, cfg: Config, calls: seq<Call>, i: nat, j: nat)
    requires i < j < |calls| && Clocked(calls, cfg.minDwellMs)
    requires Opened(codec, calls[i].token).Ok? && Opened(codec, calls[i].token) == Opened(codec, calls[j].token)
    ensures !(AcceptedAt(codec, cfg, calls, i) && AcceptedAt(codec, cfg, calls, j))
  {
    hide Opened, Run;
    if AcceptedAt(codec, cfg, calls, i) && AcceptedAt(codec, cfg, calls, j) {
      var p := Opened(codec, calls[i].token).value;
      assert forall k :: i < k < j ==> calls[k].checkNow <= calls[k].cleanupNow <= calls[j].checkNow;
      UsedIsRemembered(codec, cfg, calls, i, j, p);
    }
  }

  /** In particular one and the same token. */
  lemma TokenAcceptedAtMostOnce(codec: Codec, cfg: Config, calls: seq<Call>, i: nat, j: nat)
    requires i < j < |calls| && Clocked(calls, cfg.minDwellMs) && calls[i].token == calls[j].token
    ensures !(AcceptedAt(codec, cfg, calls, i) && AcceptedAt(codec, cfg, calls, j))
  {
    hide Opened, Run;
    if Opened(codec, calls[i].token).Ok? {
      AcceptedAtMostOnce(codec, cfg, calls, i, j);
    }
  }

  /**
   The bound on the lag is exact: whenever the clean-up may lag by more than the minimum dwell, any token that can be
   accepted at all can be accepted twice.
   */
  lemma {:induction false} LaggingCleanupReplays(codec: Codec, cfg: Config, token: Option<string>, p: Payload, lag: nat)
      returns (calls: seq<Call>)
    requires Opened(codec, token) == Ok(p) && cfg.minDwellMs <= cfg.challengeTtlMs && lag > cfg.minDwellMs
    ensures |calls| == 2 && calls[0].token == calls[1].token == token && Clocked(calls, lag)
    ensures AcceptedAt(codec, cfg, calls, 0) && AcceptedAt(codec, cfg, calls, 1)
  {
    hide Opened;
    var early, late := p.issuedAt + cfg.minDwellMs, p.issuedAt + cfg.challengeTtlMs;
    calls := [Call(token, early, early), Call(token, late, late + lag)];
    assert Run(codec, cfg, calls, 0) == map[];
    assert AcceptedAt(codec, cfg, calls, 0);
    var used := Run(codec, cfg, calls, 1);
    assert used == After(codec, cfg, map[], calls[0]);
    assert used[p.nonce] == early;
    assert p.nonce !in Cleaned(used, late + lag - cfg.challengeTtlMs);
  }

  // ----- what the map holds

  /** Call `i` of the run used the nonce up, and no clean-up up to call `n` was late enough to forget it. */
  ghost predicate UsedBy(codec: Codec, cfg: Config, calls: seq<Call>, n: nat, nonce: string, i: nat)
    requires i < n <= |calls|
  {
    && AcceptedAt(codec, cfg, calls, i) && Opened(codec, calls[i].token).Ok?
    && Opened(codec, calls[i].token).value.nonce == nonce
    && (forall k :: i < k < n && Timely(codec, cfg, calls[k].token, calls[k].checkNow).Ok? ==>
          calls[i].checkNow >= calls[k].cleanupNow - cfg.challengeTtlMs)
  }

  /** Every entry of the map was put there by an accepted call that no clean-up has outlived. */
  lemma {:induction false} HeldWasAccepted(codec: Codec, cfg: Config, calls: seq<Call>, n: nat, nonce: string)
      returns (i: nat)
    requires n <= |calls| && nonce in Run(codec, cfg, calls, n)
    ensures i < n && UsedBy(codec, cfg, calls, n, nonce, i) && Run(codec, cfg, calls, n)[nonce] == calls[i].checkNow
    decreases n
  {
    hide Opened;
    var c := calls[n - 1];
    var before := Run(codec, cfg, calls, n - 1);
    if AcceptedAt(codec, cfg, calls, n - 1) && Timely(codec, cfg, c.token, c.checkNow).value.nonce == nonce {
      i := n - 1;
    } else {
      i := HeldWasAccepted(codec, cfg, calls, n - 1, nonce);
    }
  }

  /** And every such call is still in the map. */
  lemma {:induction false} AcceptedIsHeld(codec: Codec, cfg: Config, calls: seq<Call>, n: nat, nonce: string, i: nat)
    requires i < n <= |calls| && UsedBy(codec, cfg, calls, n, nonce, i)
    ensures nonce in Run(codec, cfg, calls, n)
    ensures Run(codec, cfg, calls, n)[nonce] == calls[i].checkNow
    decreases n
  {
    hide Opened;
    if n == i + 1 {
    } else {
      AcceptedIsHeld(codec, cfg, calls, n - 1, nonce, i);
    }
  }

  /** Right after a clean-up the map holds only nonces used within the last lifetime. */
  lemma HeldIsRecent(codec: Codec, cfg: Config, calls: seq<Call>, n: nat, nonce: string)
    requires 0 < n <= |calls| && Clocked(calls, cfg.minDwellMs)
    requires Timely(codec, cfg, calls[n - 1].token, calls[n - 1].checkNow).Ok?
    requires nonce in Run(codec, cfg, calls, n)
    ensures Run(codec, cfg, calls, n)[nonce] >= calls[n - 1].cleanupNow - cfg.challengeTtlMs
  {
    hide Opened, Run;
    var i := HeldWasAccepted(codec, cfg, calls, n, nonce);
  }

  /** An accepted call `i` for this nonce, which no genuine call in time between `i` and `n` cleaned away. */
  ghost predicate SpentAt(codec: Codec, cfg: Config, calls: seq<Call>, n: nat, nonce: string, i: nat)
    requires i < n <= |calls|
  {
    && AcceptedAt(codec, cfg, calls, i) && (exists p :: Genuine(codec, calls[i].token, p) && p.nonce == nonce)
    && (forall k, q :: i < k < n && Genuine(codec, calls[k].token, q) && InTime(cfg, q, calls[k]) ==>
          calls[k].cleanupNow <= calls[i].checkNow + cfg.challengeTtlMs)
  }

  lemma SpentIsUsed(codec: Codec, cfg: Config, calls: seq<Call>, n: nat, nonce: string, i: nat)
    requires i < n <= |calls|
    ensures SpentAt(codec, cfg, calls, n, nonce, i) <==> UsedBy(codec, cfg, calls, n, nonce, i)
  {
    hide Opened, Genuine, AcceptedAt;
    OpenedOnly(codec, calls[i].token);
    forall k | i < k < n
      ensures Timely(codec, cfg, calls[k].token, calls[k].checkNow).Ok?
         <==> exists q :: Genuine(codec, calls[k].token, q) && InTime(cfg, q, calls[k])
    {
      OpenedOnly(codec, calls[k].token);
    }
  }

  lemma OpenedOnly(codec: Codec, token: Option<string>)
    ensures Opened(codec, token).Ok? ==> Genuine(codec, token, Opened(codec, token).value)
    ensures forall q :: Genuine(codec, token, q) ==> Opened(codec, token) == Ok(q)
  {
    hide Opened, Genuine;
    forall q ensures Opened(codec, token) == Ok(q) <==> Genuine(codec, token, q) {
      OpenedExact(codec, token, q);
    }
  }

  /**
   In any run, a call is accepted if and only if its token is genuine and in time, and no earlier accepted call spent
   its nonce so lately that neither a clean-up since nor this call's own has forgotten it.
   */
  lemma RunAccepts(codec: Codec, cfg: Config, calls: seq<Call>, n: nat)
    requires n < |calls|
    ensures AcceptedAt(codec, cfg, calls, n)
       <==> exists p ::
              && Genuine(codec, calls[n].token, p) && InTime(cfg, p, calls[n])
              && forall i :: 0 <= i < n && SpentAt(codec, cfg, calls, n, p.nonce, i) ==>
                   calls[i].checkNow + cfg.challengeTtlMs < calls[n].cleanupNow
  {
    hide Genuine, Opened, Timely, Run, After, SpentAt;
    var used := Run(codec, cfg, calls, n);
    AcceptedExact(codec, cfg, used, calls[n]);
    forall p: Payload
      ensures Remembered(cfg, used, p, calls[n])
         <==> exists i :: 0 <= i < n && SpentAt(codec, cfg, calls, n, p.nonce, i) &&
                          calls[i].checkNow + cfg.challengeTtlMs >= calls[n].cleanupNow
    {
      RememberedIsSpent(codec, cfg, calls, n, p);
    }
  }

  lemma RememberedIsSpent(codec: Codec, cfg: Config, calls: seq<Call>, n: nat, p: Payload)
    requires n < |calls|
    ensures Remembered(cfg, Run(codec, cfg, calls, n), p, calls[n])
       <==> exists i :: 0 <= i < n && SpentAt(codec, cfg, calls, n, p.nonce, i) &&
                        calls[i].checkNow + cfg.challengeTtlMs >= calls[n].cleanupNow
  {
    hide UsedBy, SpentAt, Run;
    if p.nonce in Run(codec, cfg, calls, n) {
      var i := HeldWasAccepted(codec, cfg, calls, n, p.nonce);
      SpentIsUsed(codec, cfg, calls, n, p.nonce, i);
    }
    forall i | 0 <= i < n && SpentAt(codec, cfg, calls, n, p.nonce, i)
      ensures p.nonce in Run(codec, cfg, calls, n) && Run(codec, cfg, calls, n)[p.nonce] == calls[i].checkNow
    {
      SpentIsUsed(codec, cfg, calls, n, p.nonce, i);
      AcceptedIsHeld(codec, cfg, calls, n, p.nonce, i);
    }
  }

  // ----- a token that was issued is accepted in time

  ghost predicate Faithful(codec: Codec) {
    && (forall s :: '.' !in codec.encode(s) && codec.decode(codec.encode(s)) == s)
    && (forall s :: '.' !in codec.sign(s))
    && (forall p :: codec.parse(codec.serialize(p)) == Some(p))
  }

  lemma CreatedOpens(codec: Codec, nonce: string, issued: int)
    requires Faithful(codec) && nonce != "" && issued != 0
    ensures Opened(codec, Some(Create(codec, nonce, issued))) == Ok(Payload(nonce, issued))
  {
    var json := codec.serialize(Payload(nonce, issued));
    var token := Create(codec, nonce, issued);
    Text.SplitAt(codec.encode(json), '.', codec.sign(json));
    Text.SplitWhole(codec.sign(json), '.');
    assert token[|codec.encode(json)|] == '.';
    assert Text.Split(token, '.') == [codec.encode(json), codec.sign(json)];
  }

  /** After any run that has not used its nonce, a token is accepted exactly from its dwell time to its expiry. */
  lemma CreatedIsAccepted(codec: Codec, cfg: Config, calls: seq<Call>, nonce: string, issued: int, call: Call)
    requires Faithful(codec) && nonce != "" && issued != 0 && call.token == Some(Create(codec, nonce, issued))
    requires forall i :: 0 <= i < |calls| && AcceptedAt(codec, cfg, calls, i) ==>
               Opened(codec, calls[i].token).Ok? && Opened(codec, calls[i].token).value.nonce != nonce
    ensures Verdict(codec, cfg, Run(codec, cfg, calls, |calls|), call).None?
       <==> issued + cfg.minDwellMs <= call.checkNow <= issued + cfg.challengeTtlMs
  {
    CreatedOpens(codec, nonce, issued);
    hide Opened, Create, Faithful, Run;
    if nonce in Run(codec, cfg, calls, |calls|) {
      var i := HeldWasAccepted(codec, cfg, calls, |calls|, nonce);
    }
  }
}
