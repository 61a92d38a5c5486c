/** What holds in every run of the pool, however the two protocols, new blocks,
    reconnects and the answers of the wallet interleave. */
module PoolRuns {
  import opened Arithmetic
  import opened Digits
  import opened Hex
  import opened EquihashSpec
  import opened BaseUint
  import opened Compact
  import opened Header
  import Limbs
  import opened Pool

  /** The program's instance: its solutions with the compact size that goes with them,
      and two hashes of 25 bytes to an output. */
  lemma Eh200_9Widths()
    ensures Params(200, 9).Admissible() && Params(200, 9).SolutionWidth() == 1344
    ensures CompactSizeBytes(1344) == [0xFD, 0x40, 0x05]
    ensures Params(200, 9).IndicesPerHashOutput() == 2 && Params(200, 9).HashOutput() == 50
  {
    hide Image, Shr, Low;
    assert Params(200, 9).C() == 20;
    LowBytes(1344);
    assert Params(200, 9).IndicesPerHashOutput() == 2;
    WidthIsProduct(20, 10);
    Pow2Add(5, 4);
    assert Pow2(9) == 512;
  }

  // ---- no share is credited twice ----

  predicate Apart(a: Found, b: Found) { a.epoch != b.epoch || a.hash != b.hash }

  /** What is known of a share that was taken: it meets the share target, its hash is
      the hash of its header, and its proof was checked as far as its path checks it. */
  ghost predicate Sound(env: Env, f: Found)
    requires env.Valid()
  {
    && f.hash == env.sha(Hashed(f.header, f.proof)) && f.hash <= env.shareTarget
    && (f.refused <==> env.equihashShareCheck && !ProofValid(env, f.header, f.proof))
    && (f.path.Stratum? ==> !f.refused)
  }

  /** Shares taken in the current epoch are in uniqueShares. */
  predicate Recorded(s: PoolState, f: Found) {
    f.epoch <= s.epoch && (f.epoch == s.epoch ==> f.hash in s.uniqueShares)
  }

  ghost predicate Accounted(env: Env, s: PoolState)
    requires env.Valid()
  {
    && (forall i :: 0 <= i < |s.waiting| ==> Sound(env, s.waiting[i]) && Recorded(s, s.waiting[i]))
    && (forall i :: 0 <= i < |s.credits| ==> Sound(env, s.credits[i].share) && Recorded(s, s.credits[i].share))
    && (forall i, j :: 0 <= i < j < |s.waiting| ==> Apart(s.waiting[i], s.waiting[j]))
    && (forall i, j :: 0 <= i < j < |s.credits| ==> Apart(s.credits[i].share, s.credits[j].share))
    && (forall i, j :: 0 <= i < |s.waiting| && 0 <= j < |s.credits| ==> Apart(s.waiting[i], s.credits[j].share))
  }

  lemma TakenAccounted(env: Env, s: PoolState, f: Found, up: bool)
    requires env.Valid() && Accounted(env, s)
    requires Sound(env, f) && f.epoch == s.epoch && f.hash !in s.uniqueShares
    ensures Accounted(env, Taken(s, f, up))
  {
    hide Sound, Env.Valid;
  }

  lemma AnsweredAccounted(env: Env, s: PoolState, i: nat, answer: Answer, up: bool)
    requires env.Valid() && Accounted(env, s)
    ensures Accounted(env, Next(env, s, ProofAnswered(i, answer, up)))
  {
    hide Sound, Env.Valid, ZmqCheck, StratumCheck;
    if i < |s.waiting| {
      var f, t := s.waiting[i], s.(waiting := s.waiting[..i] + s.waiting[i + 1..]);
      RemovedAccounted(env, s, i);
      if answer.Answer? && answer.accepted {
        SentAccounted(env, t, f, f.path.Zmq? || answer.generatedCoins > 0, answer.generatedCoins, up);
      }
    }
  }

  /** The share of the handler that goes on stays apart from all others. */
  lemma RemovedAccounted(env: Env, s: PoolState, i: nat)
    requires env.Valid() && Accounted(env, s) && i < |s.waiting|
    ensures var f, t := s.waiting[i], s.(waiting := s.waiting[..i] + s.waiting[i + 1..]);
            Accounted(env, t) && Sound(env, f) && Recorded(t, f) && ApartFromAll(t, f)
  {
    hide Sound, Env.Valid;
  }

  predicate ApartFromAll(s: PoolState, f: Found) {
    && (forall i :: 0 <= i < |s.waiting| ==> Apart(s.waiting[i], f))
    && (forall i :: 0 <= i < |s.credits| ==> Apart(s.credits[i].share, f))
  }

  lemma SentAccounted(env: Env, s: PoolState, f: Found, isBlock: bool, coins: int, up: bool)
    requires env.Valid() && Accounted(env, s) && Sound(env, f) && Recorded(s, f) && ApartFromAll(s, f)
    ensures Accounted(env, Sent(s, f, isBlock, coins, up))
  {
    hide Sound, Env.Valid;
  }

  lemma ZmqSound(env: Env, s: PoolState, share: Option<ZmqShare>)
    requires env.Valid() && ZmqCheck(env, s, share).Accepted?
    ensures var f := ZmqCheck(env, s, share).share;
            Sound(env, f) && f.epoch == s.epoch && f.hash !in s.uniqueShares && f.path.Zmq?
  {
    hide ProofValid, Hashed, ParseHash, ZmqHeader, Env.Valid;
  }

  lemma StratumSound(env: Env, s: PoolState, m: Submit)
    requires env.Valid() && |m.nonce| == 32 && StratumCheck(env, s, m).Accepted?
    ensures var f := StratumCheck(env, s, m).share;
            Sound(env, f) && f.epoch == s.epoch && f.hash !in s.uniqueShares && f.path.Stratum?
  {
    hide ProofValid, Hashed, StratumHeader, Env.Valid;
  }

  /** Every step keeps the accounts. */
  lemma StepAccounted(env: Env, s: PoolState, e: Event)
    requires env.Valid() && IsEvent(e) && Accounted(env, s)
    ensures Accounted(env, Next(env, s, e))
  {
    hide Sound, ZmqCheck, StratumCheck, Taken, TaskFor;
    match e {
      case ShareReceived(share, up) =>
        if ZmqCheck(env, s, share).Accepted? {
          ZmqSound(env, s, share);
          TakenAccounted(env, s, ZmqCheck(env, s, share).share, up);
        }
      case SubmitReceived(m, up) =>
        if StratumCheck(env, s, m).Accepted? {
          StratumSound(env, s, m);
          TakenAccounted(env, s, StratumCheck(env, s, m).share, up);
        }
      case ProofAnswered(i, answer, up) => AnsweredAccounted(env, s, i, answer, up);
      case _ =>
    }
  }

  lemma {:induction false} RunAccounted(env: Env, trace: seq<Event>)
    requires env.Valid() && IsTrace(trace)
    ensures Accounted(env, Run(env, trace))
  {
    hide Accounted, Next, Env.Valid;
    if trace == [] {
      NothingYet(env);
    } else {
      RunAccounted(env, trace[..|trace| - 1]);
      StepAccounted(env, Run(env, trace[..|trace| - 1]), trace[|trace| - 1]);
    }
  }

  lemma NothingYet(env: Env)
    requires env.Valid()
    ensures Accounted(env, INITIAL_STATE)
  {}

  /** In every run, each hash is sent to the backend at most once per epoch over both
      protocols together; it is the hash of the share's header and meets the share
      target; and a Stratum share's proof is valid when proofs are checked. */
  lemma CreditsAreSafe(env: Env, trace: seq<Event>)
    requires env.Valid() && IsTrace(trace)
    ensures var credits := Run(env, trace).credits;
      && (forall i, j :: 0 <= i < j < |credits| && credits[i].share.hash == credits[j].share.hash ==>
            credits[i].share.epoch != credits[j].share.epoch)
      && (forall i :: 0 <= i < |credits| ==>
            var f := credits[i].share;
            && f.hash == env.sha(Hashed(f.header, f.proof)) && f.hash <= env.shareTarget
            && (f.path.Stratum? && env.equihashShareCheck ==> ProofValid(env, f.header, f.proof)))
  {
    hide ProofValid, Hashed, Next, Env.Valid;
    RunAccounted(env, trace);
  }

  // ---- ZMQ shares with invalid proofs ----

  /** The tests of onShare other than the one of the proof. */
  predicate PassesOtherTests(env: Env, s: PoolState, share: ZmqShare) {
    && share.bigNonce.Some? && share.proofOfWork.Some?
    && share.height == s.height && share.merkle in s.extraNonceMap
    && var hash := env.sha(Hashed(ZmqHeader(env, s, share), share.proofOfWork.value));
       env.setHex(share.hash) == hash && hash <= env.shareTarget && hash !in s.uniqueShares
  }

  ghost predicate IsInvalid(env: Env, f: Found)
    requires env.Valid()
  {
    !ProofValid(env, f.header, f.proof)
  }

  /** The step from s to t sends a message for a share whose proof is invalid. */
  ghost predicate CreditsInvalid(env: Env, s: PoolState, t: PoolState)
    requires env.Valid()
  {
    |t.credits| > |s.credits| && IsInvalid(env, t.credits[|s.credits|].share)
  }

  /** A ZMQ share with an invalid proof is credited at once exactly when it passes the
      other tests, is no block and the backend takes the message: whether proofs are
      checked makes no difference. A block waits for the wallet under the same tests. */
  lemma InvalidProofCreditedExactly(env: Env, s: PoolState, share: ZmqShare, up: bool)
    requires env.Valid()
    ensures var t := Next(env, s, ShareReceived(Some(share), up));
      var invalid := PassesOtherTests(env, s, share)
                     && !ProofValid(env, ZmqHeader(env, s, share), share.proofOfWork.value);
      && (CreditsInvalid(env, s, t) <==> invalid && !share.isBlock && up)
      && (|t.waiting| > |s.waiting| && IsInvalid(env, t.waiting[|s.waiting|]) <==> invalid && share.isBlock)
  {
    hide ProofValid, Hashed, ZmqHeader, Env.Valid;
  }

  /** A waiting block with an invalid proof is credited exactly when the wallet accepts
      it and the backend takes the message. */
  lemma InvalidBlockCreditedExactly(env: Env, s: PoolState, i: nat, answer: Answer, up: bool)
    requires env.Valid()
    ensures CreditsInvalid(env, s, Next(env, s, ProofAnswered(i, answer, up)))
       <==> i < |s.waiting| && IsInvalid(env, s.waiting[i]) && answer.Answer? && answer.accepted && up
  {
    hide IsInvalid, Env.Valid, ZmqCheck, StratumCheck;
  }

  function WithoutCheck(env: Env): (bare: Env)
    ensures env.Valid() ==> bare.Valid()
  {
    env.(equihashShareCheck := false)
  }

  function Unmarked(f: Found): Found { f.(refused := false) }

  function UnmarkedCredit(c: Credit): Credit { c.(share := Unmarked(c.share)) }

  /** The state without the marks on shares whose proof was found invalid. */
  function UnmarkedState(s: PoolState): (t: PoolState)
    ensures |t.waiting| == |s.waiting| && |t.credits| == |s.credits|
    ensures forall i :: 0 <= i < |s.waiting| ==> t.waiting[i] == Unmarked(s.waiting[i])
    ensures forall i :: 0 <= i < |s.credits| ==> t.credits[i] == UnmarkedCredit(s.credits[i])
    ensures t == s.(waiting := t.waiting, credits := t.credits)
  {
    s.(waiting := seq(|s.waiting|, i requires 0 <= i < |s.waiting| => Unmarked(s.waiting[i])),
       credits := seq(|s.credits|, i requires 0 <= i < |s.credits| => UnmarkedCredit(s.credits[i])))
  }

  lemma StepWithoutCheck(env: Env, s: PoolState, e: Event)
    requires env.Valid() && IsEvent(e) && !e.SubmitReceived?
    ensures UnmarkedState(Next(env, s, e)) == Next(WithoutCheck(env), UnmarkedState(s), e)
  {
    hide ProofValid, Hashed, Env.Valid, StratumCheck, ZmqCheck, UnmarkedState;
    if e.ShareReceived? {
      CheckWithoutCheck(env, s, e.share);
      var v := ZmqCheck(env, s, e.share);
      if v.Accepted? {
        UnmarkedTaken(s, v.share, e.up);
      }
    } else if e.ProofAnswered? {
      if e.i < |s.waiting| {
        UnmarkedRemoved(s, e.i);
        if e.answer.Answer? {
          var f, rest := s.waiting[e.i], s.(waiting := s.waiting[..e.i] + s.waiting[e.i + 1..]);
          UnmarkedSent(rest, f, f.path.Zmq? || e.answer.generatedCoins > 0, e.answer.generatedCoins, e.up);
        }
      }
    } else {
      UnmarkedRest(s, Next(env, s, e));
    }
  }

  lemma CheckWithoutCheck(env: Env, s: PoolState, share: Option<ZmqShare>)
    requires env.Valid()
    ensures var v, w := ZmqCheck(env, s, share), ZmqCheck(WithoutCheck(env), UnmarkedState(s), share);
      w == if v.Accepted? then Accepted(Unmarked(v.share)) else v
  {
    hide ProofValid, Hashed, Env.Valid;
  }

  lemma UnmarkedTaken(s: PoolState, f: Found, up: bool)
    ensures UnmarkedState(Taken(s, f, up)) == Taken(UnmarkedState(s), Unmarked(f), up)
  {}

  lemma UnmarkedSent(s: PoolState, f: Found, isBlock: bool, coins: int, up: bool)
    ensures UnmarkedState(Sent(s, f, isBlock, coins, up)) == Sent(UnmarkedState(s), Unmarked(f), isBlock, coins, up)
  {}

  lemma UnmarkedRemoved(s: PoolState, i: nat)
    requires i < |s.waiting|
    ensures var w := UnmarkedState(s).waiting;
      && w[i] == Unmarked(s.waiting[i])
      && UnmarkedState(s.(waiting := s.waiting[..i] + s.waiting[i + 1..]))
         == UnmarkedState(s).(waiting := w[..i] + w[i + 1..])
  {}

  lemma UnmarkedRest(s: PoolState, t: PoolState)
    requires s.waiting == t.waiting && s.credits == t.credits
    ensures UnmarkedState(s).waiting == UnmarkedState(t).waiting
    ensures UnmarkedState(s).credits == UnmarkedState(t).credits
  {}

  /** In a run without Stratum submissions the Equihash check has no effect on what is
      credited, when, and for how much. */
  lemma {:induction false} CheckDoesNotMatter(env: Env, trace: seq<Event>)
    requires env.Valid() && IsTrace(trace)
    requires forall k :: 0 <= k < |trace| ==> !trace[k].SubmitReceived?
    ensures UnmarkedState(Run(env, trace)) == Run(WithoutCheck(env), trace)
  {
    hide Next, Env.Valid, WithoutCheck;
    if trace != [] {
      CheckDoesNotMatter(env, trace[..|trace| - 1]);
      StepWithoutCheck(env, Run(env, trace[..|trace| - 1]), trace[|trace| - 1]);
    }
  }

  /** A run that credits a given ZMQ header and proof, however invalid the proof: its
      hash need only meet the share target. bits is the compact target of the block. */
  lemma InvalidProofCredited(env: Env, bits: uint32, h: BlockHeader, nonce: nat, proof: seq<byte>)
    returns (trace: seq<Event>)
    requires 0 < TargetOf(bits) < Pow2(256)
    requires env.Valid() && env.Parses() && FieldsFit(h) && h.reserved == 0
    requires nonce < Pow2(256) && h.nonce == Image(nonce, 32)
    requires env.sha(Hashed(h, proof)) < Pow2(256) && env.sha(Hashed(h, proof)) <= env.shareTarget
    ensures IsTrace(trace) && |trace| > 0 && trace[0].NewBlock? && trace[0].block.bits == bits
    ensures var credits := Run(env, trace).credits;
      |credits| == 1 && credits[0].share.header == h && credits[0].share.proof == proof
  {
    hide Next, Run, Hashed, Image, Env.Valid, Env.Parses, ProofValid, FieldsFit, Pow2, HexOf, ZmqHeader,
         TargetOf;
    var b, t, share := BlockOf(h, bits), TemplateOf(h), ShareOf(env, h, nonce, proof);
    var e0, e1, e2 := NewBlock(b), WorkFetched(Some(t)), ShareReceived(Some(share), true);
    trace := [e0, e1, e2];
    assert IsEvent(e0) && IsEvent(e1) && IsEvent(e2);
    RunOfThree(env, e0, e1, e2);
    FirstSteps(env, b, t);
    var s := Next(env, Next(env, INITIAL_STATE, e0), e1);
    ShareIsFor(env, s, h, nonce, proof);
    GivenShareAccepted(env, s, share, h, proof);
  }

  function BlockOf(h: BlockHeader, bits: uint32): Block { Block(1, HexOf(h.prev, 64), bits) }

  function TemplateOf(h: BlockHeader): Template { Template(HexOf(h.merkle, 64), "", 0, 0, 0, 0, 0) }

  function ShareOf(env: Env, h: BlockHeader, nonce: nat, proof: seq<byte>): ZmqShare
    requires FieldsFit(h)
  {
    ZmqShare(1, HexOf(h.merkle, 64), h.time, h.bits, Some(HexOf(nonce, 64)), Some(proof),
             HexOf(env.sha(Hashed(h, proof)), 64), false)
  }

  lemma PrintedHash(env: Env, v: nat)
    requires env.Parses() && v < Pow2(256)
    ensures env.setHex(HexOf(v, 64)) == v
  {
    hide HexOf, HexBody, HexValue, Limbs.Modulus, Pow2;
    Limbs.ModulusIsPow2(8);
    assert env.setHex(HexOf(v, 64)) == ParseHash(HexOf(v, 64));
    HexRoundTrip(v, 8);
  }

  lemma ShareIsFor(env: Env, s: PoolState, h: BlockHeader, nonce: nat, proof: seq<byte>)
    requires env.Parses() && FieldsFit(h) && h.reserved == 0 && s.hash == HexOf(h.prev, 64)
    requires nonce < Pow2(256) && h.nonce == Image(nonce, 32) && env.sha(Hashed(h, proof)) < Pow2(256)
    ensures var share := ShareOf(env, h, nonce, proof);
      ZmqHeader(env, s, share) == h && env.setHex(share.hash) == env.sha(Hashed(h, proof))
  {
    hide Hashed, Image, Env.Parses, HexOf, Pow2;
    PrintedHash(env, h.prev);
    PrintedHash(env, h.merkle);
    PrintedHash(env, nonce);
    PrintedHash(env, env.sha(Hashed(h, proof)));
  }

  lemma RunOfThree(env: Env, e0: Event, e1: Event, e2: Event)
    requires env.Valid() && IsEvent(e0) && IsEvent(e1) && IsEvent(e2)
    ensures Run(env, [e0, e1, e2]) == Next(env, Next(env, Next(env, INITIAL_STATE, e0), e1), e2)
  {
    hide Next;
    assert [e0, e1, e2][..2] == [e0, e1] && [e0, e1][..1] == [e0] && [e0][..0] == [];
    assert Run(env, [e0]) == Next(env, Run(env, []), e0);
    assert Run(env, [e0, e1]) == Next(env, Run(env, [e0]), e1);
  }

  lemma FirstSteps(env: Env, b: Block, t: Template)
    requires env.Valid() && Survives(b)
    ensures var s := Next(env, Next(env, INITIAL_STATE, NewBlock(b)), WorkFetched(Some(t)));
      && s.height == b.height && s.hash == b.hash && s.credits == []
      && t.merkle in s.extraNonceMap && s.uniqueShares == {}
  {
    hide TargetOf, ZmqCheck, StratumCheck, Env.Valid;
  }

  lemma GivenShareAccepted(env: Env, s: PoolState, share: ZmqShare, h: BlockHeader, proof: seq<byte>)
    requires env.Valid() && s.uniqueShares == {} && s.credits == [] && share.merkle in s.extraNonceMap
    requires share.height == s.height && share.bigNonce.Some? && share.proofOfWork == Some(proof) && !share.isBlock
    requires ZmqHeader(env, s, share) == h
    requires env.setHex(share.hash) == env.sha(Hashed(h, proof)) <= env.shareTarget
    ensures var credits := Next(env, s, ShareReceived(Some(share), true)).credits;
      |credits| == 1 && credits[0].share.header == h && credits[0].share.proof == proof
  {
    hide Hashed, Env.Valid, ProofValid, ZmqHeader;
  }

  // ---- messages and replies ----

  /** What makes a step send a message: a share is accepted that is no block, or the
      wallet accepts the block of a waiting handler, and the backend takes the message. */
  ghost predicate SendsMessage(env: Env, s: PoolState, e: Event)
    requires env.Valid() && IsEvent(e)
  {
    match e
    case ShareReceived(share, up) => TakesNoBlock(ZmqCheck(env, s, share)) && up
    case SubmitReceived(m, up) => TakesNoBlock(StratumCheck(env, s, m)) && up
    case ProofAnswered(i, answer, up) => i < |s.waiting| && answer.Answer? && answer.accepted && up
    case _ => false
  }

  predicate TakesNoBlock(v: Verdict) { v.Accepted? && !v.share.isBlock }

  /** A step sends one message exactly then, and none otherwise. A reply without error
      means a message; a message means a reply without error, or Invalid for a share
      whose proof had been found invalid. */
  lemma RepliesTellCredits(env: Env, s: PoolState, e: Event)
    requires env.Valid() && IsEvent(e)
    ensures var reply, before, after := ReplyTo(env, s, e), s.credits, Next(env, s, e).credits;
      && (SendsMessage(env, s, e) ==> |after| == |before| + 1 && after[..|before|] == before)
      && (!SendsMessage(env, s, e) ==> after == before)
      && (reply.Some? && reply.value.Reply? && reply.value.error == NoError ==> SendsMessage(env, s, e))
      && (SendsMessage(env, s, e) ==>
            reply == Some(Reply(if after[|before|].share.refused then Invalid else NoError, false)))
  {
    hide ProofValid, Hashed, ZmqCheck, StratumCheck, Env.Valid;
    match e {
      case ShareReceived(share, up) => RefusalsAreErrors(env, s, share);
      case SubmitReceived(m, up) => StratumRefusalsAreErrors(env, s, m);
      case _ =>
    }
  }

  lemma RefusalsAreErrors(env: Env, s: PoolState, share: Option<ZmqShare>)
    requires env.Valid()
    ensures ZmqCheck(env, s, share).Refused? ==> ZmqCheck(env, s, share).error != NoError
  {
    hide ProofValid, Hashed;
  }

  lemma StratumRefusalsAreErrors(env: Env, s: PoolState, m: Submit)
    requires env.Valid() && |m.nonce| == 32
    ensures StratumCheck(env, s, m).Refused? ==> StratumCheck(env, s, m).error != NoError
  {
    hide ProofValid, Hashed;
  }

  /** The step accepts a share. */
  ghost predicate TakesShare(env: Env, s: PoolState, e: Event)
    requires env.Valid() && IsEvent(e)
  {
    match e
    case ShareReceived(share, _) => ZmqCheck(env, s, share).Accepted?
    case SubmitReceived(m, _) => StratumCheck(env, s, m).Accepted?
    case _ => false
  }

  /** The step ends the handling of an accepted share without a message. */
  ghost predicate LosesShare(env: Env, s: PoolState, e: Event)
    requires env.Valid() && IsEvent(e)
  {
    match e
    case ShareReceived(share, up) => TakesNoBlock(ZmqCheck(env, s, share)) && !up
    case SubmitReceived(m, up) => TakesNoBlock(StratumCheck(env, s, m)) && !up
    case ProofAnswered(i, answer, up) => i < |s.waiting| && !(answer.Answer? && answer.accepted && up)
    case _ => false
  }

  ghost function TakenCount(env: Env, trace: seq<Event>): nat
    requires env.Valid() && IsTrace(trace)
  {
    if trace == [] then 0
    else
      var before, e := trace[..|trace| - 1], trace[|trace| - 1];
      TakenCount(env, before) + if TakesShare(env, Run(env, before), e) then 1 else 0
  }

  ghost function LostCount(env: Env, trace: seq<Event>): nat
    requires env.Valid() && IsTrace(trace)
  {
    if trace == [] then 0
    else
      var before, e := trace[..|trace| - 1], trace[|trace| - 1];
      LostCount(env, before) + if LosesShare(env, Run(env, before), e) then 1 else 0
  }

  /** Accepted shares are conserved: after every run each has been credited, waits for
      the wallet or was lost with an error. */
  lemma {:induction false} SharesConserved(env: Env, trace: seq<Event>)
    requires env.Valid() && IsTrace(trace)
    ensures var s := Run(env, trace);
            TakenCount(env, trace) == |s.credits| + |s.waiting| + LostCount(env, trace)
  {
    hide Next, Env.Valid, TakesShare, LosesShare;
    if trace != [] {
      SharesConserved(env, trace[..|trace| - 1]);
      StepConserves(env, Run(env, trace[..|trace| - 1]), trace[|trace| - 1]);
    }
  }

  lemma StepConserves(env: Env, s: PoolState, e: Event)
    requires env.Valid() && IsEvent(e)
    ensures var t := Next(env, s, e);
      |t.credits| + |t.waiting| + (if LosesShare(env, s, e) then 1 else 0)
      == |s.credits| + |s.waiting| + if TakesShare(env, s, e) then 1 else 0
    ensures LosesShare(env, s, e) ==>
      ReplyTo(env, s, e).Some? && ReplyTo(env, s, e).value.Reply? && ReplyTo(env, s, e).value.error != NoError
  {
    hide ZmqCheck, StratumCheck, Env.Valid;
  }

  // ---- work is fresh ----

  /** No clear from position j on. */
  predicate SameEpoch(trace: seq<Event>, j: nat) {
    forall k :: j <= k < |trace| ==> !trace[k].NewBlock?
  }

  /** An extraNonceMap entry comes from a work request answered since the last clear. */
  lemma {:induction false} WorkIsFresh(env: Env, trace: seq<Event>, merkle: string) returns (j: nat)
    requires env.Valid() && IsTrace(trace) && merkle in Run(env, trace).extraNonceMap
    ensures IsLatestWork(trace, j) && SameEpoch(trace, j) && Run(env, trace).hash == Run(env, trace[..j]).hash
    ensures trace[j].work.value.merkle == merkle
    ensures trace[j].work.value.extraNonce % UINT_RANGE == Run(env, trace).extraNonceMap[merkle]
  {
    hide Next, Env.Valid;
    if trace == [] {
      assert false;
    }
    var n := |trace| - 1;
    StepKeepsWork(env, Run(env, trace[..n]), trace[n], merkle);
    if GivesWork(trace[n], merkle) {
      j := n;
    } else {
      j := WorkIsFresh(env, trace[..n], merkle);
      assert trace[..n][..j] == trace[..j];
    }
  }

  /** The event hands out work with this merkle root. */
  predicate GivesWork(e: Event, merkle: string) {
    e.WorkFetched? && e.work.Some? && e.work.value.merkle == merkle
  }

  /** Position j hands out work, and no later one work with the same merkle root. */
  predicate IsLatestWork(trace: seq<Event>, j: nat) {
    && j < |trace| && trace[j].WorkFetched? && trace[j].work.Some?
    && forall k :: j < k < |trace| ==> !GivesWork(trace[k], trace[j].work.value.merkle)
  }

  lemma StepKeepsWork(env: Env, s: PoolState, e: Event, merkle: string)
    requires env.Valid() && IsEvent(e) && merkle in Next(env, s, e).extraNonceMap
    ensures !e.NewBlock? && Next(env, s, e).hash == s.hash
    ensures if GivesWork(e, merkle)
            then Next(env, s, e).extraNonceMap[merkle] == e.work.value.extraNonce % UINT_RANGE
            else merkle in s.extraNonceMap && s.extraNonceMap[merkle] == Next(env, s, e).extraNonceMap[merkle]
  {
    hide ZmqCheck, StratumCheck, Env.Valid;
  }

  /** The event sends a job for extra nonce x. */
  ghost predicate SendsJobFor(env: Env, trace: seq<Event>, j: nat, x: int)
    requires env.Valid() && IsTrace(trace) && j < |trace|
  {
    && trace[j].JobFetched? && SendsJob(Run(env, trace[..j]), trace[j].job)
    && trace[j].job.value.extraNonce == x
  }

  ghost predicate IsLatestJob(env: Env, trace: seq<Event>, j: nat, x: int)
    requires env.Valid() && IsTrace(trace)
  {
    && j < |trace| && SendsJobFor(env, trace, j, x) && SameEpoch(trace, j)
    && forall k :: j < k < |trace| ==> !SendsJobFor(env, trace, k, x)
  }

  /** A non-empty stratumTaskMap entry holds the latest job sent for its number since
      the last clear, and the block's hash is still the one that was sent with it. */
  lemma {:induction false} TaskIsFresh(env: Env, trace: seq<Event>, x: int) returns (j: nat)
    requires env.Valid() && IsTrace(trace)
    requires x in Run(env, trace).stratumTaskMap && Run(env, trace).stratumTaskMap[x].merkle != ""
    ensures IsLatestJob(env, trace, j, x)
    ensures Run(env, trace).stratumTaskMap[x] == TaskFor(trace[j].job.value)
    ensures Run(env, trace).hash == Run(env, trace[..j]).hash
  {
    hide ZmqCheck, StratumCheck, Env.Valid, Next, SendsJob, TaskFor;
    if trace == [] {
      assert false;
    }
    var n := |trace| - 1;
    var s, e := Run(env, trace[..n]), trace[n];
    StepKeepsTask(env, s, e, x);
    if SendsJobFor(env, trace, n, x) {
      j := n;
    } else {
      j := TaskIsFresh(env, trace[..n], x);
      LatestStays(env, trace, j, x);
    }
  }

  lemma LatestStays(env: Env, trace: seq<Event>, j: nat, x: int)
    requires env.Valid() && IsTrace(trace) && trace != []
    requires IsLatestJob(env, trace[..|trace| - 1], j, x)
    requires !SendsJobFor(env, trace, |trace| - 1, x) && !trace[|trace| - 1].NewBlock?
    ensures IsLatestJob(env, trace, j, x) && trace[..|trace| - 1][..j] == trace[..j]
  {
    hide Next, SendsJob, Env.Valid;
    var before := trace[..|trace| - 1];
    assert forall k :: 0 <= k < |before| ==> before[..k] == trace[..k] && before[k] == trace[k];
    assert forall k :: 0 <= k < |before| ==> SendsJobFor(env, before, k, x) == SendsJobFor(env, trace, k, x);
  }

  lemma StepKeepsTask(env: Env, s: PoolState, e: Event, x: int)
    requires env.Valid() && IsEvent(e)
    requires x in Next(env, s, e).stratumTaskMap && Next(env, s, e).stratumTaskMap[x].merkle != ""
    ensures !e.NewBlock? && Next(env, s, e).hash == s.hash
    ensures if e.JobFetched? && SendsJob(s, e.job) && e.job.value.extraNonce == x
            then Next(env, s, e).stratumTaskMap[x] == TaskFor(e.job.value)
            else x in s.stratumTaskMap && s.stratumTaskMap[x] == Next(env, s, e).stratumTaskMap[x]
  {
    hide ZmqCheck, StratumCheck, Env.Valid;
  }

  // ---- from the work handed out to the credit ----

  /** The event at position i is the submission that was taken as share f. */
  ghost predicate TakenAt(env: Env, trace: seq<Event>, i: nat, f: Found)
    requires env.Valid() && IsTrace(trace)
  {
    i < |trace| && TakesAs(env, Run(env, trace[..i]), trace[i], f)
  }

  ghost predicate TakesAs(env: Env, s: PoolState, e: Event, f: Found)
    requires env.Valid() && IsEvent(e)
  {
    match e
    case ShareReceived(share, _) => ZmqCheck(env, s, share) == Accepted(f)
    case SubmitReceived(m, _) => StratumCheck(env, s, m) == Accepted(f)
    case _ => false
  }

  /** A handler waits with f, or f has been credited. */
  predicate InHand(s: PoolState, f: Found) {
    f in s.waiting || exists k :: 0 <= k < |s.credits| && s.credits[k].share == f
  }

  lemma StepTakes(env: Env, s: PoolState, e: Event, f: Found)
    requires env.Valid() && IsEvent(e) && InHand(Next(env, s, e), f)
    ensures TakesAs(env, s, e, f) || InHand(s, f)
  {
    hide ZmqCheck, StratumCheck, Env.Valid;
  }

  lemma {:induction false} EveryShareWasTaken(env: Env, trace: seq<Event>, f: Found) returns (i: nat)
    requires env.Valid() && IsTrace(trace) && InHand(Run(env, trace), f)
    ensures TakenAt(env, trace, i, f)
  {
    hide Next, Env.Valid, TakesAs;
    if trace == [] {
      assert false;
    }
    var n := |trace| - 1;
    StepTakes(env, Run(env, trace[..n]), trace[n], f);
    if TakesAs(env, Run(env, trace[..n]), trace[n], f) {
      i := n;
    } else {
      i := EveryShareWasTaken(env, trace[..n], f);
      assert trace[..n][..i] == trace[..i];
    }
  }

  /** Some submission since the last clear was taken with this hash. */
  ghost predicate TakenThisEpoch(env: Env, trace: seq<Event>, hash: nat)
    requires env.Valid() && IsTrace(trace)
  {
    exists i: nat, f: Found :: TakenAt(env, trace, i, f) && SameEpoch(trace, i) && f.hash == hash
  }

  /** Both protocols refuse a share as a duplicate exactly if a share with its hash was
      taken since the last clear: that is what uniqueShares holds. */
  lemma {:induction false} DuplicatesExactly(env: Env, trace: seq<Event>, hash: nat)
    requires env.Valid() && IsTrace(trace)
    ensures hash in Run(env, trace).uniqueShares <==> TakenThisEpoch(env, trace, hash)
  {
    hide Next, Env.Valid, TakesAs;
    if trace != [] {
      var n := |trace| - 1;
      DuplicatesExactly(env, trace[..n], hash);
      StepRecords(env, Run(env, trace[..n]), trace[n], hash);
      TakenStep(env, trace, hash);
    }
  }

  ghost predicate TakesHash(env: Env, s: PoolState, e: Event, hash: nat)
    requires env.Valid() && IsEvent(e)
  {
    exists f: Found :: TakesAs(env, s, e, f) && f.hash == hash
  }

  lemma StepRecords(env: Env, s: PoolState, e: Event, hash: nat)
    requires env.Valid() && IsEvent(e)
    ensures hash in Next(env, s, e).uniqueShares
       <==> !e.NewBlock? && (TakesHash(env, s, e, hash) || hash in s.uniqueShares)
  {
    hide ZmqCheck, StratumCheck, Env.Valid;
    match e {
      case ShareReceived(share, _) =>
        var v := ZmqCheck(env, s, share);
        assert v.Accepted? ==> TakesAs(env, s, e, v.share);
      case SubmitReceived(m, _) =>
        var v := StratumCheck(env, s, m);
        assert v.Accepted? ==> TakesAs(env, s, e, v.share);
      case _ =>
    }
  }

  lemma TakenStep(env: Env, trace: seq<Event>, hash: nat)
    requires env.Valid() && IsTrace(trace) && trace != []
    ensures var n := |trace| - 1;
      TakenThisEpoch(env, trace, hash)
      <==> !trace[n].NewBlock?
           && (TakesHash(env, Run(env, trace[..n]), trace[n], hash) || TakenThisEpoch(env, trace[..n], hash))
  {
    hide Next, Env.Valid, TakesAs, Run;
    var n := |trace| - 1;
    var before := trace[..n];
    forall i: nat, f: Found | i < n
      ensures TakenAt(env, before, i, f) == TakenAt(env, trace, i, f)
      ensures SameEpoch(trace, i) <==> SameEpoch(before, i) && !trace[n].NewBlock?
    {
      assert before[..i] == trace[..i];
      assert trace[n] == trace[|trace| - 1] && forall k :: 0 <= k < n ==> before[k] == trace[k];
    }
    if TakesHash(env, Run(env, before), trace[n], hash) && !trace[n].NewBlock? {
      var f :| TakesAs(env, Run(env, before), trace[n], f) && f.hash == hash;
      assert TakenAt(env, trace, n, f) && SameEpoch(trace, n);
    }
    if TakenThisEpoch(env, before, hash) && !trace[n].NewBlock? {
      var i: nat, f: Found :| TakenAt(env, before, i, f) && SameEpoch(before, i) && f.hash == hash;
      assert TakenAt(env, trace, i, f) && SameEpoch(trace, i);
    }
  }

  lemma {:induction false} EpochsAgree(env: Env, trace: seq<Event>, j: nat)
    requires env.Valid() && IsTrace(trace) && j <= |trace| && SameEpoch(trace, j)
    ensures Run(env, trace[..j]).epoch == Run(env, trace).epoch
  {
    hide Next, Env.Valid;
    if j == |trace| {
      assert trace[..j] == trace;
    } else {
      var n := |trace| - 1;
      EpochsAgree(env, trace[..n], j);
      assert trace[..n][..j] == trace[..j];
      StepKeepsBlock(env, Run(env, trace[..n]), trace[n]);
    }
  }

  lemma StepKeepsBlock(env: Env, s: PoolState, e: Event)
    requires env.Valid() && IsEvent(e) && !e.NewBlock?
    ensures var t := Next(env, s, e); t.epoch == s.epoch && t.hash == s.hash && t.blockTarget == s.blockTarget
  {
    hide ZmqCheck, StratumCheck, Env.Valid;
  }

  /** The work at position j is what share f answers, taken after the trace. */
  ghost predicate Answers(env: Env, trace: seq<Event>, j: nat, f: Found)
    requires env.Valid() && IsTrace(trace)
  {
    && j < |trace| && SameEpoch(trace, j) && f.epoch == Run(env, trace[..j]).epoch
    && match f.path
       case Zmq =>
         && IsLatestWork(trace, j)
         && f.header.prev == env.setHex(Run(env, trace[..j]).hash) && f.header.reserved == 0
         && f.header.merkle == env.setHex(trace[j].work.value.merkle)
         && f.extraNonce == trace[j].work.value.extraNonce % UINT_RANGE
       case Stratum =>
         && IsLatestJob(env, trace, j, f.extraNonce)
         && f.header.prev == env.setHex(Run(env, trace[..j]).hash)
         && f.header.merkle == env.setHex(trace[j].job.value.merkle)
         && f.header.reserved == env.setHex(trace[j].job.value.hashReserved)
         && f.header.bits == trace[j].job.value.bits % UINT_RANGE
  }

  lemma ZmqAnswers(env: Env, trace: seq<Event>, share: Option<ZmqShare>, f: Found) returns (j: nat)
    requires env.Valid() && IsTrace(trace) && ZmqCheck(env, Run(env, trace), share) == Accepted(f)
    ensures Answers(env, trace, j, f)
  {
    hide ProofValid, Hashed, Env.Valid, Next, SameEpoch;
    j := WorkIsFresh(env, trace, share.value.merkle);
    EpochsAgree(env, trace, j);
  }

  /** A ZMQ header agrees with the work the worker was sent last for its merkle root,
      taken with the current block's hash and the share's time and nonce, exactly when
      the template's reserved field is zero and the share names the work's bits: onShare
      takes neither from the work. */
  lemma WorkerAndPoolAgreeExactly(env: Env, trace: seq<Event>, share: ZmqShare, f: Found, now: nat) returns (j: nat)
    requires env.Valid() && env.Parses() && IsTrace(trace)
    requires ZmqCheck(env, Run(env, trace), Some(share)) == Accepted(f)
    ensures Answers(env, trace, j, f) && trace[j].work.value.merkle == share.merkle
    ensures var s := Run(env, trace[..j]);
      var work := WorkFor(s, trace[j].work.value, now);
      f.header.Data() == WorkHeader(env, s.hash, work, share.time, f.header.nonce).Data()
      <==> env.setHex(work.hashReserved) == 0 && share.bits == work.bits
  {
    hide ProofValid, Hashed, Env.Valid, Env.Parses, Next, SameEpoch, BlockHeader.Data, Run, FieldsFit;
    j := WorkIsFresh(env, trace, share.merkle);
    EpochsAgree(env, trace, j);
    var s := Run(env, trace[..j]);
    var h := WorkHeader(env, s.hash, WorkFor(s, trace[j].work.value, now), share.time, f.header.nonce);
    ParsedFits(env, f.header, s.hash, share.merkle, "");
    ParsedFits(env, h, s.hash, share.merkle, trace[j].work.value.hashReserved);
    DataDeterminesFields(f.header, h);
  }

  /** The header a worker builds from its work. */
  function WorkHeader(env: Env, hash: string, work: Work, time: uint32, nonce: seq<byte>): BlockHeader {
    BlockHeader(env.setHex(hash), env.setHex(work.merkle), env.setHex(work.hashReserved), time, work.bits, nonce)
  }

  lemma ParsedFits(env: Env, h: BlockHeader, prev: string, merkle: string, reserved: string)
    requires env.Parses() && h.prev == env.setHex(prev) && h.merkle == env.setHex(merkle)
    requires h.reserved == 0 || h.reserved == env.setHex(reserved)
    requires h.time < UINT_RANGE && h.bits < UINT_RANGE
    ensures FieldsFit(h)
  {
    hide HexBody, HexValue, Pow2, Limbs.Modulus;
    Limbs.ModulusIsPow2(8);
    PowPositive(256);
    ParsedBelow(prev);
    ParsedBelow(merkle);
    ParsedBelow(reserved);
  }

  lemma ParsedBelow(s: string)
    ensures ParseHash(s) < Limbs.Modulus(8)
  {
    hide HexBody, HexValue, Limbs.Modulus;
  }

  lemma StratumAnswers(env: Env, trace: seq<Event>, m: Submit, f: Found) returns (j: nat)
    requires env.Valid() && IsTrace(trace) && |m.nonce| == 32
    requires StratumCheck(env, Run(env, trace), m) == Accepted(f)
    ensures Answers(env, trace, j, f)
  {
    hide ProofValid, Hashed, ParseHash, Env.Valid, Next, SameEpoch, SendsJobFor;
    j := TaskIsFresh(env, trace, m.extraNonce.value);
    EpochsAgree(env, trace, j);
  }

  /** Every credit can be traced back: at position i its share was taken, and at
      position j < i, with no clear in between, the work it answers was handed out. */
  lemma CreditsAnswerFreshWork(env: Env, trace: seq<Event>, k: nat) returns (j: nat, i: nat)
    requires env.Valid() && IsTrace(trace) && k < |Run(env, trace).credits|
    ensures var f := Run(env, trace).credits[k].share;
            j < i && TakenAt(env, trace, i, f) && Answers(env, trace[..i], j, f)
  {
    hide ZmqCheck, StratumCheck, Next, Env.Valid, Answers;
    var f := Run(env, trace).credits[k].share;
    i := EveryShareWasTaken(env, trace, f);
    match trace[i] {
      case ShareReceived(share, _) => j := ZmqAnswers(env, trace[..i], share, f);
      case SubmitReceived(m, _) => j := StratumAnswers(env, trace[..i], m, f);
    }
    AnswersBefore(env, trace[..i], j, f);
  }

  lemma AnswersBefore(env: Env, trace: seq<Event>, j: nat, f: Found)
    requires env.Valid() && IsTrace(trace) && Answers(env, trace, j, f)
    ensures j < |trace|
  {}

  // ---- the current block ----

  lemma {:induction false} NoBlockYet(env: Env, trace: seq<Event>)
    requires env.Valid() && IsTrace(trace) && Run(env, trace).epoch == 0
    ensures Run(env, trace).hash == ""
  {
    hide Next, Env.Valid, TargetOf;
    if trace != [] {
      var n := |trace| - 1;
      NoBlockYetBefore(env, Run(env, trace[..n]), trace[n]);
      NoBlockYet(env, trace[..n]);
    }
  }

  lemma NoBlockYetBefore(env: Env, s: PoolState, e: Event)
    requires env.Valid() && IsEvent(e) && Next(env, s, e).epoch == 0
    ensures s.epoch == 0 && Next(env, s, e).hash == s.hash
  {
    hide ZmqCheck, StratumCheck, Env.Valid, TargetOf;
  }

  lemma BlockTaken(env: Env, s: PoolState, e: Event)
    requires env.Valid() && IsEvent(e) && e.NewBlock?
    ensures var t := Next(env, s, e); t.hash == e.block.hash && t.blockTarget == TargetOf(e.block.bits)
  {
    hide ZmqCheck, StratumCheck, Env.Valid, TargetOf;
  }

  /** Hash and target stay those of the latest block. */
  lemma {:induction false} LatestBlock(env: Env, trace: seq<Event>) returns (j: nat)
    requires env.Valid() && IsTrace(trace) && Run(env, trace).epoch > 0
    ensures j < |trace| && trace[j].NewBlock? && SameEpoch(trace, j + 1)
    ensures Run(env, trace).hash == trace[j].block.hash
    ensures Run(env, trace).blockTarget == TargetOf(trace[j].block.bits)
  {
    hide Next, Env.Valid, TargetOf;
    if trace == [] {
      assert false;
    }
    var n := |trace| - 1;
    if trace[n].NewBlock? {
      j := n;
      BlockTaken(env, Run(env, trace[..n]), trace[n]);
    } else {
      StepKeepsBlock(env, Run(env, trace[..n]), trace[n]);
      j := LatestBlock(env, trace[..n]);
    }
  }

  /** A Stratum share builds on the latest block, and goes to the wallet exactly when it
      meets that block's target. */
  lemma BlocksGoToTheWallet(env: Env, trace: seq<Event>, m: Submit, f: Found) returns (j: nat)
    requires env.Valid() && IsTrace(trace) && |m.nonce| == 32
    requires StratumCheck(env, Run(env, trace), m) == Accepted(f)
    ensures j < |trace| && trace[j].NewBlock? && SameEpoch(trace, j + 1)
    ensures f.header.prev == env.setHex(trace[j].block.hash)
    ensures f.isBlock <==> f.hash <= TargetOf(trace[j].block.bits)
  {
    hide ProofValid, Hashed, Env.Valid, Next, TargetOf, SameEpoch, Run;
    var k := TaskIsFresh(env, trace, m.extraNonce.value);
    if Run(env, trace).epoch == 0 {
      NoBlockYet(env, trace);
      assert false;
    }
    j := LatestBlock(env, trace);
  }

  // ---- what a message says ----

  /** Handlers wait for the wallet with blocks only. */
  lemma {:induction false} WaitingAreBlocks(env: Env, trace: seq<Event>)
    requires env.Valid() && IsTrace(trace)
    ensures forall i :: 0 <= i < |Run(env, trace).waiting| ==> Run(env, trace).waiting[i].isBlock
  {
    hide Next, Env.Valid;
    if trace != [] {
      WaitingAreBlocks(env, trace[..|trace| - 1]);
      StepWaits(env, Run(env, trace[..|trace| - 1]), trace[|trace| - 1]);
    }
  }

  lemma StepWaits(env: Env, s: PoolState, e: Event)
    requires env.Valid() && IsEvent(e) && forall i :: 0 <= i < |s.waiting| ==> s.waiting[i].isBlock
    ensures forall i :: 0 <= i < |Next(env, s, e).waiting| ==> Next(env, s, e).waiting[i].isBlock
  {
    hide ZmqCheck, StratumCheck, Env.Valid;
  }

  /** The message a step sends: the height it names is the one above the current. */
  lemma MessageContents(env: Env, s: PoolState, e: Event)
    requires env.Valid() && IsEvent(e) && SendsMessage(env, s, e)
    ensures Next(env, s, e).credits == s.credits + [Next(env, s, e).credits[|s.credits|]]
    ensures var c := Next(env, s, e).credits[|s.credits|];
      && c.height == (s.height + 1) % UINT_RANGE
      && if e.ProofAnswered? then
           && e.i < |s.waiting| && c.share == s.waiting[e.i] && e.answer.Answer? && e.answer.accepted
           && c.coins == e.answer.generatedCoins && (c.isBlock <==> c.share.path.Zmq? || c.coins > 0)
         else TakesAs(env, s, e, c.share) && !c.share.isBlock && !c.isBlock && c.coins == 0
  {
    hide ZmqCheck, StratumCheck, Env.Valid;
  }

  /** The share of credit k was taken at position i, and its message sent at position l. */
  ghost predicate SentAt(env: Env, trace: seq<Event>, k: nat, i: nat, l: nat)
    requires env.Valid() && IsTrace(trace) && k < |Run(env, trace).credits|
  {
    && i <= l < |trace| && TakenAt(env, trace, i, Run(env, trace).credits[k].share)
    && SendsMessage(env, Run(env, trace[..l]), trace[l])
    && Run(env, trace[..l]).credits == Run(env, trace).credits[..k]
    && Run(env, trace).credits[k] == Next(env, Run(env, trace[..l]), trace[l]).credits[k]
  }

  /** The story of every credit: its share was taken, at once or after the wallet accepted
      the block the message was sent, and the message names the height above the one at
      which the share was taken if and only if the height is still the same then. */
  lemma {:induction false} CreditHistory(env: Env, trace: seq<Event>, k: nat) returns (i: nat, l: nat)
    requires env.Valid() && IsTrace(trace) && k < |Run(env, trace).credits|
    ensures SentAt(env, trace, k, i, l)
    ensures var c, taken, sent := Run(env, trace).credits[k], Run(env, trace[..i]).height, Run(env, trace[..l]).height;
      && (c.height == (taken + 1) % UINT_RANGE <==> sent == taken)
      && (!c.share.isBlock ==> i == l && !c.isBlock && c.coins == 0)
      && (c.share.isBlock ==>
            && i < l && trace[l].ProofAnswered? && trace[l].answer.Answer? && trace[l].answer.accepted
            && c.coins == trace[l].answer.generatedCoins && (c.isBlock <==> c.share.path.Zmq? || c.coins > 0))
  {
    hide Next, Env.Valid, TakesAs, SendsMessage, Run;
    RunStep(env, trace);
    var n := |trace| - 1;
    var before := trace[..n];
    var s, e := Run(env, before), trace[n];
    RepliesTellCredits(env, s, e);
    if k < |s.credits| {
      i, l := CreditHistory(env, before, k);
      assert before[..i] == trace[..i] && before[..l] == trace[..l];
    } else {
      l := n;
      MessageContents(env, s, e);
      if e.ProofAnswered? {
        i := EveryShareWasTaken(env, before, s.waiting[e.i]);
        WaitingAreBlocks(env, before);
        assert before[..i] == trace[..i];
      } else {
        i := n;
      }
      PlusOne(Run(env, trace[..i]).height, s.height);
    }
  }

  /** What the miner is told: every credit has the step that sent its message, and when
      proofs are checked the reply of that step carries no error exactly when the proof
      is valid, and says Invalid exactly when it is not. */
  lemma RepliesTellProofs(env: Env, trace: seq<Event>, k: nat) returns (i: nat, l: nat)
    requires env.Valid() && IsTrace(trace) && k < |Run(env, trace).credits|
    ensures SentAt(env, trace, k, i, l)
    ensures var f, reply := Run(env, trace).credits[k].share, ReplyTo(env, Run(env, trace[..l]), trace[l]);
      && (env.equihashShareCheck ==> (reply == Some(Reply(NoError, false)) <==> ProofValid(env, f.header, f.proof)))
      && (env.equihashShareCheck ==> (reply == Some(Reply(Invalid, false)) <==> !ProofValid(env, f.header, f.proof)))
      && (!env.equihashShareCheck ==> reply == Some(Reply(NoError, false)))
  {
    hide ProofValid, Hashed, Next, Env.Valid, Run, SendsMessage, TakenAt, ReplyTo;
    RunAccounted(env, trace);
    i, l := CreditHistory(env, trace, k);
    RepliesTellCredits(env, Run(env, trace[..l]), trace[l]);
  }

  lemma RunStep(env: Env, trace: seq<Event>)
    requires env.Valid() && IsTrace(trace)
    ensures trace == [] ==> Run(env, trace).credits == []
    ensures trace != [] ==>
      Run(env, trace) == Next(env, Run(env, trace[..|trace| - 1]), trace[|trace| - 1])
  {
    hide Next, Env.Valid;
  }

  lemma PlusOne(a: uint32, b: uint32)
    ensures (a + 1) % UINT_RANGE == (b + 1) % UINT_RANGE <==> a == b
  {}

  // ---- header agreement ----

  /** The wallet's hashes are strings of 64 hex digits. */
  predicate WellFormed(trace: seq<Event>) {
    forall k :: 0 <= k < |trace| ==>
      match trace[k]
      case NewBlock(b) => IsHash(b.hash)
      case JobFetched(Some(t), _) => IsHash(t.merkle) && IsHash(t.hashReserved)
      case _ => true
  }

  lemma {:induction false} HashWellFormed(env: Env, trace: seq<Event>)
    requires env.Valid() && IsTrace(trace) && WellFormed(trace)
    ensures Run(env, trace).hash == "" || IsHash(Run(env, trace).hash)
  {
    hide ZmqCheck, StratumCheck, Env.Valid, IsHash;
    if trace != [] {
      HashWellFormed(env, trace[..|trace| - 1]);
    }
  }

  /** The 140 bytes that are hashed for a Stratum share are the fields of the latest
      mining.notify for its job since the last clear, decoded, with the miner's time, four
      zero bytes and the miner's nonce; and that message carries the job's number. */
  lemma MinerAndPoolAgree(env: Env, trace: seq<Event>, m: Submit, f: Found) returns (j: nat)
    requires env.Valid() && env.Parses() && IsTrace(trace) && WellFormed(trace) && |m.nonce| == 32
    requires StratumCheck(env, Run(env, trace), m) == Accepted(f)
    ensures IsLatestJob(env, trace, j, m.extraNonce.value)
    ensures var n := NotifyFor(Run(env, trace[..j]), trace[j].job.value, trace[j].now);
      && Decodable(n) && DecodedFields(n, Image(m.time, 4)) == f.header.Data()
      && DecodedFields(n, Image(m.time, 4)) + [0, 0, 0, 0] + m.nonce[..28] == f.header.Data() + f.header.nonce
      && n.extraNonce == m.extraNonce.value
  {
    hide Decodable, DecodedFields, BlockHeader.Data, NotifyFor, Hashed, Run, Next, Image, Env.Valid, Env.Parses,
         IsLatestJob, Answers, WellFormed, StratumCheck;
    StratumShareIs(env, Run(env, trace), m, f);
    j := StratumAnswers(env, trace, m, f);
    JobAgrees(env, trace, j, f);
    Regrouped(f.header.Data(), m.nonce[..28]);
  }

  lemma JobAgrees(env: Env, trace: seq<Event>, j: nat, f: Found)
    requires env.Valid() && env.Parses() && IsTrace(trace) && WellFormed(trace)
    requires Answers(env, trace, j, f) && f.path.Stratum?
    ensures IsLatestJob(env, trace, j, f.extraNonce) && trace[j].JobFetched? && trace[j].job.Some?
    ensures var n := NotifyFor(Run(env, trace[..j]), trace[j].job.value, trace[j].now);
            Decodable(n) && DecodedFields(n, Image(f.header.time, 4)) == f.header.Data() && n.extraNonce == f.extraNonce
  {
    hide Decodable, DecodedFields, BlockHeader.Data, ParseHash, IsHash, NotifyFor, Run, Next, Image, Env.Valid,
         Env.Parses, IsLatestJob, WellFormed;
    JobIsWellFormed(env, trace, j, f.extraNonce);
    var s, t := Run(env, trace[..j]), trace[j].job.value;
    ParsesAs(env, s.hash, t.merkle, t.hashReserved);
    NotifyAgrees(s, t, trace[j].now, f.header);
    JobNumber(env, trace, j, f.extraNonce);
  }

  lemma Regrouped(fields: seq<byte>, nonce: seq<byte>)
    ensures fields + [0, 0, 0, 0] + nonce == fields + ([0, 0, 0, 0] + nonce)
  {}

  lemma ParsesAs(env: Env, a: string, b: string, c: string)
    requires env.Parses()
    ensures env.setHex(a) == ParseHash(a) && env.setHex(b) == ParseHash(b) && env.setHex(c) == ParseHash(c)
  {
    hide ParseHash;
  }

  lemma StratumShareIs(env: Env, s: PoolState, m: Submit, f: Found)
    requires env.Valid() && |m.nonce| == 32 && StratumCheck(env, s, m) == Accepted(f)
    ensures f.path.Stratum? && m.extraNonce == Some(f.extraNonce)
    ensures f.header.nonce == [0, 0, 0, 0] + m.nonce[..28] && f.header.time == m.time
  {
    hide Env.Valid, ProofValid, Hashed;
  }

  lemma JobNumber(env: Env, trace: seq<Event>, j: nat, x: int)
    requires env.Valid() && IsTrace(trace) && IsLatestJob(env, trace, j, x)
    ensures trace[j].JobFetched? && trace[j].job.Some?
    ensures NotifyFor(Run(env, trace[..j]), trace[j].job.value, trace[j].now).extraNonce == x
  {
    hide Run, Env.Valid;
  }

  /** The first 140 bytes that a share hash covers are the header and its nonce. */
  lemma HashedFront(h: BlockHeader, proof: seq<byte>)
    requires |h.nonce| == 32
    ensures |Hashed(h, proof)| >= 140 && Hashed(h, proof)[..140] == h.Data() + h.nonce
  {
    hide BlockHeader.Data, CompactSizeBytes;
  }

  lemma JobIsWellFormed(env: Env, trace: seq<Event>, j: nat, x: int)
    requires env.Valid() && IsTrace(trace) && WellFormed(trace) && IsLatestJob(env, trace, j, x)
    ensures trace[j].JobFetched? && trace[j].job.Some? && IsHash(Run(env, trace[..j]).hash)
    ensures IsHash(trace[j].job.value.merkle) && IsHash(trace[j].job.value.hashReserved)
  {
    hide IsHash, Run, Next, Env.Valid;
    HashWellFormed(env, trace[..j]);
  }

  lemma NotifyAgrees(s: PoolState, t: Template, now: nat, h: BlockHeader)
    requires IsHash(s.hash) && IsHash(t.merkle) && IsHash(t.hashReserved)
    requires h.prev == ParseHash(s.hash) && h.merkle == ParseHash(t.merkle)
    requires h.reserved == ParseHash(t.hashReserved) && h.bits == t.bits % UINT_RANGE
    ensures var n := NotifyFor(s, t, now); Decodable(n) && DecodedFields(n, Image(h.time, 4)) == h.Data()
  {
    hide Decodable, DecodedFields, BlockHeader.Data, ParseHash, IsHash, DumpHex, WireHex, Image;
    HeaderAgreement(NotifyFor(s, t, now), h, s.hash, t.merkle, t.hashReserved);
  }
}
