/** What the pool answers to a submission after any run, told from the events alone:
    which block it is on, which work and which jobs are out, which hashes were taken
    (src/zcashpool.cpp:87-255,298-400,520-557). */
module PoolAnswers {
  import opened Arithmetic
  import opened Digits
  import opened Hex
  import opened EquihashSpec
  import opened Compact
  import opened Header
  import opened Pool
  import opened PoolRuns

  // ---- the current block ----

  /** The latest block of the trace. */
  predicate IsLatestBlock(trace: seq<Event>, j: nat) {
    j < |trace| && trace[j].NewBlock? && SameEpoch(trace, j + 1)
  }

  /** The latest block, and the wallet has not been lost since. */
  predicate IsConnectedBlock(trace: seq<Event>, j: nat) {
    IsLatestBlock(trace, j) && forall k :: j < k < |trace| ==> !trace[k].Disconnect?
  }

  /** The height shares have to name: that of the latest block, 0 before the first and
      while the wallet is lost. */
  ghost predicate IsHeight(trace: seq<Event>, height: uint32) {
    if exists j: nat :: IsConnectedBlock(trace, j)
    then exists j: nat :: IsConnectedBlock(trace, j) && height == trace[j].block.height
    else height == 0
  }

  /** The hash headers build on and the target of a block. */
  ghost predicate IsTip(trace: seq<Event>, hash: string, target: nat) {
    if exists j: nat :: IsLatestBlock(trace, j)
    then exists j: nat :: IsLatestBlock(trace, j) && hash == trace[j].block.hash && target == TargetOf(trace[j].block.bits)
    else hash == "" && target == 0
  }

  lemma OneLatestBlock(trace: seq<Event>, i: nat, j: nat)
    requires IsLatestBlock(trace, i) && IsLatestBlock(trace, j)
    ensures i == j
  {}

  lemma LatestBlockStep(trace: seq<Event>, j: nat)
    requires trace != []
    ensures var n := |trace| - 1;
      && (IsLatestBlock(trace, j) <==> if trace[n].NewBlock? then j == n else IsLatestBlock(trace[..n], j))
      && (IsConnectedBlock(trace, j) <==>
            if trace[n].NewBlock? then j == n else !trace[n].Disconnect? && IsConnectedBlock(trace[..n], j))
  {
    var n := |trace| - 1;
    var before := trace[..n];
    assert forall k :: 0 <= k < n ==> before[k] == trace[k];
  }

  /** After every run the height, hash and target are those of the latest block, but
      for the height while the wallet is lost. */
  lemma {:induction false} CurrentBlockExactly(env: Env, trace: seq<Event>)
    requires env.Valid() && IsTrace(trace)
    ensures IsHeight(trace, Run(env, trace).height)
    ensures IsTip(trace, Run(env, trace).hash, Run(env, trace).blockTarget)
  {
    hide Next, Env.Valid, TargetOf, IsLatestBlock, IsConnectedBlock;
    if trace == [] {
      NoBlock();
    } else {
      var n := |trace| - 1;
      var before, s, e := trace[..n], Run(env, trace[..n]), trace[n];
      CurrentBlockExactly(env, before);
      StepBlock(env, s, e);
      forall j: nat
        ensures IsLatestBlock(trace, j) <==> if e.NewBlock? then j == n else IsLatestBlock(before, j)
        ensures IsConnectedBlock(trace, j) <==>
                if e.NewBlock? then j == n else !e.Disconnect? && IsConnectedBlock(before, j)
        ensures IsLatestBlock(before, j) ==> j < n && before[j] == trace[j] && trace[j].NewBlock?
        ensures IsConnectedBlock(before, j) ==> IsLatestBlock(before, j)
      {
        LatestBlockStep(trace, j);
        LatestIsBlock(before, j);
      }
    }
  }

  lemma LatestIsBlock(trace: seq<Event>, j: nat)
    ensures IsLatestBlock(trace, j) ==> j < |trace| && trace[j].NewBlock?
    ensures IsConnectedBlock(trace, j) ==> IsLatestBlock(trace, j)
  {}

  lemma NoBlock()
    ensures forall j :: !IsLatestBlock([], j) && !IsConnectedBlock([], j)
  {}

  lemma StepBlock(env: Env, s: PoolState, e: Event)
    requires env.Valid() && IsEvent(e)
    ensures var t := Next(env, s, e);
      if e.NewBlock? then
        t.height == e.block.height && t.hash == e.block.hash && t.blockTarget == TargetOf(e.block.bits)
      else
        t.height == (if e.Disconnect? then 0 else s.height) && t.hash == s.hash && t.blockTarget == s.blockTarget
  {
    hide ZmqCheck, StratumCheck, Env.Valid, TargetOf;
  }

  // ---- work and jobs that are out ----

  /** Work with this merkle root was handed out since the last clear. */
  ghost predicate WorkIsOut(trace: seq<Event>, merkle: string) {
    exists j: nat :: WorkAt(trace, j, merkle)
  }

  predicate WorkAt(trace: seq<Event>, j: nat, merkle: string) {
    j < |trace| && GivesWork(trace[j], merkle) && SameEpoch(trace, j)
  }

  /** A merkle root is known exactly if work with it is out. */
  lemma {:induction false} KnownWorkExactly(env: Env, trace: seq<Event>, merkle: string)
    requires env.Valid() && IsTrace(trace)
    ensures merkle in Run(env, trace).extraNonceMap <==> WorkIsOut(trace, merkle)
  {
    hide Next, Env.Valid, GivesWork;
    if trace != [] {
      var n := |trace| - 1;
      var before := trace[..n];
      KnownWorkExactly(env, before, merkle);
      StepKnowsWork(env, Run(env, before), trace[n], merkle);
      WorkStep(trace, n, merkle);
      if j: nat :| WorkAt(before, j, merkle) {
        WorkStep(trace, j, merkle);
      }
      if j: nat :| WorkAt(trace, j, merkle) {
        WorkStep(trace, j, merkle);
      }
    }
  }

  lemma WorkStep(trace: seq<Event>, j: nat, merkle: string)
    requires trace != []
    ensures var n := |trace| - 1;
      WorkAt(trace, j, merkle) <==>
        !trace[n].NewBlock? && if j == n then GivesWork(trace[n], merkle) else WorkAt(trace[..n], j, merkle)
  {
    hide GivesWork;
    var n := |trace| - 1;
    var before := trace[..n];
    assert forall k :: 0 <= k < n ==> before[k] == trace[k];
  }

  lemma StepKnowsWork(env: Env, s: PoolState, e: Event, merkle: string)
    requires env.Valid() && IsEvent(e)
    ensures merkle in Next(env, s, e).extraNonceMap
       <==> !e.NewBlock? && (GivesWork(e, merkle) || merkle in s.extraNonceMap)
  {
    hide ZmqCheck, StratumCheck, Env.Valid;
  }

  /** The latest job sent for a number since the last clear is in the task map, until a
      new one is sent or the maps are cleared. */
  lemma {:induction false} LatestJobIsKnown(env: Env, trace: seq<Event>, j: nat, x: int)
    requires env.Valid() && IsTrace(trace) && IsLatestJob(env, trace, j, x)
    ensures var s := Run(env, trace);
      && x in s.stratumTaskMap && s.stratumTaskMap[x] == TaskFor(trace[j].job.value)
      && s.stratumTaskMap[x].merkle != "" && s.hash == Run(env, trace[..j]).hash != ""
  {
    hide Next, Env.Valid, SendsJob, TaskFor;
    var n := |trace| - 1;
    var before := trace[..n];
    if j == n {
      StepSendsJob(env, Run(env, before), trace[n]);
    } else {
      EarlierJob(env, trace, j, x);
      LatestJobIsKnown(env, before, j, x);
      assert before[..j] == trace[..j];
      StepLeavesTask(env, Run(env, before), trace[n], x);
    }
  }

  lemma EarlierJob(env: Env, trace: seq<Event>, j: nat, x: int)
    requires env.Valid() && IsTrace(trace) && IsLatestJob(env, trace, j, x) && j < |trace| - 1
    ensures var n := |trace| - 1;
      IsLatestJob(env, trace[..n], j, x) && !SendsJobFor(env, trace, n, x) && !trace[n].NewBlock?
  {
    hide Next, Env.Valid, SendsJob, Run;
    var before := trace[..|trace| - 1];
    forall k | 0 <= k < |before|
      ensures before[k] == trace[k] && SendsJobFor(env, before, k, x) == SendsJobFor(env, trace, k, x)
    {
      assert before[..k] == trace[..k];
    }
  }

  lemma StepSendsJob(env: Env, s: PoolState, e: Event)
    requires env.Valid() && IsEvent(e) && e.JobFetched? && SendsJob(s, e.job)
    ensures var t, x := Next(env, s, e), e.job.value.extraNonce;
      && x in t.stratumTaskMap && t.stratumTaskMap[x] == TaskFor(e.job.value)
      && t.stratumTaskMap[x].merkle != "" && t.hash == s.hash != ""
  {}

  lemma StepLeavesTask(env: Env, s: PoolState, e: Event, x: int)
    requires env.Valid() && IsEvent(e) && x in s.stratumTaskMap && !e.NewBlock?
    requires !(e.JobFetched? && SendsJob(s, e.job) && e.job.value.extraNonce == x)
    ensures var t := Next(env, s, e);
      x in t.stratumTaskMap && t.stratumTaskMap[x] == s.stratumTaskMap[x] && t.hash == s.hash
  {
    hide ZmqCheck, StratumCheck, Env.Valid;
  }

  ghost predicate JobIsOut(env: Env, trace: seq<Event>, x: int)
    requires env.Valid() && IsTrace(trace)
  {
    exists j: nat :: IsLatestJob(env, trace, j, x)
  }

  /** A number is taken for a job exactly if one was sent for it since the last clear. */
  lemma KnownJobExactly(env: Env, trace: seq<Event>, x: int)
    requires env.Valid() && IsTrace(trace)
    ensures var tasks := Run(env, trace).stratumTaskMap;
      x in tasks && tasks[x].merkle != "" <==> JobIsOut(env, trace, x)
  {
    hide Run, IsLatestJob, Env.Valid;
    var tasks := Run(env, trace).stratumTaskMap;
    if x in tasks && tasks[x].merkle != "" {
      var j := TaskIsFresh(env, trace, x);
    }
    if j: nat :| IsLatestJob(env, trace, j, x) {
      LatestJobIsKnown(env, trace, j, x);
    }
  }

  /** A job is sent exactly if there is a template with a merkle root and a block with a
      hash to build on. */
  lemma JobsSentExactly(env: Env, trace: seq<Event>, job: Option<Template>)
    requires env.Valid() && IsTrace(trace)
    ensures SendsJob(Run(env, trace), job) <==>
      && job.Some? && job.value.merkle != ""
      && exists j: nat :: IsLatestBlock(trace, j) && trace[j].block.hash != ""
  {
    hide Run, Env.Valid, IsLatestBlock;
    CurrentBlockExactly(env, trace);
    forall i: nat, j: nat | IsLatestBlock(trace, i) && IsLatestBlock(trace, j)
      ensures i == j
    {
      OneLatestBlock(trace, i, j);
    }
    forall j: nat
      ensures IsLatestBlock(trace, j) ==> j < |trace| && trace[j].NewBlock?
    {
      LatestIsBlock(trace, j);
    }
  }

  // ---- the bytes a share stands for ----

  /** The proof solves Equihash for these bytes. */
  ghost predicate Solves(env: Env, bytes: seq<byte>, proof: seq<byte>)
    requires env.Valid()
  {
    && |proof| == env.params.SolutionWidth()
    && IsSolution(env.params, env.blake(bytes), SolutionIndices(env.params, proof))
  }

  /** A proof is for the first 140 bytes that the hash of its share covers: the header
      and all of its nonce. */
  lemma ProofIsForHashedBytes(env: Env, h: BlockHeader, proof: seq<byte>)
    requires env.Valid() && |h.nonce| == 32
    ensures |Hashed(h, proof)| >= 140
    ensures ProofValid(env, h, proof) <==> Solves(env, Hashed(h, proof)[..140], proof)
  {
    hide IsSolution, SolutionIndices, Env.Valid, BlockHeader.Data;
    HashedFront(h, proof);
  }

  /** The 140 bytes of a header, from the strings its fields come in. */
  function HeaderBytes(env: Env, prev: string, merkle: string, reserved: nat, time: nat, bits: nat, nonce: seq<byte>)
    : seq<byte>
  {
    [4, 0, 0, 0] + Image(env.setHex(prev), 32) + Image(env.setHex(merkle), 32) + Image(reserved, 32) + Image(time, 4)
    + Image(bits, 4) + nonce
  }

  lemma HeaderBytesAre(env: Env, h: BlockHeader, prev: string, merkle: string)
    requires |h.nonce| == 32 && h.prev == env.setHex(prev) && h.merkle == env.setHex(merkle)
    ensures h.Data() + h.nonce == HeaderBytes(env, prev, merkle, h.reserved, h.time, h.bits, h.nonce)
  {
    hide Image;
    VersionBytes();
  }

  lemma VersionBytes()
    ensures Image(4, 4) == [4, 0, 0, 0]
  {
    hide Image;
    LowBytes(4);
  }

  /** The share stands for these bytes and this proof. */
  predicate StandsFor(f: Found, bytes: seq<byte>, proof: seq<byte>, hash: nat) {
    f.header.Data() + f.header.nonce == bytes && f.proof == proof && f.hash == hash
  }

  function ShareHash(env: Env, bytes: seq<byte>, proof: seq<byte>): nat {
    env.sha(bytes + CompactSizeBytes(|proof|) + proof)
  }

  lemma HashOfBytes(env: Env, h: BlockHeader, proof: seq<byte>)
    ensures env.sha(Hashed(h, proof)) == ShareHash(env, h.Data() + h.nonce, proof)
  {
    hide BlockHeader.Data, CompactSizeBytes;
  }

  // ---- Stratum ----

  /** The bytes of a submission to the job of a template: the time is the miner's, and
      the first four bytes of the nonce are zero. */
  function JobBytes(env: Env, tip: string, t: Template, m: Submit): seq<byte>
    requires |m.nonce| == 32
  {
    HeaderBytes(env, tip, t.merkle, env.setHex(t.hashReserved), m.time, t.bits % UINT_RANGE, [0, 0, 0, 0] + m.nonce[..28])
  }

  /** The verdict on a submission of at least four bytes of solution to the latest job
      sent for its number. */
  lemma StratumVerdict(env: Env, trace: seq<Event>, j: nat, m: Submit, tip: string, target: nat)
    requires env.Valid() && IsTrace(trace) && IsTip(trace, tip, target)
    requires |m.nonce| == 32 && m.extraNonce.Some? && |m.solution| >= 4
    requires IsLatestJob(env, trace, j, m.extraNonce.value)
    ensures var v, proof := StratumCheck(env, Run(env, trace), m), m.solution[3..];
      var bytes := JobBytes(env, tip, trace[j].job.value, m);
      var hash := ShareHash(env, bytes, proof);
      if env.equihashShareCheck && !Solves(env, bytes, proof) then v == Refused(InvalidProof, false)
      else if hash > env.shareTarget then v == Refused(TooSmall, false)
      else if TakenThisEpoch(env, trace, hash) then v == Refused(Duplicate, false)
      else v.Accepted? && StandsFor(v.share, bytes, proof, hash) && (v.share.isBlock <==> hash <= target) && !v.share.refused
  {
    hide Run, Next, Env.Valid, ProofValid, Solves, Hashed, BlockHeader.Data, Image, TargetOf, TakenThisEpoch, IsTip,
         HeaderBytes, IsLatestJob, ShareHash;
    LatestJobIs(env, trace, j, m.extraNonce.value);
    var s, t, proof := Run(env, trace), trace[j].job.value, m.solution[3..];
    LatestJobIsKnown(env, trace, j, m.extraNonce.value);
    CurrentBlockExactly(env, trace);
    OneTip(trace, tip, target, s.hash, s.blockTarget);
    var h := StratumHeader(env, s, TaskFor(t), m);
    HeaderBytesAre(env, h, tip, t.merkle);
    HashOfBytes(env, h, proof);
    ProofIsForHashedBytes(env, h, proof);
    HashedFront(h, proof);
    DuplicatesExactly(env, trace, env.sha(Hashed(h, proof)));
  }

  lemma OneTip(trace: seq<Event>, hash: string, target: nat, hash': string, target': nat)
    requires IsTip(trace, hash, target) && IsTip(trace, hash', target')
    ensures hash == hash' && target == target'
  {
    hide IsLatestBlock, TargetOf;
    forall i: nat, j: nat | IsLatestBlock(trace, i) && IsLatestBlock(trace, j)
      ensures i == j
    {
      OneLatestBlock(trace, i, j);
    }
  }

  lemma OneHeight(trace: seq<Event>, height: uint32, height': uint32)
    requires IsHeight(trace, height) && IsHeight(trace, height')
    ensures height == height'
  {
    hide IsLatestBlock;
    forall i: nat, j: nat | IsLatestBlock(trace, i) && IsLatestBlock(trace, j)
      ensures i == j
    {
      OneLatestBlock(trace, i, j);
    }
  }


  lemma LatestJobIs(env: Env, trace: seq<Event>, j: nat, x: int)
    requires env.Valid() && IsTrace(trace) && IsLatestJob(env, trace, j, x)
    ensures j < |trace| && trace[j].JobFetched? && trace[j].job.Some? && trace[j].job.value.extraNonce == x
    ensures SendsJob(Run(env, trace[..j]), trace[j].job)
  {
    hide Run, Env.Valid;
  }

  /** What a miner is told: there is a refusal for each test, and a share that passes all
      of them is answered by the wallet if it is a block, by the backend if it is not. */
  lemma StratumReplies(env: Env, trace: seq<Event>, m: Submit, up: bool)
    requires env.Valid() && IsTrace(trace) && |m.nonce| == 32
    ensures var reply := ReplyTo(env, Run(env, trace), SubmitReceived(m, up));
      && (reply == Some(Reply(InvalidJobName, false)) <==> m.extraNonce.None?)
      && (reply == Some(Reply(UnknownWork, false)) <==> m.extraNonce.Some? && !JobIsOut(env, trace, m.extraNonce.value))
      && (reply == Some(Reply(TooShort, false)) <==>
            m.extraNonce.Some? && JobIsOut(env, trace, m.extraNonce.value) && |m.solution| < 4)
  {
    hide Run, Env.Valid, ProofValid, Hashed, StratumHeader, JobIsOut, TargetOf;
    if m.extraNonce.Some? {
      KnownJobExactly(env, trace, m.extraNonce.value);
    }
  }

  /** A submission that answers a job as it was sent. */
  ghost predicate AnswersJob(env: Env, trace: seq<Event>, j: nat, n: Notify, m: Submit)
    requires env.Valid() && IsTrace(trace)
  {
    && j < |trace| && trace[j].JobFetched? && trace[j].job.Some?
    && n == NotifyFor(Run(env, trace[..j]), trace[j].job.value, trace[j].now)
    && IsLatestJob(env, trace, j, trace[j].job.value.extraNonce)
    && |m.nonce| == 32 && m.extraNonce == Some(n.extraNonce)
    && |m.solution| >= 4 && m.solution[..3] == CompactSizeBytes(|m.solution| - 3)
  }

  /** The bytes a miner hashes: the fields of the message with its own time, four zero
      bytes and its nonce. */
  function MinerBytes(n: Notify, m: Submit): seq<byte>
    requires |m.nonce| == 32
  {
    DecodedFields(n, Image(m.time, 4)) + [0, 0, 0, 0] + m.nonce[..28]
  }

  /** What becomes of a share f that was accepted, and what its sender is told. */
  predicate Proceeds(s: PoolState, t: PoolState, reply: Option<Reply>, f: Found, up: bool) {
    if f.isBlock then t.waiting == s.waiting + [f] && t.credits == s.credits && reply == Some(Suspended(f))
    else
      && t.waiting == s.waiting && reply == Some(Reply(if !up then Stale else if f.refused then Invalid else NoError, false))
      && t.credits == s.credits + if up then [Credit(f, (s.height + 1) % UINT_RANGE, false, 0)] else []
  }

  lemma AcceptedProceeds(env: Env, s: PoolState, e: Event, f: Found)
    requires env.Valid() && IsEvent(e) && TakesAs(env, s, e, f)
    ensures Proceeds(s, Next(env, s, e), ReplyTo(env, s, e), f, if e.ShareReceived? then e.up else e.SubmitReceived? && e.up)
  {
    hide ZmqCheck, StratumCheck, Env.Valid;
  }

  lemma RefusedStays(env: Env, s: PoolState, e: Event, error: Error, disconnect: bool)
    requires env.Valid() && IsEvent(e)
    requires match e
             case ShareReceived(share, _) => ZmqCheck(env, s, share) == Refused(error, disconnect)
             case SubmitReceived(m, _) => StratumCheck(env, s, m) == Refused(error, disconnect)
             case _ => false
    ensures ReplyTo(env, s, e) == Some(Reply(error, disconnect))
    ensures Next(env, s, e).credits == s.credits && Next(env, s, e).waiting == s.waiting
  {
    hide ZmqCheck, StratumCheck, Env.Valid;
  }

  /** The mining loop closes: when a miner answers the latest message for a job, with
      the bytes it decodes from it, its nonce and its solution, the pool takes the share
      if and only if the solution is one for these bytes (as far as proofs are checked),
      their hash is within the share target and was not taken since the last block; it
      waits for the wallet exactly if the hash is within the latest block's target, and
      is credited at once otherwise. */
  lemma AnsweredJobIsTaken(env: Env, trace: seq<Event>, j: nat, n: Notify, m: Submit, up: bool, tip: string, target: nat)
    requires env.Valid() && env.Parses() && IsTrace(trace) && WellFormed(trace)
    requires AnswersJob(env, trace, j, n, m) && IsTip(trace, tip, target)
    ensures var s, e := Run(env, trace), SubmitReceived(m, up);
      var t, reply := Next(env, s, e), ReplyTo(env, s, e);
      var bytes, proof := MinerBytes(n, m), m.solution[3..];
      var hash := env.sha(bytes + m.solution);
      if env.equihashShareCheck && !Solves(env, bytes, proof) then Refuses(s, t, reply, InvalidProof)
      else if hash > env.shareTarget then Refuses(s, t, reply, TooSmall)
      else if TakenThisEpoch(env, trace, hash) then Refuses(s, t, reply, Duplicate)
      else exists f :: StandsFor(f, bytes, proof, hash) && (f.isBlock <==> hash <= target) && !f.refused
                       && Proceeds(s, t, reply, f, up)
  {
    hide Run, Next, ReplyTo, Env.Valid, Env.Parses, Solves, Image, TargetOf, TakenThisEpoch, IsTip, WellFormed,
         IsLatestJob, StratumCheck, DecodedFields, JobBytes, StandsFor, Proceeds, CompactSizeBytes, NotifyFor;
    var s, e, x := Run(env, trace), SubmitReceived(m, up), trace[j].job.value.extraNonce;
    MessageNumber(Run(env, trace[..j]), trace[j].job.value, trace[j].now);
    LatestJobIs(env, trace, j, x);
    StratumVerdict(env, trace, j, m, tip, target);
    MinerBytesAre(env, trace, j, n, m, tip, target);
    assert m.solution == m.solution[..3] + m.solution[3..];
    var bytes, proof := MinerBytes(n, m), m.solution[3..];
    assert bytes + m.solution == bytes + CompactSizeBytes(|proof|) + proof;
    var v := StratumCheck(env, s, m);
    if v.Accepted? {
      AcceptedProceeds(env, s, e, v.share);
    } else {
      RefusedStays(env, s, e, v.error, v.disconnect);
    }
  }

  predicate Refuses(s: PoolState, t: PoolState, reply: Option<Reply>, error: Error, disconnect: bool := false) {
    reply == Some(Reply(error, disconnect)) && t.credits == s.credits && t.waiting == s.waiting
  }

  lemma MessageNumber(s: PoolState, t: Template, now: nat)
    ensures NotifyFor(s, t, now).extraNonce == t.extraNonce
  {}

  lemma MinerBytesAre(env: Env, trace: seq<Event>, j: nat, n: Notify, m: Submit, tip: string, target: nat)
    requires env.Valid() && env.Parses() && IsTrace(trace) && WellFormed(trace)
    requires AnswersJob(env, trace, j, n, m) && IsTip(trace, tip, target)
    ensures MinerBytes(n, m) == JobBytes(env, tip, trace[j].job.value, m)
  {
    hide Run, Env.Valid, Env.Parses, Image, TargetOf, IsTip, WellFormed, IsLatestJob, DecodedFields, ParseHash,
         CompactSizeBytes, NotifyFor, HeaderBytes, IsHash, BlockHeader.Data;
    var t := trace[j].job.value;
    LatestJobIsKnown(env, trace, j, t.extraNonce);
    CurrentBlockExactly(env, trace);
    OneTip(trace, tip, target, Run(env, trace).hash, Run(env, trace).blockTarget);
    JobIsWellFormed(env, trace, j, t.extraNonce);
    var nonce := [0, 0, 0, 0] + m.nonce[..28];
    var h := BlockHeader(env.setHex(tip), env.setHex(t.merkle), env.setHex(t.hashReserved), m.time, t.bits % UINT_RANGE, nonce);
    ParsesAs(env, tip, t.merkle, t.hashReserved);
    NotifyAgrees(Run(env, trace[..j]), t, trace[j].now, h);
    HeaderBytesAre(env, h, tip, t.merkle);
    assert DecodedFields(n, Image(m.time, 4)) + [0, 0, 0, 0] + m.nonce[..28] == h.Data() + nonce;
  }

  // ---- ZMQ ----

  /** The bytes of a ZMQ share on a block: the reserved field is zero. */
  function ZmqBytes(env: Env, tip: string, share: ZmqShare): seq<byte>
    requires share.bigNonce.Some?
  {
    HeaderBytes(env, tip, share.merkle, 0, share.time, share.bits, Image(env.setHex(share.bigNonce.value), 32))
  }

  predicate IsComplete(share: Option<ZmqShare>) {
    share.Some? && share.value.bigNonce.Some? && share.value.proofOfWork.Some?
  }

  lemma ZmqVerdict(env: Env, trace: seq<Event>, share: ZmqShare, tip: string, target: nat)
    requires env.Valid() && IsTrace(trace) && IsTip(trace, tip, target) && IsComplete(Some(share))
    ensures var v, proof := ZmqCheck(env, Run(env, trace), Some(share)), share.proofOfWork.value;
      var bytes := ZmqBytes(env, tip, share);
      var hash := ShareHash(env, bytes, proof);
      if !IsHeight(trace, share.height) then v == Refused(Stale, false)
      else if !WorkIsOut(trace, share.merkle) then v == Refused(Stale, true)
      else if env.setHex(share.hash) != hash || hash > env.shareTarget then v == Refused(Invalid, false)
      else if TakenThisEpoch(env, trace, hash) then v == Refused(Duplicate, false)
      else
        && v.Accepted? && StandsFor(v.share, bytes, proof, hash) && v.share.isBlock == share.isBlock
        && (v.share.refused <==> env.equihashShareCheck && !Solves(env, bytes, proof))
  {
    hide Run, Next, Env.Valid, ProofValid, Solves, Hashed, BlockHeader.Data, Image, TargetOf, TakenThisEpoch, IsTip,
         HeaderBytes, IsHeight, WorkIsOut, ShareHash;
    var s, proof := Run(env, trace), share.proofOfWork.value;
    CurrentBlockExactly(env, trace);
    OneTip(trace, tip, target, s.hash, s.blockTarget);
    if IsHeight(trace, share.height) {
      OneHeight(trace, share.height, s.height);
    }
    KnownWorkExactly(env, trace, share.merkle);
    var h := ZmqHeader(env, s, share);
    HeaderBytesAre(env, h, tip, share.merkle);
    HashOfBytes(env, h, proof);
    ProofIsForHashedBytes(env, h, proof);
    HashedFront(h, proof);
    DuplicatesExactly(env, trace, env.sha(Hashed(h, proof)));
  }

  /** What a ZMQ worker is told, after every run and for every share. */
  lemma ZmqReplies(env: Env, trace: seq<Event>, share: Option<ZmqShare>, up: bool, tip: string, target: nat)
    requires env.Valid() && IsTrace(trace) && IsTip(trace, tip, target)
    ensures var s, e := Run(env, trace), ShareReceived(share, up);
      var t, reply := Next(env, s, e), ReplyTo(env, s, e);
      if !IsComplete(share) then Refuses(s, t, reply, Invalid)
      else
        var bytes, proof := ZmqBytes(env, tip, share.value), share.value.proofOfWork.value;
        var hash := ShareHash(env, bytes, proof);
        if !IsHeight(trace, share.value.height) then Refuses(s, t, reply, Stale)
        else if !WorkIsOut(trace, share.value.merkle) then Refuses(s, t, reply, Stale, true)
        else if env.setHex(share.value.hash) != hash || hash > env.shareTarget then Refuses(s, t, reply, Invalid)
        else if TakenThisEpoch(env, trace, hash) then Refuses(s, t, reply, Duplicate)
        else exists f :: StandsFor(f, bytes, proof, hash) && f.isBlock == share.value.isBlock
                         && (f.refused <==> env.equihashShareCheck && !Solves(env, bytes, proof))
                         && Proceeds(s, t, reply, f, up)
  {
    hide Run, Next, ReplyTo, Env.Valid, Solves, TargetOf, TakenThisEpoch, IsTip, ZmqBytes, StandsFor, Proceeds,
         ShareHash, IsHeight, WorkIsOut;
    var s, e := Run(env, trace), ShareReceived(share, up);
    if IsComplete(share) {
      ZmqVerdict(env, trace, share.value, tip, target);
    }
    hide ZmqCheck;
    var v := ZmqCheck(env, s, share);
    if v.Accepted? {
      AcceptedProceeds(env, s, e, v.share);
    } else {
      RefusedStays(env, s, e, v.error, v.disconnect);
    }
  }

  /** A step makes the pool hang up on a ZMQ worker exactly if it hands in a complete
      share for the current height whose merkle root is not that of work handed out since
      the last block. No miner is ever hung up on. */
  lemma DisconnectsExactly(env: Env, trace: seq<Event>, e: Event)
    requires env.Valid() && IsTrace(trace) && IsEvent(e)
    ensures var reply := ReplyTo(env, Run(env, trace), e);
      reply.Some? && reply.value.Reply? && reply.value.disconnect
      <==> && e.ShareReceived? && IsComplete(e.share)
           && IsHeight(trace, e.share.value.height) && !WorkIsOut(trace, e.share.value.merkle)
  {
    hide Run, Next, Env.Valid, ProofValid, Hashed, ZmqHeader, StratumHeader, TargetOf, IsHeight, WorkIsOut;
    CurrentBlockExactly(env, trace);
    if e.ShareReceived? && IsComplete(e.share) {
      KnownWorkExactly(env, trace, e.share.value.merkle);
      if IsHeight(trace, e.share.value.height) {
        OneHeight(trace, e.share.value.height, Run(env, trace).height);
      }
    }
  }

  /** A share that answers the reply to a work request, with a time and a nonce of the
      worker's choice, while the block has not changed and the wallet is not lost. */
  ghost predicate AnswersWork(env: Env, trace: seq<Event>, j: nat, w: Work, share: ZmqShare, nonce: nat)
    requires env.Valid() && IsTrace(trace)
  {
    && j < |trace| && trace[j].WorkFetched? && trace[j].work.Some?
    && (exists now: nat :: w == WorkFor(Run(env, trace[..j]), trace[j].work.value, now))
    && (forall k :: j <= k < |trace| ==> !trace[k].NewBlock? && !trace[k].Disconnect?)
    && share.height == w.height && share.merkle == w.merkle && share.bits == w.bits
    && nonce < Pow2(256) && share.bigNonce == Some(HexOf(nonce, 64)) && share.proofOfWork.Some?
  }

  /** The ZMQ loop closes likewise: a worker answers its work with the bytes it builds
      from it, whose reserved field has to be zero. Its share is taken if and only if
      their hash is within the share target and was not taken since the last block; the
      proof, for the N and K of the work, only decides the error. */
  lemma AnsweredWorkIsTaken(env: Env, trace: seq<Event>, j: nat, w: Work, share: ZmqShare, nonce: nat, up: bool,
                            tip: string, target: nat)
    requires env.Valid() && env.Parses() && IsTrace(trace) && IsTip(trace, tip, target)
    requires AnswersWork(env, trace, j, w, share, nonce)
    requires env.params == Params(trace[j].work.value.n, trace[j].work.value.k) && env.setHex(w.hashReserved) == 0
    requires
      var bytes := HeaderBytes(env, tip, w.merkle, env.setHex(w.hashReserved), share.time, w.bits, Image(nonce, 32));
      var hash := ShareHash(env, bytes, share.proofOfWork.value);
      hash < Pow2(256) && share.hash == HexOf(hash, 64)
    ensures env.params == Params(w.n, w.k)
    ensures var s, e := Run(env, trace), ShareReceived(Some(share), up);
      var t, reply, proof := Next(env, s, e), ReplyTo(env, s, e), share.proofOfWork.value;
      var bytes := HeaderBytes(env, tip, w.merkle, env.setHex(w.hashReserved), share.time, w.bits, Image(nonce, 32));
      var hash := ShareHash(env, bytes, proof);
      if hash > env.shareTarget then Refuses(s, t, reply, Invalid)
      else if TakenThisEpoch(env, trace, hash) then Refuses(s, t, reply, Duplicate)
      else exists f :: StandsFor(f, bytes, proof, hash) && f.isBlock == share.isBlock
                       && (f.refused <==> env.equihashShareCheck && !Solves(env, bytes, proof))
                       && Proceeds(s, t, reply, f, up)
  {
    hide Run, Next, ReplyTo, Env.Valid, Env.Parses, Solves, TargetOf, TakenThisEpoch, IsTip, HeaderBytes, StandsFor,
         Proceeds, ShareHash, IsHeight, WorkIsOut, Image, HexOf, Pow2;
    var now: nat :| w == WorkFor(Run(env, trace[..j]), trace[j].work.value, now);
    WorkFields(Run(env, trace[..j]), trace[j].work.value, now);
    UndisturbedHeight(env, trace, j);
    CurrentBlockExactly(env, trace);
    assert WorkAt(trace, j, share.merkle);
    WorkMakesIt(trace, j, share.merkle);
    PrintedHash(env, nonce);
    PrintedHash(env, ShareHash(env, ZmqBytes(env, tip, share), share.proofOfWork.value));
    ZmqReplies(env, trace, Some(share), up, tip, target);
  }

  lemma WorkFields(s: PoolState, t: Template, now: nat)
    ensures var w := WorkFor(s, t, now);
      w.height == s.height && w.merkle == t.merkle && w.n == t.n && w.k == t.k
  {}

  lemma WorkMakesIt(trace: seq<Event>, j: nat, merkle: string)
    requires WorkAt(trace, j, merkle)
    ensures WorkIsOut(trace, merkle)
  {}

  lemma {:induction false} UndisturbedHeight(env: Env, trace: seq<Event>, j: nat)
    requires env.Valid() && IsTrace(trace) && j <= |trace|
    requires forall k :: j <= k < |trace| ==> !trace[k].NewBlock? && !trace[k].Disconnect?
    ensures Run(env, trace).height == Run(env, trace[..j]).height
  {
    hide Next, Env.Valid;
    if j == |trace| {
      assert trace[..j] == trace;
    } else {
      var n := |trace| - 1;
      UndisturbedHeight(env, trace[..n], j);
      assert trace[..n][..j] == trace[..j];
      StepBlock(env, Run(env, trace[..n]), trace[n]);
    }
  }

  // ---- the fields of work and jobs ----

  /** The time that is handed out is the clock's, or the template's if that is later. */
  lemma LaterTime(t: Template, now: nat)
    requires t.time < UINT_RANGE && now < UINT_RANGE
    ensures now <= WorkTime(t, now) && t.time <= WorkTime(t, now)
    ensures WorkTime(t, now) == now || WorkTime(t, now) == t.time
  {}

  /** A message names the height above the block it builds on, unless the wallet is lost
      (then 1), the number its job is recorded under, and decodes to the later time. */
  lemma MessageFields(env: Env, trace: seq<Event>, job: Option<Template>, now: nat, height: uint32)
    requires env.Valid() && IsTrace(trace) && SendsJob(Run(env, trace), job) && IsHeight(trace, height)
    ensures var n := NotifyFor(Run(env, trace), job.value, now);
      && n.height == (height + 1) % UINT_RANGE
      && IsHexString(n.time) && Decode(n.time) == Image(WorkTime(job.value, now), 4)
      && n.extraNonce in Next(env, Run(env, trace), JobFetched(job, now)).stratumTaskMap
  {
    hide Run, Env.Valid, Image, Decode, DumpHex, WireHex, IsHexString, TargetOf, IsHeight, IsTip;
    CurrentBlockExactly(env, trace);
    OneHeight(trace, height, Run(env, trace).height);
    BitsAgreement(WorkTime(job.value, now));
  }

  // ---- the wallet's answer ----

  /** What the sender of a block is told once the wallet has answered, and that the
      handler with the answer is the one that goes on. A miner's block is only ever
      refused by the wallet or the backend: its proof has been checked. */
  lemma WalletReplies(env: Env, trace: seq<Event>, i: nat, answer: Answer, up: bool)
    requires env.Valid() && IsTrace(trace) && i < |Run(env, trace).waiting|
    ensures var s, e := Run(env, trace), ProofAnswered(i, answer, up);
      var f, reply, accepted := s.waiting[i], ReplyTo(env, s, e), answer.Answer? && answer.accepted;
      && multiset(s.waiting) == multiset(Next(env, s, e).waiting) + multiset{f}
      && (reply == Some(Reply(CheckFailed, false)) <==> !accepted && f.path.Stratum?)
      && (reply == Some(Reply(Stale, false)) <==> accepted && !up)
      && (reply == Some(Reply(NoError, false)) <==>
            accepted && up && (env.equihashShareCheck ==> ProofValid(env, f.header, f.proof)))
      && (reply == Some(Reply(Invalid, false)) <==>
            && f.path.Zmq?
            && (!accepted || (up && env.equihashShareCheck && !ProofValid(env, f.header, f.proof))))
  {
    hide Run, Next, ReplyTo, Env.Valid, ProofValid, Sound;
    RunAccounted(env, trace);
    var s := Run(env, trace);
    SoundMarks(env, s.waiting[i]);
    AnswerStep(env, s, i, answer, up);
    TakenOut(s.waiting, i);
  }

  lemma AnswerStep(env: Env, s: PoolState, i: nat, answer: Answer, up: bool)
    requires env.Valid() && i < |s.waiting|
    ensures var f, e, accepted := s.waiting[i], ProofAnswered(i, answer, up), answer.Answer? && answer.accepted;
      && Next(env, s, e).waiting == s.waiting[..i] + s.waiting[i + 1..]
      && ReplyTo(env, s, e) == Some(Reply(
           if !accepted then (if f.path.Zmq? then Invalid else CheckFailed)
           else if !up then Stale else if f.refused then Invalid else NoError, false))
  {
    hide Env.Valid, ZmqCheck, StratumCheck;
  }

  lemma TakenOut(s: seq<Found>, i: nat)
    requires i < |s|
    ensures multiset(s) == multiset(s[..i] + s[i + 1..]) + multiset{s[i]}
  {
    assert s == s[..i] + [s[i]] + s[i + 1..];
  }

  lemma SoundMarks(env: Env, f: Found)
    requires env.Valid() && Sound(env, f)
    ensures f.refused <==> env.equihashShareCheck && !ProofValid(env, f.header, f.proof)
    ensures f.path.Stratum? ==> !f.refused
  {
    hide ProofValid, Hashed;
  }

  // ---- what the wallet is sent ----

  /** A block goes to the wallet, and its sender waits, in the same steps. The request
      names the current height and the extra nonce of the work that the share answers,
      and the wallet reads from it the time, nonce and solution that were hashed. */
  lemma WalletGetsTheShare(env: Env, trace: seq<Event>, e: Event) returns (j: nat)
    requires env.Valid() && env.Parses() && IsTrace(trace) && IsEvent(e)
    requires RequestTo(env, Run(env, trace), e).Some?
    ensures var s, r := Run(env, trace), RequestTo(env, Run(env, trace), e).value;
      && |Next(env, s, e).waiting| == |s.waiting| + 1
      && var f := Next(env, s, e).waiting[|s.waiting|];
         && ReplyTo(env, s, e) == Some(Suspended(f))
         && IsHeight(trace, r.height) && r.extraNonce == f.extraNonce && Answers(env, trace, j, f)
         && r.time == f.header.time && Image(env.setHex(r.nonce), 32) == f.header.nonce && r.solution == f.proof
  {
    hide Run, Env.Valid, Env.Parses, Hashed, ProofValid, IsHeight, IsTip, Answers, TargetOf, Image, NonceText, ParseHash;
    CurrentBlockExactly(env, trace);
    match e {
      case ShareReceived(share, _) =>
        j := ZmqAnswers(env, trace, share, ZmqCheck(env, Run(env, trace), share).share);
      case SubmitReceived(m, _) =>
        var f := StratumCheck(env, Run(env, trace), m).share;
        j := StratumAnswers(env, trace, m, f);
        NonceReadsBack(f.header.nonce);
        ParsesAs(env, NonceText(f.header.nonce), "", "");
    }
  }

  /** A step sends a request exactly if it makes a handler wait. */
  lemma RequestsExactly(env: Env, s: PoolState, e: Event)
    requires env.Valid() && IsEvent(e)
    ensures RequestTo(env, s, e).Some? <==> ReplyTo(env, s, e).Some? && ReplyTo(env, s, e).value.Suspended?
    ensures RequestTo(env, s, e).Some? <==> |Next(env, s, e).waiting| > |s.waiting|
  {
    hide ZmqHeader, StratumHeader, Hashed, ProofValid, Env.Valid, TargetOf;
  }

  /** SetHex reads the text of a nonce back. */
  lemma NonceReadsBack(nonce: seq<byte>)
    requires |nonce| == 32
    ensures Image(ParseHash(NonceText(nonce)), 32) == nonce
  {
    hide ParseHash, Image, Decode, NonceText, SwapPairs, AllHex;
    var text := NonceText(nonce);
    NonceDigits(nonce);
    assert text[0..] == text;
    WireAgreement(text);
  }

  lemma {:induction false} NonceDigits(nonce: seq<byte>)
    ensures AllHex(NonceText(nonce)) && |NonceText(nonce)| == 2 * |nonce|
    ensures Decode(SwapPairs(NonceText(nonce))) == nonce
  {
    hide DigitValue, Decode, IsHexDigit, BytePair, SwapPairs;
    if nonce == [] {
      NoBytes();
      assert SwapPairs("") == "" by { NothingSwapped("", ""); AllSwapped(""); }
    } else {
      var n := |nonce| - 1;
      var pair, t := BytePair(nonce[n]), NonceText(nonce[..n]);
      NonceDigits(nonce[..n]);
      SwapFirst(pair, t);
      assert pair == [pair[0], pair[1]];
      DecodeSnoc(SwapPairs(t), pair[0], pair[1]);
    }
  }

  lemma SwapFirst(pair: string, t: string)
    requires |pair| == 2 && |t| % 2 == 0
    ensures SwapPairs(pair + t) == SwapPairs(t) + pair
  {
    assert (pair + t)[2..] == t && (pair + t)[..2] == pair;
  }
}
