/** The share accounting of the pool: what new blocks, reconnects, work requests and
    the two share protocols do to the pool context, as a state machine whose steps
    are the stretches between two calls that yield (src/zcashpool.cpp:87-255,298-400,
    453-557, src/main.cpp:304-342,436-456). */
module Pool {
  import opened Arithmetic
  import opened Digits
  import opened Hex
  import opened EquihashSpec
  import opened Compact
  import opened Header

  datatype Option<T> = None | Some(value: T)

  type uint32 = x: nat | x < 0x1_0000_0000

  // ---- what the pool is configured with ----

  /** params are those of the Equihash instance; sha, the double SHA-256 of a header with
      its solution, and blake, the BLAKE2b state set up with a header, are unknown
      functions. setHex is uint256::SetHex, which matters to the header only. */
  datatype Env = Env(params: Params, setHex: string -> nat, sha: seq<byte> -> nat, blake: seq<byte> -> Generator,
                     shareTarget: nat, equihashShareCheck: bool) {
    ghost predicate Parses() {
      forall s: string :: setHex(s) == ParseHash(s)
    }

    ghost predicate Valid() {
      params.Admissible() && forall m: seq<byte> :: Generates(params, blake(m))
    }
  }

  /** What equiHashShareCheck accepts. */
  ghost predicate ProofValid(env: Env, h: BlockHeader, proof: seq<byte>)
    requires env.Valid()
  {
    && |proof| == env.params.SolutionWidth()
    && IsSolution(env.params, env.blake(h.Data() + h.nonce), SolutionIndices(env.params, proof))
  }

  // ---- the pool context ----

  datatype Task = Task(bits: uint32, hashReserved: string, merkle: string)

  const EMPTY_TASK := Task(0, "", "")

  datatype Path = Zmq | Stratum

  /** A share that has entered uniqueShares: in which epoch, and whether the reply
      already says that its proof is invalid. */
  datatype Found = Found(path: Path, header: BlockHeader, proof: seq<byte>, hash: nat, epoch: nat,
                         extraNonce: int, isBlock: bool, refused: bool)

  /** A message to the backend. */
  datatype Credit = Credit(share: Found, height: uint32, isBlock: bool, coins: int)

  /** epoch counts the clears, waiting are the handlers that wait for the wallet's
      answer to a block, credits the messages sent. */
  datatype PoolState = PoolState(
    height: uint32, hash: string,
    extraNonceMap: map<string, nat>, stratumTaskMap: map<int, Task>, uniqueShares: set<nat>,
    blockTarget: nat,
    epoch: nat, waiting: seq<Found>, credits: seq<Credit>)

  const INITIAL_STATE := PoolState(0, "", map[], map[], {}, 0, 0, [], [])

  // ---- messages ----

  datatype Block = Block(height: uint32, hash: string, bits: nat)

  datatype Template = Template(merkle: string, hashReserved: string, bits: nat, extraNonce: int, time: nat,
                               n: uint32, k: uint32)

  /** What the reply to a work request holds. */
  datatype Work = Work(height: uint32, merkle: string, time: uint32, bits: uint32, hashReserved: string,
                       n: uint32, k: uint32)

  datatype ZmqShare = ZmqShare(height: uint32, merkle: string, time: uint32, bits: uint32, bigNonce: Option<string>,
                               proofOfWork: Option<seq<byte>>, hash: string, isBlock: bool)

  /** extraNonce is what the job id holds behind its '#', if it has one. */
  datatype Submit = Submit(extraNonce: Option<int>, time: uint32, nonce: seq<byte>, solution: seq<byte>)

  datatype Answer = NoAnswer | Answer(accepted: bool, generatedCoins: int)

  /** What the wallet is sent for a block. */
  datatype ProofOfWork = ProofOfWork(height: uint32, time: uint32, nonce: string, extraNonce: int, solution: seq<byte>)

  datatype Error = NoError | Stale | Invalid | Duplicate | InvalidJobName | UnknownWork | TooShort
                 | InvalidProof | TooSmall | CheckFailed

  datatype Reply = Reply(error: Error, disconnect: bool) | Suspended(share: Found)

  // ---- checking a share ----

  datatype Verdict = Refused(error: Error, disconnect: bool) | Accepted(share: Found)

  /** The nonce comes as a hex string; the reserved field is zero here whatever the
      template says. */
  function ZmqHeader(env: Env, s: PoolState, share: ZmqShare): BlockHeader
    requires share.bigNonce.Some?
  {
    BlockHeader(env.setHex(s.hash), env.setHex(share.merkle), 0, share.time, share.bits,
                Image(env.setHex(share.bigNonce.value), 32))
  }

  function StratumHeader(env: Env, s: PoolState, task: Task, m: Submit): BlockHeader
    requires |m.nonce| == 32
  {
    BlockHeader(env.setHex(s.hash), env.setHex(task.merkle), env.setHex(task.hashReserved), m.time, task.bits,
                [0, 0, 0, 0] + m.nonce[..28])
  }

  /** onShare up to the first yield or the message. */
  ghost function ZmqCheck(env: Env, s: PoolState, request: Option<ZmqShare>): Verdict
    requires env.Valid()
  {
    if request.None? || request.value.bigNonce.None? || request.value.proofOfWork.None? then Refused(Invalid, false)
    else
      var share := request.value;
      if share.height != s.height then Refused(Stale, false)
      else if share.merkle !in s.extraNonceMap then Refused(Stale, true)
      else
        var h, proof := ZmqHeader(env, s, share), share.proofOfWork.value;
        var hash := env.sha(Hashed(h, proof));
        if env.setHex(share.hash) != hash then Refused(Invalid, false)
        else if hash > env.shareTarget then Refused(Invalid, false)
        else if hash in s.uniqueShares then Refused(Duplicate, false)
        else Accepted(Found(Zmq, h, proof, hash, s.epoch, s.extraNonceMap[share.merkle], share.isBlock,
                            env.equihashShareCheck && !ProofValid(env, h, proof)))
  }

  /** stratumCheckShare up to the first yield. */
  ghost function StratumCheck(env: Env, s: PoolState, m: Submit): Verdict
    requires env.Valid() && |m.nonce| == 32
  {
    if m.extraNonce.None? then Refused(InvalidJobName, false)
    else
      var e := m.extraNonce.value;
      if e !in s.stratumTaskMap || s.stratumTaskMap[e].merkle == "" then Refused(UnknownWork, false)
      else if |m.solution| < 4 then Refused(TooShort, false)
      else
        var h, proof := StratumHeader(env, s, s.stratumTaskMap[e], m), m.solution[3..];
        var hash := env.sha(Hashed(h, proof));
        if env.equihashShareCheck && !ProofValid(env, h, proof) then Refused(InvalidProof, false)
        else if hash > env.shareTarget then Refused(TooSmall, false)
        else if hash in s.uniqueShares then Refused(Duplicate, false)
        else Accepted(Found(Stratum, h, proof, hash, s.epoch, e, hash <= s.blockTarget, false))
  }

  // ---- steps ----

  /** NewBlock: the block signal, or the wallet connection coming back. Disconnect: the
      connection lost. WorkFetched, JobFetched: the wallet's answer to onGetWork and to
      stratumSendNewWork. ProofAnswered: its answer to the handler waiting[i]. up says
      whether the backend takes a message. */
  datatype Event =
    | NewBlock(block: Block)
    | Disconnect
    | WorkFetched(work: Option<Template>)
    | JobFetched(job: Option<Template>, now: nat)
    | ShareReceived(share: Option<ZmqShare>, up: bool)
    | SubmitReceived(submit: Submit, up: bool)
    | ProofAnswered(i: nat, answer: Answer, up: bool)

  /** The process outlives the block: the handlers divide by its target. */
  predicate Survives(b: Block) { TargetOf(b.bits) > 0 }

  /** A block that the process does not survive is no step of a run. */
  predicate IsEvent(e: Event) {
    match e
    case NewBlock(b) => Survives(b)
    case SubmitReceived(m, _) => |m.nonce| == 32
    case _ => true
  }

  /** What both handlers of a new block store. */
  function AfterBlock(s: PoolState, b: Block): PoolState {
    s.(height := b.height, hash := b.hash, extraNonceMap := map[], stratumTaskMap := map[],
       uniqueShares := {}, blockTarget := TargetOf(b.bits), epoch := s.epoch + 1)
  }

  /** stratumSendNewWork sends a job for the template. */
  predicate SendsJob(s: PoolState, job: Option<Template>) {
    job.Some? && s.hash != "" && job.value.merkle != ""
  }

  function TaskFor(t: Template): Task { Task(t.bits % UINT_RANGE, t.hashReserved, t.merkle) }

  /** The later of the clock and the template's time, as 32 bits. */
  function WorkTime(t: Template, now: nat): uint32 { (if now < t.time then t.time else now) % UINT_RANGE }

  function WorkFor(s: PoolState, t: Template, now: nat): Work {
    Work(s.height, t.merkle, WorkTime(t, now), t.bits % UINT_RANGE, t.hashReserved, t.n, t.k)
  }

  function NotifyFor(s: PoolState, t: Template, now: nat): Notify {
    Notify((s.height + 1) % UINT_RANGE, t.extraNonce, "04000000", WireHex(s.hash), WireHex(t.merkle),
           WireHex(t.hashReserved), DumpHex(WorkTime(t, now), 4),
           DumpHex(t.bits % UINT_RANGE, 4))
  }

  /** operator[] on the task map inserts an empty task for an unknown number. */
  function Looked(s: PoolState, m: Submit): PoolState {
    if m.extraNonce.None? || m.extraNonce.value in s.stratumTaskMap then s
    else s.(stratumTaskMap := s.stratumTaskMap[m.extraNonce.value := EMPTY_TASK])
  }

  /** The message to the backend, with the height as it is by now. */
  function Sent(s: PoolState, f: Found, isBlock: bool, coins: int, up: bool): PoolState {
    if up then s.(credits := s.credits + [Credit(f, (s.height + 1) % UINT_RANGE, isBlock, coins)]) else s
  }

  /** A new hash enters uniqueShares; a block goes to the wallet first. */
  function Taken(s: PoolState, f: Found, up: bool): PoolState {
    var t := s.(uniqueShares := s.uniqueShares + {f.hash});
    if f.isBlock then t.(waiting := t.waiting + [f]) else Sent(t, f, false, 0, up)
  }

  /** The reply once the wallet, if it was asked, has accepted. */
  function FinalError(f: Found, up: bool): Error {
    if !up then Stale else if f.refused then Invalid else NoError
  }

  ghost function Next(env: Env, s: PoolState, e: Event): PoolState
    requires env.Valid() && IsEvent(e)
  {
    match e
    case NewBlock(b) => AfterBlock(s, b)
    case Disconnect => s.(height := 0)
    case WorkFetched(work) =>
      if work.None? then s
      else s.(extraNonceMap := s.extraNonceMap[work.value.merkle := work.value.extraNonce % UINT_RANGE])
    case JobFetched(job, now) =>
      if !SendsJob(s, job) then s
      else s.(stratumTaskMap := s.stratumTaskMap[job.value.extraNonce := TaskFor(job.value)])
    case ShareReceived(share, up) =>
      var v := ZmqCheck(env, s, share);
      if v.Accepted? then Taken(s, v.share, up) else s
    case SubmitReceived(m, up) =>
      var v := StratumCheck(env, s, m);
      if v.Accepted? then Taken(s, v.share, up) else Looked(s, m)
    case ProofAnswered(i, answer, up) =>
      if i >= |s.waiting| then s
      else
        var f, t := s.waiting[i], s.(waiting := s.waiting[..i] + s.waiting[i + 1..]);
        if answer.NoAnswer? || !answer.accepted then t
        else Sent(t, f, f.path.Zmq? || answer.generatedCoins > 0, answer.generatedCoins, up)
  }

  /** What the step tells the miner. */
  ghost function ReplyTo(env: Env, s: PoolState, e: Event): Option<Reply>
    requires env.Valid() && IsEvent(e)
  {
    match e
    case ShareReceived(share, up) => Some(ReplyToVerdict(ZmqCheck(env, s, share), up))
    case SubmitReceived(m, up) => Some(ReplyToVerdict(StratumCheck(env, s, m), up))
    case ProofAnswered(i, answer, up) =>
      if i >= |s.waiting| then None
      else if answer.NoAnswer? || !answer.accepted then
        Some(Reply(if s.waiting[i].path.Zmq? then Invalid else CheckFailed, false))
      else Some(Reply(FinalError(s.waiting[i], up), false))
    case _ => None
  }

  /** uint256::GetHex on the bytes of a nonce: the last byte comes first. */
  function NonceText(nonce: seq<byte>): string {
    if nonce == [] then "" else BytePair(nonce[|nonce| - 1]) + NonceText(nonce[..|nonce| - 1])
  }

  /** What the step sends to the wallet. A ZMQ worker's text of the nonce is passed on. */
  ghost function RequestTo(env: Env, s: PoolState, e: Event): Option<ProofOfWork>
    requires env.Valid() && IsEvent(e)
  {
    match e
    case ShareReceived(share, _) =>
      var v := ZmqCheck(env, s, share);
      if v.Refused? || !v.share.isBlock then None
      else Some(ProofOfWork(s.height, share.value.time, share.value.bigNonce.value, v.share.extraNonce, v.share.proof))
    case SubmitReceived(m, _) =>
      var v := StratumCheck(env, s, m);
      if v.Refused? || !v.share.isBlock then None
      else Some(ProofOfWork(s.height, m.time, NonceText(v.share.header.nonce), v.share.extraNonce, v.share.proof))
    case _ => None
  }

  function ReplyToVerdict(v: Verdict, up: bool): Reply {
    match v
    case Refused(error, disconnect) => Reply(error, disconnect)
    case Accepted(f) => if f.isBlock then Suspended(f) else Reply(FinalError(f, up), false)
  }

  // ---- runs ----

  ghost predicate IsTrace(trace: seq<Event>) {
    forall i :: 0 <= i < |trace| ==> IsEvent(trace[i])
  }

  ghost function Run(env: Env, trace: seq<Event>): PoolState
    requires env.Valid() && IsTrace(trace)
  {
    if trace == [] then INITIAL_STATE
    else Next(env, Run(env, trace[..|trace| - 1]), trace[|trace| - 1])
  }
}
