/** The handlers on the pool context, each proved to take the step that the state
    machine gives for it (src/zcashpool.cpp:33-41,87-255,298-400,453-557,
    src/main.cpp:304-342,430-456). */
module PoolContext {
  import opened Arithmetic
  import opened Digits
  import opened Hex
  import opened EquihashSpec
  import opened EquihashVerifier
  import opened Compact
  import opened Header
  import opened Pool

  /** The string sprintf reads from a buffer: up to the NUL at position n. */
  lemma CString(buffer: seq<char>, before: seq<char>, s: string)
    requires |s| < |before| && buffer == Splice(Splice(before, 0, s), |s|, [0 as char])
    ensures |buffer| == |before| && buffer[..|s|] == s
  {}

  /** What sprintf reads where stratumLittleEndianHex wrote s. Of an odd number of
      characters the last one of the buffer is not written: the string ends there, or
      goes on with whatever character the buffer held. */
  predicate Printed(field: string, s: string) {
    if |s| % 2 == 0 then field == WireHex(s)
    else field == WireHex(s) || (|field| == |s| && field[..|s| - 1] == WireHex(s))
  }

  method LittleEndianHex(s: string) returns (r: string)
    requires |s| < 128
    ensures Printed(r, s)
  {
    var buffer := new char[128];
    ghost var before := buffer[..];
    StratumLittleEndianHex(s, buffer);
    OddBuffer(buffer[..], before, s);
    if |s| % 2 == 1 && buffer[|s| - 1] == 0 as char {
      r := buffer[..|s| - 1];
    } else {
      r := buffer[..|s|];
    }
  }

  lemma OddBuffer(buffer: seq<char>, before: seq<char>, s: string)
    requires |s| < |before| && |WireHex(s)| <= |s|
    requires buffer == Splice(Splice(before, 0, WireHex(s)), |s|, [0 as char])
    ensures |buffer| == |before| && |WireHex(s)| == |s| - |s| % 2 && buffer[..|s| - |s| % 2] == WireHex(s)
  {
    hide SwapPairs;
  }

  method DumpUint32(v: nat) returns (r: string)
    ensures r == DumpHex(v, 4)
  {
    var buffer := new char[16](_ => 0 as char);
    ghost var before := buffer[..];
    StratumDumpHex(v, 4, buffer);
    CString(buffer[..], before, DumpHex(v, 4));
    r := buffer[..8];
  }

  /** GetHex on a nonce. */
  method NonceHex(nonce: seq<byte>) returns (text: string)
    ensures text == NonceText(nonce)
  {
    hide BytePair;
    text := "";
    assert nonce[..|nonce|] == nonce;
    for i := |nonce| downto 0
      invariant text + NonceText(nonce[..i]) == NonceText(nonce)
    {
      assert nonce[..i + 1][..i] == nonce[..i];
      text := text + BytePair(nonce[i]);
    }
    assert text + NonceText(nonce[..0]) == text;
  }

  method EquiHashShareCheck(env: Env, h: BlockHeader, proof: seq<byte>) returns (valid: bool)
    requires env.Valid()
    ensures valid <==> ProofValid(env, h, proof)
  {
    hide IsSolution, Params.Admissible, Params.SolutionWidth, Generates;
    valid := IsValidSolution(env.params, env.blake(h.Data() + h.nonce), proof);
  }

  lemma ShareStep(env: Env, s: PoolState, share: Option<ZmqShare>, up: bool)
    requires env.Valid()
    ensures var v, e := ZmqCheck(env, s, share), ShareReceived(share, up);
      && Next(env, s, e) == (if v.Accepted? then Taken(s, v.share, up) else s)
      && ReplyTo(env, s, e) == Some(ReplyToVerdict(v, up))
      && (v.Refused? || !v.share.isBlock ==> RequestTo(env, s, e) == None)
      && (v.Accepted? && v.share.isBlock ==>
            share.Some? && share.value.bigNonce.Some?
            && RequestTo(env, s, e) == Some(ProofOfWork(s.height, share.value.time, share.value.bigNonce.value,
                                                        v.share.extraNonce, v.share.proof)))
  {
    hide Taken, ReplyToVerdict, Env.Valid, ZmqHeader, Hashed, ProofValid;
  }

  lemma SubmitStep(env: Env, s: PoolState, m: Submit, up: bool)
    requires env.Valid() && |m.nonce| == 32
    ensures var v, e := StratumCheck(env, s, m), SubmitReceived(m, up);
      && Next(env, s, e) == (if v.Accepted? then Taken(s, v.share, up) else Looked(s, m))
      && ReplyTo(env, s, e) == Some(ReplyToVerdict(v, up))
      && (v.Refused? || !v.share.isBlock ==> RequestTo(env, s, e) == None)
      && (v.Accepted? && v.share.isBlock ==>
            RequestTo(env, s, e) == Some(ProofOfWork(s.height, m.time, NonceText(v.share.header.nonce),
                                                     v.share.extraNonce, v.share.proof)))
  {
    hide StratumCheck, NonceText, Taken, ReplyToVerdict, Looked, Env.Valid;
  }

  /** The strings of a job fit the buffers of 128 characters they are formatted in. */
  predicate FitsBuffers(s: PoolState, job: Option<Template>) {
    SendsJob(s, job) ==> |s.hash| < 128 && |job.value.merkle| < 128 && |job.value.hashReserved| < 128
  }

  /** The message of a job: its fields with the strings as they are printed. For
      strings of an even number of characters this is NotifyFor. */
  predicate IsNotifyFor(message: Notify, s: PoolState, t: Template, now: nat) {
    && Printed(message.prevHash, s.hash) && Printed(message.merkle, t.merkle)
    && Printed(message.reserved, t.hashReserved)
    && NotifyFor(s, t, now)
       == message.(prevHash := WireHex(s.hash), merkle := WireHex(t.merkle), reserved := WireHex(t.hashReserved))
  }

  lemma PrintedExactly(message: Notify, s: PoolState, t: Template, now: nat)
    requires IsNotifyFor(message, s, t, now)
    requires |s.hash| % 2 == 0 && |t.merkle| % 2 == 0 && |t.hashReserved| % 2 == 0
    ensures message == NotifyFor(s, t, now)
  {}

  lemma QuotientFits(a: nat, b: nat)
    requires b > 0
    ensures 0 <= a - a / b * b < b
  {}

  class Context {
    const env: Env
    var height: uint32
    var hash: string
    var extraNonceMap: map<string, nat>
    var stratumTaskMap: map<int, Task>
    var uniqueShares: set<nat>
    var blockTarget: nat

    // what the handlers have done to the outside
    var epoch: nat
    var waiting: seq<Found>
    var credits: seq<Credit>

    function State(): PoolState
      reads this
    {
      PoolState(height, hash, extraNonceMap, stratumTaskMap, uniqueShares, blockTarget, epoch, waiting, credits)
    }

    constructor (env: Env)
      ensures State() == INITIAL_STATE && this.env == env
    {
      this.env := env;
      height, hash := 0, "";
      extraNonceMap, stratumTaskMap, uniqueShares := map[], map[], {};
      blockTarget, epoch, waiting, credits := 0, 0, [], [];
    }

    /** The block signal, and timerProc when the wallet is connected again. Without a
        result the division by the target has ended the process. */
    method NewBlockArrived(block: Block) returns (sharesPerBlock: Option<nat>)
      requires env.Valid()
      modifies this
      ensures State() == AfterBlock(old(State()), block)
      ensures sharesPerBlock.Some? <==> Survives(block)
      ensures sharesPerBlock.Some? ==>
        && State() == Next(env, old(State()), NewBlock(block))
        && 0 <= env.shareTarget - sharesPerBlock.value * TargetOf(block.bits) < TargetOf(block.bits)
    {
      hide TargetOf, ZmqCheck, StratumCheck, Env.Valid;
      extraNonceMap := map[];
      height := block.height;
      hash := block.hash;
      uniqueShares := {};
      stratumTaskMap := map[];
      blockTarget := BlockTargetFromBits(block.bits);
      epoch := epoch + 1;
      if blockTarget == 0 {
        return None;
      }
      sharesPerBlock := Some(env.shareTarget / blockTarget);
      QuotientFits(env.shareTarget, blockTarget);
    }

    /** timerProc when the connection is lost. */
    method Disconnected()
      requires env.Valid()
      modifies this
      ensures State() == Next(env, old(State()), Disconnect)
    {
      height := 0;
    }

    /** onGetWork, from the answer of the wallet on. */
    method OnGetWork(block: Option<Template>, now: nat) returns (work: Option<Work>, needDisconnect: bool)
      requires env.Valid()
      modifies this
      ensures State() == Next(env, old(State()), WorkFetched(block)) && needDisconnect == block.None?
      ensures work == if block.None? then None else Some(WorkFor(State(), block.value, now))
    {
      needDisconnect := false;
      if block.None? {
        needDisconnect := true;
        return None, needDisconnect;
      }
      var t := block.value;
      extraNonceMap := extraNonceMap[t.merkle := t.extraNonce % UINT_RANGE];
      var time := if now < t.time then t.time else now;
      work := Some(Work(height, t.merkle, time % UINT_RANGE, t.bits % UINT_RANGE, t.hashReserved, t.n, t.k));
    }

    /** stratumSendNewWork, from the answer of the wallet on. */
    method StratumSendNewWork(block: Option<Template>, now: nat) returns (message: Option<Notify>)
      requires env.Valid() && FitsBuffers(State(), block)
      modifies this
      ensures State() == Next(env, old(State()), JobFetched(block, now))
      ensures message.Some? <==> SendsJob(old(State()), block)
      ensures message.Some? ==> IsNotifyFor(message.value, old(State()), block.value, now)
    {
      hide WireHex, DumpHex;
      if block.None? || hash == "" || block.value.merkle == "" {
        return None;
      }
      var t := block.value;
      var prevHash := LittleEndianHex(hash);
      var merkleroot := LittleEndianHex(t.merkle);
      var reserved := LittleEndianHex(t.hashReserved);
      var time := if now < t.time then t.time else now;
      var timeInHex := DumpUint32(time % UINT_RANGE);
      var bitsInHex := DumpUint32(t.bits % UINT_RANGE);
      message := Some(Notify((height + 1) % UINT_RANGE, t.extraNonce, "04000000",
                             prevHash, merkleroot, reserved, timeInHex, bitsInHex));
      stratumTaskMap := stratumTaskMap[t.extraNonce := Task(t.bits % UINT_RANGE, t.hashReserved, t.merkle)];
    }

    /** CreateShare and sendMessage. */
    method SendShare(f: Found, isBlock: bool, coins: int, up: bool) returns (sent: bool)
      modifies this
      ensures State() == Sent(old(State()), f, isBlock, coins, up) && sent == up
    {
      if up {
        credits := credits + [Credit(f, (height + 1) % UINT_RANGE, isBlock, coins)];
      }
      sent := up;
    }

    /** onShare up to the yield of a block share, or to its end. The failed Equihash
        check sets the error and goes on. */
    method OnShare(request: Option<ZmqShare>, up: bool) returns (reply: Reply, proofOfWork: Option<ProofOfWork>)
      requires env.Valid() && env.Parses()
      modifies this
      ensures State() == Next(env, old(State()), ShareReceived(request, up))
      ensures Some(reply) == ReplyTo(env, old(State()), ShareReceived(request, up))
      ensures proofOfWork == RequestTo(env, old(State()), ShareReceived(request, up))
    {
      hide ProofValid, ParseHash, Hashed, Image, Env.Valid, Next, ReplyTo, RequestTo, TargetOf;
      proofOfWork := None;
      ShareStep(env, State(), request, up);
      if request.None? || request.value.bigNonce.None? || request.value.proofOfWork.None? {
        return Reply(Invalid, false), None;
      }
      var share := request.value;
      if share.height != height {
        return Reply(Stale, false), None;
      }
      if share.merkle !in extraNonceMap {
        return Reply(Stale, true), None;
      }
      var prev := SetHash(hash);
      var merkle := SetHash(share.merkle);
      var nonce := SetHash(share.bigNonce.value);
      var proof := share.proofOfWork.value;
      var header := BlockHeader(prev, merkle, 0, share.time, share.bits, Image(nonce, 32));
      var shareHeaderHash := env.sha(Hashed(header, proof));
      var receivedHash := SetHash(share.hash);
      if receivedHash != shareHeaderHash {
        return Reply(Invalid, false), None;
      }
      var error := NoError;
      if env.equihashShareCheck {
        var valid := EquiHashShareCheck(env, header, proof);
        if !valid {
          error := Invalid;
        }
      }
      if shareHeaderHash > env.shareTarget {
        return Reply(Invalid, false), None;
      }
      if shareHeaderHash in uniqueShares {
        return Reply(Duplicate, false), None;
      }
      uniqueShares := uniqueShares + {shareHeaderHash};
      var f := Found(Zmq, header, proof, shareHeaderHash, epoch, extraNonceMap[share.merkle], share.isBlock,
                     error == Invalid);
      if share.isBlock {
        waiting := waiting + [f];
        return Suspended(f),
               Some(ProofOfWork(height, share.time, share.bigNonce.value, extraNonceMap[share.merkle], proof));
      }
      var sent := SendShare(f, false, 0, up);
      reply := Reply(if sent then error else Stale, false);
    }

    /** onStratumSubmit up to the yield of a block share, or to its end. */
    method OnStratumSubmit(m: Submit, up: bool) returns (reply: Reply, proofOfWork: Option<ProofOfWork>)
      requires env.Valid() && env.Parses() && |m.nonce| == 32
      modifies this
      ensures State() == Next(env, old(State()), SubmitReceived(m, up))
      ensures Some(reply) == ReplyTo(env, old(State()), SubmitReceived(m, up))
      ensures proofOfWork == RequestTo(env, old(State()), SubmitReceived(m, up))
    {
      hide ProofValid, ParseHash, Hashed, Image, Env.Valid, Next, ReplyTo, RequestTo, TargetOf, NonceText;
      proofOfWork := None;
      SubmitStep(env, State(), m, up);
      if m.extraNonce.None? {
        return Reply(InvalidJobName, false), None;
      }
      var extraNonce := m.extraNonce.value;
      if extraNonce !in stratumTaskMap {
        stratumTaskMap := stratumTaskMap[extraNonce := EMPTY_TASK];
      }
      var task := stratumTaskMap[extraNonce];
      if task.merkle == "" {
        return Reply(UnknownWork, false), None;
      }
      if |m.solution| < 4 {
        return Reply(TooShort, false), None;
      }
      var prev := SetHash(hash);
      var merkle := SetHash(task.merkle);
      var reserved := SetHash(task.hashReserved);
      var header := BlockHeader(prev, merkle, reserved, m.time, task.bits, [0, 0, 0, 0] + m.nonce[..28]);
      var proof := m.solution[3..];
      var shareHeaderHash := env.sha(Hashed(header, proof));
      if env.equihashShareCheck {
        var valid := EquiHashShareCheck(env, header, proof);
        if !valid {
          return Reply(InvalidProof, false), None;
        }
      }
      if shareHeaderHash > env.shareTarget {
        return Reply(TooSmall, false), None;
      }
      if shareHeaderHash in uniqueShares {
        return Reply(Duplicate, false), None;
      }
      uniqueShares := uniqueShares + {shareHeaderHash};
      var f := Found(Stratum, header, proof, shareHeaderHash, epoch, extraNonce,
              shareHeaderHash <= blockTarget, false);
      if shareHeaderHash <= blockTarget {
        waiting := waiting + [f];
        var nonceText := NonceHex(header.nonce);
        return Suspended(f), Some(ProofOfWork(height, m.time, nonceText, extraNonce, proof));
      }
      var sent := SendShare(f, false, 0, up);
      reply := Reply(if sent then NoError else Stale, false);
    }

    /** Either handler from the answer to its ioSendProofOfWork on. */
    method ProofOfWorkAnswered(i: nat, answer: Answer, up: bool) returns (reply: Reply)
      requires env.Valid() && i < |waiting|
      modifies this
      ensures State() == Next(env, old(State()), ProofAnswered(i, answer, up))
      ensures Some(reply) == ReplyTo(env, old(State()), ProofAnswered(i, answer, up))
    {
      var f := waiting[i];
      waiting := waiting[..i] + waiting[i + 1..];
      if answer.NoAnswer? || !answer.accepted {
        return Reply(if f.path.Zmq? then Invalid else CheckFailed, false);
      }
      var isBlock := f.path.Zmq? || answer.generatedCoins > 0;
      var sent := SendShare(f, isBlock, answer.generatedCoins, up);
      reply := Reply(if !sent then Stale else if f.refused then Invalid else NoError, false);
    }
  }
}
