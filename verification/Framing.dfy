/** The receive loop of a Stratum session: lines cut out of the bytes that arrive
    (stratumProc, src/main.cpp:208-266). */
module Framing {
  import opened Digits

  const NEWLINE: byte := 10
  const NUL: byte := 0
  const BUFFER_SIZE := 40960

  /** Says of which lines decodeStratumMessage reports a JSON error. */
  type Decoder = seq<byte> -> bool

  // ---- lines ----

  predicate Lacks(s: seq<byte>, c: byte) {
    forall k :: 0 <= k < |s| ==> s[k] != c
  }

  /** The first position of c in s, |s| if there is none. */
  function Find(s: seq<byte>, c: byte): (i: nat)
    ensures i <= |s| && (forall k :: 0 <= k < i ==> s[k] != c) && (i < |s| ==> s[i] == c)
  {
    if s == [] || s[0] == c then 0 else Find(s[1..], c) + 1
  }

  /** The lines of s that are complete, without their newlines. */
  function Lines(s: seq<byte>): seq<seq<byte>> {
    var i := Find(s, NEWLINE);
    if i == |s| then [] else [s[..i]] + Lines(s[i + 1..])
  }

  /** The lines, each followed by a newline. */
  function Joined(lines: seq<seq<byte>>): seq<byte> {
    if lines == [] then [] else lines[0] + [NEWLINE] + Joined(lines[1..])
  }

  lemma {:induction false} JoinedSnoc(lines: seq<seq<byte>>, line: seq<byte>)
    ensures Joined(lines + [line]) == Joined(lines) + line + [NEWLINE]
  {
    if lines == [] {
      assert Joined([line]) == line + [NEWLINE] + Joined([]);
    } else {
      JoinedSnoc(lines[1..], line);
      assert (lines + [line])[1..] == lines[1..] + [line];
    }
  }

  lemma FindAt(s: seq<byte>, c: byte, i: nat)
    requires i < |s| && s[i] == c && Lacks(s[..i], c)
    ensures Find(s, c) == i
  {
    assert forall k :: 0 <= k < i ==> s[k] == s[..i][k];
  }

  /** Joining and cutting are inverse, whatever follows. */
  lemma {:induction false} LinesOfJoined(lines: seq<seq<byte>>, rest: seq<byte>)
    requires forall k :: 0 <= k < |lines| ==> Lacks(lines[k], NEWLINE)
    ensures Lines(Joined(lines) + rest) == lines + Lines(rest)
  {
    hide Find, Lines, Lacks;
    if lines == [] {
      assert Joined(lines) + rest == rest;
    } else {
      var others := Joined(lines[1..]) + rest;
      assert Joined(lines) + rest == lines[0] + [NEWLINE] + others;
      FirstLine(lines[0], others);
      LinesOfJoined(lines[1..], rest);
    }
  }

  lemma FirstLine(line: seq<byte>, rest: seq<byte>)
    requires Lacks(line, NEWLINE)
    ensures Lines(line + [NEWLINE] + rest) == [line] + Lines(rest)
  {
    hide Find, Lacks;
    var s := line + [NEWLINE] + rest;
    assert s[..|line|] == line && s[|line| + 1..] == rest;
    FindAt(s, NEWLINE, |line|);
  }

  // ---- one turn of the loop, on values ----

  /** What has been handled, what lies in the buffer, and sessionActive. */
  datatype Session = Session(handled: seq<seq<byte>>, pending: seq<byte>, active: bool)

  const FRESH := Session([], [], true)

  /** A read of at least one byte fits behind what is pending, with room for a NUL. */
  predicate CanRead(s: Session, chunk: seq<byte>) {
    s.active && chunk != [] && |s.pending| + |chunk| <= BUFFER_SIZE - 1
  }

  /** Where strchr finds a newline: in front of the first NUL. */
  function LineEnd(all: seq<byte>): (i: nat)
    ensures i <= |all|
  {
    var i := Find(all, NEWLINE);
    if Lacks(all[..i], NUL) then i else |all|
  }

  function Turn(s: Session, chunk: seq<byte>, jsonError: Decoder): Session {
    var all := s.pending + chunk;
    var i := LineEnd(all);
    if i == |all| then s.(pending := all)
    else Session(s.handled + [all[..i]], all[i + 1..], s.active && !jsonError(all[..i]))
  }

  lemma TurnTakes(s: Session, chunk: seq<byte>, jsonError: Decoder)
    ensures var all := s.pending + chunk; var i := LineEnd(all);
      && (i == |all| ==> Turn(s, chunk, jsonError) == Session(s.handled, all, s.active))
      && (i < |all| ==>
            Turn(s, chunk, jsonError)
            == Session(s.handled + [all[..i]], all[i + 1..], s.active && !jsonError(all[..i])))
  {}

  // ---- the loop over its buffer ----

  class StratumReader {
    const buffer: array<byte>
    var offset: nat
    var sessionActive: bool
    ghost var handled: seq<seq<byte>>

    ghost predicate Valid()
      reads this
    {
      buffer.Length == BUFFER_SIZE && offset < BUFFER_SIZE
    }

    ghost function State(): Session
      reads this, buffer
      requires Valid()
    {
      Session(handled, buffer[..offset], sessionActive)
    }

    constructor ()
      ensures Valid() && State() == FRESH && fresh(buffer)
    {
      buffer := new byte[BUFFER_SIZE];
      offset := 0;
      sessionActive := true;
      handled := [];
    }

    /** ioRead: the bytes land behind the offset. */
    method Store(chunk: seq<byte>)
      requires buffer.Length == BUFFER_SIZE && offset + |chunk| <= BUFFER_SIZE
      modifies buffer
      ensures buffer[..offset + |chunk|] == old(buffer[..offset]) + chunk
    {
      for k := 0 to |chunk|
        invariant buffer[..offset + k] == old(buffer[..offset]) + chunk[..k]
      {
        buffer[offset + k] := chunk[k];
      }
    }

    /** strchr(buffer, '\n') on the bytes up to the NUL at the offset. */
    method FindLine() returns (p: nat)
      requires Valid() && buffer[offset] == NUL
      ensures p == LineEnd(buffer[..offset])
    {
      ghost var all := buffer[..offset];
      p := 0;
      while buffer[p] != NUL && buffer[p] != NEWLINE
        invariant p <= offset && Lacks(buffer[..p], NUL) && Lacks(buffer[..p], NEWLINE)
        decreases offset - p
      {
        p := p + 1;
      }
      assert all[..p] == buffer[..p];
      if buffer[p] == NUL {
        StopsAtNul(all, p);
        p := offset;
      } else {
        FindAt(all, NEWLINE, p);
      }
    }

    /** memcpy of what is behind the line to the front, byte by byte. */
    method MoveDown(next: nat)
      requires buffer.Length == BUFFER_SIZE && next <= offset < BUFFER_SIZE
      modifies buffer
      ensures buffer[..offset - next] == old(buffer[next..offset])
    {
      for k := 0 to offset - next
        invariant buffer[..k] == old(buffer[next..next + k])
        invariant buffer[next + k..offset] == old(buffer[next + k..offset])
      {
        assert buffer[next + k] == buffer[next + k..offset][0] == old(buffer[next + k]);
        buffer[k] := buffer[next + k];
      }
    }

    /** One turn of the loop. */
    method Read(chunk: seq<byte>, jsonError: Decoder)
      requires Valid() && CanRead(State(), chunk)
      modifies this, buffer
      ensures Valid() && State() == Turn(old(State()), chunk, jsonError)
    {
      hide LineEnd, Find, Lacks, Turn;
      ghost var before, all := State(), buffer[..offset] + chunk;
      TurnTakes(before, chunk, jsonError);
      Store(chunk);
      offset := offset + |chunk|;
      buffer[offset] := NUL;
      assert buffer[..offset] == all;
      var p := FindLine();
      if p == offset {
        return;
      }
      assert buffer[..p] == all[..p] && buffer[p + 1..offset] == all[p + 1..];
      TakeLine(p, jsonError);
    }

    /** The line up to p is handled, what follows moves to the front. */
    method TakeLine(p: nat, jsonError: Decoder)
      requires Valid() && p < offset
      modifies this, buffer
      ensures Valid()
      ensures State() == Session(old(handled) + [old(buffer[..p])], old(buffer[p + 1..offset]),
                                 old(sessionActive) && !jsonError(old(buffer[..p])))
    {
      ghost var line, rest := buffer[..p], buffer[p + 1..offset];
      buffer[p] := NUL;
      assert buffer[..p] == line && buffer[p + 1..offset] == rest;
      if jsonError(buffer[..p]) {
        sessionActive := false;
      }
      handled := handled + [line];
      var nextMsgOffset := p + 1;
      if nextMsgOffset < offset {
        MoveDown(nextMsgOffset);
        offset := offset - nextMsgOffset;
      } else {
        offset := 0;
      }
    }
  }

  lemma StopsAtNul(all: seq<byte>, p: nat)
    requires p <= |all| && Lacks(all[..p], NEWLINE) && (p < |all| ==> all[p] == NUL)
    ensures LineEnd(all) == |all|
  {
    var i := Find(all, NEWLINE);
    assert forall k :: 0 <= k < p ==> all[k] == all[..p][k];
    assert p < i ==> all[..i][p] == all[p];
  }

  // ---- whole runs ----

  function Received(chunks: seq<seq<byte>>): seq<byte> {
    if chunks == [] then [] else Received(chunks[..|chunks| - 1]) + chunks[|chunks| - 1]
  }

  /** The session after the reads. */
  function After(chunks: seq<seq<byte>>, jsonError: Decoder): Session {
    if chunks == [] then FRESH
    else Turn(After(chunks[..|chunks| - 1], jsonError), chunks[|chunks| - 1], jsonError)
  }

  /** Each read came in a turn of the loop. */
  predicate IsRun(chunks: seq<seq<byte>>, jsonError: Decoder) {
    chunks == [] ||
    (var before := chunks[..|chunks| - 1];
     IsRun(before, jsonError) && CanRead(After(before, jsonError), chunks[|chunks| - 1]))
  }

  /** What one turn adds to the handled lines and leaves in the buffer. */
  lemma TurnKeeps(s: Session, chunk: seq<byte>, jsonError: Decoder)
    ensures var t := Turn(s, chunk, jsonError);
            && Joined(t.handled) + t.pending == Joined(s.handled) + (s.pending + chunk)
            && |t.pending| <= |s.pending| + |chunk|
            && (t.handled == s.handled
                || (t.handled == s.handled + [t.handled[|s.handled|]]
                    && Lacks(t.handled[|s.handled|], NEWLINE) && Lacks(t.handled[|s.handled|], NUL)))
  {
    hide *;
    var all := s.pending + chunk;
    var i := LineEnd(all);
    TurnTakes(s, chunk, jsonError);
    EndOfLine(all);
    if i < |all| {
      JoinedSnoc(s.handled, all[..i]);
      assert all == all[..i] + [NEWLINE] + all[i + 1..];
    }
  }

  lemma EndOfLine(all: seq<byte>)
    ensures var i := LineEnd(all);
            i < |all| ==> all[i] == NEWLINE && Lacks(all[..i], NEWLINE) && Lacks(all[..i], NUL)
  {
    var i := Find(all, NEWLINE);
    assert forall k :: 0 <= k < i ==> all[..i][k] == all[k];
  }

  lemma RoomLeft(s: Session, chunk: seq<byte>)
    requires CanRead(s, chunk)
    ensures |s.pending| + |chunk| < 40960
  {}

  /** Nothing is lost, reordered or made up: the handled lines, each with its newline,
      and the buffer are what was received. Every handled line is a C string. */
  lemma {:induction false} NothingLost(chunks: seq<seq<byte>>, jsonError: Decoder)
    requires IsRun(chunks, jsonError)
    ensures var s := After(chunks, jsonError);
            && Joined(s.handled) + s.pending == Received(chunks)
            && |s.pending| < 40960
            && forall k :: 0 <= k < |s.handled| ==> Lacks(s.handled[k], NEWLINE) && Lacks(s.handled[k], NUL)
  {
    hide *;
    if chunks == [] {
      NoReads(jsonError);
    } else {
      var before, chunk := chunks[..|chunks| - 1], chunks[|chunks| - 1];
      LastRead(chunks, jsonError);
      NothingLost(before, jsonError);
      TurnKeeps(After(before, jsonError), chunk, jsonError);
      RoomLeft(After(before, jsonError), chunk);
    }
  }

  lemma NoReads(jsonError: Decoder)
    ensures Received([]) == [] && After([], jsonError) == Session([], [], true) && Joined([]) + [] == []
    ensures Arrived([], 0) == 0 < BUFFER_SIZE
  {}

  /** The lines are handled in the order of the stream. */
  lemma HandledAreFirstLines(chunks: seq<seq<byte>>, jsonError: Decoder)
    requires IsRun(chunks, jsonError)
    ensures var s := After(chunks, jsonError);
            Lines(Received(chunks)) == s.handled + Lines(s.pending)
  {
    NothingLost(chunks, jsonError);
    var s := After(chunks, jsonError);
    LinesOfJoined(s.handled, s.pending);
  }

  /** Exactly the lines of up to 40958 bytes without a newline (10) or a NUL can ever be
      handled: with the newline they fill the room of one read. */
  lemma HandledLinesExactly(line: seq<byte>, jsonError: Decoder)
    ensures (exists chunks :: IsRun(chunks, jsonError) && line in After(chunks, jsonError).handled)
       <==> |line| <= 40958 && 10 !in line && 0 !in line
  {
    hide After, IsRun;
    if |line| <= 40958 && 10 !in line && 0 !in line {
      OneRead(line, jsonError);
      assert line in After([line + [10]], jsonError).handled;
    }
    if chunks :| IsRun(chunks, jsonError) && line in After(chunks, jsonError).handled {
      LinesFit(chunks, jsonError);
    }
  }

  lemma OneRead(line: seq<byte>, jsonError: Decoder)
    requires |line| <= 40958 && 10 !in line && 0 !in line
    ensures IsRun([line + [10]], jsonError)
    ensures After([line + [10]], jsonError) == Session([line], [], !jsonError(line))
  {
    hide Find;
    var chunk := line + [10];
    var chunks := [chunk];
    assert chunks[..0] == [] && FRESH.pending + chunk == chunk;
    assert After(chunks[..0], jsonError) == FRESH;
    FindAt(chunk, NEWLINE, |line|);
    assert chunk[..|line|] == line && chunk[|line| + 1..] == [];
  }

  lemma {:induction false} LinesFit(chunks: seq<seq<byte>>, jsonError: Decoder)
    requires IsRun(chunks, jsonError)
    ensures forall line :: line in After(chunks, jsonError).handled ==>
      |line| <= 40958 && 10 !in line && 0 !in line
  {
    hide Turn, Arrived, Received;
    if chunks != [] {
      var before, chunk := chunks[..|chunks| - 1], chunks[|chunks| - 1];
      LastRead(chunks, jsonError);
      LinesFit(before, jsonError);
      TurnTakes(After(before, jsonError), chunk, jsonError);
      EndOfLine(After(before, jsonError).pending + chunk);
    }
  }

  /** The session ends exactly with the first line that is no JSON: none before it was
      one, and no bytes are read after it. */
  lemma {:induction false} ErrorEndsSession(chunks: seq<seq<byte>>, jsonError: Decoder)
    requires IsRun(chunks, jsonError)
    ensures var s := After(chunks, jsonError);
      && (s.active <==> forall k :: 0 <= k < |s.handled| ==> !jsonError(s.handled[k]))
      && (forall k :: 0 <= k < |s.handled| - 1 ==> !jsonError(s.handled[k]))
      && (!s.active ==> forall more :: more != [] ==> !IsRun(chunks + more, jsonError))
  {
    hide Turn, Arrived, Received, LineEnd;
    if chunks != [] {
      var before, chunk := chunks[..|chunks| - 1], chunks[|chunks| - 1];
      LastRead(chunks, jsonError);
      ErrorEndsSession(before, jsonError);
      var s, t := After(before, jsonError), After(chunks, jsonError);
      TurnTakes(s, chunk, jsonError);
      assert s.active;
      assert |t.handled| > |s.handled| ==>
        t.handled == s.handled + [t.handled[|s.handled|]] && t.active == !jsonError(t.handled[|s.handled|]);
    }
    if !After(chunks, jsonError).active {
      forall more | more != []
        ensures !IsRun(chunks + more, jsonError)
      {
        NoReadBehind(chunks, more, jsonError);
      }
    }
  }

  lemma {:induction false} NoReadBehind(chunks: seq<seq<byte>>, more: seq<seq<byte>>, jsonError: Decoder)
    requires !After(chunks, jsonError).active && more != []
    ensures !IsRun(chunks + more, jsonError)
  {
    hide Turn;
    var all, less := chunks + more, more[..|more| - 1];
    assert all[..|all| - 1] == chunks + less;
    if less == [] {
      assert chunks + less == chunks;
    } else {
      NoReadBehind(chunks, less, jsonError);
    }
  }

  /** The number of lines in front of the first one that holds a NUL. */
  function Clean(lines: seq<seq<byte>>): (n: nat)
    ensures n <= |lines|
  {
    if lines == [] || !Lacks(lines[0], NUL) then 0 else 1 + Clean(lines[1..])
  }

  lemma {:induction false} CleanBehind(lines: seq<seq<byte>>, rest: seq<seq<byte>>)
    requires forall k :: 0 <= k < |lines| ==> Lacks(lines[k], NUL)
    ensures Clean(lines + rest) == |lines| + Clean(rest)
  {
    hide Lacks;
    if lines == [] {
      assert lines + rest == rest;
    } else {
      assert (lines + rest)[1..] == lines[1..] + rest;
      CleanBehind(lines[1..], rest);
    }
  }

  /** Of the lines complete after m reads, the ones no NUL stands in the way of. */
  function Arrived(chunks: seq<seq<byte>>, m: nat): nat
    requires m <= |chunks|
  {
    Clean(Lines(Received(chunks[..m])))
  }

  /** Each read handles one more of the lines no NUL stands in the way of, if there is
      one. It keeps up with the lines that are complete exactly when there is none to
      handle or the next one holds no NUL. */
  lemma OneLinePerRead(chunks: seq<seq<byte>>, jsonError: Decoder)
    requires IsRun(chunks, jsonError) && chunks != []
    ensures var before := |After(chunks[..|chunks| - 1], jsonError).handled|;
            var now, lines := |After(chunks, jsonError).handled|, Lines(Received(chunks));
      && before <= |lines|
      && now == AtMost(before + 1, Arrived(chunks, |chunks|))
      && (now == AtMost(before + 1, |lines|) <==> before == |lines| || Lacks(lines[before], NUL))
  {
    hide *;
    var before, chunk := chunks[..|chunks| - 1], chunks[|chunks| - 1];
    var s := After(before, jsonError);
    LastRead(chunks, jsonError);
    NothingLost(before, jsonError);
    var front, all := Joined(s.handled), s.pending + chunk;
    assert Received(chunks) == front + all;
    LinesOfJoined(s.handled, all);
    CleanBehind(s.handled, Lines(all));
    OneTurn(s, chunk, jsonError);
    CleanStart(Lines(all));
    AtMostIs(|s.handled| + 1, Arrived(chunks, |chunks|));
    AtMostIs(|s.handled| + 1, |Lines(Received(chunks))|);
  }

  function AtMost(n: nat, bound: nat): nat { if n <= bound then n else bound }

  lemma AtMostIs(n: nat, bound: nat) ensures AtMost(n, bound) == if n <= bound then n else bound {}

  lemma CleanStart(lines: seq<seq<byte>>)
    ensures Clean(lines) > 0 <==> lines != [] && Lacks(lines[0], NUL)
  {}

  lemma LastRead(chunks: seq<seq<byte>>, jsonError: Decoder)
    requires IsRun(chunks, jsonError) && chunks != []
    ensures var before, chunk := chunks[..|chunks| - 1], chunks[|chunks| - 1];
      && IsRun(before, jsonError) && CanRead(After(before, jsonError), chunk)
      && After(chunks, jsonError) == Turn(After(before, jsonError), chunk, jsonError)
      && Received(chunks) == Received(before) + chunk
      && Arrived(chunks, |chunks|) == Clean(Lines(Received(chunks)))
  {
    hide Turn, CanRead, Lines, Clean;
    assert chunks[..|chunks|] == chunks;
  }

  lemma OneTurn(s: Session, chunk: seq<byte>, jsonError: Decoder)
    ensures |Turn(s, chunk, jsonError).handled|
         == |s.handled| + if Clean(Lines(s.pending + chunk)) == 0 then 0 else 1
  {}

  /** The number handled in closed form: the least, over all m, of what no NUL stood in
      the way of after m reads and one more for each read since. */
  lemma {:induction false} HandledInClosedForm(chunks: seq<seq<byte>>, jsonError: Decoder)
    returns (m: nat)
    requires IsRun(chunks, jsonError)
    ensures m <= |chunks|
    ensures |After(chunks, jsonError).handled| == Arrived(chunks, m) + (|chunks| - m)
    ensures forall k :: 0 <= k <= |chunks| ==>
      |After(chunks, jsonError).handled| <= Arrived(chunks, k) + (|chunks| - k)
  {
    hide *;
    var n := |chunks|;
    if n == 0 {
      m := 0;
      NoReads(jsonError);
    } else {
      var before := chunks[..n - 1];
      LastRead(chunks, jsonError);
      m := HandledInClosedForm(before, jsonError);
      OneLinePerRead(chunks, jsonError);
      AtMostIs(|After(before, jsonError).handled| + 1, Arrived(chunks, n));
      forall k | 0 <= k < n
        ensures Arrived(chunks, k) == Arrived(before, k)
      {
        ArrivedBefore(chunks, k);
      }
      if |After(chunks, jsonError).handled| == Arrived(chunks, n) {
        m := n;
      }
    }
  }

  lemma ArrivedBefore(chunks: seq<seq<byte>>, k: nat)
    requires k < |chunks|
    ensures Arrived(chunks, k) == Arrived(chunks[..|chunks| - 1], k)
  {
    assert chunks[..k] == chunks[..|chunks| - 1][..k];
  }

  /** A NUL in front of the next newline stops the session: no later read handles a
      line, until the buffer is full and there is nothing more to read into. */
  lemma {:induction false} NulStops(chunks: seq<seq<byte>>, more: seq<seq<byte>>, jsonError: Decoder)
    requires IsRun(chunks + more, jsonError)
    requires var s := After(chunks, jsonError).pending; !Lacks(s[..Find(s, NEWLINE)], NUL)
    ensures After(chunks + more, jsonError).handled == After(chunks, jsonError).handled
    ensures After(chunks, jsonError).pending <= After(chunks + more, jsonError).pending
  {
    if more == [] {
      assert chunks + more == chunks;
    } else {
      var all, less := chunks + more, more[..|more| - 1];
      assert all[..|all| - 1] == chunks + less && all[|all| - 1] == more[|more| - 1];
      NulStops(chunks, less, jsonError);
      NulStays(After(chunks, jsonError).pending, After(chunks + less, jsonError).pending + all[|all| - 1]);
    }
  }

  lemma NulStays(s: seq<byte>, all: seq<byte>)
    requires s <= all && !Lacks(s[..Find(s, NEWLINE)], NUL)
    ensures LineEnd(all) == |all|
  {
    var i, j := Find(s, NEWLINE), Find(all, NEWLINE);
    assert forall k :: 0 <= k < |s| ==> s[k] == all[k];
    var k :| 0 <= k < i && s[k] == NUL;
    assert all[..j][k] == NUL;
  }
}
