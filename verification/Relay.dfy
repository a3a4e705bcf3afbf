/** The relaying loop of one session (UVNCRepeater/repeaterproc.cpp): two sockets,
    two buffers of 1024 bytes.

    What the sockets deliver and accept is given round by round.  The logs are
    the bytes received from and accepted by each peer so far. */
module Relays {

  import Geometry
  import opened Frames

  const BUFFER_SIZE := 1024

  datatype Received =
    | NotReady
    | Data(bytes: Bytes)
    | Closed
    | ReadError(connectionReset: bool)

  /** A failed send takes nothing. */
  datatype Accepted = SendError | Took(count: nat)

  datatype Round = Round(
    selectFails: bool,
    fromServer: Received,
    fromViewer: Received,
    toServer: Accepted,
    toViewer: Accepted)

  /** What a socket can do while `used` bytes of the buffer are taken: a full
      buffer is not offered to it. */
  predicate CanReceive(r: Received, used: nat) {
    && (used == BUFFER_SIZE ==> r.NotReady?)
    && (r.Data? ==> 0 < |r.bytes| <= BUFFER_SIZE - used)
  }

  predicate CanAccept(a: Accepted, offered: nat) {
    a.Took? ==> a.count <= offered
  }

  function BytesOf(r: Received): Bytes {
    if r.Data? then r.bytes else []
  }

  function Size(r: Received): nat {
    |BytesOf(r)|
  }

  function TakenOf(a: Accepted): nat {
    if a.Took? then a.count else 0
  }

  /** The return value of the loop after the round, 0 to go on. */
  function ExitOf(round: Round): int {
    if round.selectFails then 1
    else if round.fromServer.Closed? then 2
    else if round.fromServer.ReadError? && !round.fromServer.connectionReset then 5
    else if round.fromViewer.Closed? then 3
    else if round.fromViewer.ReadError? then 4
    else 0
  }

  /** At most what there is room for. */
  function Limited(r: Received, used: nat): (r': Received)
    requires used <= BUFFER_SIZE
    ensures CanReceive(r', used)
  {
    if used == BUFFER_SIZE || r == Data([]) then NotReady
    else if r.Data? then Data(r.bytes[..Geometry.Min(|r.bytes|, BUFFER_SIZE - used)])
    else r
  }

  /** At most what is offered. */
  function Bounded(a: Accepted, offered: nat): (a': Accepted)
    ensures CanAccept(a', offered)
  {
    if a.Took? then Took(Geometry.Min(a.count, offered)) else a
  }

  /** What is received is a front part of what there is to read, as long as the
      buffer has room for it. */
  lemma LimitedIs(r: Received, used: nat)
    requires used <= BUFFER_SIZE
    ensures !r.Data? && used < 1024 ==> Limited(r, used) == r
    ensures used == 1024 ==> Limited(r, used) == NotReady
    ensures r.Data? ==> BytesOf(Limited(r, used)) <= r.bytes
    ensures r.Data? ==> Size(Limited(r, used)) == if |r.bytes| <= 1024 - used then |r.bytes| else 1024 - used
  {
  }

  lemma BoundedIs(a: Accepted, offered: nat)
    ensures a.SendError? ==> Bounded(a, offered) == a
    ensures a.Took? ==> Bounded(a, offered) == Took(if a.count <= offered then a.count else offered)
  {
  }

  // ---------- Flushing ----------

  /** The copy to the top of the buffer, as a move. */
  function MovedUp(buf: Bytes, len: nat, rest: nat): (r: Bytes)
    requires len + rest <= |buf|
    ensures |r| == |buf|
  {
    buf[len..len + rest] + buf[rest..]
  }

  lemma MovedUpFront(buf: Bytes, len: nat, rest: nat)
    requires len + rest <= |buf|
    ensures MovedUp(buf, len, rest)[..rest] == buf[len..len + rest]
  {
  }

  /** The bytes that wait to be sent after `len` of `n` bytes went out, if the
      buffer is moved whenever something is left. */
  function LeftForServer(buf: Bytes, n: nat, len: nat): Bytes
    requires len <= n <= |buf|
  {
    if n - len > 0 then MovedUp(buf, len, n - len)[..n - len] else []
  }

  /** The same with the guard of the other direction, which compares `len` with
      what is left after it has been subtracted. */
  function LeftForViewer(buf: Bytes, n: nat, len: nat): Bytes
    requires len <= n <= |buf|
  {
    if len < n - len then MovedUp(buf, len, n - len)[..n - len] else buf[..n - len]
  }

  /** The send leaves more bytes than it took, or none. */
  predicate IsFair(n: nat, len: nat) {
    len < n - len || len == n
  }

  lemma ServerLosesNothing(buf: Bytes, n: nat, len: nat)
    requires len <= n <= |buf|
    ensures LeftForServer(buf, n, len) == buf[len..n]
  {
    MovedUpFront(buf, len, n - len);
  }

  /** The viewer gets the right bytes next exactly after a fair send, or when the
      bytes happen to repeat. */
  lemma ViewerLosesNothingIff(buf: Bytes, n: nat, len: nat)
    requires len <= n <= |buf|
    ensures |LeftForViewer(buf, n, len)| == n - len
    ensures LeftForViewer(buf, n, len) == buf[len..n] <==> IsFair(n, len) || buf[..n - len] == buf[len..n]
  {
    MovedUpFront(buf, len, n - len);
    if len == n {
      assert buf[len..n] == [] && buf[..n - len] == [];
    }
  }

  /** Whatever the bytes are: exactly after a fair send. */
  lemma ViewerLosesNothingForAllIff(n: nat, len: nat)
    requires len <= n <= BUFFER_SIZE
    ensures (forall buf: Bytes :: |buf| == BUFFER_SIZE ==> LeftForViewer(buf, n, len) == buf[len..n]) <==>
            IsFair(n, len)
  {
    if IsFair(n, len) {
      forall buf: Bytes | |buf| == BUFFER_SIZE ensures LeftForViewer(buf, n, len) == buf[len..n] {
        ViewerLosesNothingIff(buf, n, len);
      }
    } else {
      var buf := seq(BUFFER_SIZE, i => if i < len then 0 as byte else 1 as byte);
      assert buf[..n - len][0] != buf[len..n][0];
      ViewerLosesNothingIff(buf, n, len);
    }
  }

  /** Two bytes of three go out, and the third one never does. */
  lemma LostByte(a: byte, b: byte, c: byte)
    ensures LeftForViewer([a, b, c], 3, 2) == [a]
  {
  }

  // ---------- Runs ----------

  /** How the loop stands: what it holds for either peer, and what went in and
      out.  `fair` says whether every send to the viewer was. */
  datatype Progress = Progress(
    exit: int,
    viewerHeld: Bytes,
    serverHeld: Bytes,
    fromViewer: Bytes,
    toServer: Bytes,
    fromServer: Bytes,
    toViewer: Bytes,
    fair: bool)
  {
    predicate HasRoom() {
      |viewerHeld| <= BUFFER_SIZE && |serverHeld| <= BUFFER_SIZE
    }

    /** Sent and held together are what was received, in order. */
    predicate StreamToServer() {
      fromViewer == toServer + viewerHeld
    }

    predicate StreamToViewer() {
      fromServer == toViewer + serverHeld
    }
  }

  const START := Progress(0, [], [], [], [], [], [], true)

  predicate CanTurn(p: Progress, round: Round) {
    && p.HasRoom()
    && CanReceive(round.fromServer, |p.serverHeld|) && CanReceive(round.fromViewer, |p.viewerHeld|)
    && CanAccept(round.toServer, |p.viewerHeld| + Size(round.fromViewer))
    && CanAccept(round.toViewer, |p.serverHeld| + Size(round.fromServer))
  }

  /** A round as the loop meets it. */
  function Met(p: Progress, round: Round): (r: Round)
    requires p.HasRoom()
    ensures CanTurn(p, r)
  {
    var fromServer, fromViewer := Limited(round.fromServer, |p.serverHeld|), Limited(round.fromViewer, |p.viewerHeld|);
    Round(round.selectFails, fromServer, fromViewer,
          Bounded(round.toServer, |p.viewerHeld| + Size(fromViewer)),
          Bounded(round.toViewer, |p.serverHeld| + Size(fromServer)))
  }

  function Read(p: Progress, round: Round): Progress {
    var s, v := if round.selectFails then [] else BytesOf(round.fromServer),
                if ExitOf(round) == 0 then BytesOf(round.fromViewer) else [];
    p.(exit := ExitOf(round),
       serverHeld := p.serverHeld + s, fromServer := p.fromServer + s,
       viewerHeld := p.viewerHeld + v, fromViewer := p.fromViewer + v)
  }

  function SentToServer(p: Progress, a: Accepted): Progress
    requires CanAccept(a, |p.viewerHeld|)
  {
    p.(toServer := p.toServer + p.viewerHeld[..TakenOf(a)], viewerHeld := p.viewerHeld[TakenOf(a)..])
  }

  function SentToViewer(p: Progress, a: Accepted): Progress
    requires CanAccept(a, |p.serverHeld|)
  {
    if p.serverHeld == [] || a.SendError? then p
    else
      var n := |p.serverHeld|;
      p.(toViewer := p.toViewer + p.serverHeld[..a.count],
         serverHeld := LeftForViewer(p.serverHeld, n, a.count),
         fair := p.fair && IsFair(n, a.count))
  }

  lemma SentToServerCounts(p: Progress, a: Accepted)
    requires CanAccept(a, |p.viewerHeld|)
    ensures p.StreamToServer() ==> SentToServer(p, a).StreamToServer()
    ensures |SentToServer(p, a).toServer| == |p.toServer| + TakenOf(a)
    ensures |SentToServer(p, a).viewerHeld| == |p.viewerHeld| - TakenOf(a)
    ensures var q := SentToServer(p, a); q == p.(toServer := q.toServer, viewerHeld := q.viewerHeld)
  {
    var len := TakenOf(a);
    assert p.viewerHeld == p.viewerHeld[..len] + p.viewerHeld[len..];
    assert p.toServer + p.viewerHeld == p.toServer + p.viewerHeld[..len] + p.viewerHeld[len..];
  }

  lemma SentToViewerCounts(p: Progress, a: Accepted)
    requires CanAccept(a, |p.serverHeld|)
    ensures |SentToViewer(p, a).toViewer| == |p.toViewer| + TakenOf(a)
    ensures |SentToViewer(p, a).serverHeld| == |p.serverHeld| - TakenOf(a)
    ensures var q := SentToViewer(p, a); q == p.(toViewer := q.toViewer, serverHeld := q.serverHeld, fair := q.fair)
    ensures SentToViewer(p, a).fair == (p.fair && (a.Took? && p.serverHeld != [] ==> IsFair(|p.serverHeld|, a.count)))
  {
    hide LeftForViewer, IsFair;
    if p.serverHeld != [] && a.Took? {
      ViewerLosesNothingIff(p.serverHeld, |p.serverHeld|, a.count);
    }
  }

  function Turned(p: Progress, round: Round): (next: Progress)
    requires CanTurn(p, round)
    ensures next.HasRoom() && next.exit == ExitOf(round)
  {
    var q := Read(p, round);
    if q.exit != 0 then q
    else
      SentToServerCounts(q, round.toServer);
      SentToViewerCounts(SentToServer(q, round.toServer), round.toViewer);
      SentToViewer(SentToServer(q, round.toServer), round.toViewer)
  }

  /** The loop after the rounds, or after the first one that ended it. */
  function After(rounds: seq<Round>): (p: Progress)
    ensures p.HasRoom() && 0 <= p.exit <= 5
  {
    if rounds == [] then START
    else
      var p := After(rounds[..|rounds| - 1]);
      if p.exit != 0 then p else Turned(p, Met(p, rounds[|rounds| - 1]))
  }

  /** The `i`th round as the loop meets it, if it gets there. */
  function RoundAt(rounds: seq<Round>, i: nat): Round
    requires i < |rounds|
  {
    Met(After(rounds[..i]), rounds[i])
  }

  lemma NotStarted(rounds: seq<Round>)
    ensures After(rounds[..0]) == START
  {
  }

  lemma AfterNext(rounds: seq<Round>, i: nat)
    requires i < |rounds| && After(rounds[..i]).exit == 0
    ensures After(rounds[..i + 1]) == Turned(After(rounds[..i]), RoundAt(rounds, i))
  {
    assert rounds[..i + 1][..i] == rounds[..i];
  }

  lemma PrefixOfPrefix(rounds: seq<Round>, i: nat)
    requires i < |rounds|
    ensures rounds[..|rounds| - 1][..i] == rounds[..i]
  {
  }

  lemma {:induction false} EndedStays(rounds: seq<Round>, i: nat)
    requires i <= |rounds| && After(rounds[..i]).exit != 0
    ensures After(rounds) == After(rounds[..i])
  {
    if i == |rounds| {
      assert rounds[..i] == rounds;
    } else {
      PrefixOfPrefix(rounds, i);
      EndedStays(rounds[..|rounds| - 1], i);
    }
  }

  /** The return value is the code of the first round that has one. */
  lemma {:induction false} ExitIsTheFirst(rounds: seq<Round>)
    ensures After(rounds).exit == 0 <==> forall i :: 0 <= i < |rounds| ==> ExitOf(RoundAt(rounds, i)) == 0
    ensures forall i :: 0 <= i < |rounds| && After(rounds[..i]).exit == 0 && ExitOf(RoundAt(rounds, i)) != 0 ==>
              After(rounds).exit == ExitOf(RoundAt(rounds, i))
  {
    hide Met, Turned;
    if rounds != [] {
      var n := |rounds| - 1;
      ExitIsTheFirst(rounds[..n]);
      forall i | 0 <= i < n ensures RoundAt(rounds, i) == RoundAt(rounds[..n], i) && rounds[..n][..i] == rounds[..i] {
        PrefixOfPrefix(rounds, i);
      }
      assert RoundAt(rounds, n) == Met(After(rounds[..n]), rounds[n]);
    }
  }

  /** The code names what ended the loop: a failed select, then the server's side,
      on which a reset goes on, and then the viewer's. */
  lemma ExitNames(round: Round)
    ensures ExitOf(round) == 1 <==> round.selectFails
    ensures ExitOf(round) == 2 <==> !round.selectFails && round.fromServer == Closed
    ensures ExitOf(round) == 5 <==> !round.selectFails && round.fromServer == ReadError(false)
    ensures ExitOf(round) == 3 <==>
            !round.selectFails && round.fromServer !in {Closed, ReadError(false)} && round.fromViewer == Closed
    ensures ExitOf(round) == 4 <==>
            !round.selectFails && round.fromServer !in {Closed, ReadError(false)} && round.fromViewer.ReadError?
  {
  }

  /** What the sends leave alone. */
  lemma TurnedReads(p: Progress, round: Round)
    requires CanTurn(p, round)
    ensures Turned(p, round).fromServer == p.fromServer + if round.selectFails then [] else BytesOf(round.fromServer)
  {
  }

  /** A round sends nothing to the viewer, or a fair part of what is there. */
  predicate SendsFairly(p: Progress, round: Round) {
    var n := |Read(p, round).serverHeld|;
    ExitOf(round) == 0 && round.toViewer.Took? && n > 0 ==> IsFair(n, round.toViewer.count)
  }

  lemma FairTurnIff(p: Progress, round: Round)
    requires CanTurn(p, round)
    ensures Turned(p, round).fair <==> p.fair && SendsFairly(p, round)
  {
    hide IsFair, SentToViewer;
    var q := Read(p, round);
    if q.exit == 0 {
      SentToViewerCounts(SentToServer(q, round.toServer), round.toViewer);
    }
  }

  lemma {:induction false} FairIff(rounds: seq<Round>)
    ensures After(rounds).fair <==>
            forall i :: 0 <= i < |rounds| && After(rounds[..i]).exit == 0 ==>
              SendsFairly(After(rounds[..i]), RoundAt(rounds, i))
  {
    hide Met, Turned, SendsFairly;
    if rounds != [] {
      var n := |rounds| - 1;
      FairIff(rounds[..n]);
      forall i | 0 <= i < n ensures RoundAt(rounds, i) == RoundAt(rounds[..n], i) && rounds[..n][..i] == rounds[..i] {
        PrefixOfPrefix(rounds, i);
      }
      FairTurnIff(After(rounds[..n]), RoundAt(rounds, n));
    }
  }

  /** Nothing is lost on the way to the server, and no byte is lost count of on
      the way to the viewer. */
  lemma {:induction false} ServerGetsAPrefix(rounds: seq<Round>)
    ensures After(rounds).StreamToServer()
    ensures |After(rounds).fromServer| == |After(rounds).toViewer| + |After(rounds).serverHeld|
  {
    hide Met, Turned;
    if rounds != [] {
      var p := After(rounds[..|rounds| - 1]);
      ServerGetsAPrefix(rounds[..|rounds| - 1]);
      if p.exit == 0 {
        TurnLosesNothing(p, Met(p, rounds[|rounds| - 1]));
      }
    }
  }

  lemma TurnLosesNothing(p: Progress, round: Round)
    requires CanTurn(p, round) && p.StreamToServer() && |p.fromServer| == |p.toViewer| + |p.serverHeld|
    ensures Turned(p, round).StreamToServer()
    ensures |Turned(p, round).fromServer| == |Turned(p, round).toViewer| + |Turned(p, round).serverHeld|
  {
    hide SentToServer, SentToViewer;
    var q := Read(p, round);
    assert q.StreamToServer() by {
      assert p.toServer + (p.viewerHeld + BytesOf(round.fromViewer)) ==
             p.toServer + p.viewerHeld + BytesOf(round.fromViewer);
    }
    if q.exit == 0 {
      SentToServerCounts(q, round.toServer);
      SentToViewerCounts(SentToServer(q, round.toServer), round.toViewer);
    }
  }

  // ---------- Everything that the sockets allow ----------

  /** The bytes of the rounds that the loop got to, one peer after the other. */
  function ReadFromServer(rounds: seq<Round>): Bytes {
    if rounds == [] then []
    else
      var n := |rounds| - 1;
      ReadFromServer(rounds[..n]) +
      if After(rounds[..n]).exit == 0 && !RoundAt(rounds, n).selectFails then BytesOf(RoundAt(rounds, n).fromServer)
      else []
  }

  function ReadFromViewer(rounds: seq<Round>): Bytes {
    if rounds == [] then []
    else
      var n := |rounds| - 1;
      ReadFromViewer(rounds[..n]) +
      if After(rounds[..n]).exit == 0 && ExitOf(RoundAt(rounds, n)) == 0 then BytesOf(RoundAt(rounds, n).fromViewer)
      else []
  }

  /** How many bytes the server's socket took in the rounds that ended nothing. */
  function TakenByServer(rounds: seq<Round>): nat {
    if rounds == [] then 0
    else
      var n := |rounds| - 1;
      TakenByServer(rounds[..n]) +
      if After(rounds[..n]).exit == 0 &&
        ExitOf(RoundAt(rounds, n)) == 0 then TakenOf(RoundAt(rounds, n).toServer) else 0
  }

  function TakenByViewer(rounds: seq<Round>): nat {
    if rounds == [] then 0
    else
      var n := |rounds| - 1;
      TakenByViewer(rounds[..n]) +
      if After(rounds[..n]).exit == 0 &&
        ExitOf(RoundAt(rounds, n)) == 0 then TakenOf(RoundAt(rounds, n).toViewer) else 0
  }

  /** The loop reads all that the sockets deliver, and hands over exactly as much
      as they take. */
  lemma {:induction false} RunMovesAll(rounds: seq<Round>)
    ensures After(rounds).fromServer == ReadFromServer(rounds) && After(rounds).fromViewer == ReadFromViewer(rounds)
    ensures |After(rounds).toServer| == TakenByServer(rounds) && |After(rounds).toViewer| == TakenByViewer(rounds)
  {
    hide Met, Turned;
    if rounds != [] {
      var n := |rounds| - 1;
      RunMovesAll(rounds[..n]);
      var p := After(rounds[..n]);
      if p.exit == 0 {
        TurnMovesAll(p, RoundAt(rounds, n));
      }
    }
  }

  lemma TurnMovesAll(p: Progress, round: Round)
    requires CanTurn(p, round)
    ensures var q := Turned(p, round);
            && q.fromServer == p.fromServer + (if round.selectFails then [] else BytesOf(round.fromServer))
            && q.fromViewer == p.fromViewer + (if ExitOf(round) == 0 then BytesOf(round.fromViewer) else [])
            && |q.toServer| == |p.toServer| + (if ExitOf(round) == 0 then TakenOf(round.toServer) else 0)
            && |q.toViewer| == |p.toViewer| + (if ExitOf(round) == 0 then TakenOf(round.toViewer) else 0)
  {
    hide SentToServer, SentToViewer;
    var q := Read(p, round);
    if q.exit == 0 {
      SentToServerCounts(q, round.toServer);
      SentToViewerCounts(SentToServer(q, round.toServer), round.toViewer);
    }
  }

  /** If every send takes all that it is offered, either peer has got everything
      that the other one sent. */
  lemma {:induction false} WillingSocketsGetAll(rounds: seq<Round>)
    requires forall i :: 0 <= i < |rounds| ==> rounds[i].toServer.Took? && rounds[i].toServer.count >= 1024
    requires forall i :: 0 <= i < |rounds| ==> rounds[i].toViewer.Took? && rounds[i].toViewer.count >= 1024
    ensures After(rounds).exit == 0 ==> After(rounds).toServer == After(rounds).fromViewer
    ensures After(rounds).exit == 0 ==> After(rounds).toViewer == After(rounds).fromServer
    ensures After(rounds).exit == 0 ==> After(rounds).viewerHeld == [] && After(rounds).serverHeld == []
    ensures After(rounds).fair
  {
    hide Met, Turned;
    if rounds != [] {
      var n := |rounds| - 1;
      WillingSocketsGetAll(rounds[..n]);
      if After(rounds[..n]).exit == 0 {
        WillingTurn(After(rounds[..n]), rounds[n]);
      }
    }
  }

  lemma WillingTurn(p: Progress, round: Round)
    requires p.HasRoom() && p.viewerHeld == [] && p.serverHeld == []
    requires p.toServer == p.fromViewer && p.toViewer == p.fromServer && p.fair
    requires round.toServer.Took? && round.toServer.count >= 1024
    requires round.toViewer.Took? && round.toViewer.count >= 1024
    ensures var q := Turned(p, Met(p, round));
            q.fair && (q.exit == 0 ==>
              q.viewerHeld == [] && q.serverHeld == [] && q.toServer == q.fromViewer && q.toViewer == q.fromServer)
  {
    hide LeftForViewer;
    var r := Met(p, round);
    var q := Read(p, r);
    BoundedIs(round.toServer, |q.viewerHeld|);
    BoundedIs(round.toViewer, |q.serverHeld|);
    if q.exit == 0 {
      var s := SentToServer(q, r.toServer);
      SentToServerCounts(q, r.toServer);
      SentToViewerCounts(s, r.toViewer);
      assert q.StreamToServer() && s.StreamToViewer();
      SentToViewerStream(s, r.toViewer);
      assert IsFair(|s.serverHeld|, r.toViewer.count);
    }
  }

  lemma {:induction false} ViewerGetsAPrefix(rounds: seq<Round>)
    requires After(rounds).fair
    ensures After(rounds).StreamToViewer()
  {
    hide Met, LeftForViewer, IsFair;
    if rounds != [] {
      var p := After(rounds[..|rounds| - 1]);
      ViewerGetsAPrefix(rounds[..|rounds| - 1]);
      if p.exit == 0 {
        FairTurn(p, Met(p, rounds[|rounds| - 1]));
      }
    }
  }

  lemma FairTurn(p: Progress, round: Round)
    requires CanTurn(p, round) && p.StreamToViewer() && Turned(p, round).fair
    ensures Turned(p, round).StreamToViewer()
  {
    hide SentToViewer, IsFair;
    var q := Read(p, round);
    assert q.StreamToViewer();
    if q.exit == 0 {
      SentToViewerCounts(SentToServer(q, round.toServer), round.toViewer);
      SentToViewerStream(SentToServer(q, round.toServer), round.toViewer);
    }
  }

  // ---------- Other bytes in the same rounds ----------

  predicate SameKind(r: Received, r': Received) {
    if r.Data? then r'.Data? && |r'.bytes| == |r.bytes| else r' == r
  }

  /** The rounds differ in the bytes that the server sends only. */
  predicate SameRounds(rounds: seq<Round>, others: seq<Round>) {
    && |rounds| == |others|
    && forall i :: 0 <= i < |rounds| ==>
         SameKind(rounds[i].fromServer, others[i].fromServer) &&
         others[i] == rounds[i].(fromServer := others[i].fromServer)
  }

  predicate SameCounts(p: Progress, q: Progress) {
    && p.exit == q.exit && p.fair == q.fair && p.viewerHeld == q.viewerHeld && p.fromViewer == q.fromViewer
    && p.toServer == q.toServer && |p.serverHeld| == |q.serverHeld|
    && |p.fromServer| == |q.fromServer| && |p.toViewer| == |q.toViewer|
  }

  lemma SameTurn(p: Progress, q: Progress, round: Round, other: Round)
    requires p.HasRoom() && q.HasRoom() && SameCounts(p, q)
    requires SameKind(round.fromServer, other.fromServer) && other == round.(fromServer := other.fromServer)
    ensures SameCounts(Turned(p, Met(p, round)), Turned(q, Met(q, other)))
  {
    hide IsFair, SentToViewer, SentToServer;
    SameRead(p, q, round, other);
    var r, r' := Met(p, round), Met(q, other);
    var p', q' := Read(p, r), Read(q, r');
    if p'.exit == 0 {
      SameSent(p', q', r.toServer, r.toViewer);
    }
  }

  lemma SameSent(p: Progress, q: Progress, a: Accepted, b: Accepted)
    requires SameCounts(p, q) && CanAccept(a, |p.viewerHeld|) && CanAccept(b, |p.serverHeld|)
    ensures SameCounts(SentToViewer(SentToServer(p, a), b), SentToViewer(SentToServer(q, a), b))
  {
    hide SentToViewer, IsFair;
    SentToViewerCounts(SentToServer(p, a), b);
    SentToViewerCounts(SentToServer(q, a), b);
  }

  lemma SameRead(p: Progress, q: Progress, round: Round, other: Round)
    requires p.HasRoom() && q.HasRoom() && SameCounts(p, q)
    requires SameKind(round.fromServer, other.fromServer) && other == round.(fromServer := other.fromServer)
    ensures SameCounts(Read(p, Met(p, round)), Read(q, Met(q, other)))
    ensures Met(q, other) == Met(p, round).(fromServer := Met(q, other).fromServer)
    ensures ExitOf(Met(p, round)) == ExitOf(Met(q, other))
  {
    assert SameKind(Limited(round.fromServer, |p.serverHeld|), Limited(other.fromServer, |q.serverHeld|));
  }

  lemma {:induction false} SameRun(rounds: seq<Round>, others: seq<Round>)
    requires SameRounds(rounds, others)
    ensures SameCounts(After(rounds), After(others))
  {
    hide Met, Turned;
    if rounds != [] {
      var n := |rounds| - 1;
      SameRun(rounds[..n], others[..n]);
      SameTurn(After(rounds[..n]), After(others[..n]), rounds[n], others[n]);
    }
  }

  /** Bytes that tell on which side of `cut` they are in the whole stream. */
  function Marks(from: nat, n: nat, cut: nat): (s: Bytes)
    ensures |s| == n && forall k :: 0 <= k < n ==> s[k] == if from + k < cut then 0 else 1
  {
    seq(n, k => if from + k < cut then 0 else 1)
  }

  function Marked(rounds: seq<Round>, cut: nat): (r: seq<Round>)
    ensures |r| == |rounds|
  {
    if rounds == [] then []
    else
      var n := |rounds| - 1;
      var from := |After(rounds[..n]).fromServer|;
      Marked(rounds[..n], cut) +
      [rounds[n].(fromServer := if rounds[n].fromServer.Data? then Data(Marks(from, Size(rounds[n].fromServer), cut))
                                else rounds[n].fromServer)]
  }

  lemma {:induction false} MarkedIsTheSame(rounds: seq<Round>, cut: nat)
    ensures SameRounds(rounds, Marked(rounds, cut))
  {
    if rounds != [] {
      var n := |rounds| - 1;
      var marked, earlier := Marked(rounds, cut), Marked(rounds[..n], cut);
      MarkedIsTheSame(rounds[..n], cut);
      forall i | 0 <= i < |rounds|
        ensures SameKind(rounds[i].fromServer, marked[i].fromServer) &&
                marked[i] == rounds[i].(fromServer := marked[i].fromServer)
      {
        if i < n {
          assert marked[i] == earlier[i] && rounds[..n][i] == rounds[i];
        }
      }
    }
  }

  /** The server sent the marks, in order. */
  lemma {:induction false} MarksArrive(rounds: seq<Round>, cut: nat)
    ensures var s := After(Marked(rounds, cut)).fromServer; s == Marks(0, |s|, cut)
  {
    hide Met, Turned, SameRounds, Marks;
    if rounds != [] {
      var n := |rounds| - 1;
      var marked := Marked(rounds, cut);
      assert marked[..n] == Marked(rounds[..n], cut);
      MarksArrive(rounds[..n], cut);
      MarkedIsTheSame(rounds[..n], cut);
      SameRun(rounds[..n], marked[..n]);
      MarkedTurn(After(marked[..n]), marked[n], cut);
    } else {
      NoMarks(cut);
    }
  }

  lemma NoMarks(cut: nat)
    ensures Marks(0, 0, cut) == []
  {
  }

  lemma MarkedTurn(p: Progress, round: Round, cut: nat)
    requires p.HasRoom() && p.fromServer == Marks(0, |p.fromServer|, cut)
    requires round.fromServer.Data? ==>
               round.fromServer.bytes == Marks(|p.fromServer|, Size(round.fromServer), cut)
    ensures var s := Turned(p, Met(p, round)).fromServer; s == Marks(0, |s|, cut)
  {
    hide SentToServer, SentToViewer, Turned;
    TurnedReads(p, Met(p, round));
  }

  /** The byte at `cut` is not the one that the server sent there, and never will be. */
  predicate BrokenAt(p: Progress, cut: nat) {
    && cut < |p.fromServer| && p.fromServer[cut] == 1
    && if cut < |p.toViewer| then p.toViewer[cut] == 0
       else cut == |p.toViewer| && p.serverHeld != [] && p.serverHeld[0] == 0
  }

  lemma BrokenStays(p: Progress, round: Round, cut: nat)
    requires CanTurn(p, round) && BrokenAt(p, cut)
    ensures BrokenAt(Turned(p, round), cut)
  {
    var q := Read(p, round);
    assert BrokenAt(q, cut);
    if q.exit == 0 && q.serverHeld != [] && round.toViewer.Took? {
      ViewerLosesNothingIff(q.serverHeld, |q.serverHeld|, round.toViewer.count);
    }
  }

  lemma BrokenIsNoStream(p: Progress, cut: nat)
    requires BrokenAt(p, cut)
    ensures !p.StreamToViewer()
  {
    assert (p.toViewer + p.serverHeld)[cut] == 0;
  }

  /** An unfair send breaks a stream of marks at the byte after those it sent. */
  lemma UnfairTurn(p: Progress, round: Round, cut: nat)
    requires CanTurn(p, round) && p.StreamToViewer() && p.fair && !Turned(p, round).fair
    requires var s := Turned(p, round).fromServer; s == Marks(0, |s|, cut)
    requires cut == |Turned(p, round).toViewer|
    ensures BrokenAt(Turned(p, round), cut)
  {
    var q := Read(p, round);
    assert q.StreamToViewer();
    var n, len := |q.serverHeld|, round.toViewer.count;
    assert cut == |q.toViewer| + len;
    ViewerLosesNothingIff(q.serverHeld, n, len);
    assert q.serverHeld[0] == q.fromServer[|q.toViewer|];
  }

  lemma {:induction false} UnfairBreaks(rounds: seq<Round>) returns (cut: nat)
    requires !After(rounds).fair
    ensures BrokenAt(After(Marked(rounds, cut)), cut)
  {
    hide Met, Turned, BrokenAt;
    var n := |rounds| - 1;
    var earlier := rounds[..n];
    if After(earlier).fair {
      cut := |After(rounds).toViewer|;
    } else {
      cut := UnfairBreaks(earlier);
    }
    var marked := Marked(rounds, cut);
    assert marked[..n] == Marked(earlier, cut);
    MarkedIsTheSame(rounds, cut);
    SameRun(rounds, marked);
    MarkedIsTheSame(earlier, cut);
    SameRun(earlier, marked[..n]);
    var p := After(marked[..n]);
    if After(earlier).fair {
      ViewerGetsAPrefix(marked[..n]);
      MarksArrive(rounds, cut);
      UnfairTurn(p, Met(p, marked[n]), cut);
    } else if p.exit == 0 {
      BrokenStays(p, Met(p, marked[n]), cut);
    }
  }

  /** Whatever bytes the server sends: the viewer gets a prefix of them if and
      only if every send to it was fair. */
  lemma ViewerGetsAPrefixIff(rounds: seq<Round>)
    ensures (forall others :: SameRounds(rounds, others) ==> After(others).StreamToViewer()) <==> After(rounds).fair
  {
    hide After, SameRounds;
    if After(rounds).fair {
      forall others | SameRounds(rounds, others) ensures After(others).StreamToViewer() {
        SameRun(rounds, others);
        ViewerGetsAPrefix(others);
      }
    } else {
      var cut := UnfairBreaks(rounds);
      MarkedIsTheSame(rounds, cut);
      BrokenIsNoStream(After(Marked(rounds, cut)), cut);
    }
  }

  // ---------- The loop ----------

  class Relay {
    const viewerBuf: array<byte>
    const serverBuf: array<byte>
    var viewerBufLen: nat
    var serverBufLen: nat
    ghost var fromViewer: Bytes
    ghost var toServer: Bytes
    ghost var fromServer: Bytes
    ghost var toViewer: Bytes
    ghost var fair: bool

    ghost predicate Valid()
      reads this
    {
      && viewerBuf != serverBuf && viewerBuf.Length == serverBuf.Length == BUFFER_SIZE
      && viewerBufLen <= BUFFER_SIZE && serverBufLen <= BUFFER_SIZE
    }

    ghost function Now(exit: int): (p: Progress)
      requires Valid()
      reads this, viewerBuf, serverBuf
      ensures p.HasRoom()
    {
      Progress(exit, viewerBuf[..viewerBufLen], serverBuf[..serverBufLen], fromViewer, toServer, fromServer, toViewer,
               fair)
    }

    constructor ()
      ensures Valid() && Now(0) == START && fresh(viewerBuf) && fresh(serverBuf)
    {
      viewerBuf, serverBuf := new byte[BUFFER_SIZE], new byte[BUFFER_SIZE];
      viewerBufLen, serverBufLen := 0, 0;
      fromViewer, toServer, fromServer, toViewer, fair := [], [], [], [], true;
    }

    /** The reading half of the server's direction.  2 and 5 end the loop. */
    method ReceiveFromServer(r: Received) returns (exit: int)
      requires Valid() && CanReceive(r, serverBufLen)
      modifies this`serverBufLen, this`fromServer, serverBuf
      ensures Valid()
      ensures exit == if r.Closed? then 2 else if r.ReadError? && !r.connectionReset then 5 else 0
      ensures Now(0) == old(Now(0)).(serverHeld := old(Now(0)).serverHeld + BytesOf(r),
                                     fromServer := old(fromServer) + BytesOf(r))
    {
      exit := 0;
      match r
      case NotReady =>
      case Closed => exit := 2;
      case ReadError(reset) =>
        if !reset {
          exit := 5;
        }
      case Data(bytes) =>
        Store(serverBuf, serverBufLen, bytes);
        serverBufLen := serverBufLen + |bytes|;
        fromServer := fromServer + bytes;
    }

    method ReceiveFromViewer(r: Received) returns (exit: int)
      requires Valid() && CanReceive(r, viewerBufLen)
      modifies this`viewerBufLen, this`fromViewer, viewerBuf
      ensures Valid()
      ensures exit == if r.Closed? then 3 else if r.ReadError? then 4 else 0
      ensures Now(0) == old(Now(0)).(viewerHeld := old(Now(0)).viewerHeld + BytesOf(r),
                                     fromViewer := old(fromViewer) + BytesOf(r))
    {
      exit := 0;
      match r
      case NotReady =>
      case Closed => exit := 3;
      case ReadError(_) => exit := 4;
      case Data(bytes) =>
        Store(viewerBuf, viewerBufLen, bytes);
        viewerBufLen := viewerBufLen + |bytes|;
        fromViewer := fromViewer + bytes;
    }

    method FlushToServer(a: Accepted)
      requires Valid() && CanAccept(a, viewerBufLen)
      modifies this`viewerBufLen, this`toServer, viewerBuf
      ensures Valid() && Now(0) == SentToServer(old(Now(0)), a)
      ensures old(Now(0)).StreamToServer() ==> Now(0).StreamToServer()
      ensures toServer == old(toServer) + old(viewerBuf[..TakenOf(a)])
      ensures viewerBufLen == old(viewerBufLen) - TakenOf(a)
      ensures viewerBuf[..viewerBufLen] == LeftForServer(old(viewerBuf[..]), old(viewerBufLen), TakenOf(a))
    {
      ghost var p := Now(0);
      SentToServerCounts(p, a);
      ServerLosesNothing(viewerBuf[..], viewerBufLen, TakenOf(a));
      if 0 < viewerBufLen {
        if a.Took? && 0 < a.count {
          assert viewerBuf[..viewerBufLen][a.count..] == viewerBuf[..][a.count..viewerBufLen];
          assert viewerBuf[..a.count] == p.viewerHeld[..a.count];
          toServer := toServer + viewerBuf[..a.count];
          viewerBufLen := viewerBufLen - a.count;
          if 0 < viewerBufLen {
            MoveUp(viewerBuf, a.count, viewerBufLen);
          }
        }
      }
    }

    /** The stream survives a fair send, and an unfair one when the bytes repeat. */
    method FlushToViewer(a: Accepted)
      requires Valid() && CanAccept(a, serverBufLen)
      modifies this`serverBufLen, this`toViewer, this`fair, serverBuf
      ensures Valid() && Now(0) == SentToViewer(old(Now(0)), a)
      ensures toViewer == old(toViewer) + old(serverBuf[..TakenOf(a)])
      ensures serverBufLen == old(serverBufLen) - TakenOf(a)
      ensures old(Now(0)).StreamToViewer() ==>
                (Now(0).StreamToViewer() <==>
                  a.SendError? || IsFair(old(serverBufLen), a.count) ||
                  var buf := old(serverBuf[..serverBufLen]);
                  buf[..|buf| - a.count] == buf[a.count..])
    {
      hide LeftForViewer, IsFair, Progress.StreamToViewer, SentToViewer;
      ghost var p := Now(0);
      if p.serverHeld == [] || a.SendError? {
        NothingSent(p, a);
      } else {
        HeldSent(p, a);
      }
      if 0 < serverBufLen {
        if a.Took? {
          LeftOfHeld(serverBuf[..], serverBufLen, a.count);
          assert serverBuf[..a.count] == p.serverHeld[..a.count];
          toViewer := toViewer + serverBuf[..a.count];
          fair := fair && IsFair(serverBufLen, a.count);
          serverBufLen := serverBufLen - a.count;
          KeepForViewer(serverBuf, a.count, serverBufLen);
        }
      }
      if p.StreamToViewer() {
        SentToViewerStream(p, a);
      }
    }

    /** One turn of the loop; 0 goes on, anything else is the return value. */
    method Turn(round: Round) returns (exit: int)
      requires Valid() && CanTurn(Now(0), round)
      modifies this, viewerBuf, serverBuf
      ensures Valid() && exit == ExitOf(round) && Now(exit) == Turned(old(Now(0)), round)
    {
      hide SentToServer, SentToViewer;
      if round.selectFails {
        NothingRead(Now(0), round);
        return 1;
      }
      exit := ReceiveFromServer(round.fromServer);
      if exit != 0 {
        NothingRead(old(Now(0)), round);
        return;
      }
      exit := ReceiveFromViewer(round.fromViewer);
      if exit != 0 {
        return;
      }
      FlushToServer(round.toServer);
      FlushToViewer(round.toViewer);
    }
  }

  /** What was sent and what is left add up again exactly when the right bytes are left. */
  lemma SentAndLeft(received: Bytes, sent: Bytes, buf: Bytes, n: nat, len: nat, left: Bytes)
    requires len <= n <= |buf| && |left| == n - len
    ensures received == sent + buf[..n] ==> (received == sent + buf[..len] + left <==> left == buf[len..n])
  {
    assert sent + buf[..n] == sent + buf[..len] + buf[len..n];
    assert (sent + buf[..len] + left)[|sent| + len..] == left;
    assert (sent + buf[..n])[|sent| + len..] == buf[len..n];
  }

  lemma NothingSent(p: Progress, a: Accepted)
    requires CanAccept(a, |p.serverHeld|) && (p.serverHeld == [] || a.SendError?)
    ensures SentToViewer(p, a) == p
  {
  }

  lemma HeldSent(p: Progress, a: Accepted)
    requires CanAccept(a, |p.serverHeld|) && p.serverHeld != [] && a.Took?
    ensures SentToViewer(p, a) ==
            p.(toViewer := p.toViewer + p.serverHeld[..a.count],
               serverHeld := LeftForViewer(p.serverHeld, |p.serverHeld|, a.count),
               fair := p.fair && IsFair(|p.serverHeld|, a.count))
  {
    hide LeftForViewer, IsFair;
  }

  lemma SentToViewerStream(p: Progress, a: Accepted)
    requires CanAccept(a, |p.serverHeld|) && p.StreamToViewer()
    ensures SentToViewer(p, a).StreamToViewer() <==>
              a.SendError? || IsFair(|p.serverHeld|, a.count) ||
              p.serverHeld[..|p.serverHeld| - a.count] == p.serverHeld[a.count..]
  {
    hide LeftForViewer, IsFair;
    if p.serverHeld != [] && a.Took? {
      var held, n, len := p.serverHeld, |p.serverHeld|, a.count;
      ViewerLosesNothingIff(held, n, len);
      SentAndLeft(p.fromServer, p.toViewer, held, n, len, LeftForViewer(held, n, len));
      assert held[..n] == held && held[len..n] == held[len..];
    }
  }

  lemma LeftOfHeld(buf: Bytes, n: nat, len: nat)
    requires len <= n <= |buf|
    ensures LeftForViewer(buf, n, len) == LeftForViewer(buf[..n], n, len)
  {
    MovedUpFront(buf, len, n - len);
    MovedUpFront(buf[..n], len, n - len);
    assert buf[..n][len..n] == buf[len..n] && buf[..n][..n - len] == buf[..n - len];
  }

  lemma NothingRead(p: Progress, round: Round)
    requires CanTurn(p, round) && ExitOf(round) in {1, 2, 5}
    ensures Turned(p, round) == p.(exit := ExitOf(round))
  {
    assert p.serverHeld + [] == p.serverHeld && p.fromServer + [] == p.fromServer;
    assert p.viewerHeld + [] == p.viewerHeld && p.fromViewer + [] == p.fromViewer;
  }

  /** The guarded copy of the server's direction. */
  method KeepForViewer(buf: array<byte>, len: nat, rest: nat)
    requires len + rest <= buf.Length
    modifies buf
    ensures buf[..rest] == LeftForViewer(old(buf[..]), len + rest, len)
  {
    if len < rest {
      MoveUp(buf, len, rest);
    }
  }

  /** `recv` behind the bytes that are already there. */
  method Store(buf: array<byte>, at: nat, bytes: Bytes)
    requires at + |bytes| <= buf.Length
    modifies buf
    ensures buf[..at + |bytes|] == old(buf[..at]) + bytes
  {
    forall i | 0 <= i < |bytes| {
      buf[at + i] := bytes[i];
    }
  }

  method MoveUp(buf: array<byte>, len: nat, rest: nat)
    requires len + rest <= buf.Length
    modifies buf
    ensures buf[..] == MovedUp(old(buf[..]), len, rest)
  {
    ghost var was := buf[..];
    for i := 0 to rest
      invariant forall k :: 0 <= k < i ==> buf[k] == was[len + k]
      invariant forall k :: i <= k < buf.Length ==> buf[k] == was[k]
    {
      buf[i] := buf[len + i];
    }
    forall k | 0 <= k < buf.Length ensures buf[k] == MovedUp(was, len, rest)[k] {
      if k < rest {
        assert MovedUp(was, len, rest)[k] == was[len..len + rest][k];
      } else {
        assert MovedUp(was, len, rest)[k] == was[rest..][k - rest];
      }
    }
  }

  /** `doRepeater` as long as the sockets give it something to do. */
  method DoRepeater(rounds: seq<Round>) returns (exit: int, ghost relay: Relay)
    ensures exit == After(rounds).exit
    ensures relay.Valid() && relay.Now(exit) == After(rounds)
    ensures relay.toServer <= relay.fromViewer
    ensures relay.fair ==> relay.toViewer <= relay.fromServer
  {
    hide Turned, After;
    var d := new Relay();
    NotStarted(rounds);
    exit := 0;
    var i := 0;
    while i < |rounds| && exit == 0
      invariant 0 <= i <= |rounds|
      invariant fresh(d) && fresh(d.viewerBuf) && fresh(d.serverBuf) && d.Valid() && d.Now(exit) == After(rounds[..i])
    {
      var fromServer, fromViewer := Limited(rounds[i].fromServer, d.serverBufLen),
                                    Limited(rounds[i].fromViewer, d.viewerBufLen);
      AfterNext(rounds, i);
      exit := d.Turn(Round(rounds[i].selectFails, fromServer, fromViewer,
                           Bounded(rounds[i].toServer, d.viewerBufLen + Size(fromViewer)),
                           Bounded(rounds[i].toViewer, d.serverBufLen + Size(fromServer))));
      i := i + 1;
    }
    if exit != 0 {
      EndedStays(rounds, i);
    }
    assert rounds[..|rounds|] == rounds;
    relay := d;
    ServerGetsAPrefix(rounds);
    if d.fair {
      ViewerGetsAPrefix(rounds);
    }
  }
}
