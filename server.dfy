/** The game server client (server.go): connecting, RCON authentication,
    the server information and player list queries over UDP, and RCON
    commands with the mirror packet that marks the end of a reply. Each
    socket is an endpoint whose receive results and send outcomes are
    scripted; the dial outcomes, the password and the request ids that
    rand.Int31 would draw are parameters. */
module Server {
  import opened Errors
  import opened Wire
  import opened Net
  import opened Comm

  /** The body of the frame that follows the mirror's echo. */
  const Trailer: Bytes := [0x00, 0x01, 0x00, 0x00]

  /** The error, if any, of a sequence of steps, and the transport after it. */
  datatype Step = Step(err: Option<Error>, after: Transport)

  /** A result of a query, and the transport after it. */
  datatype Exchange<T> = Exchange(result: Result<T>, after: Transport)

  function AuthFrame(password: Bytes, id: Int31): Bytes
  {
    RconFrame(NewRconRequest(RrtAuth, password, id))
  }

  // ---------------------------------------------------------------------
  // authenticate

  /** authenticate: send the auth request, then read an empty response
      value and the auth response, both carrying the request's id. */
  function Authentication(t: Transport, password: Bytes, id: Int31): (r: Step)
    ensures r.after.sent == t.sent || r.after.sent == t.sent + [AuthFrame(password, id)]
    ensures r.err.None? ==> r.after.sent == t.sent + [AuthFrame(password, id)]
    ensures r.after.closed == t.closed
  {
    var s := SendOn(t, AuthFrame(password, id));
    if s.err.Some? then Step(s.err, s.after)
    else
      var first := ReceiveResponse(s.after);
      if first.result.Err? then Step(Some(first.result.error), first.after)
      else
        var resp := first.result.value;
        if resp.typ != RrtRespValue || resp.id != id then Step(Some(InvalidResponseId), first.after)
        else if resp.id != id then assert false; Step(Some(InvalidResponseType), first.after)
        else
          var second := ReceiveResponse(first.after);
          if second.result.Err? then Step(Some(second.result.error), second.after)
          else
            var resp2 := second.result.value;
            if resp2.typ != RrtAuthResp || resp2.id != id then Step(Some(RconAuthFailed), second.after)
            else Step(None, second.after)
  }

  /** rsock.receive followed by rconResponse.unmarshalBinary. */
  function ReceiveResponse(t: Transport): (r: Exchange<RconResponse>)
    ensures r.after.sent == t.sent && r.after.sendFaults == t.sendFaults && r.after.closed == t.closed
  {
    var reply := ReceiveOn(t);
    if reply.result.Err? then Exchange(Err(reply.result.error), reply.after)
    else Exchange(UnmarshalRconResponse(reply.result.value), reply.after)
  }

  // ---------------------------------------------------------------------
  // Info and PlayersInfo

  function InfoQuery(t: Transport): (r: Exchange<InfoResponse>)
    ensures r.after.sent == t.sent || r.after.sent == t.sent + [InfoRequestBytes()]
    ensures r.after.closed == t.closed
  {
    var s := SendOn(t, InfoRequestBytes());
    if s.err.Some? then Exchange(Err(s.err.value), s.after)
    else
      var reply := ReceiveOn(s.after);
      if reply.result.Err? then Exchange(Err(reply.result.error), reply.after)
      else Exchange(UnmarshalInfo(ZeroInfo, reply.result.value), reply.after)
  }

  /** The reply that is parsed as the player list, after the challenge
      exchange: a reply starting with 'A' carries a challenge that is sent
      back in a second request, whose reply is the one parsed. */
  function ChallengeExchange(t: Transport): (r: Exchange<Bytes>)
    ensures r.after.closed == t.closed
    ensures t.sent <= r.after.sent && |r.after.sent| <= |t.sent| + 2
    ensures |r.after.sent| > |t.sent| ==> r.after.sent[|t.sent|] == PlayersInfoRequestBytes(0)
    ensures r.result.Ok? ==> |r.after.sent| > |t.sent|
    ensures r.result.Ok? && |r.after.sent| == |t.sent| + 1 ==>
              |r.result.value| > 0 && r.result.value[0] != HPlayersInfoChallengeResponse
  {
    var s := SendOn(t, PlayersInfoRequestBytes(0));
    if s.err.Some? then Exchange(Err(s.err.value), s.after)
    else
      var reply := ReceiveOn(s.after);
      if reply.result.Err? then Exchange(Err(reply.result.error), reply.after)
      else
        var data := reply.result.value;
        match IsPlayersInfoChallengeResponse(data)
        case Err(e) => Exchange(Err(e), reply.after)
        case Ok(isChallenge) =>
          if !isChallenge then Exchange(Ok(data), reply.after)
          else
            match UnmarshalChallenge(data)
            case Err(e) => Exchange(Err(e), reply.after)
            case Ok(challenge) =>
              var s2 := SendOn(reply.after, PlayersInfoRequestBytes(challenge));
              if s2.err.Some? then Exchange(Err(s2.err.value), s2.after)
              else
                var r2 := ReceiveOn(s2.after);
                Exchange(r2.result, r2.after)
  }

  /** PlayersInfo: the challenge exchange, then the reply parsed as a 'D'
      response into a fresh PlayersInfoResponse. */
  function PlayersQuery(t: Transport): (r: Exchange<seq<Player>>)
    ensures r.after.closed == t.closed
    ensures r.after == ChallengeExchange(t).after
    ensures ChallengeExchange(t).result.Err? ==> r.result == Err(ChallengeExchange(t).result.error)
    ensures r.result.Ok? ==> ChallengeExchange(t).result.Ok? && |r.after.sent| > |t.sent|
  {
    var c := ChallengeExchange(t);
    if c.result.Err? then Exchange(Err(c.result.error), c.after)
    else
      var d := DecodePlayersInfo([], c.result.value);
      if d.err.Some? then Exchange(Err(d.err.value), c.after)
      else Exchange(Ok(d.players), c.after)
  }

  // ---------------------------------------------------------------------
  // Send

  /** The receive loop of Send, with sawMirror and the output so far: every
      frame must be a response value; before the mirror's echo, frames with
      the exec id add their bodies; the frame after the echo must be the
      trailer. */
  function MirrorLoop(t: Transport, execId: Int32, mirrorId: Int32, sawMirror: bool, acc: Bytes): (r: Exchange<Bytes>)
    ensures r.after.sent == t.sent && r.after.sendFaults == t.sendFaults && r.after.closed == t.closed
    decreases |t.inbox|
  {
    var x := ReceiveResponse(t);
    if x.result.Err? then Exchange(Err(x.result.error), x.after)
    else
      var resp := x.result.value;
      if resp.typ != RrtRespValue then Exchange(Err(InvalidResponseType), x.after)
      else if !sawMirror && resp.id == mirrorId then MirrorLoop(x.after, execId, mirrorId, true, acc)
      else if sawMirror then
        if resp.body == Trailer then Exchange(Ok(acc), x.after)
        else Exchange(Err(InvalidResponseTrailer), x.after)
      else if resp.id != execId then Exchange(Err(InvalidResponseId), x.after)
      else MirrorLoop(x.after, execId, mirrorId, false, acc + resp.body)
  }

  function ExecFrame(cmd: Bytes, execId: Int31): Bytes
  {
    RconFrame(NewRconRequest(RrtExecCmd, cmd, execId))
  }

  function MirrorFrame(mirrorId: Int31): Bytes
  {
    RconFrame(NewRconRequest(RrtRespValue, [], mirrorId))
  }

  /** Send on an initialized RCON socket: the exec request, then the mirror
      request, then the receive loop. */
  function Command(t: Transport, cmd: Bytes, execId: Int31, mirrorId: Int31): (r: Exchange<Bytes>)
    ensures r.after.closed == t.closed
    ensures t.sent <= r.after.sent && |r.after.sent| <= |t.sent| + 2
    ensures |r.after.sent| > |t.sent| ==> r.after.sent[|t.sent|] == ExecFrame(cmd, execId)
    ensures r.result.Ok? ==> r.after.sent == t.sent + [ExecFrame(cmd, execId), MirrorFrame(mirrorId)]
  {
    var s1 := SendOn(t, ExecFrame(cmd, execId));
    if s1.err.Some? then Exchange(Err(s1.err.value), s1.after)
    else
      var s2 := SendOn(s1.after, MirrorFrame(mirrorId));
      if s2.err.Some? then Exchange(Err(s2.err.value), s2.after)
      else MirrorLoop(s2.after, execId, mirrorId, false, [])
  }

  // ---------------------------------------------------------------------
  // The server

  class Server {
    const addr: Bytes
    const password: Bytes
    var usock: Endpoint?
    var rsock: Endpoint?
    var rconInitialized: bool

    /** The two sockets are distinct, and an initialized RCON flag has its socket. */
    ghost predicate Valid()
      reads this
    {
      usock != null && usock != rsock && (rconInitialized ==> rsock != null)
    }

    /** The struct literal of Connect. */
    constructor (addr: Bytes, password: Bytes)
      ensures this.addr == addr && this.password == password
      ensures usock == null && rsock == null && !rconInitialized
    {
      this.addr := addr;
      this.password := password;
      usock := null;
      rsock := null;
      rconInitialized := false;
    }

    /** init: the address check, then the UDP dial. */
    method Init(dial: Result<Transport>) returns (err: Option<Error>)
      requires dial.Ok? ==> !dial.value.closed
      modifies this
      ensures addr == [] ==> err == Some(NoAddress) && usock == old(usock)
      ensures addr != [] && dial.Err? ==> err == Some(dial.error) && usock == null
      ensures addr != [] && dial.Ok? ==>
                err.None? && usock != null && fresh(usock) && usock.state == dial.value
      ensures rsock == old(rsock) && rconInitialized == old(rconInitialized)
    {
      if addr == [] {
        return Some(NoAddress);
      }
      if dial.Err? {
        usock := null;
        return Some(dial.error);
      }
      usock := new Endpoint(dial.value);
      return None;
    }

    method Authenticate(id: Int31) returns (err: Option<Error>)
      requires rsock != null
      modifies rsock
      ensures Step(err, rsock.state) == Authentication(old(rsock.state), password, id)
    {
      var req := NewRconRequest(RrtAuth, password, id);
      var data := MarshalRconRequest(req);
      err := rsock.Send(data);
      if err.Some? {
        return;
      }
      var first := rsock.Receive();
      if first.Err? {
        return Some(first.error);
      }
      var resp := UnmarshalRconResponse(first.value);
      if resp.Err? {
        return Some(resp.error);
      }
      if resp.value.typ != RrtRespValue || resp.value.id != req.id {
        return Some(InvalidResponseId);
      }
      if resp.value.id != req.id {
        assert false;
        return Some(InvalidResponseType);
      }
      var second := rsock.Receive();
      if second.Err? {
        return Some(second.error);
      }
      resp := UnmarshalRconResponse(second.value);
      if resp.Err? {
        return Some(resp.error);
      }
      if resp.value.typ != RrtAuthResp || resp.value.id != req.id {
        return Some(RconAuthFailed);
      }
      return None;
    }

    /** initRCON: the address check, the TCP dial, then authenticate; a
        failed authentication closes the new socket (the deferred close)
        and leaves the flag down. */
    method InitRcon(dial: Result<Transport>, id: Int31) returns (err: Option<Error>)
      requires dial.Ok? ==> !dial.value.closed
      modifies this
      ensures addr == [] ==> err == Some(NoAddress) && rsock == old(rsock)
      ensures addr != [] && dial.Err? ==> err == Some(dial.error) && rsock == null
      ensures addr != [] && dial.Ok? ==>
                rsock != null && fresh(rsock) &&
                (var a := Authentication(dial.value, password, id);
                 err == a.err && rsock.state == (if err.Some? then a.after.(closed := true) else a.after))
      ensures rconInitialized == (old(rconInitialized) || err.None?)
      ensures usock == old(usock)
    {
      if addr == [] {
        return Some(NoAddress);
      }
      if dial.Err? {
        rsock := null;
        return Some(dial.error);
      }
      var sock := new Endpoint(dial.value);
      rsock := sock;
      err := Authenticate(id);
      if err.Some? {
        sock.Close();
        return;
      }
      rconInitialized := true;
    }

    /** Close: the RCON socket only when the flag is up, the UDP socket always. */
    method Close()
      requires Valid()
      modifies usock, rsock
      ensures usock.state == old(usock.state).(closed := true)
      ensures rconInitialized ==> rsock.state == old(rsock.state).(closed := true)
      ensures !rconInitialized && rsock != null ==> rsock.state == old(rsock.state)
    {
      if rconInitialized {
        rsock.Close();
      }
      usock.Close();
    }

    method Info() returns (r: Result<InfoResponse>)
      requires usock != null
      modifies usock
      ensures Exchange(r, usock.state) == InfoQuery(old(usock.state))
    {
      var req := MarshalInfoRequest();
      var err := usock.Send(req);
      if err.Some? {
        return Err(err.value);
      }
      var data := usock.Receive();
      if data.Err? {
        return Err(data.error);
      }
      r := UnmarshalInfo(ZeroInfo, data.value);
    }

    method PlayersInfo() returns (r: Result<seq<Player>>)
      requires usock != null
      modifies usock
      ensures Exchange(r, usock.state) == PlayersQuery(old(usock.state))
    {
      var req := MarshalPlayersInfoRequest(0);
      var err := usock.Send(req);
      if err.Some? {
        return Err(err.value);
      }
      var data := usock.Receive();
      if data.Err? {
        return Err(data.error);
      }
      var isChallenge := IsPlayersInfoChallengeResponse(data.value);
      if isChallenge.Err? {
        return Err(isChallenge.error);
      }
      if isChallenge.value {
        var challenge := UnmarshalChallenge(data.value);
        if challenge.Err? {
          return Err(challenge.error);
        }
        req := MarshalPlayersInfoRequest(challenge.value);
        err := usock.Send(req);
        if err.Some? {
          return Err(err.value);
        }
        data := usock.Receive();
        if data.Err? {
          return Err(data.error);
        }
      }
      var res := new PlayersInfoResponse();
      err := res.UnmarshalBinary(data.value);
      if err.Some? {
        return Err(err.value);
      }
      r := Ok(res.players);
    }

    /** Send: refused before anything is sent unless the RCON flag is up. */
    method Send(cmd: Bytes, execId: Int31, mirrorId: Int31) returns (r: Result<Bytes>)
      requires rconInitialized ==> rsock != null
      modifies rsock
      ensures !rconInitialized ==> r == Err(RconNotInitialized) && (rsock != null ==> rsock.state == old(rsock.state))
      ensures rconInitialized ==> Exchange(r, rsock.state) == Command(old(rsock.state), cmd, execId, mirrorId)
    {
      if !rconInitialized {
        return Err(RconNotInitialized);
      }
      var req := NewRconRequest(RrtExecCmd, cmd, execId);
      var data := MarshalRconRequest(req);
      var err := rsock.Send(data);
      if err.Some? {
        return Err(err.value);
      }
      var reqMirror := NewRconRequest(RrtRespValue, [], mirrorId);
      data := MarshalRconRequest(reqMirror);
      err := rsock.Send(data);
      if err.Some? {
        return Err(err.value);
      }
      r := ReceiveReplies(req.id, reqMirror.id);
    }

    /** The receive loop of Send: exec-id bodies are collected until the
        mirror id has been seen and the trailer frame follows it. */
    method ReceiveReplies(execId: Int32, mirrorId: Int32) returns (r: Result<Bytes>)
      requires rsock != null
      modifies rsock
      ensures Exchange(r, rsock.state) == MirrorLoop(old(rsock.state), execId, mirrorId, false, [])
    {
      var buf := new Buffer();
      var sawMirror := false;
      ghost var goal := MirrorLoop(rsock.state, execId, mirrorId, false, []);
      while true
        invariant MirrorLoop(rsock.state, execId, mirrorId, sawMirror, buf.bytes) == goal
        decreases |rsock.state.inbox|
      {
        var reply := rsock.Receive();
        if reply.Err? {
          return Err(reply.error);
        }
        var resp := UnmarshalRconResponse(reply.value);
        if resp.Err? {
          return Err(resp.error);
        }
        if resp.value.typ != RrtRespValue {
          return Err(InvalidResponseType);
        }
        if !sawMirror && resp.value.id == mirrorId {
          sawMirror := true;
          continue;
        }
        if sawMirror {
          if resp.value.body == Trailer {
            break;
          }
          return Err(InvalidResponseTrailer);
        }
        if resp.value.id != execId {
          return Err(InvalidResponseId);
        }
        buf.Write(resp.value.body);
      }
      r := Ok(buf.bytes);
    }
  }

  /** Connect: init, then, when a password is given, initRCON; a failed
      initRCON closes the UDP socket (the deferred close) and Connect
      returns no server. */
  method Connect(addr: Bytes, password: Bytes, udpDial: Result<Transport>, rconDial: Result<Transport>, authId: Int31)
      returns (s: Server, err: Option<Error>)
    requires udpDial.Ok? ==> !udpDial.value.closed
    requires rconDial.Ok? ==> !rconDial.value.closed
    ensures fresh(s) && s.addr == addr && s.password == password
    ensures err == ConnectError(addr, password, udpDial, rconDial, authId)
    ensures s.rconInitialized <==> err.None? && password != []
    ensures password == [] ==> s.rsock == null
    ensures err.None? ==> s.Valid() && fresh(s.usock) && !s.usock.state.closed && s.usock.state == udpDial.value
    ensures err.None? && password != [] ==> fresh(s.rsock) && !s.rsock.state.closed
    ensures err.Some? && s.usock != null ==> s.usock.state.closed
  {
    s := new Server(addr, password);
    err := s.Init(udpDial);
    if err.Some? {
      return;
    }
    if password == [] {
      return;
    }
    err := s.InitRcon(rconDial, authId);
    if err.Some? {
      s.usock.Close();
    }
  }

  /** The error Connect returns. */
  function ConnectError(addr: Bytes, password: Bytes, udpDial: Result<Transport>, rconDial: Result<Transport>, authId: Int31): (r: Option<Error>)
    ensures addr == [] ==> r == Some(NoAddress)
    ensures addr != [] && udpDial.Err? ==> r == Some(udpDial.error)
    ensures r.None? <==> addr != [] && udpDial.Ok? &&
                         (password == [] || (rconDial.Ok? && Authentication(rconDial.value, password, authId).err.None?))
  {
    if addr == [] then Some(NoAddress)
    else if udpDial.Err? then Some(udpDial.error)
    else if password == [] then None
    else if rconDial.Err? then Some(rconDial.error)
    else Authentication(rconDial.value, password, authId).err
  }

  // ---------------------------------------------------------------------
  // Properties of authenticate

  /** On a closed socket every exchange fails with net.ErrClosed at its
      first send and leaves the socket as it was: nothing is sent. */
  lemma ClosedSocketFails(t: Transport, password: Bytes, id: Int31, cmd: Bytes, execId: Int31, mirrorId: Int31)
    requires t.closed
    ensures Authentication(t, password, id) == Step(Some(Closed), t)
    ensures InfoQuery(t) == Exchange(Err(Closed), t)
    ensures PlayersQuery(t) == Exchange(Err(Closed), t)
    ensures Command(t, cmd, execId, mirrorId) == Exchange(Err(Closed), t)
    ensures MirrorLoop(t, execId, mirrorId, false, []) == Exchange(Err(Closed), t)
  {
  }

  /** A body short enough for its frame's size field. */
  type Body = b: Bytes | |b| + 10 < 0x8000_0000 witness []

  /** A frame as a server sends it: the size field counts the bytes after it. */
  function Reply(typ: Int32, id: Int32, body: Body): Bytes
  {
    RconFrame(RconRequest(|body| + 10, id, typ, body))
  }

  /** Receiving a well-formed frame yields its fields. */
  lemma ReceiveResponseOfReply(t: Transport, typ: Int32, id: Int32, body: Body)
    requires !t.closed
    requires t.inbox != [] && t.inbox[0] == Ok(Reply(typ, id, body))
    ensures ReceiveResponse(t) == Exchange(Ok(RconResponse(|body| + 10, id, typ, body)), t.(inbox := t.inbox[1..]))
  {
    UnmarshalRconOfFrame(RconRequest(|body| + 10, id, typ, body), []);
    assert Reply(typ, id, body) + [] == Reply(typ, id, body);
  }

  /** The handshake on two well-formed replies: it succeeds exactly when the
      first is a response value and the second an auth response, both with
      the request's id; a wrong first reply is an id error (never a type
      error), a wrong second reply, such as the id -1 a server sends for a
      wrong password, is an authentication failure. */
  lemma AuthenticationOfReplies(t: Transport, password: Bytes, id: Int31,
                                typ1: Int32, id1: Int32, b1: Body, typ2: Int32, id2: Int32, b2: Body,
                                rest: seq<Result<Bytes>>)
    requires !t.closed
    requires t.sendFaults == [] || t.sendFaults[0].None?
    requires t.inbox == [Ok(Reply(typ1, id1, b1)), Ok(Reply(typ2, id2, b2))] + rest
    ensures var r := Authentication(t, password, id);
      var firstOk := typ1 == RrtRespValue && id1 == id;
      var secondOk := typ2 == RrtAuthResp && id2 == id;
      r.err == (if !firstOk then Some(InvalidResponseId) else if !secondOk then Some(RconAuthFailed) else None) &&
      r.after.sent == t.sent + [AuthFrame(password, id)] &&
      (firstOk ==> r.after.inbox == rest)
  {
    var after := SendOn(t, AuthFrame(password, id)).after;
    ReceiveResponseOfReply(after, typ1, id1, b1);
    var next := after.(inbox := after.inbox[1..]);
    assert next.inbox == [Ok(Reply(typ2, id2, b2))] + rest;
    ReceiveResponseOfReply(next, typ2, id2, b2);
    assert next.inbox[1..] == rest;
  }

  /** authenticate reports ErrInvalidResponseType only when the transport
      itself reported it: the check that would is unreachable. */
  lemma AuthenticationNeverInvalidType(t: Transport, password: Bytes, id: Int31)
    requires forall i | 0 <= i < |t.inbox| :: t.inbox[i] != Err(InvalidResponseType)
    requires forall i | 0 <= i < |t.sendFaults| :: t.sendFaults[i] != Some(InvalidResponseType)
    ensures Authentication(t, password, id).err != Some(InvalidResponseType)
  {
    var after := SendOn(t, AuthFrame(password, id)).after;
    if !t.closed && t.inbox != [] {
      assert t.inbox[0] != Err(InvalidResponseType);
      if |t.inbox| > 1 {
        assert ReceiveOn(ReceiveOn(after).after).result == t.inbox[1];
      }
    }
  }

  // ---------------------------------------------------------------------
  // Properties of Send

  /** One frame of the receive loop: a frame that is not a response value
      aborts; before the echo, the mirror id marks the echo and adds
      nothing, the exec id adds the body and any other id aborts; after the
      echo, the frame ends the loop, with the output only if it is the
      trailer. */
  lemma MirrorLoopOnReply(t: Transport, execId: Int32, mirrorId: Int32, sawMirror: bool, acc: Bytes,
                          typ: Int32, id: Int32, body: Body)
    requires !t.closed
    requires t.inbox != [] && t.inbox[0] == Ok(Reply(typ, id, body))
    ensures var r := MirrorLoop(t, execId, mirrorId, sawMirror, acc);
      var next := t.(inbox := t.inbox[1..]);
      (typ != RrtRespValue ==> r == Exchange(Err(InvalidResponseType), next)) &&
      (typ == RrtRespValue && !sawMirror && id == mirrorId ==> r == MirrorLoop(next, execId, mirrorId, true, acc)) &&
      (typ == RrtRespValue && !sawMirror && id != mirrorId && id == execId ==>
         r == MirrorLoop(next, execId, mirrorId, false, acc + body)) &&
      (typ == RrtRespValue && !sawMirror && id != mirrorId && id != execId ==>
         r == Exchange(Err(InvalidResponseId), next)) &&
      (typ == RrtRespValue && sawMirror ==>
         r == Exchange(if body == Trailer then Ok(acc) else Err(InvalidResponseTrailer), next))
  {
    ReceiveResponseOfReply(t, typ, id, body);
  }

  /** The replies to a command: one response value per body, with the exec id. */
  function Replies(bodies: seq<Body>, execId: Int32): (rs: seq<Result<Bytes>>)
    ensures |rs| == |bodies|
  {
    if bodies == [] then [] else [Ok(Reply(RrtRespValue, execId, bodies[0]))] + Replies(bodies[1..], execId)
  }

  function Concat(bodies: seq<Body>): Bytes
  {
    if bodies == [] then [] else bodies[0] + Concat(bodies[1..])
  }

  /** The output is the exec-id bodies that came before the mirror's echo,
      concatenated in arrival order; the loop stops at the trailer. */
  lemma {:induction false} MirrorLoopCollects(t: Transport, execId: Int32, mirrorId: Int32, acc: Bytes,
                                              bodies: seq<Body>, echo: Body, trailerId: Int32,
                                              tail: seq<Result<Bytes>>)
    requires !t.closed
    requires execId != mirrorId
    requires t.inbox == Replies(bodies, execId) +
                        ([Ok(Reply(RrtRespValue, mirrorId, echo)), Ok(Reply(RrtRespValue, trailerId, Trailer))] + tail)
    ensures MirrorLoop(t, execId, mirrorId, false, acc) == Exchange(Ok(acc + Concat(bodies)), t.(inbox := tail))
    decreases |bodies|
  {
    var end := [Ok(Reply(RrtRespValue, mirrorId, echo)), Ok(Reply(RrtRespValue, trailerId, Trailer))];
    if bodies == [] {
      assert t.inbox == end + tail;
      MirrorLoopEnd(t, execId, mirrorId, acc, echo, trailerId, tail);
      assert acc + Concat(bodies) == acc;
    } else {
      var next := t.(inbox := t.inbox[1..]);
      assert t.inbox[0] == Ok(Reply(RrtRespValue, execId, bodies[0]));
      ReceiveResponseOfReply(t, RrtRespValue, execId, bodies[0]);
      SeqAssoc([Ok(Reply(RrtRespValue, execId, bodies[0]))], Replies(bodies[1..], execId), end + tail);
      assert next.inbox == Replies(bodies[1..], execId) + (end + tail);
      MirrorLoopCollects(next, execId, mirrorId, acc + bodies[0], bodies[1..], echo, trailerId, tail);
      SeqAssoc(acc, bodies[0], Concat(bodies[1..]));
    }
  }

  /** The mirror's echo, then the trailer, end the loop with the output so far. */
  lemma MirrorLoopEnd(t: Transport, execId: Int32, mirrorId: Int32, acc: Bytes,
                      echo: Body, trailerId: Int32, tail: seq<Result<Bytes>>)
    requires !t.closed
    requires t.inbox == [Ok(Reply(RrtRespValue, mirrorId, echo)), Ok(Reply(RrtRespValue, trailerId, Trailer))] + tail
    ensures MirrorLoop(t, execId, mirrorId, false, acc) == Exchange(Ok(acc), t.(inbox := tail))
  {
    var next := t.(inbox := t.inbox[1..]);
    ReceiveResponseOfReply(t, RrtRespValue, mirrorId, echo);
    assert next.inbox == [Ok(Reply(RrtRespValue, trailerId, Trailer))] + tail;
    ReceiveResponseOfReply(next, RrtRespValue, trailerId, Trailer);
    assert next.inbox[1..] == tail;
  }

  /** The exec frame goes out strictly before the mirror frame, the loop
      sends nothing, and an output comes only after both were sent. */
  lemma CommandSendsExecThenMirror(t: Transport, cmd: Bytes, execId: Int31, mirrorId: Int31)
    ensures var r := Command(t, cmd, execId, mirrorId);
      (r.after.sent == t.sent || r.after.sent == t.sent + [ExecFrame(cmd, execId)] ||
       r.after.sent == t.sent + [ExecFrame(cmd, execId), MirrorFrame(mirrorId)]) &&
      (r.result.Ok? ==> r.after.sent == t.sent + [ExecFrame(cmd, execId), MirrorFrame(mirrorId)])
  {
    SeqAssoc(t.sent, [ExecFrame(cmd, execId)], [MirrorFrame(mirrorId)]);
  }

  /** A whole command exchange: the two requests are sent and the output
      is the concatenated reply bodies. */
  lemma CommandOfReplies(t: Transport, cmd: Bytes, execId: Int31, mirrorId: Int31,
                         bodies: seq<Body>, echo: Body, trailerId: Int32, tail: seq<Result<Bytes>>)
    requires !t.closed
    requires execId != mirrorId && t.sendFaults == []
    requires t.inbox == Replies(bodies, execId) +
                        ([Ok(Reply(RrtRespValue, mirrorId, echo)), Ok(Reply(RrtRespValue, trailerId, Trailer))] + tail)
    ensures Command(t, cmd, execId, mirrorId) ==
              Exchange(Ok(Concat(bodies)), Transport(tail, [], t.sent + [ExecFrame(cmd, execId), MirrorFrame(mirrorId)], false))
  {
    var t2 := t.(sent := t.sent + [ExecFrame(cmd, execId)] + [MirrorFrame(mirrorId)]);
    MirrorLoopCollects(t2, execId, mirrorId, [], bodies, echo, trailerId, tail);
    SeqAssoc(t.sent, [ExecFrame(cmd, execId)], [MirrorFrame(mirrorId)]);
    assert [] + Concat(bodies) == Concat(bodies);
  }

  // ---------------------------------------------------------------------
  // Properties of Info and PlayersInfo

  /** Info sends the info request and decodes the reply into a zero response. */
  lemma InfoQueryOfReply(t: Transport, m: Mandatory, x: Option<Extra>, tail: seq<Result<Bytes>>)
    requires !t.closed
    requires ValidMandatory(m) && (x.Some? ==> ValidExtra(x.value))
    requires t.sendFaults == []
    requires t.inbox == [Ok(EncodeMandatory(m) + (if x.Some? then EncodeExtra(x.value) else []))] + tail
    ensures InfoQuery(t) == Exchange(Ok(ExpectedInfo(ZeroInfo, m, x)), Transport(tail, [], t.sent + [InfoRequestBytes()], false))
  {
    UnmarshalInfoOfEncoding(ZeroInfo, m, x);
  }

  /** The first request carries challenge 0; a second request goes out only
      when the first reply starts with 'A', and it carries that reply's
      challenge. */
  lemma PlayersQueryRequests(t: Transport)
    ensures var r := PlayersQuery(t);
      var s := SendOn(t, PlayersInfoRequestBytes(0));
      var first := ReceiveOn(s.after).result;
      (s.err.Some? ==> r.after.sent == t.sent) &&
      (s.err.None? ==> t.sent + [PlayersInfoRequestBytes(0)] <= r.after.sent) &&
      |r.after.sent| <= |t.sent| + 2 &&
      (|r.after.sent| == |t.sent| + 2 ==>
         first.Ok? && |first.value| > 0 && first.value[0] == HPlayersInfoChallengeResponse &&
         UnmarshalChallenge(first.value).Ok? &&
         r.after.sent == t.sent + [PlayersInfoRequestBytes(0), PlayersInfoRequestBytes(UnmarshalChallenge(first.value).value)])
  {
    SeqAssoc(t.sent, [PlayersInfoRequestBytes(0)], [PlayersInfoRequestBytes(0)]);
    var s := SendOn(t, PlayersInfoRequestBytes(0));
    var first := ReceiveOn(s.after);
    if first.result.Ok? && UnmarshalChallenge(first.result.value).Ok? {
      var c := UnmarshalChallenge(first.result.value).value;
      SeqAssoc(t.sent, [PlayersInfoRequestBytes(0)], [PlayersInfoRequestBytes(c)]);
    }
  }

  /** The challenge exchange against a server that asks for a challenge:
      the reply parsed is the one to the request that carries it. */
  lemma ChallengeExchangeOfChallenge(t: Transport, x: Int32, data: Bytes, tail: seq<Result<Bytes>>)
    requires !t.closed
    requires t.sendFaults == []
    requires t.inbox == [Ok([HPlayersInfoChallengeResponse] + EncodeLong(x)), Ok(data)] + tail
    ensures ChallengeExchange(t) ==
              Exchange(Ok(data), Transport(tail, [], t.sent + [PlayersInfoRequestBytes(0), PlayersInfoRequestBytes(x)], false))
  {
    var challenge := [HPlayersInfoChallengeResponse] + EncodeLong(x);
    var s := SendOn(t, PlayersInfoRequestBytes(0));
    assert s.err.None? && s.after.inbox == t.inbox;
    var reply := ReceiveOn(s.after);
    assert reply.result == Ok(challenge);
    UnmarshalChallengeOfEncoding(x, []);
    assert challenge + [] == challenge;
    assert UnmarshalChallenge(challenge) == Ok(x as int);
    assert reply.after.inbox == [Ok(data)] + tail;
    var s2 := SendOn(reply.after, PlayersInfoRequestBytes(x));
    assert s2.err.None?;
    assert ([Ok(data)] + tail)[1..] == tail;
    SeqAssoc(t.sent, [PlayersInfoRequestBytes(0)], [PlayersInfoRequestBytes(x)]);
  }

  /** A 'D' reply decodes to the players it lists. */
  lemma DecodePlayerListReply(ws: seq<WirePlayer>)
    requires ValidPlayers(ws) && |ws| < 256
    ensures DecodePlayersInfo([], [HPlayersInfoResponse] + ([|ws| as byte] + EncodePlayers(ws))) ==
              PlayerList(PlayersOf(ws), None)
  {
    DecodePlayersInfoOfEncoding([], ws, []);
    assert EncodePlayers(ws) + [] == EncodePlayers(ws);
    assert [] + PlayersOf(ws) == PlayersOf(ws);
  }

  /** The challenge exchange against a server that answers the first
      request with anything but a challenge: that reply is the one parsed. */
  lemma ChallengeExchangeWithoutChallenge(t: Transport, data: Bytes, tail: seq<Result<Bytes>>)
    requires !t.closed
    requires t.sendFaults == [] && |data| > 0 && data[0] != HPlayersInfoChallengeResponse
    requires t.inbox == [Ok(data)] + tail
    ensures ChallengeExchange(t) == Exchange(Ok(data), Transport(tail, [], t.sent + [PlayersInfoRequestBytes(0)], false))
  {
  }

  /** Whatever reply the challenge exchange settles on, a 'D' reply that
      decodes without error yields its players, and the connection is left
      as the exchange left it. */
  lemma PlayersQueryOfListReply(t: Transport, data: Bytes, after: Transport)
    requires ChallengeExchange(t) == Exchange(Ok(data), after)
    requires DecodePlayersInfo([], data).err.None?
    ensures PlayersQuery(t) == Exchange(Ok(DecodePlayersInfo([], data).players), after)
  {
  }

  /** The full exchange with a challenge: the request with 0, the
      challenge reply, the request with the challenge, the player list. */
  lemma PlayersQueryWithChallenge(t: Transport, x: Int32, ws: seq<WirePlayer>, tail: seq<Result<Bytes>>)
    requires !t.closed
    requires ValidPlayers(ws) && |ws| < 256 && t.sendFaults == []
    requires t.inbox == [Ok([HPlayersInfoChallengeResponse] + EncodeLong(x)),
                         Ok([HPlayersInfoResponse] + ([|ws| as byte] + EncodePlayers(ws)))] + tail
    ensures PlayersQuery(t) ==
              Exchange(Ok(PlayersOf(ws)),
                       Transport(tail, [], t.sent + [PlayersInfoRequestBytes(0), PlayersInfoRequestBytes(x)], false))
  {
    var data := [HPlayersInfoResponse] + ([|ws| as byte] + EncodePlayers(ws));
    ChallengeExchangeOfChallenge(t, x, data, tail);
    DecodePlayerListReply(ws);
    PlayersQueryOfListReply(t, data, Transport(tail, [], t.sent + [PlayersInfoRequestBytes(0), PlayersInfoRequestBytes(x)], false));
  }

  /** Without a challenge: a server that answers the first request with the
      player list at once. */
  lemma PlayersQueryWithoutChallenge(t: Transport, ws: seq<WirePlayer>, tail: seq<Result<Bytes>>)
    requires !t.closed
    requires ValidPlayers(ws) && |ws| < 256 && t.sendFaults == []
    requires t.inbox == [Ok([HPlayersInfoResponse] + ([|ws| as byte] + EncodePlayers(ws)))] + tail
    ensures PlayersQuery(t) ==
              Exchange(Ok(PlayersOf(ws)), Transport(tail, [], t.sent + [PlayersInfoRequestBytes(0)], false))
  {
    var data := [HPlayersInfoResponse] + ([|ws| as byte] + EncodePlayers(ws));
    ChallengeExchangeWithoutChallenge(t, data, tail);
    DecodePlayerListReply(ws);
    PlayersQueryOfListReply(t, data, Transport(tail, [], t.sent + [PlayersInfoRequestBytes(0)], false));
  }
}
