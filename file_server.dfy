/** The receiving side: the table of uploads indexed by socket descriptor,
    the epoll interest set, negotiation of a new upload, the bounded transfer
    step and the dispatch loop.

    The first half describes the server as values: a `ServerState` and one
    function per operation, with the properties the code promises. The
    second half is the server as the code has it, a `Server` object whose
    `clntsInfo` array and interest set its methods update in place, each
    method proved to move the object's state as the matching function says.

    Sockets, epoll, statvfs and stdio are not modelled: what `accept`,
    `fgets`, `statvfs` and `fread` hand back arrives with each event, and what
    the server sends or closes is recorded in an effect log. */
module FileServer {
  import opened LibC
  import opened Protocol

  const EPOLL_SIZE: nat := 30
  const MAX_FILE: nat := 2 * EPOLL_SIZE + 3
  const FILE_PATH: string := "./ServerFiles/"

  /** The file behind `file_write_fp`: the path it was opened at (mode "wb",
      so it starts empty) and the bytes written through it so far. */
  datatype OutFile = OutFile(path: string, contents: seq<byte>)

  /** One slot of `clnts_info`. The two socket streams belong to the slot's
      own descriptor and are not modelled. */
  datatype ClntInfo = ClntInfo(fileName: string, nleft: int, nsent: int, fileWrite: OutFile)

  /** A slot of the zero-initialised global table. */
  const EmptySlot: ClntInfo := ClntInfo("", 0, 0, OutFile("", []))

  /** What the server does to a connection that a peer can observe. */
  datatype Effect = Send(fd: int, text: string) | Close(fd: int)

  datatype ServerState = ServerState(clntsInfo: seq<ClntInfo>, interest: set<int>, effects: seq<Effect>)

  /** One descriptor reported ready by epoll_wait, with what the calls made
      while handling it return: `accepted` is the descriptor `accept` gives,
      `controlLine` the line `fgets` reads from it and `freeSize` the free
      space statvfs reports (all three used only for the listening socket),
      and `data` is the content of the BUF_SIZE-byte buffer after `fread`. */
  datatype Event = Event(fd: int, accepted: int, controlLine: string, freeSize: int, data: seq<byte>)

  datatype ControlRequest = ControlRequest(fileName: string, size: int)

  /** The globals before the loop: a zeroed table, only the listening socket
      registered, nothing sent. */
  function Initial(listenSock: int): (r: ServerState)
    ensures Inv(r, listenSock) && r.interest == {listenSock}
    ensures |r.clntsInfo| == MAX_FILE
    ensures forall i :: 0 <= i < |r.clntsInfo| ==> r.clntsInfo[i].nleft == 0 && r.clntsInfo[i].nsent == 0
    ensures r.effects == []
  {
    ServerState(seq(MAX_FILE, _ => EmptySlot), {listenSock}, [])
  }

  // ---------------------------------------------------------------------------
  // Parsing the control message
  // ---------------------------------------------------------------------------

  /** Both strtok calls find a token; with fewer than two tokens the code
      passes NULL to strcpy or atol, which is undefined. */
  predicate ControlParsable(line: string)
  {
    |Tokens(line, ControlDelims)| >= 2
  }

  /** The name is the first token of the line split on ',', ' ' and '\n', and
      the size is `atol` of the second; the rest of the line is ignored. */
  function ParseControl(line: string): (r: ControlRequest)
    requires ControlParsable(line)
    ensures r.fileName == Tokens(line, ControlDelims)[0]
    ensures r.size == Atol(Tokens(line, ControlDelims)[1])
  {
    assert line[0..] == line;
    var first := StrTok(line, 0, ControlDelims);
    var second := StrTok(line, first.value.1, ControlDelims);
    ControlRequest(first.value.0, Atol(second.value.0))
  }

  // ---------------------------------------------------------------------------
  // The operations, as functions of the server state
  // ---------------------------------------------------------------------------

  /** `add_clnt_sock`: register the descriptor and fill its slot: the name,
      all `size` bytes due, none received, and a fresh file at
      "./ServerFiles/" followed by the name. */
  function AddClient(s: ServerState, fd: int, fileName: string, size: int): (r: ServerState)
    requires 0 <= fd < |s.clntsInfo|
    ensures |r.clntsInfo| == |s.clntsInfo|
    ensures r.clntsInfo[fd].fileName == fileName
    ensures r.clntsInfo[fd].nleft == size && r.clntsInfo[fd].nsent == 0
    ensures |r.clntsInfo[fd].fileWrite.path| == |FILE_PATH| + |fileName|
    ensures r.clntsInfo[fd].fileWrite.path[..|FILE_PATH|] == FILE_PATH
    ensures r.clntsInfo[fd].fileWrite.path[|FILE_PATH|..] == fileName
    ensures r.clntsInfo[fd].fileWrite.contents == []
    ensures forall i :: 0 <= i < |s.clntsInfo| && i != fd ==> r.clntsInfo[i] == s.clntsInfo[i]
    ensures r.interest == s.interest + {fd}
    ensures r.effects == s.effects
  {
    var slot := ClntInfo(fileName, size, 0, OutFile(FILE_PATH + fileName, []));
    s.(clntsInfo := s.clntsInfo[fd := slot], interest := s.interest + {fd})
  }

  /** `receive_control_message`: admit the upload exactly when the free
      space is strictly larger than the announced size. Admitted: the slot
      is filled as AddClient says and "allow\n" is sent. Refused: nothing but
      the "not allow\n" reply changes. */
  function Negotiate(s: ServerState, fd: int, line: string, freeSize: int): (r: (ServerState, bool))
    requires 0 <= fd < |s.clntsInfo| && ControlParsable(line)
    ensures r.1 <==> freeSize > ParseControl(line).size
    ensures r.1 ==> r.0 == AddClient(s, fd, ParseControl(line).fileName, ParseControl(line).size)
                             .(effects := s.effects + [Send(fd, ALLOW_ACCEPT)])
    ensures !r.1 ==> r.0.clntsInfo == s.clntsInfo && r.0.interest == s.interest
    ensures !r.1 ==> r.0.effects == s.effects + [Send(fd, NOT_ALLOW_ACCEPT)]
  {
    var req := ParseControl(line);
    if freeSize > req.size then
      var added := AddClient(s, fd, req.fileName, req.size);
      (added.(effects := added.effects + [Send(fd, ALLOW_ACCEPT)]), true)
    else
      (s.(effects := s.effects + [Send(fd, NOT_ALLOW_ACCEPT)]), false)
  }

  /** `remove_clnt_sock`: close the descriptor's streams and take it out of
      the interest set; its slot in the table is left as it was. */
  function Deregister(s: ServerState, fd: int): (r: ServerState)
    ensures r.clntsInfo == s.clntsInfo
    ensures r.interest == s.interest - {fd}
    ensures r.effects == s.effects + [Close(fd)]
  {
    s.(interest := s.interest - {fd}, effects := s.effects + [Close(fd)])
  }

  /** `receive_file_from_client`: one bounded step on descriptor `fd`. The
      first Chunk(nleft) bytes of the buffer are written to the file and
      counted, whatever fread returned. Only slot `fd` changes; the bytes
      due plus the bytes received stay the same; when nothing is left due,
      "finish\n" is sent and the descriptor is deregistered, otherwise it
      stays registered. */
  function TransferStep(s: ServerState, fd: int, data: seq<byte>): (r: ServerState)
    requires 0 <= fd < |s.clntsInfo| && s.clntsInfo[fd].nleft >= 0 && |data| == BUF_SIZE
    ensures |r.clntsInfo| == |s.clntsInfo|
    ensures forall i :: 0 <= i < |s.clntsInfo| && i != fd ==> r.clntsInfo[i] == s.clntsInfo[i]
    ensures r.clntsInfo[fd].nleft == Advance(s.clntsInfo[fd].nleft) >= 0
    ensures r.clntsInfo[fd].nleft + r.clntsInfo[fd].nsent == s.clntsInfo[fd].nleft + s.clntsInfo[fd].nsent
    ensures r.clntsInfo[fd].fileWrite.contents
            == s.clntsInfo[fd].fileWrite.contents + data[..Chunk(s.clntsInfo[fd].nleft)]
    ensures r.clntsInfo[fd].fileName == s.clntsInfo[fd].fileName
    ensures r.clntsInfo[fd].fileWrite.path == s.clntsInfo[fd].fileWrite.path
    ensures r.interest == if r.clntsInfo[fd].nleft == 0 then s.interest - {fd} else s.interest
    ensures r.effects == s.effects + if r.clntsInfo[fd].nleft == 0 then [Send(fd, FINISH), Close(fd)] else []
  {
    var c := s.clntsInfo[fd];
    var n := Chunk(c.nleft);
    var c' := c.(nleft := c.nleft - n, nsent := c.nsent + n,
                 fileWrite := c.fileWrite.(contents := c.fileWrite.contents + data[..n]));
    var s' := s.(clntsInfo := s.clntsInfo[fd := c']);
    if c'.nleft == 0 then Deregister(s'.(effects := s'.effects + [Send(fd, FINISH)]), fd) else s'
  }

  /** What the C code needs for handling `ev` to be defined. For the
      listening socket: accept gives a descriptor below MAX_FILE that is not
      open (so neither the listening socket nor a registered one), the line
      has two tokens, the name fits `file_name[FILE_NAME_LEN]`, and an
      admitted upload's path fits `file_path[FILE_NAME_LEN]` and its size is
      not negative (a negative count reaches fread). For any other
      descriptor: it is registered and has no negative count due. */
  predicate CanDispatch(s: ServerState, listenSock: int, ev: Event)
  {
    && |s.clntsInfo| == MAX_FILE
    && |ev.data| == BUF_SIZE
    && if ev.fd == listenSock then
         && 0 <= ev.accepted < MAX_FILE
         && ev.accepted != listenSock
         && ev.accepted !in s.interest
         && ControlParsable(ev.controlLine)
         && |ParseControl(ev.controlLine).fileName| < FILE_NAME_LEN
         && (ev.freeSize > ParseControl(ev.controlLine).size ==>
               && ParseControl(ev.controlLine).size >= 0
               && |FILE_PATH + ParseControl(ev.controlLine).fileName| < FILE_NAME_LEN)
       else
         && ev.fd in s.interest
         && 0 <= ev.fd < MAX_FILE
         && s.clntsInfo[ev.fd].nleft >= 0
  }

  /** One turn of the body of main's `for` loop: the listening socket gets
      accept, negotiation and, when admitted, an immediate transfer step (a
      refused connection is closed); any other descriptor gets one transfer
      step. */
  function Dispatch(s: ServerState, listenSock: int, ev: Event): (r: ServerState)
    requires CanDispatch(s, listenSock, ev)
    ensures |r.clntsInfo| == |s.clntsInfo|
    ensures s.effects <= r.effects
  {
    if ev.fd == listenSock then
      var (s1, admitted) := Negotiate(s, ev.accepted, ev.controlLine, ev.freeSize);
      if admitted then TransferStep(s1, ev.accepted, ev.data)
      else s1.(effects := s1.effects + [Close(ev.accepted)])
    else
      TransferStep(s, ev.fd, ev.data)
  }

  /** The descriptor an event acts on: the accepted connection for the
      listening socket, the ready descriptor itself otherwise. */
  function Target(listenSock: int, ev: Event): int
  {
    if ev.fd == listenSock then ev.accepted else ev.fd
  }

  predicate CanRun(s: ServerState, listenSock: int, events: seq<Event>)
    decreases |events|
  {
    events == [] ||
    (CanDispatch(s, listenSock, events[0]) &&
     CanRun(Dispatch(s, listenSock, events[0]), listenSock, events[1..]))
  }

  /** The dispatch loop run over the events in the order epoll reports them. */
  function Run(s: ServerState, listenSock: int, events: seq<Event>): (r: ServerState)
    requires CanRun(s, listenSock, events)
    ensures |r.clntsInfo| == |s.clntsInfo|
    ensures s.effects <= r.effects
    decreases |events|
  {
    if events == [] then s else Run(Dispatch(s, listenSock, events[0]), listenSock, events[1..])
  }

  /** Handling an event touches only its target descriptor: no other slot
      and no other descriptor's registration changes, and every effect it
      adds is on the target. */
  lemma DispatchFrame(s: ServerState, listenSock: int, ev: Event)
    requires CanDispatch(s, listenSock, ev)
    ensures forall i :: 0 <= i < |s.clntsInfo| && i != Target(listenSock, ev) ==>
              Dispatch(s, listenSock, ev).clntsInfo[i] == s.clntsInfo[i]
    ensures forall d :: d != Target(listenSock, ev) ==>
              (d in Dispatch(s, listenSock, ev).interest <==> d in s.interest)
    ensures forall k :: |s.effects| <= k < |Dispatch(s, listenSock, ev).effects| ==>
              Dispatch(s, listenSock, ev).effects[k].fd == Target(listenSock, ev)
  {
    var t := Target(listenSock, ev);
    var r := Dispatch(s, listenSock, ev);
    if ev.fd == listenSock {
      var neg := Negotiate(s, t, ev.controlLine, ev.freeSize);
      var s1 := neg.0;
      NegotiateFrame(s, t, ev.controlLine, ev.freeSize);
      if neg.1 {
        assert r == TransferStep(s1, t, ev.data);
        TransferStepFrame(s1, t, ev.data);
        forall k | |s.effects| <= k < |r.effects|
          ensures r.effects[k].fd == t
        {
          if k < |s1.effects| {
            assert r.effects[k] == s1.effects[k];
          }
        }
      } else {
        assert r == s1.(effects := s1.effects + [Close(t)]);
      }
    } else {
      assert r == TransferStep(s, t, ev.data);
      TransferStepFrame(s, t, ev.data);
    }
  }

  /** A transfer step on `fd` touches nothing but `fd`. */
  lemma TransferStepFrame(s: ServerState, fd: int, data: seq<byte>)
    requires 0 <= fd < |s.clntsInfo| && s.clntsInfo[fd].nleft >= 0 && |data| == BUF_SIZE
    ensures forall d :: d != fd ==> (d in TransferStep(s, fd, data).interest <==> d in s.interest)
    ensures forall k :: |s.effects| <= k < |TransferStep(s, fd, data).effects| ==>
              TransferStep(s, fd, data).effects[k].fd == fd
  {
  }

  /** Negotiation on `fd` touches nothing but `fd`. */
  lemma NegotiateFrame(s: ServerState, fd: int, line: string, freeSize: int)
    requires 0 <= fd < |s.clntsInfo| && ControlParsable(line)
    ensures forall i :: 0 <= i < |s.clntsInfo| && i != fd ==>
              Negotiate(s, fd, line, freeSize).0.clntsInfo[i] == s.clntsInfo[i]
    ensures forall d :: d != fd ==> (d in Negotiate(s, fd, line, freeSize).0.interest <==> d in s.interest)
    ensures Negotiate(s, fd, line, freeSize).0.effects
            == s.effects + [Send(fd, if Negotiate(s, fd, line, freeSize).1 then ALLOW_ACCEPT else NOT_ALLOW_ACCEPT)]
  {
  }

  /** Over a run of events, a slot that no event targets is unchanged and
      every effect added is on some event's target. */
  lemma {:induction false} RunFrame(s: ServerState, listenSock: int, events: seq<Event>)
    requires CanRun(s, listenSock, events)
    ensures forall i :: 0 <= i < |s.clntsInfo| && (forall e :: e in events ==> Target(listenSock, e) != i) ==>
              Run(s, listenSock, events).clntsInfo[i] == s.clntsInfo[i]
    ensures forall k :: |s.effects| <= k < |Run(s, listenSock, events).effects| ==>
              exists e :: e in events && Run(s, listenSock, events).effects[k].fd == Target(listenSock, e)
    decreases |events|
  {
    if events != [] {
      var s1 := Dispatch(s, listenSock, events[0]);
      DispatchFrame(s, listenSock, events[0]);
      RunFrame(s1, listenSock, events[1..]);
      forall e | e in events[1..]
        ensures e in events
      {
      }
      var r := Run(s, listenSock, events);
      assert r == Run(s1, listenSock, events[1..]);
      forall k | |s.effects| <= k < |r.effects|
        ensures exists e :: e in events && r.effects[k].fd == Target(listenSock, e)
      {
        if k < |s1.effects| {
          assert r.effects[k] == s1.effects[k];
          assert events[0] in events && r.effects[k].fd == Target(listenSock, events[0]);
        } else {
          assert r.effects[k] == Run(s1, listenSock, events[1..]).effects[k];
          var e :| e in events[1..] && Run(s1, listenSock, events[1..]).effects[k].fd == Target(listenSock, e);
          assert e in events;
        }
      }
    } else {
      assert Run(s, listenSock, events) == s;
    }
  }

  // ---------------------------------------------------------------------------
  // Invariants and properties
  // ---------------------------------------------------------------------------

  /** A registered upload's slot: a descriptor inside the table, no
      negative count, and a file holding exactly the bytes received. */
  predicate Transferring(s: ServerState, fd: int)
  {
    && 0 <= fd < |s.clntsInfo|
    && s.clntsInfo[fd].nleft >= 0
    && s.clntsInfo[fd].nsent >= 0
    && |s.clntsInfo[fd].fileWrite.contents| == s.clntsInfo[fd].nsent
  }

  /** The server invariant: the table has MAX_FILE slots, the listening
      socket stays registered and every other registered descriptor is an
      upload in progress. */
  predicate Inv(s: ServerState, listenSock: int)
  {
    && |s.clntsInfo| == MAX_FILE
    && listenSock in s.interest
    && forall fd :: fd in s.interest && fd != listenSock ==> Transferring(s, fd)
  }

  /** Between events, every registered upload still has bytes due: an upload
      leaves the interest set in the step that completes it. */
  predicate BytesDue(s: ServerState, listenSock: int)
    requires Inv(s, listenSock)
  {
    forall fd :: fd in s.interest && fd != listenSock ==> s.clntsInfo[fd].nleft > 0
  }

  lemma InitialInv(listenSock: int)
    ensures Inv(Initial(listenSock), listenSock) && BytesDue(Initial(listenSock), listenSock)
  {
  }

  /** A registered upload can always take a step: the invariant is what
      keeps a ready descriptor's step defined. */
  lemma InvEnablesStep(s: ServerState, listenSock: int, ev: Event)
    requires Inv(s, listenSock)
    requires ev.fd != listenSock && ev.fd in s.interest && |ev.data| == BUF_SIZE
    ensures CanDispatch(s, listenSock, ev)
  {
  }

  lemma TransferStepInv(s: ServerState, listenSock: int, fd: int, data: seq<byte>)
    requires Inv(s, listenSock) && fd != listenSock && Transferring(s, fd) && |data| == BUF_SIZE
    ensures Inv(TransferStep(s, fd, data), listenSock)
  {
    var r := TransferStep(s, fd, data);
    forall g | g in r.interest && g != listenSock
      ensures Transferring(r, g)
    {
      if g == fd {
        assert r.clntsInfo[fd].nsent == s.clntsInfo[fd].nsent + Chunk(s.clntsInfo[fd].nleft);
      }
    }
  }

  /** Handling an event keeps the invariant, and keeps every registered
      upload with bytes due. */
  lemma DispatchInv(s: ServerState, listenSock: int, ev: Event)
    requires Inv(s, listenSock) && BytesDue(s, listenSock) && CanDispatch(s, listenSock, ev)
    ensures Inv(Dispatch(s, listenSock, ev), listenSock)
    ensures BytesDue(Dispatch(s, listenSock, ev), listenSock)
  {
    if ev.fd == listenSock {
      var (s1, admitted) := Negotiate(s, ev.accepted, ev.controlLine, ev.freeSize);
      if admitted {
        assert Inv(s1, listenSock);
        TransferStepInv(s1, listenSock, ev.accepted, ev.data);
      }
    } else {
      TransferStepInv(s, listenSock, ev.fd, ev.data);
    }
  }

  lemma {:induction false} RunInv(s: ServerState, listenSock: int, events: seq<Event>)
    requires Inv(s, listenSock) && BytesDue(s, listenSock) && CanRun(s, listenSock, events)
    ensures Inv(Run(s, listenSock, events), listenSock)
    ensures BytesDue(Run(s, listenSock, events), listenSock)
    decreases |events|
  {
    if events != [] {
      DispatchInv(s, listenSock, events[0]);
      RunInv(Dispatch(s, listenSock, events[0]), listenSock, events[1..]);
    }
  }

  /** Admission is strict: a file exactly as large as the free space is refused. */
  lemma ExactFitRefused(s: ServerState, fd: int, line: string, freeSize: int)
    requires 0 <= fd < |s.clntsInfo| && ControlParsable(line)
    requires freeSize == ParseControl(line).size
    ensures !Negotiate(s, fd, line, freeSize).1
    ensures Negotiate(s, fd, line, freeSize).0.interest == s.interest
  {
  }

  /** A refused connection leaves the table and the interest set as they
      were; the peer sees "not allow\n" and the connection is closed. */
  lemma RefusedLeavesNoEntry(s: ServerState, listenSock: int, ev: Event)
    requires CanDispatch(s, listenSock, ev) && ev.fd == listenSock
    requires ev.freeSize <= ParseControl(ev.controlLine).size
    ensures Dispatch(s, listenSock, ev).clntsInfo == s.clntsInfo
    ensures Dispatch(s, listenSock, ev).interest == s.interest
    ensures Dispatch(s, listenSock, ev).effects
            == s.effects + [Send(ev.accepted, NOT_ALLOW_ACCEPT), Close(ev.accepted)]
  {
  }

  /** An admitted upload gets its first step inside the accept event, so an
      empty file is finished there: allow, finish and close, and the
      descriptor never joins the interest set for good. */
  lemma EmptyUploadFinishesOnAccept(s: ServerState, listenSock: int, ev: Event)
    requires CanDispatch(s, listenSock, ev) && ev.fd == listenSock
    requires ParseControl(ev.controlLine).size == 0 && ev.freeSize > 0
    ensures ev.accepted !in Dispatch(s, listenSock, ev).interest
    ensures Dispatch(s, listenSock, ev).interest == s.interest
    ensures Dispatch(s, listenSock, ev).effects
            == s.effects + [Send(ev.accepted, ALLOW_ACCEPT), Send(ev.accepted, FINISH), Close(ev.accepted)]
    ensures Dispatch(s, listenSock, ev).clntsInfo[ev.accepted].fileWrite.contents == []
  {
    var fd := ev.accepted;
    var neg := Negotiate(s, fd, ev.controlLine, ev.freeSize);
    var s1 := neg.0;
    assert neg.1;
    assert s1.interest == s.interest + {fd} && s1.clntsInfo[fd].nleft == 0;
    assert s1.effects == s.effects + [Send(fd, ALLOW_ACCEPT)];
    var r := TransferStep(s1, fd, ev.data);
    assert Dispatch(s, listenSock, ev) == r;
    assert r.clntsInfo[fd].nleft == 0 && ev.data[..0] == [];
  }

  /** An admitted non-empty upload stays registered after the accept event
      exactly when it is larger than one buffer. */
  lemma AdmittedUploadRegistered(s: ServerState, listenSock: int, ev: Event)
    requires CanDispatch(s, listenSock, ev) && ev.fd == listenSock
    requires ev.freeSize > ParseControl(ev.controlLine).size > 0
    ensures ev.accepted in Dispatch(s, listenSock, ev).interest
            <==> ParseControl(ev.controlLine).size > BUF_SIZE
    ensures Dispatch(s, listenSock, ev).clntsInfo[ev.accepted].nsent
            == Chunk(ParseControl(ev.controlLine).size)
  {
    var fd := ev.accepted;
    var neg := Negotiate(s, fd, ev.controlLine, ev.freeSize);
    var s1 := neg.0;
    assert neg.1;
    assert fd in s1.interest && s1.clntsInfo[fd].nsent == 0;
    assert Dispatch(s, listenSock, ev) == TransferStep(s1, fd, ev.data);
  }

  /** Steps on two different uploads commute: the table and the interest set
      come out the same in either order (only the log order differs). */
  lemma StepsCommute(s: ServerState, a: int, b: int, da: seq<byte>, db: seq<byte>)
    requires a != b
    requires 0 <= a < |s.clntsInfo| && s.clntsInfo[a].nleft >= 0 && |da| == BUF_SIZE
    requires 0 <= b < |s.clntsInfo| && s.clntsInfo[b].nleft >= 0 && |db| == BUF_SIZE
    ensures TransferStep(TransferStep(s, a, da), b, db).clntsInfo
            == TransferStep(TransferStep(s, b, db), a, da).clntsInfo
    ensures TransferStep(TransferStep(s, a, da), b, db).interest
            == TransferStep(TransferStep(s, b, db), a, da).interest
  {
    var ab := TransferStep(TransferStep(s, a, da), b, db);
    var ba := TransferStep(TransferStep(s, b, db), a, da);
    assert |ab.clntsInfo| == |ba.clntsInfo|;
    forall i | 0 <= i < |ab.clntsInfo|
      ensures ab.clntsInfo[i] == ba.clntsInfo[i]
    {
    }
  }

  // ---------------------------------------------------------------------------
  // A whole upload
  // ---------------------------------------------------------------------------

  predicate AllFull(bufs: seq<seq<byte>>)
  {
    forall i :: 0 <= i < |bufs| ==> |bufs[i]| == BUF_SIZE
  }

  /** Successive transfer steps on one descriptor, with the buffer contents
      of each. */
  function Steps(s: ServerState, fd: int, bufs: seq<seq<byte>>): (r: ServerState)
    requires 0 <= fd < |s.clntsInfo| && s.clntsInfo[fd].nleft >= 0 && AllFull(bufs)
    ensures |r.clntsInfo| == |s.clntsInfo| && r.clntsInfo[fd].nleft >= 0
    decreases |bufs|
  {
    if bufs == [] then s else Steps(TransferStep(s, fd, bufs[0]), fd, bufs[1..])
  }

  /** The steps the server takes on one descriptor count down `nleft` as
      `AdvanceN` does, so `TransferLength` is about the server's own steps. */
  lemma {:induction false} StepsAdvance(s: ServerState, fd: int, bufs: seq<seq<byte>>)
    requires 0 <= fd < |s.clntsInfo| && s.clntsInfo[fd].nleft >= 0 && AllFull(bufs)
    ensures Steps(s, fd, bufs).clntsInfo[fd].nleft == AdvanceN(s.clntsInfo[fd].nleft, |bufs|)
    decreases |bufs|
  {
    if bufs != [] {
      StepsAdvance(TransferStep(s, fd, bufs[0]), fd, bufs[1..]);
    }
  }

  /** An upload with n bytes due has bytes due after fewer than
      ceil(n / BUF_SIZE) server steps and none after exactly that many. */
  lemma StepsTransferLength(s: ServerState, fd: int, bufs: seq<seq<byte>>)
    requires 0 <= fd < |s.clntsInfo| && s.clntsInfo[fd].nleft >= 0 && AllFull(bufs)
    ensures |bufs| < CeilChunks(s.clntsInfo[fd].nleft) ==> Steps(s, fd, bufs).clntsInfo[fd].nleft > 0
    ensures |bufs| == CeilChunks(s.clntsInfo[fd].nleft) ==> Steps(s, fd, bufs).clntsInfo[fd].nleft == 0
  {
    StepsAdvance(s, fd, bufs);
    TransferLength(s.clntsInfo[fd].nleft);
  }

  /** The bytes the steps write: the first plan[i] bytes of buffer i, in order. */
  function Written(bufs: seq<seq<byte>>, plan: seq<nat>): seq<byte>
    requires |plan| <= |bufs| && forall i :: 0 <= i < |plan| ==> plan[i] <= |bufs[i]|
  {
    if plan == [] then [] else bufs[0][..plan[0]] + Written(bufs[1..], plan[1..])
  }

  /** An upload with n > 0 bytes due stays registered for ceil(n / BUF_SIZE)
      - 1 steps and finishes at step ceil(n / BUF_SIZE): by then all n bytes
      are counted, the file has grown by the chunks of ChunkPlan(n), and the
      only effects are "finish\n" and the close. */
  lemma {:induction false} UploadCompletes(s: ServerState, fd: int, bufs: seq<seq<byte>>)
    requires 0 <= fd < |s.clntsInfo| && fd in s.interest && s.clntsInfo[fd].nleft > 0
    requires AllFull(bufs) && |bufs| == CeilChunks(s.clntsInfo[fd].nleft)
    ensures forall k :: 0 <= k < |bufs| ==> fd in Steps(s, fd, bufs[..k]).interest
    ensures var r := Steps(s, fd, bufs);
      && r.clntsInfo[fd].nleft == 0
      && r.clntsInfo[fd].nsent == s.clntsInfo[fd].nsent + s.clntsInfo[fd].nleft
      && fd !in r.interest
      && r.effects == s.effects + [Send(fd, FINISH), Close(fd)]
      && r.clntsInfo[fd].fileWrite.contents
         == s.clntsInfo[fd].fileWrite.contents + Written(bufs, ChunkPlan(s.clntsInfo[fd].nleft))
    decreases |bufs|
  {
    var n := s.clntsInfo[fd].nleft;
    var s1 := TransferStep(s, fd, bufs[0]);
    assert ChunkPlan(n) == [Chunk(n)] + ChunkPlan(n - Chunk(n));
    if n <= BUF_SIZE {
      assert bufs[1..] == [];
      assert Steps(s, fd, bufs) == s1;
      assert Written(bufs, ChunkPlan(n)) == bufs[0][..n] + Written(bufs[1..], []);
    } else {
      var n1 := n - BUF_SIZE;
      var c0 := s.clntsInfo[fd].fileWrite.contents;
      assert s1.clntsInfo[fd].nleft == n1 && s1.clntsInfo[fd].nsent == s.clntsInfo[fd].nsent + BUF_SIZE;
      assert s1.clntsInfo[fd].fileWrite.contents == c0 + bufs[0][..BUF_SIZE];
      assert fd in s1.interest && s1.effects == s.effects;
      UploadCompletes(s1, fd, bufs[1..]);
      var r := Steps(s1, fd, bufs[1..]);
      assert Steps(s, fd, bufs) == r;
      var w1 := Written(bufs[1..], ChunkPlan(n1));
      assert Written(bufs, ChunkPlan(n)) == bufs[0][..BUF_SIZE] + w1;
      assert r.clntsInfo[fd].fileWrite.contents == (c0 + bufs[0][..BUF_SIZE]) + w1;
      assert (c0 + bufs[0][..BUF_SIZE]) + w1 == c0 + (bufs[0][..BUF_SIZE] + w1);
    }
    UploadStaysRegistered(s, fd, bufs);
  }

  /** Before its last step, an upload's descriptor is still registered. */
  lemma {:induction false} UploadStaysRegistered(s: ServerState, fd: int, bufs: seq<seq<byte>>)
    requires 0 <= fd < |s.clntsInfo| && fd in s.interest && s.clntsInfo[fd].nleft > 0
    requires AllFull(bufs) && |bufs| == CeilChunks(s.clntsInfo[fd].nleft)
    ensures forall k :: 0 <= k < |bufs| ==> fd in Steps(s, fd, bufs[..k]).interest
    decreases |bufs|
  {
    var n := s.clntsInfo[fd].nleft;
    forall k | 0 <= k < |bufs|
      ensures fd in Steps(s, fd, bufs[..k]).interest
    {
      if k == 0 {
        assert Steps(s, fd, bufs[..0]) == s;
      } else {
        var s1 := TransferStep(s, fd, bufs[0]);
        assert n > BUF_SIZE;
        assert s1.clntsInfo[fd].nleft == n - BUF_SIZE && fd in s1.interest;
        UploadStaysRegistered(s1, fd, bufs[1..]);
        assert bufs[..k][1..] == bufs[1..][..k - 1];
        assert Steps(s, fd, bufs[..k]) == Steps(s1, fd, bufs[1..][..k - 1]);
      }
    }
  }

  // ---------------------------------------------------------------------------
  // The server as the code has it
  // ---------------------------------------------------------------------------

  class Server {
    const listenSock: int
    const clntsInfo: array<ClntInfo>
    var interest: set<int>
    var effects: seq<Effect>

    function State(): ServerState
      reads this, clntsInfo
    {
      ServerState(clntsInfo[..], interest, effects)
    }

    ghost predicate Valid()
      reads this, clntsInfo
    {
      Inv(State(), listenSock)
    }

    /** The globals after `clnt_set_init`: a zeroed table and an interest
        set holding the listening socket. */
    constructor (listenSock: int)
      ensures Valid() && this.listenSock == listenSock
      ensures fresh(clntsInfo)
      ensures State() == Initial(listenSock)
      ensures BytesDue(State(), listenSock)
    {
      this.listenSock := listenSock;
      clntsInfo := new ClntInfo[MAX_FILE](_ => EmptySlot);
      interest := {listenSock};
      effects := [];
      new;
      assert clntsInfo[..] == seq(MAX_FILE, _ => EmptySlot);
    }

    method AddClntSock(clntSock: int, fileName: string, fileSizeInByte: int)
      requires Valid() && 0 <= clntSock < MAX_FILE && clntSock != listenSock
      requires fileSizeInByte >= 0 && |FILE_PATH + fileName| < FILE_NAME_LEN
      modifies this, clntsInfo
      ensures Valid()
      ensures State() == AddClient(old(State()), clntSock, fileName, fileSizeInByte)
    {
      interest := interest + {clntSock};
      var filePath := FILE_PATH + fileName;
      clntsInfo[clntSock] := ClntInfo(fileName, fileSizeInByte, 0, OutFile(filePath, []));
    }

    method ReceiveControlMessage(clntSock: int, controlMessage: string, freeSize: int)
      returns (admitted: bool)
      requires Valid() && 0 <= clntSock < MAX_FILE && clntSock != listenSock
      requires ControlParsable(controlMessage)
      requires |ParseControl(controlMessage).fileName| < FILE_NAME_LEN
      requires freeSize > ParseControl(controlMessage).size ==>
                 ParseControl(controlMessage).size >= 0 &&
                 |FILE_PATH + ParseControl(controlMessage).fileName| < FILE_NAME_LEN
      modifies this, clntsInfo
      ensures Valid()
      ensures (State(), admitted) == Negotiate(old(State()), clntSock, controlMessage, freeSize)
    {
      var req := ParseControl(controlMessage);
      var fileName, fileSizeInByte := req.fileName, req.size;
      if freeSize > fileSizeInByte {
        AddClntSock(clntSock, fileName, fileSizeInByte);
        effects := effects + [Send(clntSock, ALLOW_ACCEPT)];
        admitted := true;
      } else {
        effects := effects + [Send(clntSock, NOT_ALLOW_ACCEPT)];
        admitted := false;
      }
    }

    method ReceiveFileFromClient(clntSock: int, fileData: seq<byte>)
      requires Valid() && clntSock in interest && clntSock != listenSock
      requires |fileData| == BUF_SIZE
      modifies this, clntsInfo
      ensures Valid()
      ensures State() == TransferStep(old(State()), clntSock, fileData)
    {
      var nToWrite: int;
      if clntsInfo[clntSock].nleft > BUF_SIZE {
        nToWrite := BUF_SIZE;
      } else {
        nToWrite := clntsInfo[clntSock].nleft;
      }
      var info := clntsInfo[clntSock];
      // fwrite writes nToWrite bytes of the buffer whatever fread returned
      info := info.(fileWrite := info.fileWrite.(contents := info.fileWrite.contents + fileData[..nToWrite]));
      info := info.(nleft := info.nleft - nToWrite, nsent := info.nsent + nToWrite);
      clntsInfo[clntSock] := info;
      TransferStepInv(old(State()), listenSock, clntSock, fileData);
      if info.nleft == 0 {
        effects := effects + [Send(clntSock, FINISH)];
        RemoveClntSock(clntSock);
      }
    }

    method RemoveClntSock(clntSock: int)
      requires Valid() && clntSock != listenSock
      modifies this
      ensures Valid()
      ensures State() == Deregister(old(State()), clntSock)
    {
      effects := effects + [Close(clntSock)];
      interest := interest - {clntSock};
    }

    /** The body of main's `for` loop for one ready descriptor. */
    method HandleEvent(ev: Event)
      requires Valid() && CanDispatch(State(), listenSock, ev)
      modifies this, clntsInfo
      ensures Valid()
      ensures State() == Dispatch(old(State()), listenSock, ev)
    {
      if ev.fd == listenSock {
        var connSock := ev.accepted;
        var admitted := ReceiveControlMessage(connSock, ev.controlLine, ev.freeSize);
        if admitted {
          ReceiveFileFromClient(connSock, ev.data);
        } else {
          effects := effects + [Close(connSock)];
        }
      } else {
        ReceiveFileFromClient(ev.fd, ev.data);
      }
    }

    /** main's event loop over a finite run of ready descriptors. */
    method Serve(events: seq<Event>)
      requires Valid() && CanRun(State(), listenSock, events)
      modifies this, clntsInfo
      ensures Valid()
      ensures State() == Run(old(State()), listenSock, events)
    {
      ghost var start := State();
      var i := 0;
      while i < |events|
        invariant 0 <= i <= |events| && Valid()
        invariant CanRun(State(), listenSock, events[i..])
        invariant Run(start, listenSock, events) == Run(State(), listenSock, events[i..])
      {
        assert events[i..][0] == events[i];
        assert events[i..][1..] == events[i + 1..];
        HandleEvent(events[i]);
        i := i + 1;
      }
    }
  }

  /** The server's `main` after the listening socket is set up: the globals
      start as `clnt_set_init` leaves them and the `while(1)` loop handles
      the events in order. The final state is `Run` from the initial state,
      and both server invariants hold in it. */
  method ServeFromStart(listenSock: int, events: seq<Event>) returns (final: ServerState)
    requires CanRun(Initial(listenSock), listenSock, events)
    ensures final == Run(Initial(listenSock), listenSock, events)
    ensures Inv(final, listenSock) && BytesDue(final, listenSock)
  {
    var server := new Server(listenSock);
    server.Serve(events);
    final := server.State();
    InitialInv(listenSock);
    RunInv(Initial(listenSock), listenSock, events);
  }
}
