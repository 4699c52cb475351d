/** How the two sides fit together: the server reads back the name and size
    the client announces (when the name is a plain word), the client reads
    the server's admission decision from its reply, and a whole upload
    leaves in the destination file exactly the bytes the client sent. */
module Handshake {
  import opened LibC
  import opened Protocol
  import FileClient
  import FileServer

  lemma FormatLongIsWord(n: int)
    ensures NoneIn(FormatLong(n), ControlDelims)
  {
    var r := FormatLong(n);
    forall i | 0 <= i < |r|
      ensures r[i] !in ControlDelims
    {
      assert r[i] in Digits + {'-'};
    }
  }

  /** The tokens of a control line are the name's, then the size's numeral. */
  lemma ControlLineTokens(fileName: string, size: int)
    ensures Tokens(FileClient.FormatControl(fileName, size), ControlDelims)
            == Tokens(fileName, ControlDelims) + [FormatLong(size)]
  {
    var dec := FormatLong(size);
    FormatLongIsWord(size);
    assert FileClient.FormatControl(fileName, size) == fileName + [','] + (" " + dec + "\n");
    TokensJoin(fileName, ',', " " + dec + "\n", ControlDelims);
    assert " " + dec + "\n" == [] + [' '] + (dec + "\n");
    TokensJoin([], ' ', dec + "\n", ControlDelims);
    TokensOfEmpty(ControlDelims);
    assert dec + "\n" == dec + ['\n'] + [];
    TokensJoin(dec, '\n', [], ControlDelims);
    TokensOfWord(dec, ControlDelims);
  }

  /** The server recovers exactly the announced name and size when the name
      is non-empty and holds no ',', ' ' or '\n'. */
  lemma ControlRoundTrip(fileName: string, size: int)
    requires fileName != [] && NoneIn(fileName, ControlDelims)
    ensures FileServer.ControlParsable(FileClient.FormatControl(fileName, size))
    ensures FileServer.ParseControl(FileClient.FormatControl(fileName, size))
            == FileServer.ControlRequest(fileName, size)
  {
    ControlLineTokens(fileName, size);
    TokensOfWord(fileName, ControlDelims);
    AtolFormatLong(size);
  }

  /** Conversely, a recovered name is always non-empty and free of ',', ' '
      and '\n': a name with one of them never comes back intact. */
  lemma ControlRoundTripOnlyIf(fileName: string, size: int)
    requires FileServer.ControlParsable(FileClient.FormatControl(fileName, size))
    requires FileServer.ParseControl(FileClient.FormatControl(fileName, size)).fileName == fileName
    ensures fileName != [] && NoneIn(fileName, ControlDelims)
  {
    TokensShape(FileClient.FormatControl(fileName, size), ControlDelims);
  }

  /** The server's strtok calls both succeed on a client line exactly when
      the name has a token; an empty name leaves the size as the only token. */
  lemma ControlParsableIff(fileName: string, size: int)
    ensures FileServer.ControlParsable(FileClient.FormatControl(fileName, size))
            <==> Tokens(fileName, ControlDelims) != []
  {
    ControlLineTokens(fileName, size);
  }

  /** No sanitisation: a name with a space in it is cut at the space, and
      what follows the space is read as the size. */
  lemma NameWithSpaceMisread(first: string, rest: string, size: int)
    requires first != [] && NoneIn(first, ControlDelims)
    requires rest != [] && NoneIn(rest, ControlDelims)
    ensures FileServer.ControlParsable(FileClient.FormatControl(first + " " + rest, size))
    ensures FileServer.ParseControl(FileClient.FormatControl(first + " " + rest, size))
            == FileServer.ControlRequest(first, Atol(rest))
  {
    ControlLineTokens(first + " " + rest, size);
    assert first + " " + rest == first + [' '] + rest;
    TokensJoin(first, ' ', rest, ControlDelims);
    TokensOfWord(first, ControlDelims);
    TokensOfWord(rest, ControlDelims);
  }

  /** The client's `is_allowed` on the server's reply is the server's
      admission decision. */
  lemma ClientReadsDecision(s: FileServer.ServerState, fd: int, line: string, freeSize: int)
    requires 0 <= fd < |s.clntsInfo| && FileServer.ControlParsable(line)
    ensures var (r, admitted) := FileServer.Negotiate(s, fd, line, freeSize);
      && |r.effects| == |s.effects| + 1
      && r.effects[|s.effects|].Send? && r.effects[|s.effects|].fd == fd
      && (FileClient.IsAllowed(r.effects[|s.effects|].text) <==> admitted)
  {
  }

  /** The i-th chunk the client's send loop writes for a stream. */
  function ChunkOf(stream: seq<byte>, i: nat): (c: seq<byte>)
    requires i < CeilChunks(|stream|)
    ensures 0 < |c| <= BUF_SIZE
  {
    var hi := if |stream| < (i + 1) * BUF_SIZE then |stream| else (i + 1) * BUF_SIZE;
    stream[i * BUF_SIZE .. hi]
  }

  /** Buffer i, as far as step i writes it, holds the client's i-th chunk. */
  predicate Carries(bufs: seq<seq<byte>>, stream: seq<byte>)
  {
    && |bufs| == CeilChunks(|stream|)
    && FileServer.AllFull(bufs)
    && forall i :: 0 <= i < |bufs| ==> bufs[i][..|ChunkOf(stream, i)|] == ChunkOf(stream, i)
  }

  lemma ChunkOfShift(stream: seq<byte>, i: nat)
    requires |stream| > BUF_SIZE && i < CeilChunks(|stream| - BUF_SIZE)
    ensures i + 1 < CeilChunks(|stream|)
    ensures ChunkOf(stream[BUF_SIZE..], i) == ChunkOf(stream, i + 1)
  {
    var rest := stream[BUF_SIZE..];
    var lo := i * BUF_SIZE;
    var hi := if |rest| < (i + 1) * BUF_SIZE then |rest| else (i + 1) * BUF_SIZE;
    assert (i + 1) * BUF_SIZE == lo + BUF_SIZE;
    assert (i + 2) * BUF_SIZE == hi + BUF_SIZE || |stream| < (i + 2) * BUF_SIZE;
    assert rest[lo..hi] == stream[lo + BUF_SIZE..hi + BUF_SIZE];
  }

  lemma {:induction false} WrittenIsStream(bufs: seq<seq<byte>>, stream: seq<byte>)
    requires Carries(bufs, stream)
    ensures FileServer.Written(bufs, ChunkPlan(|stream|)) == stream
    decreases |stream|
  {
    var n := |stream|;
    if n > 0 {
      var c := Chunk(n);
      assert ChunkPlan(n) == [c] + ChunkPlan(n - c);
      assert |ChunkOf(stream, 0)| == c;
      var rest := stream[c..];
      if n - c > 0 {
        assert c == BUF_SIZE;
        forall i | 0 <= i < |bufs[1..]|
          ensures bufs[1..][i][..|ChunkOf(rest, i)|] == ChunkOf(rest, i)
        {
          ChunkOfShift(stream, i);
        }
      }
      assert Carries(bufs[1..], rest);
      WrittenIsStream(bufs[1..], rest);
      assert stream == stream[..c] + rest;
    }
  }

  /** A whole upload: once admitted with its slot fresh, the client's stream
      arriving in the buffers of ceil(n / BUF_SIZE) steps leaves the file
      holding exactly the stream, all n bytes counted, "finish\n" sent and the
      descriptor deregistered. */
  lemma UploadDeliversFile(s: FileServer.ServerState, fd: int, stream: seq<byte>, bufs: seq<seq<byte>>)
    requires 0 <= fd < |s.clntsInfo| && fd in s.interest
    requires s.clntsInfo[fd].nleft == |stream| > 0
    requires s.clntsInfo[fd].nsent == 0 && s.clntsInfo[fd].fileWrite.contents == []
    requires Carries(bufs, stream)
    ensures var r := FileServer.Steps(s, fd, bufs);
      && r.clntsInfo[fd].fileWrite.contents == stream
      && r.clntsInfo[fd].nsent == |stream|
      && fd !in r.interest
      && r.effects == s.effects + [FileServer.Send(fd, FINISH), FileServer.Close(fd)]
  {
    FileServer.UploadCompletes(s, fd, bufs);
    WrittenIsStream(bufs, stream);
  }
}
