/** The sending side: deciding whether the server allowed the upload,
    taking the file name out of the entered path, formatting the control line
    and the chunked send loop. Opening and stat-ing the file, the socket and
    the prompt are not modelled: the entered line, the file's bytes and the
    server's reply lines are parameters. */
module FileClient {
  import opened LibC
  import opened Protocol

  /** The delimiters the client's strtok splits the path on. */
  const PathDelims: set<char> := {'/', '\n'}

  /** `is_allowed`: the server allowed the upload exactly when its reply is
      the line "allow\n", character for character, as strcmp compares. */
  function IsAllowed(controlMessage: string): (allowed: bool)
    ensures allowed <==> |controlMessage| == |ALLOW_ACCEPT|
                         && forall i :: 0 <= i < |controlMessage| ==> controlMessage[i] == ALLOW_ACCEPT[i]
  {
    controlMessage == ALLOW_ACCEPT
  }

  lemma IsAllowedOnlyForAllow()
    ensures IsAllowed(ALLOW_ACCEPT)
    ensures !IsAllowed(NOT_ALLOW_ACCEPT)
    ensures !IsAllowed("allow") && !IsAllowed("Allow\n") && !IsAllowed("allow\n\n")
  {
  }

  // ---------------------------------------------------------------------------
  // File name extraction
  // ---------------------------------------------------------------------------

  /** The name the client announces for `path`: its last non-empty piece
      between '/' and '\n' characters, or the empty string (the initial value
      of the global buffer) when there is none. */
  function BaseName(path: string): string
  {
    var ts := Tokens(path, PathDelims);
    if ts == [] then "" else ts[|ts| - 1]
  }

  /** The strtok loop of `send_control_message`: every token overwrites the
      name, so the last one is kept. */
  method ExtractFileName(path: string) returns (fileName: string)
    ensures fileName == BaseName(path)
  {
    fileName := "";
    var cursor: nat := 0;
    var ptr := StrTok(path, cursor, PathDelims);
    ghost var seen: seq<string> := [];
    while ptr.Some?
      invariant cursor <= |path|
      invariant ptr == StrTok(path, cursor, PathDelims)
      invariant Tokens(path, PathDelims) == seen + Tokens(path[cursor..], PathDelims)
      invariant fileName == if seen == [] then "" else seen[|seen| - 1]
      decreases |path| - cursor
    {
      fileName := ptr.value.0;
      seen := seen + [ptr.value.0];
      cursor := ptr.value.1;
      ptr := StrTok(path, cursor, PathDelims);
    }
  }

  /** The name contains neither '/' nor '\n'; it is empty only when the path
      is made of those characters alone. */
  lemma BaseNameShape(path: string)
    ensures NoneIn(BaseName(path), PathDelims)
    ensures BaseName(path) == "" <==> AllIn(path, PathDelims)
  {
    var ts := Tokens(path, PathDelims);
    TokensShape(path, PathDelims);
    if AllIn(path, PathDelims) {
      assert path + [] == path;
      TokensSkipDelims(path, [], PathDelims);
      TokensOfEmpty(PathDelims);
    } else {
      var k :| 0 <= k < |path| && path[k] !in PathDelims;
      var b := SpanIn(path, 0, PathDelims);
      assert b <= k;
      assert StrTok(path, 0, PathDelims).Some?;
      assert path[0..] == path;
    }
  }

  /** The last entry of a directory path is its name. */
  lemma BaseNameOfEntry(dir: string, entry: string)
    requires entry != [] && NoneIn(entry, PathDelims)
    ensures BaseName(dir + "/" + entry) == entry
  {
    assert dir + "/" + entry == dir + ['/'] + entry;
    TokensJoin(dir, '/', entry, PathDelims);
    TokensOfWord(entry, PathDelims);
  }

  lemma BaseNameExample()
    ensures BaseName("dir/sub/a.txt") == "a.txt"
  {
    assert "dir/sub/a.txt" == "dir/sub" + "/" + "a.txt";
    BaseNameOfEntry("dir/sub", "a.txt");
  }

  /** Leading, trailing and repeated slashes do not change the name. */
  lemma BaseNameIgnoresExtraSlashes(a: string, b: string)
    ensures BaseName("/" + a) == BaseName(a)
    ensures BaseName(a + "/") == BaseName(a)
    ensures BaseName(a + "//" + b) == BaseName(a + "/" + b)
  {
    assert "/" + a == [] + ['/'] + a;
    TokensJoin([], '/', a, PathDelims);
    TokensOfEmpty(PathDelims);
    assert a + "/" == a + ['/'] + [];
    TokensJoin(a, '/', [], PathDelims);
    assert Tokens(a, PathDelims) + [] == Tokens(a, PathDelims);
    assert a + "//" + b == a + ['/'] + ("/" + b);
    TokensJoin(a, '/', "/" + b, PathDelims);
    assert "/" + b == [] + ['/'] + b;
    TokensJoin([], '/', b, PathDelims);
    assert a + "/" + b == a + ['/'] + b;
    TokensJoin(a, '/', b, PathDelims);
  }

  // ---------------------------------------------------------------------------
  // The control message
  // ---------------------------------------------------------------------------

  /** `snprintf(..., "%s, %ld\n", name, size)`. The buffer (BUF_SIZE bytes)
      cannot truncate it: the name is shorter than FILE_NAME_LEN and a long
      has at most 20 characters. */
  function FormatControl(fileName: string, size: int): (line: string)
    ensures |line| > |fileName| + 2 && line[..|fileName|] == fileName
    ensures line[|fileName|..|fileName| + 2] == ", "
    ensures line[|line| - 1] == '\n'
    ensures NoneIn(fileName, {'\n'}) ==> NoneIn(line[..|line| - 1], {'\n'})
  {
    fileName + ", " + FormatLong(size) + "\n"
  }

  /** `send_control_message`: drop the last character of the entered line
      (its newline), take the name out of the path, announce it with the
      file's size and decide on the server's reply. */
  method SendControlMessage(line: string, fileSize: nat, reply: string)
    returns (fileName: string, controlMessage: string, allowed: bool)
    requires |line| >= 1
    ensures fileName == BaseName(line[..|line| - 1])
    ensures NoneIn(fileName, PathDelims)
    ensures controlMessage == FormatControl(fileName, fileSize)
    ensures allowed <==> reply == ALLOW_ACCEPT
  {
    var path := line[..|line| - 1];
    fileName := ExtractFileName(path);
    BaseNameShape(path);
    controlMessage := FormatControl(fileName, fileSize);
    allowed := IsAllowed(reply);
  }

  // ---------------------------------------------------------------------------
  // Sending the file
  // ---------------------------------------------------------------------------

  /** `send_file_to_server`: send the file in chunks of Chunk(nleft) bytes
      until nothing is left, then read one reply line. Every read is taken to
      return the requested bytes, as the code assumes; `content` is the file.
      The bytes written to the socket are the file, in order, in
      ceil(size / BUF_SIZE) chunks, and completion is recognised only for the
      exact line "finish\n". */
  method SendFileToServer(content: seq<byte>, reply: string)
    returns (stream: seq<byte>, chunks: seq<nat>, totalSent: nat, finished: bool)
    ensures stream == content && totalSent == |content|
    ensures chunks == ChunkPlan(|content|)
    ensures |chunks| == CeilChunks(|content|)
    ensures finished <==> reply == FINISH
  {
    var nleft: nat := |content|;
    totalSent := 0;
    stream := [];
    chunks := [];
    while nleft != 0
      invariant nleft + totalSent == |content|
      invariant stream == content[..totalSent]
      invariant chunks + ChunkPlan(nleft) == ChunkPlan(|content|)
      decreases nleft
    {
      var nsent := Chunk(nleft);
      assert content[..totalSent + nsent] == content[..totalSent] + content[totalSent..totalSent + nsent];
      stream := stream + content[totalSent..totalSent + nsent];
      assert ChunkPlan(nleft) == [nsent] + ChunkPlan(nleft - nsent);
      assert chunks + ChunkPlan(nleft) == (chunks + [nsent]) + ChunkPlan(nleft - nsent);
      chunks := chunks + [nsent];
      nleft := nleft - nsent;
      totalSent := totalSent + nsent;
    }
    assert content[..totalSent] == content;
    finished := reply == FINISH;
  }
}
