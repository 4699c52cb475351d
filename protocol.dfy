/** What the client and the server share: the constants both files define
    identically, the reply literals, and the chunking rule both transfer loops
    use ("at most BUF_SIZE bytes, never more than are left"), with the facts
    about how many chunks a transfer takes. */
module Protocol {

  newtype byte = x: int | 0 <= x < 256

  const BUF_SIZE: nat := 1024
  const FILE_NAME_LEN: nat := 256
  const ALLOW_ACCEPT: string := "allow\n"
  const NOT_ALLOW_ACCEPT: string := "not allow\n"
  const FINISH: string := "finish\n"

  /** The delimiters the server's strtok splits a control line on. */
  const ControlDelims: set<char> := {',', ' ', '\n'}

  /** The size of the next transfer step when `nleft` bytes are still due:
      the smaller of `nleft` and BUF_SIZE. */
  function Chunk(nleft: int): (n: int)
    ensures n <= BUF_SIZE && n <= nleft
    ensures n == nleft || n == BUF_SIZE
    ensures nleft >= 0 ==> n >= 0
    ensures nleft > 0 ==> n > 0
  {
    if nleft > BUF_SIZE then BUF_SIZE else nleft
  }

  /** ceil(n / BUF_SIZE). */
  function CeilChunks(n: nat): nat
  {
    (n + BUF_SIZE - 1) / BUF_SIZE
  }

  /** The chunk sizes a loop `while nleft != 0 { n := Chunk(nleft); nleft -= n }`
      produces when started with `nleft == n`. */
  function ChunkPlan(n: nat): (plan: seq<nat>)
    ensures |plan| == CeilChunks(n)
    ensures forall i :: 0 <= i < |plan| ==> 0 < plan[i] <= BUF_SIZE
    decreases n
  {
    if n == 0 then [] else [Chunk(n)] + ChunkPlan(n - Chunk(n))
  }

  function Sum(s: seq<nat>): nat
  {
    if s == [] then 0 else s[0] + Sum(s[1..])
  }

  /** Every chunk but the last is a full buffer and the chunks add up to n. */
  lemma {:induction false} ChunkPlanFacts(n: nat)
    ensures Sum(ChunkPlan(n)) == n
    ensures forall i :: 0 <= i < |ChunkPlan(n)| - 1 ==> ChunkPlan(n)[i] == BUF_SIZE
    decreases n
  {
    if n > 0 {
      ChunkPlanFacts(n - Chunk(n));
      var rest := ChunkPlan(n - Chunk(n));
      assert ChunkPlan(n) == [Chunk(n)] + rest;
      assert n <= BUF_SIZE ==> rest == [];
    }
  }

  /** Bytes still due after one step. */
  function Advance(nleft: int): int
  {
    nleft - Chunk(nleft)
  }

  /** Bytes still due after k steps. */
  function AdvanceN(nleft: int, k: nat): int
    decreases k
  {
    if k == 0 then nleft else AdvanceN(Advance(nleft), k - 1)
  }

  /** Closed form: after k steps, max(0, n - k * BUF_SIZE) bytes are due. */
  lemma {:induction false} AdvanceNClosedForm(n: nat, k: nat)
    ensures AdvanceN(n, k) == if n > k * BUF_SIZE then n - k * BUF_SIZE else 0
    decreases k
  {
    if k > 0 {
      AdvanceNClosedForm(Advance(n), k - 1);
    }
  }

  /** A transfer of n bytes is done after exactly ceil(n / BUF_SIZE) steps:
      bytes are still due after fewer, none after that many. */
  lemma TransferLength(n: nat)
    ensures AdvanceN(n, CeilChunks(n)) == 0
    ensures forall k: nat :: k < CeilChunks(n) ==> AdvanceN(n, k) > 0
  {
    AdvanceNClosedForm(n, CeilChunks(n));
    forall k: nat | k < CeilChunks(n)
      ensures AdvanceN(n, k) > 0
    {
      AdvanceNClosedForm(n, k);
    }
  }
}
