/**
 * The credential rotation in `get_token`: the credential file holds one
 * credential per line; each call reads the file, takes the line at the
 * process-wide counter `current_line` modulo the number of lines, strips it,
 * and advances the counter. Reading the file, the retry through the device
 * flow when it is missing, and the session-token request that follows are
 * I/O and not modelled: the lines the file held at the call are an input.
 */
module TokenStore {
  import opened Text

  /** `line.strip()`: a credential as read from its line. */
  function Credential(line: string): string {
    Strip(line, PyWhitespace)
  }

  /**
   * `c` sits at offset `i` of `line`, and everything before and after it is
   * whitespace.
   */
  predicate WhitespaceAround(line: string, c: string, i: int) {
    OccursAt(line, c, i) &&
    (forall k :: 0 <= k < i ==> line[k] in PyWhitespace) &&
    (forall k :: i + |c| <= k < |line| ==> line[k] in PyWhitespace)
  }

  /**
   * A credential is its line with whitespace removed from both ends, and
   * nothing else removed: it neither starts nor ends with whitespace.
   */
  lemma CredentialTrimmed(line: string)
    ensures var c := Credential(line);
      (c == [] || (c[0] !in PyWhitespace && c[|c| - 1] !in PyWhitespace)) &&
      exists i :: WhitespaceAround(line, c, i)
  {
    var l := LStrip(line, PyWhitespace);
    var c := RStrip(l, PyWhitespace);
    LStripSpec(line, PyWhitespace);
    RStripSpec(l, PyWhitespace);
    var i := |line| - |l|;
    assert OccursAt(line, c, i);
    forall k | i + |c| <= k < |line|
      ensures line[k] in PyWhitespace
    {
      assert line[k] == l[k - i];
    }
    assert WhitespaceAround(line, c, i);
  }

  /** The credential of every line, in file order. */
  function Credentials(lines: seq<string>): seq<string>
  {
    seq(|lines|, i requires 0 <= i < |lines| => Credential(lines[i]))
  }

  /** The module-level `current_line` counter, owned by an object. */
  class CredentialPool {
    var currentLine: nat

    /** `current_line = 0` at import time. */
    constructor ()
      ensures currentLine == 0
    {
      currentLine := 0;
    }

    /**
     * The selection in `get_token`, given the file's lines. An empty file
     * makes `current_line % total_lines` divide by zero, which nothing
     * catches, so the file must have a line.
     */
    method GetToken(lines: seq<string>) returns (accessToken: string)
      requires |lines| > 0
      modifies this
      ensures accessToken == Credential(lines[old(currentLine) % |lines|])
      ensures currentLine == old(currentLine) + 1
    {
      var totalLines := |lines|;
      accessToken := Strip(lines[currentLine % totalLines], PyWhitespace);
      currentLine := currentLine + 1;
    }
  }

  /**
   * What `k` consecutive selections from `pool` give, from counter `start`:
   * over a fixed file, `Rotation(Credentials(lines), start, k)` is what `k`
   * calls return.
   */
  function Rotation(pool: seq<string>, start: nat, k: nat): (r: seq<string>)
    requires |pool| > 0
    ensures |r| == k
    ensures forall i :: 0 <= i < k ==> r[i] == pool[(start + i) % |pool|]
    decreases k
  {
    if k == 0 then []
    else [pool[start % |pool|]] + Rotation(pool, start + 1, k - 1)
  }

  /** `k` calls in a row on the same file return `Rotation` of its credentials and advance the counter by `k`. */
  method GetTokens(pool: CredentialPool, lines: seq<string>, k: nat) returns (tokens: seq<string>)
    requires |lines| > 0
    modifies pool
    ensures tokens == Rotation(Credentials(lines), old(pool.currentLine), k)
    ensures pool.currentLine == old(pool.currentLine) + k
  {
    ghost var creds := Credentials(lines);
    ghost var start := pool.currentLine;
    tokens := [];
    var n := 0;
    while n < k
      invariant n <= k
      invariant pool.currentLine == start + n
      invariant |tokens| == n
      invariant forall i :: 0 <= i < n ==> tokens[i] == creds[(start + i) % |creds|]
    {
      var t := pool.GetToken(lines);
      tokens := tokens + [t];
      n := n + 1;
    }
    ghost var rot := Rotation(creds, start, k);
    assert forall i :: 0 <= i < k ==> tokens[i] == rot[i];
  }

  /** One more call adds the next credential at the end. */
  lemma RotationSnoc(creds: seq<string>, start: nat, n: nat)
    requires |creds| > 0
    ensures Rotation(creds, start, n + 1) == Rotation(creds, start, n) + [creds[(start + n) % |creds|]]
  {
  }

  lemma MulAtLeast(d: int, m: int)
    requires d >= 1 && m > 0
    ensures d * m >= m
  {
  }

  /** Euclidean division has one remainder. */
  lemma ModUnique(a: int, m: int, q: int, r: int)
    requires m > 0 && 0 <= r < m && a == q * m + r
    ensures a % m == r
  {
    var q', r' := a / m, a % m;
    assert (q - q') * m == r' - r;
    if q - q' >= 1 {
      MulAtLeast(q - q', m);
    } else if q' - q >= 1 {
      MulAtLeast(q' - q, m);
    }
  }

  /** Where the counter lands, `i < m` calls after `start`. */
  lemma ModOffset(start: nat, i: nat, m: nat)
    requires m > 0 && i < m
    ensures (start + i) % m == if start % m + i < m then start % m + i else start % m + i - m
  {
    var q, r := start / m, start % m;
    if r + i < m {
      ModUnique(start + i, m, q, r + i);
    } else {
      ModUnique(start + i, m, q + 1, r + i - m);
    }
  }

  /**
   * Over a pool of K credentials, K consecutive selections give every
   * credential exactly once: the pool rotated to start at the counter's
   * position.
   */
  lemma FullCycle(pool: seq<string>, start: nat)
    requires |pool| > 0
    ensures var r := start % |pool|;
      Rotation(pool, start, |pool|) == pool[r..] + pool[..r] &&
      multiset(Rotation(pool, start, |pool|)) == multiset(pool)
  {
    var m, r := |pool|, start % |pool|;
    var rot := Rotation(pool, start, m);
    forall i | 0 <= i < m
      ensures rot[i] == (pool[r..] + pool[..r])[i]
    {
      ModOffset(start, i, m);
    }
    assert rot == pool[r..] + pool[..r];
    assert pool == pool[..r] + pool[r..];
  }

  /** Starting from a fresh counter, the first K selections follow file order. */
  lemma {:induction false} FirstCycleInOrder(pool: seq<string>)
    requires |pool| > 0
    ensures Rotation(pool, 0, |pool|) == pool
  {
    FullCycle(pool, 0);
    assert 0 % |pool| == 0;
    assert pool[0..] + pool[..0] == pool;
  }

  /** Selection K+1 gives what the first one gave. */
  lemma CycleRepeats(pool: seq<string>, start: nat)
    requires |pool| > 0
    ensures var rot := Rotation(pool, start, |pool| + 1); rot[|pool|] == rot[0]
  {
    var m := |pool|;
    ModUnique(start + m, m, start / m + 1, start % m);
  }

  /** With one credential in the pool, every selection gives it. */
  lemma SingleLinePool(credential: string, start: nat, k: nat)
    ensures Rotation([credential], start, k) == seq(k, _ => credential)
  {
  }
}
