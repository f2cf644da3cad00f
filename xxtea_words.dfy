/** The in-place word-level transforms `encrypt_words` and `decrypt_words`: nested loops
    that overwrite a word buffer, proved against the round specifications of XxteaSpec. */
module XxteaWords {
  import opened XxteaSpec

  /** Encrypts `v` in place with key `k`: `6 + 52 / n` rounds, each of which adds `mx` to
      every word from the first to the last. */
  method EncryptWords(v: array<Word>, k: Key)
    requires v.Length >= 2
    modifies v
    ensures v[..] == Encrypt(old(v[..]), k)
  {
    hide Mx;
    var length := v.Length;
    var n := length - 1;
    var z := v[n];
    var sum: Word := 0;
    var q := 6 + 52 / length;
    ghost var done: nat := 0;
    while q > 0
      invariant 0 <= q && done + q == Rounds(length)
      invariant sum == SumAt(done)
      invariant v[..] == EncRounds(old(v[..]), k, done)
      invariant z == v[n]
    {
      sum := Add(sum, DELTA);
      var e := Selector(sum);
      ghost var start := v[..];
      var y: Word;
      for p := 0 to n
        invariant v[..] == EncSteps(start, sum, k, p)
        invariant z == Prev(v[..], p)
      {
        y := v[p + 1];
        v[p] := Add(v[p], Mx(sum, y, z, PosWord(p), e, k));
        z := v[p];
      }
      y := v[0];
      v[n] := Add(v[n], Mx(sum, y, z, PosWord(n), e, k));
      z := v[n];
      assert v[..] == EncRound(start, sum, k);
      q := q - 1;
      done := done + 1;
    }
    assert done == Rounds(|old(v[..])|);
  }

  /** Decrypts `v` in place with key `k`: starting from the checksum `q * DELTA` that
      encryption ends with, it subtracts `mx` from every word from the last to the first
      and steps the checksum back by DELTA until it reaches 0, which happens after exactly
      `q` rounds. */
  method DecryptWords(v: array<Word>, k: Key) returns (ghost rounds: nat)
    requires v.Length >= 2
    modifies v
    ensures v[..] == Decrypt(old(v[..]), k)
    ensures rounds == Rounds(v.Length)
  {
    hide Mx;
    var length := v.Length;
    var n := length - 1;
    var e: Word;
    var y := v[0];
    var z: Word;
    var q := (6 + 52 / length) as Word;
    var sum := Mul(q, DELTA);
    ghost var left: nat := Rounds(length);
    SumAtMul(left);
    rounds := 0;
    while sum != 0
      invariant left + rounds == Rounds(length) && left <= 32
      invariant sum == SumAt(left)
      invariant DecRounds(v[..], k, left) == Decrypt(old(v[..]), k)
      invariant y == v[0]
      decreases left
    {
      SumAtZero(left);
      e := Selector(sum);
      ghost var start := v[..];
      var p := n;
      while p > 0
        invariant 0 <= p <= n
        invariant v[..] == DecSteps(start, sum, k, p + 1)
        invariant y == Next(v[..], p)
      {
        z := v[p - 1];
        v[p] := Sub(v[p], Mx(sum, y, z, PosWord(p), e, k));
        y := v[p];
        p := p - 1;
      }
      z := v[n];
      v[0] := Sub(v[0], Mx(sum, y, z, 0, e, k));
      y := v[0];
      assert v[..] == DecRound(start, sum, k);
      SumAtPrev(left);
      sum := Sub(sum, DELTA);
      left := left - 1;
      rounds := rounds + 1;
    }
    SumAtZero(left);
  }
}
