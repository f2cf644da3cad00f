/** The key slice handed to the word transforms by the byte-level `encrypt` and `decrypt`.
    Both build it with as many words as the DATA has (`data.len() / 4`) instead of the four
    words of the key. This module runs the word transforms against a key slice of any
    length, with an index past the end of the slice as an abort (a Rust index panic), and
    shows which buffer sizes abort and that the others behave as with the 4-word key. */
module KeySlice {
  import opened XxteaSpec

  datatype Option<T> = None | Some(value: T)

  /** Every `mx` call of the steps at positions lo .. hi-1, in a round with checksum `sum`,
      reads a key word inside a slice of `keyLen` words. */
  predicate StepsInRange(sum: Word, keyLen: nat, lo: nat, hi: nat)
  {
    forall p :: lo <= p < hi ==> KeyIndex(PosWord(p), Selector(sum)) < keyLen
  }

  /** Every `mx` call of rounds 1 .. r over a buffer of n words reads inside the slice. */
  predicate RoundsInRange(n: nat, keyLen: nat, r: nat)
  {
    forall j :: 1 <= j <= r ==> StepsInRange(SumAt(j), keyLen, 0, n)
  }

  /** With a slice of at least four words, `mx` reads the same word as with the key, the
      first four words of the slice. */
  lemma MxKeyPrefix(sum: Word, y: Word, z: Word, p: Word, e: Word, k: seq<Word>)
    requires e <= 3 && |k| >= 4
    ensures Mx(sum, y, z, p, e, k) == Mx(sum, y, z, p, e, k[..4])
  {
  }

  /** Encryption step p against the slice `k`; None where `k[(p & 3) ^ e]` is out of range. */
  function EncStepChecked(w: seq<Word>, sum: Word, k: seq<Word>, p: nat): (r: Option<seq<Word>>)
    requires p < |w|
    ensures r.Some? ==> |r.value| == |w|
  {
    var e := Selector(sum);
    if KeyIndex(PosWord(p), e) < |k| then
      Some(w[p := Add(w[p], Mx(sum, Next(w, p), Prev(w, p), PosWord(p), e, k))])
    else
      None
  }

  /** Decryption step p against the slice `k`; None where the key index is out of range. */
  function DecStepChecked(w: seq<Word>, sum: Word, k: seq<Word>, p: nat): (r: Option<seq<Word>>)
    requires p < |w|
    ensures r.Some? ==> |r.value| == |w|
  {
    var e := Selector(sum);
    if KeyIndex(PosWord(p), e) < |k| then
      Some(w[p := Sub(w[p], Mx(sum, Next(w, p), Prev(w, p), PosWord(p), e, k))])
    else
      None
  }

  /** Encryption steps 0 .. i-1 of one round, stopping at the first abort. */
  function EncStepsChecked(w: seq<Word>, sum: Word, k: seq<Word>, i: nat): (r: Option<seq<Word>>)
    requires i <= |w|
    ensures r.Some? ==> |r.value| == |w|
    decreases i
  {
    if i == 0 then Some(w)
    else
      match EncStepsChecked(w, sum, k, i - 1)
      case None => None
      case Some(v) => EncStepChecked(v, sum, k, i - 1)
  }

  /** Decryption steps |w|-1 down to i of one round, stopping at the first abort. */
  function DecStepsChecked(w: seq<Word>, sum: Word, k: seq<Word>, i: nat): (r: Option<seq<Word>>)
    requires i <= |w|
    ensures r.Some? ==> |r.value| == |w|
    decreases |w| - i
  {
    if i == |w| then Some(w)
    else
      match DecStepsChecked(w, sum, k, i + 1)
      case None => None
      case Some(v) => DecStepChecked(v, sum, k, i)
  }

  /** Encryption rounds 1 .. r against the slice `k`, stopping at the first abort. */
  function EncRoundsChecked(w: seq<Word>, k: seq<Word>, r: nat): (o: Option<seq<Word>>)
    ensures o.Some? ==> |o.value| == |w|
    decreases r
  {
    if r == 0 then Some(w)
    else
      match EncRoundsChecked(w, k, r - 1)
      case None => None
      case Some(v) => EncStepsChecked(v, SumAt(r), k, |v|)
  }

  /** Decryption rounds r down to 1 against the slice `k`, stopping at the first abort. */
  function DecRoundsChecked(w: seq<Word>, k: seq<Word>, r: nat): (o: Option<seq<Word>>)
    ensures o.Some? ==> |o.value| == |w|
    decreases r
  {
    if r == 0 then Some(w)
    else
      match DecStepsChecked(w, SumAt(r), k, 0)
      case None => None
      case Some(v) => DecRoundsChecked(v, k, r - 1)
  }

  /** `encrypt_words` as `encrypt` calls it: against the slice it was given, whatever its
      length; None where it panics on a key index. */
  function EncryptAsWritten(w: seq<Word>, k: seq<Word>): Option<seq<Word>>
    requires |w| >= 2
  {
    EncRoundsChecked(w, k, Rounds(|w|))
  }

  /** `decrypt_words` as `decrypt` calls it; None where it panics on a key index. */
  function DecryptAsWritten(w: seq<Word>, k: seq<Word>): Option<seq<Word>>
    requires |w| >= 2
  {
    DecRoundsChecked(w, k, Rounds(|w|))
  }

  /** Encryption steps against a slice abort exactly when one of them indexes past its
      end; with four words or more they compute what the 4-word key computes. */
  lemma {:induction false} EncStepsCheckedSome(w: seq<Word>, sum: Word, k: seq<Word>, i: nat)
    requires i <= |w|
    ensures EncStepsChecked(w, sum, k, i).Some? <==> StepsInRange(sum, |k|, 0, i)
    ensures |k| >= 4 ==> EncStepsChecked(w, sum, k, i) == Some(EncSteps(w, sum, k[..4], i))
    decreases i
  {
    hide Mx;
    if i > 0 {
      EncStepsCheckedSome(w, sum, k, i - 1);
      if |k| >= 4 {
        var v := EncSteps(w, sum, k[..4], i - 1);
        MxKeyPrefix(sum, Next(v, i - 1), Prev(v, i - 1), PosWord(i - 1), Selector(sum), k);
      }
    }
  }

  /** Decryption steps against a slice abort exactly when one of them indexes past its
      end; with four words or more they compute what the 4-word key computes. */
  lemma {:induction false} DecStepsCheckedSome(w: seq<Word>, sum: Word, k: seq<Word>, i: nat)
    requires i <= |w|
    ensures DecStepsChecked(w, sum, k, i).Some? <==> StepsInRange(sum, |k|, i, |w|)
    ensures |k| >= 4 ==> DecStepsChecked(w, sum, k, i) == Some(DecSteps(w, sum, k[..4], i))
    decreases |w| - i
  {
    hide Mx;
    if i < |w| {
      DecStepsCheckedSome(w, sum, k, i + 1);
      if |k| >= 4 {
        var v := DecSteps(w, sum, k[..4], i + 1);
        MxKeyPrefix(sum, Next(v, i), Prev(v, i), PosWord(i), Selector(sum), k);
      }
    }
  }

  /** Encryption rounds against a slice abort exactly when some `mx` call of some round
      indexes past its end; with four words or more they compute what the key computes. */
  lemma {:induction false} EncRoundsCheckedSome(w: seq<Word>, k: seq<Word>, r: nat)
    ensures EncRoundsChecked(w, k, r).Some? <==> RoundsInRange(|w|, |k|, r)
    ensures |k| >= 4 ==> EncRoundsChecked(w, k, r) == Some(EncRounds(w, k[..4], r))
    decreases r
  {
    hide Mx;
    if r > 0 {
      EncRoundsCheckedSome(w, k, r - 1);
      match EncRoundsChecked(w, k, r - 1)
      case None =>
      case Some(v) => EncStepsCheckedSome(v, SumAt(r), k, |v|);
    }
  }

  /** Decryption rounds against a slice abort exactly when some `mx` call of some round
      indexes past its end; with four words or more they compute what the key computes. */
  lemma {:induction false} DecRoundsCheckedSome(w: seq<Word>, k: seq<Word>, r: nat)
    ensures DecRoundsChecked(w, k, r).Some? <==> RoundsInRange(|w|, |k|, r)
    ensures |k| >= 4 ==> DecRoundsChecked(w, k, r) == Some(DecRounds(w, k[..4], r))
    decreases r
  {
    hide Mx;
    if r > 0 {
      DecStepsCheckedSome(w, SumAt(r), k, 0);
      match DecStepsChecked(w, SumAt(r), k, 0)
      case None =>
      case Some(v) => DecRoundsCheckedSome(v, k, r - 1);
    }
  }

  /** One `mx` call that indexes past the end of the slice makes both transforms abort. */
  lemma AbortAt(w: seq<Word>, k: seq<Word>, j: nat, p: nat)
    requires |w| >= 2 && 1 <= j <= Rounds(|w|) && p < |w|
    requires KeyIndex(PosWord(p), Selector(SumAt(j))) >= |k|
    ensures EncryptAsWritten(w, k) == None && DecryptAsWritten(w, k) == None
  {
    hide Mx;
    EncRoundsCheckedSome(w, k, Rounds(|w|));
    DecRoundsCheckedSome(w, k, Rounds(|w|));
    assert !StepsInRange(SumAt(j), |k|, 0, |w|);
  }

  /** Data of 8 or 12 bytes gives a slice of 2 or 3 words. The first encryption round
      (checksum DELTA, selector 2) reads key word 2 at position 0 or key word 3 at
      position 1, so `encrypt` panics; `decrypt` goes through the same checksums in reverse
      order and panics too, at the latest in its last round. */
  lemma ShortSliceAborts(w: seq<Word>, k: seq<Word>)
    requires (|w| == 2 || |w| == 3) && |k| == |w|
    ensures EncryptAsWritten(w, k) == None
    ensures DecryptAsWritten(w, k) == None
  {
    var p: nat := |w| - 2;
    assert Selector(SumAt(1)) == 2;
    assert KeyIndex(PosWord(p), 2) == |w|;
    AbortAt(w, k, 1, p);
  }

  /** Data of 16 bytes or more gives a slice of at least four words; only its first four
      are ever read, so both transforms compute what they compute with the 4-word key. */
  lemma AsWrittenLongSlice(w: seq<Word>, k: seq<Word>)
    requires |w| >= 2 && |k| >= 4
    ensures EncryptAsWritten(w, k) == Some(Encrypt(w, k[..4]))
    ensures DecryptAsWritten(w, k) == Some(Decrypt(w, k[..4]))
  {
    hide Mx;
    EncRoundsCheckedSome(w, k, Rounds(|w|));
    DecRoundsCheckedSome(w, k, Rounds(|w|));
  }
}
