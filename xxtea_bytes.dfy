/** The byte-level entry points `encrypt` and `decrypt`: the size and alignment guard in
    front of them, the view of a byte buffer as 32-bit words in the platform's byte order,
    and the in-place transforms of a byte buffer under a 16-byte key. */
module XxteaBytes {
  import S = XxteaSpec
  import XxteaWords

  /** An unsigned byte (`u8`). */
  newtype Byte = x: int | 0 <= x < 256

  /** The platform's native byte order, in which a buffer of bytes is read as words. */
  datatype ByteOrder = LittleEndian | BigEndian

  /** Why `check_sizes_and_alignment` aborts; `KeyNot128Bits` carries the length it got. */
  datatype GuardError =
    | DataNotMultipleOf32Bits
    | DataNotAligned
    | KeyNot128Bits(got: nat)
    | KeyNotAligned

  /** The outcome of the guard: it returns, or it aborts with one of the errors above. */
  datatype Outcome = Pass | Fail(error: GuardError)

  /** `check_sizes_and_alignment`. Whether a buffer starts on a 4-byte boundary is a
      property of its address, given here as a flag. The checks run in a fixed order and
      the first one violated decides the error. */
  function CheckSizesAndAlignment(dataLen: nat, dataAligned: bool, keyLen: nat, keyAligned: bool): (o: Outcome)
    ensures o.Pass? <==> dataLen % 4 == 0 && dataAligned && keyLen == 16 && keyAligned
    ensures o == Fail(DataNotMultipleOf32Bits) <==> dataLen % 4 != 0
    ensures o == Fail(DataNotAligned) <==> dataLen % 4 == 0 && !dataAligned
    ensures o == Fail(KeyNot128Bits(keyLen)) <==> dataLen % 4 == 0 && dataAligned && keyLen != 16
    ensures o == Fail(KeyNotAligned) <==> dataLen % 4 == 0 && dataAligned && keyLen == 16 && !keyAligned
  {
    if dataLen % 4 != 0 then Fail(DataNotMultipleOf32Bits)
    else if !dataAligned then Fail(DataNotAligned)
    else if keyLen != 16 then Fail(KeyNot128Bits(keyLen))
    else if !keyAligned then Fail(KeyNotAligned)
    else Pass
  }

  /** Reorders the four bytes of a word between the given byte order and little-endian
      order (least significant byte first); the reordering is its own inverse. */
  function Reorder(b: seq<Byte>, order: ByteOrder): (r: seq<Byte>)
    requires |b| == 4
    ensures |r| == 4
  {
    if order == LittleEndian then b else [b[3], b[2], b[1], b[0]]
  }

  /** The word stored in four bytes in the given byte order. */
  function WordOf(b: seq<Byte>, order: ByteOrder): S.Word
    requires |b| == 4
  {
    var le := Reorder(b, order);
    (le[0] as int + 256 * (le[1] as int + 256 * (le[2] as int + 256 * le[3] as int))) as S.Word
  }

  /** The bytes of a word from the least significant one up: repeated division by 256. */
  function LittleEndianOf(x: S.Word): (le: seq<Byte>)
    ensures |le| == 4
  {
    var x1 := x as int / 256;
    var x2 := x1 / 256;
    var x3 := x2 / 256;
    [(x as int % 256) as Byte, (x1 % 256) as Byte, (x2 % 256) as Byte, x3 as Byte]
  }

  /** The four bytes that store a word in the given byte order. */
  function BytesOfWord(x: S.Word, order: ByteOrder): (b: seq<Byte>)
    ensures |b| == 4
  {
    Reorder(LittleEndianOf(x), order)
  }

  /** Putting the low byte below a number and dividing by 256 gives both parts back. */
  lemma SplitByte(lo: int, hi: int)
    requires 0 <= lo < 256
    ensures (lo + 256 * hi) % 256 == lo && (lo + 256 * hi) / 256 == hi
  {
  }

  /** Reordering the bytes of a word twice gives them back. */
  lemma ReorderTwice(b: seq<Byte>, order: ByteOrder)
    requires |b| == 4
    ensures Reorder(Reorder(b, order), order) == b
  {
  }

  /** Storing a word and reading it back gives the word. */
  lemma WordOfBytesOfWord(x: S.Word, order: ByteOrder)
    ensures WordOf(BytesOfWord(x, order), order) == x
  {
    ReorderTwice(LittleEndianOf(x), order);
  }

  /** Reading a word from four bytes and storing it gives the bytes. */
  lemma BytesOfWordOf(b: seq<Byte>, order: ByteOrder)
    requires |b| == 4
    ensures BytesOfWord(WordOf(b, order), order) == b
  {
    var le := Reorder(b, order);
    var x := WordOf(b, order) as int;
    var x1 := le[1] as int + 256 * (le[2] as int + 256 * le[3] as int);
    var x2 := le[2] as int + 256 * le[3] as int;
    SplitByte(le[0] as int, x1);
    SplitByte(le[1] as int, x2);
    SplitByte(le[2] as int, le[3] as int);
    assert LittleEndianOf(x as S.Word) == le;
    ReorderTwice(b, order);
  }

  /** A buffer of 4n bytes read as n words (`from_raw_parts` over the same memory). */
  function WordsOf(b: seq<Byte>, order: ByteOrder): (w: seq<S.Word>)
    requires |b| % 4 == 0
    ensures |w| == |b| / 4
  {
    if |b| == 0 then [] else [WordOf(b[..4], order)] + WordsOf(b[4..], order)
  }

  /** n words stored as 4n bytes. */
  function BytesOf(w: seq<S.Word>, order: ByteOrder): (b: seq<Byte>)
    ensures |b| == 4 * |w|
  {
    if |w| == 0 then [] else BytesOfWord(w[0], order) + BytesOf(w[1..], order)
  }

  /** Reading a byte buffer as words and storing them back gives the buffer. */
  lemma {:induction false} BytesOfWordsOf(b: seq<Byte>, order: ByteOrder)
    requires |b| % 4 == 0
    ensures BytesOf(WordsOf(b, order), order) == b
    decreases |b|
  {
    if |b| > 0 {
      var w := WordsOf(b, order);
      assert w[1..] == WordsOf(b[4..], order);
      BytesOfWordsOf(b[4..], order);
      BytesOfWordOf(b[..4], order);
      assert b == b[..4] + b[4..];
    }
  }

  /** Storing words as bytes and reading them back gives the words. */
  lemma {:induction false} WordsOfBytesOf(w: seq<S.Word>, order: ByteOrder)
    ensures WordsOf(BytesOf(w, order), order) == w
  {
    if |w| > 0 {
      var b := BytesOf(w, order);
      assert b[..4] == BytesOfWord(w[0], order);
      assert b[4..] == BytesOf(w[1..], order);
      WordsOfBytesOf(w[1..], order);
      WordOfBytesOfWord(w[0], order);
      assert w == [w[0]] + w[1..];
    }
  }

  /** The 16 key bytes read as the four key words. */
  function KeyWords(key: seq<Byte>, order: ByteOrder): S.Key
    requires |key| == 16
  {
    WordsOf(key, order)
  }

  /** What `encrypt` leaves in a data buffer that passed the guard: the encrypted word view,
      stored back. The key is the four words of the 16 key bytes. */
  function EncryptBytes(data: seq<Byte>, key: seq<Byte>, order: ByteOrder): (c: seq<Byte>)
    requires |data| % 4 == 0 && |data| >= 8 && |key| == 16
    ensures |c| == |data|
  {
    BytesOf(S.Encrypt(WordsOf(data, order), KeyWords(key, order)), order)
  }

  /** What `decrypt` leaves in a data buffer that passed the guard. */
  function DecryptBytes(data: seq<Byte>, key: seq<Byte>, order: ByteOrder): (p: seq<Byte>)
    requires |data| % 4 == 0 && |data| >= 8 && |key| == 16
    ensures |p| == |data|
  {
    BytesOf(S.Decrypt(WordsOf(data, order), KeyWords(key, order)), order)
  }

  /** Byte-level decryption undoes byte-level encryption under the same key, and
      conversely. */
  lemma BytesRoundTrip(data: seq<Byte>, key: seq<Byte>, order: ByteOrder)
    requires |data| % 4 == 0 && |data| >= 8 && |key| == 16
    ensures DecryptBytes(EncryptBytes(data, key, order), key, order) == data
    ensures EncryptBytes(DecryptBytes(data, key, order), key, order) == data
  {
    var k := KeyWords(key, order);
    var w := WordsOf(data, order);
    WordsOfBytesOf(S.Encrypt(w, k), order);
    S.DecryptEncrypt(w, k);
    WordsOfBytesOf(S.Decrypt(w, k), order);
    S.EncryptDecrypt(w, k);
    BytesOfWordsOf(data, order);
  }

  /** `encrypt`: the guard, then the in-place encryption of the word view of `data`. A
      buffer that fails the guard is left as it was. */
  method Encrypt(data: array<Byte>, key: seq<Byte>, dataAligned: bool, keyAligned: bool, order: ByteOrder)
    returns (o: Outcome)
    requires CheckSizesAndAlignment(data.Length, dataAligned, |key|, keyAligned).Pass? ==> data.Length >= 8
    modifies data
    ensures o == CheckSizesAndAlignment(data.Length, dataAligned, |key|, keyAligned)
    ensures o.Fail? ==> data[..] == old(data[..])
    ensures o.Pass? ==> data[..] == EncryptBytes(old(data[..]), key, order)
  {
    o := CheckSizesAndAlignment(data.Length, dataAligned, |key|, keyAligned);
    if o.Fail? {
      return;
    }
    var view := WordsOf(data[..], order);
    var words := new S.Word[|view|](i requires 0 <= i < |view| => view[i]);
    assert words[..] == view;
    XxteaWords.EncryptWords(words, KeyWords(key, order));
    var stored := BytesOf(words[..], order);
    forall i | 0 <= i < data.Length {
      data[i] := stored[i];
    }
    assert data[..] == stored;
  }

  /** `decrypt`: the guard, then the in-place decryption of the word view of `data`. A
      buffer that fails the guard is left as it was. */
  method Decrypt(data: array<Byte>, key: seq<Byte>, dataAligned: bool, keyAligned: bool, order: ByteOrder)
    returns (o: Outcome)
    requires CheckSizesAndAlignment(data.Length, dataAligned, |key|, keyAligned).Pass? ==> data.Length >= 8
    modifies data
    ensures o == CheckSizesAndAlignment(data.Length, dataAligned, |key|, keyAligned)
    ensures o.Fail? ==> data[..] == old(data[..])
    ensures o.Pass? ==> data[..] == DecryptBytes(old(data[..]), key, order)
  {
    o := CheckSizesAndAlignment(data.Length, dataAligned, |key|, keyAligned);
    if o.Fail? {
      return;
    }
    var view := WordsOf(data[..], order);
    var words := new S.Word[|view|](i requires 0 <= i < |view| => view[i]);
    assert words[..] == view;
    var _ := XxteaWords.DecryptWords(words, KeyWords(key, order));
    var stored := BytesOf(words[..], order);
    forall i | 0 <= i < data.Length {
      data[i] := stored[i];
    }
    assert data[..] == stored;
  }

  /** The round trip the test suite checks: a copy of the plaintext is encrypted in place,
      a copy of the ciphertext is decrypted in place, and the result equals the plaintext.
      Both buffers start on a 4-byte boundary. */
  method RoundTrip(plaintext: seq<Byte>, key: seq<Byte>, order: ByteOrder) returns (result: seq<Byte>)
    requires |plaintext| % 4 == 0 && |plaintext| >= 8 && |key| == 16
    ensures result == plaintext
  {
    var data := new Byte[|plaintext|](i requires 0 <= i < |plaintext| => plaintext[i]);
    assert data[..] == plaintext;
    var o := Encrypt(data, key, true, true, order);
    var ciphertext := data[..];
    var copy := new Byte[|ciphertext|](i requires 0 <= i < |ciphertext| => ciphertext[i]);
    assert copy[..] == ciphertext;
    o := Decrypt(copy, key, true, true, order);
    result := copy[..];
    BytesRoundTrip(plaintext, key, order);
  }
}
